/** The list computations behind Save and Delete: appending a new record,
    replacing records by id when an edit is saved, and filtering a record out. */
module Store {
  import opened Report

  /** The form data as saved: its own fields, with the given id and timestamp. */
  function Stamp(form: ActivityReport, id: string, now: int): (r: ActivityReport)
    ensures r.id == id && r.timestamp == now
    ensures r.(id := form.id, timestamp := form.timestamp) == form
  {
    form.(id := id, timestamp := now)
  }

  /** `currentEditId || Date.now().toString()`: the id being edited, unless there
      is none or it is the empty string, in which case the fresh id. */
  function EffectiveId(currentEditId: Option<string>, freshId: string): (id: string)
    ensures currentEditId.Some? && currentEditId.value != "" ==> id == currentEditId.value
    ensures currentEditId == None || currentEditId == Some("") ==> id == freshId
    ensures freshId != "" ==> id != ""
  {
    if currentEditId.Some? && currentEditId.value != "" then currentEditId.value else freshId
  }

  /** Whether a stored record is the one being edited (`report.id === currentEditId`). */
  predicate IsEdited(r: ActivityReport, currentEditId: Option<string>)
  {
    currentEditId == Some(r.id)
  }

  /** The `map` of an update save: every record being edited becomes `rec`. */
  function ReplaceEdited(s: seq<ActivityReport>, currentEditId: Option<string>, rec: ActivityReport): (r: seq<ActivityReport>)
    ensures |r| == |s|
    ensures forall i :: 0 <= i < |s| ==> r[i] == if IsEdited(s[i], currentEditId) then rec else s[i]
  {
    if s == [] then []
    else [if IsEdited(s[0], currentEditId) then rec else s[0]] + ReplaceEdited(s[1..], currentEditId, rec)
  }

  /** The saved-report list after Save. */
  function SaveList(s: seq<ActivityReport>, isEditing: bool, currentEditId: Option<string>,
                    form: ActivityReport, freshId: string, now: int): (r: seq<ActivityReport>)
    ensures isEditing ==> |r| == |s|
    ensures !isEditing ==> |r| == |s| + 1 && r[..|s|] == s
    ensures forall i :: 0 <= i < |s| && !(isEditing && IsEdited(s[i], currentEditId)) ==> r[i] == s[i]
  {
    var rec := Stamp(form, EffectiveId(currentEditId, freshId), now);
    if isEditing then ReplaceEdited(s, currentEditId, rec) else s + [rec]
  }

  /** The `filter` of Delete: the records whose id differs from `id`, in order. */
  function DeleteById(s: seq<ActivityReport>, id: string): (r: seq<ActivityReport>)
    ensures |r| <= |s|
  {
    if s == [] then []
    else (if s[0].id != id then [s[0]] else []) + DeleteById(s[1..], id)
  }

  /** Saving a new report (nothing being edited) appends exactly one record, the
      form stamped with the fresh id and the time; earlier records keep their
      places; ids stay distinct when the fresh id is not in use. */
  lemma SaveNewAppends(s: seq<ActivityReport>, form: ActivityReport, freshId: string, now: int)
    ensures |SaveList(s, false, None, form, freshId, now)| == |s| + 1
    ensures SaveList(s, false, None, form, freshId, now)[..|s|] == s
    ensures SaveList(s, false, None, form, freshId, now)[|s|] == form.(id := freshId, timestamp := now)
    ensures UniqueIds(s) && !HasId(s, freshId) ==> UniqueIds(SaveList(s, false, None, form, freshId, now))
  {
    var r := SaveList(s, false, None, form, freshId, now);
    assert r == s + [Stamp(form, freshId, now)];
    if UniqueIds(s) && !HasId(s, freshId) {
      forall i, j | 0 <= i < j < |r| ensures r[i].id != r[j].id {
        if j == |s| {
          assert r[i] == s[i];
        } else {
          assert r[i] == s[i] && r[j] == s[j];
        }
      }
    }
  }

  /** Saving while editing keeps the length; each record carrying the edited id
      becomes the form stamped with the reused id and the new time; the others
      are untouched; when no record carries that id, nothing changes. */
  lemma SaveEditReplaces(s: seq<ActivityReport>, editId: string, form: ActivityReport, freshId: string, now: int)
    requires editId != ""
    ensures |SaveList(s, true, Some(editId), form, freshId, now)| == |s|
    ensures forall i :: 0 <= i < |s| && s[i].id == editId ==>
      SaveList(s, true, Some(editId), form, freshId, now)[i] == form.(id := editId, timestamp := now)
    ensures forall i :: 0 <= i < |s| && s[i].id != editId ==>
      SaveList(s, true, Some(editId), form, freshId, now)[i] == s[i]
    ensures !HasId(s, editId) ==> SaveList(s, true, Some(editId), form, freshId, now) == s
    ensures forall i :: 0 <= i < |s| ==> SaveList(s, true, Some(editId), form, freshId, now)[i].id == s[i].id
  {
  }

  /** The reused id falls back to the fresh one when the edited record's id is
      empty: every record with an empty id then takes the fresh id. */
  lemma SaveEditOfEmptyId(s: seq<ActivityReport>, form: ActivityReport, freshId: string, now: int)
    ensures forall i :: 0 <= i < |s| && s[i].id == "" ==>
      SaveList(s, true, Some(""), form, freshId, now)[i] == form.(id := freshId, timestamp := now)
  {
  }

  /** An update save never changes which ids are in use, so distinct ids stay distinct. */
  lemma SaveEditKeepsUniqueIds(s: seq<ActivityReport>, editId: string, form: ActivityReport, freshId: string, now: int)
    requires editId != "" && UniqueIds(s)
    ensures UniqueIds(SaveList(s, true, Some(editId), form, freshId, now))
  {
    SaveEditReplaces(s, editId, form, freshId, now);
  }

  /** Loading a stored report for editing and saving it replaces that one
      record in place, when ids are distinct. */
  lemma EditThenSaveInPlace(s: seq<ActivityReport>, k: nat, form: ActivityReport, freshId: string, now: int)
    requires k < |s| && UniqueIds(s) && s[k].id != ""
    ensures SaveList(s, true, Some(s[k].id), form, freshId, now) == s[k := form.(id := s[k].id, timestamp := now)]
  {
    var r := SaveList(s, true, Some(s[k].id), form, freshId, now);
    SaveEditReplaces(s, s[k].id, form, freshId, now);
    forall i | 0 <= i < |s| ensures r[i] == s[k := form.(id := s[k].id, timestamp := now)][i] {
      if i != k {
        assert s[i].id != s[k].id;
      }
    }
  }

  /** Delete keeps exactly the records with a different id. */
  lemma {:induction false} DeleteMembers(s: seq<ActivityReport>, id: string)
    ensures forall x :: x in DeleteById(s, id) <==> x in s && x.id != id
  {
    if s != [] {
      DeleteMembers(s[1..], id);
      assert s == [s[0]] + s[1..];
    }
  }

  /** Delete works piecewise, so it keeps the relative order of what remains. */
  lemma {:induction false} DeleteAppend(a: seq<ActivityReport>, b: seq<ActivityReport>, id: string)
    ensures DeleteById(a + b, id) == DeleteById(a, id) + DeleteById(b, id)
  {
    if a == [] {
      assert a + b == b;
    } else {
      assert (a + b)[1..] == a[1..] + b;
      DeleteAppend(a[1..], b, id);
    }
  }

  /** Deleting an id no record carries leaves the list as it was. */
  lemma {:induction false} DeleteAbsent(s: seq<ActivityReport>, id: string)
    requires !HasId(s, id)
    ensures DeleteById(s, id) == s
  {
    if s != [] {
      assert s[0].id != id;
      DeleteAbsent(s[1..], id);
    }
  }

  lemma OthersLackId(s: seq<ActivityReport>, k: nat)
    requires k < |s| && UniqueIds(s)
    ensures !HasId(s[..k], s[k].id) && !HasId(s[k + 1..], s[k].id)
  {
    var before, after := s[..k], s[k + 1..];
    forall i | 0 <= i < |before| ensures before[i].id != s[k].id {
      assert before[i] == s[i];
    }
    forall i | 0 <= i < |after| ensures after[i].id != s[k].id {
      assert after[i] == s[k + 1 + i];
    }
  }

  lemma DeleteOwn(x: ActivityReport)
    ensures DeleteById([x], x.id) == []
  {
    assert [x][1..] == [];
  }

  lemma DeleteSplit(before: seq<ActivityReport>, x: ActivityReport, after: seq<ActivityReport>)
    requires !HasId(before, x.id) && !HasId(after, x.id)
    ensures DeleteById(before + [x] + after, x.id) == before + after
  {
    var id := x.id;
    calc {
      DeleteById(before + [x] + after, id);
      { DeleteAppend(before + [x], after, id); }
      DeleteById(before + [x], id) + DeleteById(after, id);
      { DeleteAppend(before, [x], id); }
      DeleteById(before, id) + DeleteById([x], id) + DeleteById(after, id);
      { DeleteAbsent(before, id); DeleteAbsent(after, id); DeleteOwn(x); }
      before + [] + after;
      { assert before + [] == before; }
      before + after;
    }
  }

  lemma SplitAt(s: seq<ActivityReport>, k: nat)
    requires k < |s|
    ensures s == s[..k] + [s[k]] + s[k + 1..]
  {
  }

  lemma DeleteSingle(s: seq<ActivityReport>, k: nat)
    requires k < |s| && !HasId(s[..k], s[k].id) && !HasId(s[k + 1..], s[k].id)
    ensures DeleteById(s, s[k].id) == s[..k] + s[k + 1..]
  {
    SplitAt(s, k);
    DeleteSplit(s[..k], s[k], s[k + 1..]);
  }

  /** With distinct ids, deleting the id of record `k` removes just that record. */
  lemma DeleteUnique(s: seq<ActivityReport>, k: nat)
    requires k < |s| && UniqueIds(s)
    ensures DeleteById(s, s[k].id) == s[..k] + s[k + 1..]
  {
    OthersLackId(s, k);
    DeleteSingle(s, k);
  }

  lemma UniqueTail(s: seq<ActivityReport>)
    requires s != [] && UniqueIds(s)
    ensures UniqueIds(s[1..]) && forall x :: x in s[1..] ==> x.id != s[0].id
  {
    var t := s[1..];
    forall i, j | 0 <= i < j < |t| ensures t[i].id != t[j].id {
      assert t[i] == s[i + 1] && t[j] == s[j + 1];
    }
    forall x | x in t ensures x.id != s[0].id {
      var j :| 0 <= j < |t| && t[j] == x;
      assert s[j + 1] == x;
    }
  }

  lemma UniqueCons(x: ActivityReport, d: seq<ActivityReport>)
    requires UniqueIds(d) && forall y :: y in d ==> y.id != x.id
    ensures UniqueIds([x] + d)
  {
    var r := [x] + d;
    forall i, j | 0 <= i < j < |r| ensures r[i].id != r[j].id {
      assert r[j] == d[j - 1] && d[j - 1] in d;
      if i > 0 {
        assert r[i] == d[i - 1];
      }
    }
  }

  /** Delete keeps ids distinct. */
  lemma {:induction false} DeleteKeepsUniqueIds(s: seq<ActivityReport>, id: string)
    requires UniqueIds(s)
    ensures UniqueIds(DeleteById(s, id))
  {
    if s != [] {
      var t := s[1..];
      UniqueTail(s);
      DeleteKeepsUniqueIds(t, id);
      DeleteMembers(t, id);
      if s[0].id != id {
        UniqueCons(s[0], DeleteById(t, id));
      }
    }
  }

  /** Save never introduces an empty id: the fresh id (a clock reading) is
      never empty, and neither is the id an update reuses. */
  lemma SaveKeepsNonEmptyIds(s: seq<ActivityReport>, isEditing: bool, currentEditId: Option<string>,
                             form: ActivityReport, freshId: string, now: int)
    requires freshId != "" && NonEmptyIds(s)
    ensures NonEmptyIds(SaveList(s, isEditing, currentEditId, form, freshId, now))
  {
    var r := SaveList(s, isEditing, currentEditId, form, freshId, now);
    forall i | 0 <= i < |r| ensures r[i].id != "" {
      if i < |s| && !(isEditing && IsEdited(s[i], currentEditId)) {
        assert r[i] == s[i];
      }
    }
  }

  /** Delete never introduces an empty id. */
  lemma DeleteKeepsNonEmptyIds(s: seq<ActivityReport>, id: string)
    requires NonEmptyIds(s)
    ensures NonEmptyIds(DeleteById(s, id))
  {
    var r := DeleteById(s, id);
    DeleteMembers(s, id);
    forall i | 0 <= i < |r| ensures r[i].id != "" {
      assert r[i] in r;
    }
  }

  /** An update save of a record that has meanwhile been deleted finds nothing
      to replace: the list stays as Delete left it. */
  lemma UpdateAfterDelete(s: seq<ActivityReport>, id: string, form: ActivityReport, freshId: string, now: int)
    ensures SaveList(DeleteById(s, id), true, Some(id), form, freshId, now) == DeleteById(s, id)
  {
    var d := DeleteById(s, id);
    var r := SaveList(d, true, Some(id), form, freshId, now);
    DeleteMembers(s, id);
    forall i | 0 <= i < |d| ensures r[i] == d[i] {
      assert d[i] in d;
    }
  }

  /** Saving a new report under a fresh id and then deleting that id gives back
      the list as it was before. */
  lemma SaveNewThenDelete(s: seq<ActivityReport>, form: ActivityReport, freshId: string, now: int)
    requires !HasId(s, freshId)
    ensures DeleteById(SaveList(s, false, None, form, freshId, now), freshId) == s
  {
    var rec := Stamp(form, freshId, now);
    assert SaveList(s, false, None, form, freshId, now) == s + [rec];
    DeleteAppend(s, [rec], freshId);
    DeleteAbsent(s, freshId);
  }
}
