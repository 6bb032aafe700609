/** The documentation checklist: its fourteen canonical labels, the checkbox
    toggle of the edit view and the numbered list of the preview. */
module Checklist {

  /** The canonical checklist, in display order. */
  const Items: seq<string> := [
    "Approval letter",
    "Guest speaker invitation",
    "Notice",
    "Flyer",
    "Pre-Registration list",
    "Budget sanction",
    "Signature Attendance of Participants: Counter-signature by Guest",
    "High-quality, geotagged photos with accurate event tagging",
    "Some small reels of essential parts of the program",
    "Feedback & Feedback analysis",
    "Certificate of Appreciation",
    "Event Report",
    "Annual Report mentioning activity",
    "Publicity"
  ]

  /** A key missing from the documentation map reads as unchecked. */
  predicate IsChecked(doc: map<string, bool>, item: string)
  {
    item in doc && doc[item]
  }

  /** The checkbox of `item` was set to `checked`: the map is updated at that key. */
  function Toggle(doc: map<string, bool>, item: string, checked: bool): (r: map<string, bool>)
    ensures r.Keys == doc.Keys + {item}
    ensures IsChecked(r, item) == checked
    ensures forall k :: k != item ==> IsChecked(r, k) == IsChecked(doc, k)
    ensures forall k :: k in doc && k != item ==> r[k] == doc[k]
  {
    doc[item := checked]
  }

  /** The items of `items` that are checked, in their order (the preview's `filter`). */
  function Checked(items: seq<string>, doc: map<string, bool>): (r: seq<string>)
    ensures |r| <= |items|
  {
    if items == [] then []
    else if IsChecked(doc, items[0]) then [items[0]] + Checked(items[1..], doc)
    else Checked(items[1..], doc)
  }

  /** The filter keeps exactly the checked items. */
  lemma {:induction false} CheckedMembers(items: seq<string>, doc: map<string, bool>)
    ensures forall x :: x in Checked(items, doc) <==> x in items && IsChecked(doc, x)
  {
    if items != [] {
      CheckedMembers(items[1..], doc);
      assert items == [items[0]] + items[1..];
    }
  }

  function CheckedItems(doc: map<string, bool>): seq<string>
  {
    Checked(Items, doc)
  }

  /** JavaScript's `indexOf`: the first position of `x` in `s`, or -1. */
  function IndexOf(s: seq<string>, x: string): (r: int)
    ensures -1 <= r < |s|
    ensures r == -1 <==> x !in s
    ensures 0 <= r ==> s[r] == x
  {
    if s == [] then -1
    else if s[0] == x then 0
    else
      var k := IndexOf(s[1..], x);
      if k == -1 then -1 else k + 1
  }

  /** `indexOf` finds the first occurrence. */
  lemma {:induction false} IndexOfFirst(s: seq<string>, x: string)
    ensures forall j :: 0 <= j < IndexOf(s, x) ==> s[j] != x
  {
    if s != [] && s[0] != x {
      IndexOfFirst(s[1..], x);
    }
  }

  predicate Distinct(s: seq<string>)
  {
    forall i, j :: 0 <= i < j < |s| ==> s[i] != s[j]
  }

  /** One line of the preview list: its number and its text. */
  datatype Row = Row(number: int, text: string)

  /** The preview of `items`: an unchecked item renders nothing, a checked one
      renders its position in `checked` plus one, followed by its text. */
  function Rows(items: seq<string>, doc: map<string, bool>, checked: seq<string>): seq<Row>
  {
    if items == [] then []
    else
      (if IsChecked(doc, items[0]) then [Row(IndexOf(checked, items[0]) + 1, items[0])] else [])
      + Rows(items[1..], doc, checked)
  }

  /** The documentation section as the preview renders it. */
  function PreviewRows(doc: map<string, bool>): seq<Row>
  {
    Rows(Items, doc, CheckedItems(doc))
  }

  /** The rows numbered `start`, `start + 1`, ... over `labels`. */
  predicate NumberedFrom(rows: seq<Row>, labels: seq<string>, start: int)
  {
    |rows| == |labels| && forall i :: 0 <= i < |rows| ==> rows[i] == Row(start + i, labels[i])
  }

  lemma ItemsDistinct()
    ensures Distinct(Items)
  {
  }

  lemma {:induction false} IndexOfAfterPrefix(pre: seq<string>, x: string, rest: seq<string>)
    requires x !in pre
    ensures IndexOf(pre + [x] + rest, x) == |pre|
  {
    if pre != [] {
      assert (pre + [x] + rest)[1..] == pre[1..] + [x] + rest;
      IndexOfAfterPrefix(pre[1..], x, rest);
    }
  }

  lemma DistinctTail(items: seq<string>)
    requires items != [] && Distinct(items)
    ensures Distinct(items[1..]) && items[0] !in items[1..]
  {
    var tail := items[1..];
    forall i, j | 0 <= i < j < |tail| ensures tail[i] != tail[j] {
      assert items[i + 1] == tail[i] && items[j + 1] == tail[j];
    }
  }

  /** Numbering of the checked items of a distinct list, when every item already
      passed sits in `pre`. */
  lemma {:induction false} RowsNumbered(items: seq<string>, doc: map<string, bool>, pre: seq<string>)
    requires Distinct(items)
    requires forall x :: x in items ==> x !in pre
    ensures NumberedFrom(Rows(items, doc, pre + Checked(items, doc)), Checked(items, doc), |pre| + 1)
  {
    if items != [] {
      var x := items[0];
      var tail := items[1..];
      DistinctTail(items);
      if IsChecked(doc, x) {
        var pre' := pre + [x];
        assert pre + Checked(items, doc) == pre' + Checked(tail, doc);
        forall y | y in tail ensures y !in pre' {
          assert y in items;
        }
        IndexOfAfterPrefix(pre, x, Checked(tail, doc));
        RowsNumbered(tail, doc, pre');
      } else {
        forall y | y in tail ensures y !in pre {
          assert y in items;
        }
        RowsNumbered(tail, doc, pre);
      }
    }
  }

  /** The preview numbers exactly the checked items 1, 2, ..., k, in the
      order of the canonical checklist; unchecked items produce no row. */
  lemma PreviewNumbering(doc: map<string, bool>)
    ensures |PreviewRows(doc)| == |CheckedItems(doc)|
    ensures forall i :: 0 <= i < |PreviewRows(doc)| ==>
      PreviewRows(doc)[i] == Row(i + 1, CheckedItems(doc)[i])
  {
    ItemsDistinct();
    RowsNumbered(Items, doc, []);
    assert [] + CheckedItems(doc) == CheckedItems(doc);
  }

  /** Every row of the preview is a checked item of the canonical list. */
  lemma PreviewShowsOnlyChecked(doc: map<string, bool>)
    ensures forall r :: r in PreviewRows(doc) ==> r.text in Items && IsChecked(doc, r.text)
  {
    var c, rows := CheckedItems(doc), PreviewRows(doc);
    PreviewNumbering(doc);
    CheckedMembers(Items, doc);
    forall r | r in rows ensures r.text in Items && IsChecked(doc, r.text) {
      var i :| 0 <= i < |rows| && rows[i] == r;
      assert r.text == c[i] && c[i] in c;
    }
  }

  lemma IndexOfInTail(items: seq<string>, y: string)
    requires items != [] && y in items[1..] && y != items[0]
    ensures IndexOf(items, y) == IndexOf(items[1..], y) + 1
  {
  }

  /** `c` lists items in the order they have in `items`. */
  predicate FollowsOrder(c: seq<string>, items: seq<string>)
  {
    forall i, j :: 0 <= i < j < |c| ==> IndexOf(items, c[i]) < IndexOf(items, c[j])
  }

  lemma ShiftOrder(items: seq<string>, c: seq<string>)
    requires items != [] && items[0] !in items[1..]
    requires forall y :: y in c ==> y in items[1..]
    requires FollowsOrder(c, items[1..])
    ensures FollowsOrder(c, items)
  {
    forall y | y in c ensures IndexOf(items, y) == IndexOf(items[1..], y) + 1 {
      IndexOfInTail(items, y);
    }
  }

  lemma HeadFirst(items: seq<string>, c: seq<string>)
    requires items != [] && forall y :: y in c ==> y in items[1..] && y != items[0]
    requires FollowsOrder(c, items)
    ensures FollowsOrder([items[0]] + c, items)
  {
    var r := [items[0]] + c;
    assert IndexOf(items, r[0]) == 0;
    forall i, j | 0 <= i < j < |r| ensures IndexOf(items, r[i]) < IndexOf(items, r[j]) {
      assert r[j] == c[j - 1] && c[j - 1] in c;
      assert IndexOf(items, r[j]) > 0;
      if i > 0 {
        assert r[i] == c[i - 1];
      }
    }
  }

  /** The checked items keep the relative order they have in `items`. */
  lemma {:induction false} CheckedKeepsOrder(items: seq<string>, doc: map<string, bool>)
    requires Distinct(items)
    ensures FollowsOrder(Checked(items, doc), items)
  {
    if items != [] {
      var tail := items[1..];
      DistinctTail(items);
      CheckedKeepsOrder(tail, doc);
      CheckedMembers(tail, doc);
      ShiftOrder(items, Checked(tail, doc));
      if IsChecked(doc, items[0]) {
        HeadFirst(items, Checked(tail, doc));
      }
    }
  }

  /** In the preview, the checked items follow the canonical checklist order. */
  lemma PreviewInCanonicalOrder(doc: map<string, bool>)
    ensures forall i, j :: 0 <= i < j < |CheckedItems(doc)| ==>
      IndexOf(Items, CheckedItems(doc)[i]) < IndexOf(Items, CheckedItems(doc)[j])
  {
    ItemsDistinct();
    CheckedKeepsOrder(Items, doc);
  }

  lemma {:induction false} CheckedIgnoresOtherKeys(items: seq<string>, doc: map<string, bool>, key: string, b: bool)
    requires key !in items
    ensures Checked(items, Toggle(doc, key, b)) == Checked(items, doc)
  {
    if items != [] {
      CheckedIgnoresOtherKeys(items[1..], doc, key, b);
    }
  }

  /** Setting a key outside the canonical checklist never changes the preview. */
  lemma UnknownKeyNotRendered(doc: map<string, bool>, key: string, b: bool)
    requires key !in Items
    ensures CheckedItems(Toggle(doc, key, b)) == CheckedItems(doc)
    ensures PreviewRows(Toggle(doc, key, b)) == PreviewRows(doc)
  {
    CheckedIgnoresOtherKeys(Items, doc, key, b);
    PreviewNumbering(doc);
    PreviewNumbering(Toggle(doc, key, b));
  }

  /** One step of the checklist filter. */
  lemma CheckedStep(items: seq<string>, doc: map<string, bool>)
    requires items != []
    ensures Checked(items, doc) ==
      (if IsChecked(doc, items[0]) then [items[0]] else []) + Checked(items[1..], doc)
  {
  }

  lemma {:induction false} NoneChecked(items: seq<string>, doc: map<string, bool>)
    requires forall k :: k in doc ==> !doc[k]
    ensures Checked(items, doc) == []
  {
    if items != [] {
      NoneChecked(items[1..], doc);
    }
  }

  /** With nothing ticked, the preview's documentation section is empty. */
  lemma NothingTickedNoRows(doc: map<string, bool>)
    requires forall k :: k in doc ==> !doc[k]
    ensures PreviewRows(doc) == []
  {
    NoneChecked(Items, doc);
    PreviewNumbering(doc);
  }

  /** A documentation map with no keys, as on a blank form, renders no rows. */
  lemma NoDocumentationNoRows(doc: map<string, bool>)
    requires |doc| == 0
    ensures PreviewRows(doc) == []
  {
    assert forall k :: k !in doc;
    NothingTickedNoRows(doc);
  }

  /** Exactly Notice, Flyer and Publicity are ticked (the worked example below). */
  ghost predicate TicksNoticeFlyerPublicity(doc: map<string, bool>)
  {
    forall x :: IsChecked(doc, x) <==> x == "Notice" || x == "Flyer" || x == "Publicity"
  }

  lemma SampleSuffix11(doc: map<string, bool>)
    requires TicksNoticeFlyerPublicity(doc)
    ensures Checked(Items[11..], doc) == ["Publicity"]
  {
    CheckedStep(Items[13..], doc);
    assert Items[13..][1..] == Items[14..];
    CheckedStep(Items[12..], doc);
    assert Items[12..][1..] == Items[13..];
    CheckedStep(Items[11..], doc);
    assert Items[11..][1..] == Items[12..];
  }

  lemma SampleSuffix8(doc: map<string, bool>)
    requires TicksNoticeFlyerPublicity(doc)
    ensures Checked(Items[8..], doc) == ["Publicity"]
  {
    SampleSuffix11(doc);
    CheckedStep(Items[10..], doc);
    assert Items[10..][1..] == Items[11..];
    CheckedStep(Items[9..], doc);
    assert Items[9..][1..] == Items[10..];
    CheckedStep(Items[8..], doc);
    assert Items[8..][1..] == Items[9..];
  }

  lemma SampleSuffix5(doc: map<string, bool>)
    requires TicksNoticeFlyerPublicity(doc)
    ensures Checked(Items[5..], doc) == ["Publicity"]
  {
    SampleSuffix8(doc);
    CheckedStep(Items[7..], doc);
    assert Items[7..][1..] == Items[8..];
    CheckedStep(Items[6..], doc);
    assert Items[6..][1..] == Items[7..];
    CheckedStep(Items[5..], doc);
    assert Items[5..][1..] == Items[6..];
  }

  lemma SampleSuffix2(doc: map<string, bool>)
    requires TicksNoticeFlyerPublicity(doc)
    ensures Checked(Items[2..], doc) == ["Notice", "Flyer", "Publicity"]
  {
    SampleSuffix5(doc);
    CheckedStep(Items[4..], doc);
    assert Items[4..][1..] == Items[5..];
    CheckedStep(Items[3..], doc);
    assert Items[3..][1..] == Items[4..];
    CheckedStep(Items[2..], doc);
    assert Items[2..][1..] == Items[3..];
  }

  lemma SampleSuffix0(doc: map<string, bool>)
    requires TicksNoticeFlyerPublicity(doc)
    ensures CheckedItems(doc) == ["Notice", "Flyer", "Publicity"]
  {
    SampleSuffix2(doc);
    CheckedStep(Items[1..], doc);
    assert Items[1..][1..] == Items[2..];
    CheckedStep(Items[0..], doc);
    assert Items[0..][1..] == Items[1..];
    assert Items[0..] == Items;
  }

  /** With exactly Notice, Flyer and Publicity ticked, the preview reads
      1. Notice, 2. Flyer, 3. Publicity, and nothing else. */
  lemma NoticeFlyerPublicity(doc: map<string, bool>)
    requires TicksNoticeFlyerPublicity(doc)
    ensures PreviewRows(doc) == [Row(1, "Notice"), Row(2, "Flyer"), Row(3, "Publicity")]
  {
    SampleSuffix0(doc);
    PreviewNumbering(doc);
    var rows := PreviewRows(doc);
    assert |rows| == 3;
    assert rows[0] == Row(1, "Notice") && rows[1] == Row(2, "Flyer") && rows[2] == Row(3, "Publicity");
  }
}
