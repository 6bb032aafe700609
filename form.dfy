/** The component's state and the handlers that change it. */
module Form {
  import opened Report
  import Checklist
  import Display
  import Store

  /** The state of one mounted form: the record being filled in, the saved
      reports, whether a stored report is being edited (and which one), and
      whether the form is shown as a read-only preview. */
  class ActivityReportForm {
    var formData: ActivityReport
    var savedReports: seq<ActivityReport>
    var isEditing: bool
    var currentEditId: Option<string>
    var isPreviewMode: bool

    /** An edited id is recorded exactly while a stored report is being edited. */
    ghost predicate Valid()
      reads this
    {
      isEditing <==> currentEditId.Some?
    }

    /** The state a freshly mounted form starts in. */
    constructor ()
      ensures Valid()
      ensures formData == DefaultReport && savedReports == []
      ensures !isEditing && currentEditId == None && !isPreviewMode
    {
      formData := DefaultReport;
      savedReports := [];
      isEditing := false;
      currentEditId := None;
      isPreviewMode := false;
    }

    /** Adopts the stored list, if storage held one; `stored` is the already
        parsed storage entry, `None` when there is none. */
    method LoadSavedReports(stored: Option<seq<ActivityReport>>)
      requires Valid()
      modifies this
      ensures Valid()
      ensures savedReports == if stored.Some? then stored.value else old(savedReports)
      ensures formData == old(formData) && isEditing == old(isEditing)
      ensures currentEditId == old(currentEditId) && isPreviewMode == old(isPreviewMode)
    {
      if stored.Some? {
        savedReports := stored.value;
      }
    }

    /** Save / Update Report. `freshId` and `now` are the two readings of the
        clock; the id is the decimal form of a clock reading and so never
        empty. Returns the list written back to storage. */
    method SaveReport(freshId: string, now: int) returns (persisted: seq<ActivityReport>)
      requires Valid() && freshId != ""
      modifies this
      ensures Valid()
      ensures savedReports == Store.SaveList(old(savedReports), old(isEditing), old(currentEditId), old(formData), freshId, now)
      ensures persisted == savedReports
      ensures !old(isEditing) ==> savedReports == old(savedReports) + [old(formData).(id := freshId, timestamp := now)]
      ensures old(isEditing) ==> |savedReports| == |old(savedReports)|
      ensures NonEmptyIds(old(savedReports)) ==> NonEmptyIds(savedReports)
      ensures !isEditing && currentEditId == None
      ensures formData == old(formData) && isPreviewMode == old(isPreviewMode)
    {
      var rec := Store.Stamp(formData, Store.EffectiveId(currentEditId, freshId), now);
      var updated := if isEditing then Store.ReplaceEdited(savedReports, currentEditId, rec)
                     else savedReports + [rec];
      savedReports := updated;
      persisted := updated;
      isEditing := false;
      currentEditId := None;
      if NonEmptyIds(old(savedReports)) {
        Store.SaveKeepsNonEmptyIds(old(savedReports), old(isEditing), old(currentEditId), formData, freshId, now);
      }
    }

    /** Edit: loads a stored report into the form and marks it as being edited. */
    method EditReport(report: ActivityReport)
      requires Valid()
      modifies this
      ensures Valid()
      ensures formData == report && isEditing && currentEditId == Some(report.id)
      ensures savedReports == old(savedReports) && isPreviewMode == old(isPreviewMode)
    {
      formData := report;
      isEditing := true;
      currentEditId := Some(report.id);
    }

    /** Delete: drops every saved report with the given id. Returns the list
        written back to storage. */
    method DeleteReport(id: string) returns (persisted: seq<ActivityReport>)
      requires Valid()
      modifies this
      ensures Valid()
      ensures savedReports == Store.DeleteById(old(savedReports), id) && persisted == savedReports
      ensures NonEmptyIds(old(savedReports)) ==> NonEmptyIds(savedReports)
      ensures formData == old(formData) && isEditing == old(isEditing)
      ensures currentEditId == old(currentEditId) && isPreviewMode == old(isPreviewMode)
    {
      if NonEmptyIds(savedReports) {
        Store.DeleteKeepsNonEmptyIds(savedReports, id);
      }
      savedReports := Store.DeleteById(savedReports, id);
      persisted := savedReports;
    }

    /** Clear Form: the blank record, and no report being edited; the saved list
        and the preview flag are left alone. */
    method ClearForm()
      requires Valid()
      modifies this
      ensures Valid()
      ensures formData == DefaultReport && !isEditing && currentEditId == None
      ensures savedReports == old(savedReports) && isPreviewMode == old(isPreviewMode)
    {
      formData := DefaultReport;
      isEditing := false;
      currentEditId := None;
    }

    /** Export to PDF of `data` (the form itself or a saved report): switches the
        whole form to preview and returns the document's file name. */
    method ExportToPdf(data: ActivityReport) returns (fileName: string)
      requires Valid()
      modifies this
      ensures Valid()
      ensures isPreviewMode && fileName == Display.ExportFileName(data.year1, data.year2)
      ensures formData == old(formData) && savedReports == old(savedReports)
      ensures isEditing == old(isEditing) && currentEditId == old(currentEditId)
    {
      isPreviewMode := true;
      fileName := Display.ExportFileName(data.year1, data.year2);
    }

    /** The PDF has been written: back to the editable form. This is the only
        way out of preview. */
    method ExportSaved()
      requires Valid()
      modifies this
      ensures Valid()
      ensures !isPreviewMode
      ensures formData == old(formData) && savedReports == old(savedReports)
      ensures isEditing == old(isEditing) && currentEditId == old(currentEditId)
    {
      isPreviewMode := false;
    }

    /** A checkbox of the documentation checklist was set to `checked`. */
    method ToggleDocumentation(item: string, checked: bool)
      requires Valid()
      modifies this
      ensures Valid()
      ensures formData == old(formData).(documentation := Checklist.Toggle(old(formData).documentation, item, checked))
      ensures Checklist.IsChecked(formData.documentation, item) == checked
      ensures forall k :: k != item ==>
        Checklist.IsChecked(formData.documentation, k) == Checklist.IsChecked(old(formData).documentation, k)
      ensures savedReports == old(savedReports) && isPreviewMode == old(isPreviewMode)
      ensures isEditing == old(isEditing) && currentEditId == old(currentEditId)
    {
      formData := formData.(documentation := Checklist.Toggle(formData.documentation, item, checked));
    }

    /** The amount field received `input`: digit-only input is taken, anything else ignored. */
    method EditAmount(input: string)
      requires Valid()
      modifies this
      ensures Valid()
      ensures formData == old(formData).(amount := Display.EditAmount(input, old(formData).amount))
      ensures !Display.AllDigits(input) ==> formData == old(formData)
      ensures savedReports == old(savedReports) && isPreviewMode == old(isPreviewMode)
      ensures isEditing == old(isEditing) && currentEditId == old(currentEditId)
    {
      if Display.AllDigits(input) {
        formData := formData.(amount := Display.DecimalValue(input));
      }
    }
  }

  /** Edit a stored report, then save: the record is updated where it stands,
      and the form leaves edit mode. */
  method EditThenSave(f: ActivityReportForm, k: nat, freshId: string, now: int)
    requires f.Valid() && freshId != "" && k < |f.savedReports| && UniqueIds(f.savedReports) && f.savedReports[k].id != ""
    modifies f
    ensures f.Valid() && !f.isEditing && f.currentEditId == None
    ensures f.savedReports == old(f.savedReports)[k := old(f.savedReports)[k].(timestamp := now)]
  {
    ghost var s := f.savedReports;
    f.EditReport(f.savedReports[k]);
    var _ := f.SaveReport(freshId, now);
    Store.EditThenSaveInPlace(s, k, s[k], freshId, now);
    assert s[k].(id := s[k].id, timestamp := now) == s[k].(timestamp := now);
  }

  /** Edit a stored report, delete it, then press Update: nothing is saved, the
      list stays as Delete left it, and the form leaves edit mode. */
  method EditDeleteThenUpdate(f: ActivityReportForm, report: ActivityReport, freshId: string, now: int)
    requires f.Valid() && freshId != ""
    modifies f
    ensures f.Valid() && !f.isEditing && f.currentEditId == None
    ensures f.savedReports == Store.DeleteById(old(f.savedReports), report.id)
  {
    ghost var s := f.savedReports;
    f.EditReport(report);
    var _ := f.DeleteReport(report.id);
    var _ := f.SaveReport(freshId, now);
    Store.UpdateAfterDelete(s, report.id, report, freshId, now);
  }
}
