# Activity report form — verified model

A Dafny model of the logic inside the `ActivityReportForm` React component. The component is a
single data-entry form for an academic activity report. It keeps a list of saved reports and
can switch between an editable view and a read-only preview that is exported to PDF.

The model has five modules:

- `Report` (report.dfy): the `ActivityReport` record (all 37 fields, in source order) and the
  blank record `DefaultReport`. The form starts from this record and Clear Form restores it.
  Three predicates over record lists: `HasId`, `UniqueIds` and `NonEmptyIds`.
- `Store` (store.dfy): the list computations that Save and Delete perform, as pure functions.
  - `SaveList` either appends the stamped form, or maps every record being edited to it.
  - `DeleteById` filters records out by id.
  - Lemmas give both operations their specification: append position, in-place replacement,
    order preservation, id uniqueness, and save-then-delete.
- `Checklist` (checklist.dfy): the documentation checklist.
  - The 14 canonical labels.
  - The checkbox update.
  - The preview's `filter` + `indexOf` numbering, proved to number the checked items 1..k in
    canonical order.
- `Display` (display.dfy): the preview's other rules.
  - The activity-type label and the time cell.
  - The digit-only amount filter, with `Number()` on digit strings.
  - The exported file name.
  - The signature blocks, where every date cell reads the teacher's date, as the source does.
- `Form` (form.dfy): class `ActivityReportForm` with the component's five state variables:
  `formData`, `savedReports`, `isEditing`, `currentEditId` and `isPreviewMode`. Each handler is a
  method with `modifies this`.
  - Its `ensures` give the whole new state in terms of the old state and the `Store`, `Checklist`
    and `Display` functions.
  - `Valid()` is the invariant that `isEditing` holds exactly when `currentEditId` is set. Every
    handler keeps it.

The clock (`Date.now()`) becomes two method parameters, `freshId` and `now`. The source reads the
clock twice, once for the id and once for the timestamp. The id is the decimal string of the
first reading, so `SaveReport` requires `freshId` to be non-empty. The model treats the two
values as otherwise unconstrained parameters.
Browser storage becomes a parameter that holds the already-parsed list.

Behaviour of the code worth noting:

- Delete removes every record with the given id, not only the first one.
- An update save replaces every record whose id equals the edited id.
- The new id is `currentEditId || Date.now()`. When the edited id is the empty string, the fresh
  id is used, and every record whose id is empty is replaced by a record that carries the fresh
  id (`Store.SaveEditOfEmptyId`).
- The preview is left only when the PDF library's `save()` promise resolves. If the export fails,
  the form stays in preview (`ExportSaved` is the only method that clears `isPreviewMode`).
- Reading storage has no error handling: `JSON.parse` on a malformed entry throws. The model does
  not claim that loading always succeeds.
- All four signature blocks of the preview show `teacherDate` (`Display.SignatureBlocks`). The
  head, coordinator and principal dates are entered but never shown.
- Editing a record, deleting it and then pressing Update saves nothing: the update finds no record
  with the edited id, the list stays as Delete left it, and edit mode is left
  (`Store.UpdateAfterDelete`, `Form.EditDeleteThenUpdate`). The "Report Updated" notification is
  still shown.
- A saved id is never empty when the fresh id is not: Save and Delete keep every id non-empty
  (`Store.SaveKeepsNonEmptyIds`, `Store.DeleteKeepsNonEmptyIds`).

## Model

| member | source | states |
|---|---|---|
| `Report.ActivityReport` | src/components/ActivityReportForm.tsx:8-47 | The saved record: the 37 fields of the interface, in its order. Its meaning is given by the members below. |
| `Report.DefaultReport` | src/components/ActivityReportForm.tsx:50-88 | The blank record the form starts from and Clear Form restores. `Display.BlankFormPreview` states what its preview shows. |
| `Store.Stamp` | src/components/ActivityReportForm.tsx:113-117 | The saved record carries the given id and timestamp. Every other field is the form's. |
| `Store.IsEdited` | src/components/ActivityReportForm.tsx:120 | `report.id === currentEditId`: the record's id equals the edited id, and no record matches when none is set. `ReplaceEdited` and `SaveEditReplaces` use it. |
| `Store.SaveList` | src/components/ActivityReportForm.tsx:112-121 | An update keeps the length, and a new save adds one record after an unchanged prefix. A record that is not being edited keeps its place and value. The lemmas below give the rest. |
| `Store.DeleteById` | src/components/ActivityReportForm.tsx:143 | The list never grows. `DeleteMembers`, `DeleteAppend`, `DeleteUnique` and `SaveNewThenDelete` give its meaning. |
| `Store.SaveNewAppends` | src/components/ActivityReportForm.tsx:111-121 | A save that is not an edit adds exactly one record, at the end. That record is the form with the fresh id and timestamp. Every earlier record keeps its place. Ids stay distinct if the fresh id was not already in use. |
| `Store.SaveEditReplaces` | src/components/ActivityReportForm.tsx:112-120 | An update save keeps the list length. Every record with the edited id becomes the form stamped with that id and the new time. All other records are untouched. If no record matches, the list is unchanged. No record's id changes. |
| `Store.SaveEditOfEmptyId` | src/components/ActivityReportForm.tsx:112-120 | When the edited id is empty, `||` falls back to the fresh id. Every record with an empty id then becomes the form under the fresh id. |
| `Store.SaveEditKeepsUniqueIds` | src/components/ActivityReportForm.tsx:119-120 | An update save under a non-empty id keeps ids distinct. |
| `Store.EditThenSaveInPlace` | src/components/ActivityReportForm.tsx:111-138 | If ids are distinct, loading record k for editing and then saving replaces position k only: `s[k := form stamped with s[k].id and now]`. |
| `Store.EffectiveId` | src/components/ActivityReportForm.tsx:112 | The saved id is the edited id when one is set and non-empty. Otherwise it is the fresh id. It is non-empty when the fresh id is. |
| `Store.ReplaceEdited` | src/components/ActivityReportForm.tsx:120 | Same length as the input. At every position, a matching record is replaced and any other is kept. |
| `Store.DeleteMembers` | src/components/ActivityReportForm.tsx:142-143 | After Delete, a record is in the list exactly when it was there before and its id differs from the deleted id. |
| `Store.DeleteAppend` | src/components/ActivityReportForm.tsx:143 | Delete works on each part of a list separately, so the remaining records keep their relative order. |
| `Store.DeleteAbsent` | src/components/ActivityReportForm.tsx:143 | Deleting an id that no record has leaves the list unchanged. |
| `Store.DeleteUnique` | src/components/ActivityReportForm.tsx:142-143 | If ids are distinct, deleting the id of record k gives `s[..k] + s[k+1..]`. |
| `Store.DeleteKeepsUniqueIds` | src/components/ActivityReportForm.tsx:143 | Delete keeps ids distinct. |
| `Store.SaveKeepsNonEmptyIds` | src/components/ActivityReportForm.tsx:111-121 | With a non-empty fresh id, Save keeps every id in the list non-empty. |
| `Store.DeleteKeepsNonEmptyIds` | src/components/ActivityReportForm.tsx:143 | Delete keeps every id in the list non-empty. |
| `Store.UpdateAfterDelete` | src/components/ActivityReportForm.tsx:119-121 | An update save of an id that Delete has just removed leaves the list as Delete left it. |
| `Store.SaveNewThenDelete` | src/components/ActivityReportForm.tsx:111-143 | Saving a new report under an unused id and then deleting that id restores the original list. |
| `Form.ActivityReportForm.Valid` | src/components/ActivityReportForm.tsx:131-138 | `isEditing` holds exactly when `currentEditId` is set. The handlers set both together (:131-132, :137-138, :193-194), and every method keeps it. |
| `Form.ActivityReportForm.constructor` | src/components/ActivityReportForm.tsx:50-97 | The initial state: the blank record, no saved reports, not editing, no edited id, not in preview. |
| `Form.ActivityReportForm.LoadSavedReports` | src/components/ActivityReportForm.tsx:104-109 | If storage holds a list, it replaces `savedReports`. Otherwise nothing changes. The rest of the state is unchanged. |
| `Form.ActivityReportForm.SaveReport` | src/components/ActivityReportForm.tsx:111-133 | `savedReports` becomes `SaveList` of the old state. The persisted list is that list. A non-edit save appends the stamped form, and an edit save keeps the length. Non-empty ids stay non-empty. It ends with `isEditing` false and `currentEditId` null. The form and the preview flag are unchanged. |
| `Form.ActivityReportForm.EditReport` | src/components/ActivityReportForm.tsx:135-140 | The form becomes the given report. `isEditing` becomes true and `currentEditId` becomes its id. The list and the preview flag are unchanged. |
| `Form.ActivityReportForm.DeleteReport` | src/components/ActivityReportForm.tsx:142-151 | `savedReports` becomes the filtered list, which is also what is persisted. Non-empty ids stay non-empty. Nothing else changes. |
| `Form.ActivityReportForm.ClearForm` | src/components/ActivityReportForm.tsx:153-195 | The form becomes the blank record and the edit marker is cleared. `savedReports` and `isPreviewMode` are untouched. |
| `Form.ActivityReportForm.ExportToPdf` | src/components/ActivityReportForm.tsx:197-207 | Preview mode is switched on. The file name is `Activity_Report_<year1>_<year2>.pdf` of the exported record. Nothing else changes. |
| `Form.ActivityReportForm.ExportSaved` | src/components/ActivityReportForm.tsx:226-229 | When the PDF is written, preview mode is switched off. Nothing else changes. |
| `Form.ActivityReportForm.ToggleDocumentation` | src/components/ActivityReportForm.tsx:691-700 | Only the toggled key of `documentation` changes, and it takes the checkbox state. All other fields and all other state are unchanged. |
| `Form.ActivityReportForm.EditAmount` | src/components/ActivityReportForm.tsx:541-549 | `amount` takes the filtered value of the input. A rejected input leaves the whole state unchanged. |
| `Form.EditThenSave` | src/components/ActivityReportForm.tsx:111-140 | Edit followed by Save, with distinct ids and a non-empty id on record k: only record k changes, and only its timestamp. Edit mode is left afterwards. |
| `Form.EditDeleteThenUpdate` | src/components/ActivityReportForm.tsx:119-143 | Edit, then Delete of the same record, then Update: the list is what Delete left, and edit mode is left. |
| `Checklist.Items` | src/components/ActivityReportForm.tsx:637-651 | The 14 checklist labels, in the order the form lists them and the preview numbers them. `ItemsDistinct` and the preview lemmas state what is used of them. |
| `Checklist.IsChecked` | src/components/ActivityReportForm.tsx:653 | `documentation[item]` or else false: an item is ticked exactly when its key is present and true. `Toggle` and `CheckedMembers` state it. |
| `Checklist.CheckedItems` | src/components/ActivityReportForm.tsx:657-672 | The `checkedItems` filter of the preview over the 14 labels. `CheckedMembers`, `PreviewInCanonicalOrder` and `UnknownKeyNotRendered` give its meaning. |
| `Checklist.Toggle` | src/components/ActivityReportForm.tsx:694-700 | The toggled item reads as the new checkbox state. Every other key reads as before. The key set gains only that item. |
| `Checklist.Checked` | src/components/ActivityReportForm.tsx:657-672 | The `filter` over the canonical list: never longer than the list. `CheckedMembers` and `CheckedKeepsOrder` give its meaning. |
| `Checklist.CheckedMembers` | src/components/ActivityReportForm.tsx:657-672 | The filter keeps exactly the listed items that are checked. A missing key counts as unchecked. |
| `Checklist.IndexOf` | src/components/ActivityReportForm.tsx:675 | JavaScript `indexOf`: a position holding the item, or -1 exactly when the item is absent. |
| `Checklist.IndexOfFirst` | src/components/ActivityReportForm.tsx:675 | No earlier position holds the item, so `indexOf` finds the first occurrence. |
| `Checklist.PreviewNumbering` | src/components/ActivityReportForm.tsx:652-686 | The preview shows exactly one row per checked item. Row i is numbered i+1 and shows the i-th checked item. |
| `Checklist.Rows` | src/components/ActivityReportForm.tsx:652-686 | The rendered rows: one per checked item, numbered by `indexOf` in the checked list. `RowsNumbered` gives their numbering. |
| `Checklist.PreviewRows` | src/components/ActivityReportForm.tsx:652-686 | The documentation section of the preview. `PreviewNumbering`, `PreviewShowsOnlyChecked` and `PreviewInCanonicalOrder` give its meaning. |
| `Checklist.PreviewShowsOnlyChecked` | src/components/ActivityReportForm.tsx:657-672 | Every row shown is a checked item of the canonical list. No unchecked item is shown. |
| `Checklist.PreviewInCanonicalOrder` | src/components/ActivityReportForm.tsx:657-672 | The checked items appear in the order of the canonical 14-item list. |
| `Checklist.UnknownKeyNotRendered` | src/components/ActivityReportForm.tsx:653-672 | A key outside the canonical list changes neither the checked items nor the rendered rows of the preview. |
| `Checklist.NothingTickedNoRows` | src/components/ActivityReportForm.tsx:652-686 | With nothing ticked, the documentation section of the preview is empty. |
| `Checklist.NoDocumentationNoRows` | src/components/ActivityReportForm.tsx:652-686 | An empty documentation map, as on the blank form, renders no rows. |
| `Checklist.NoticeFlyerPublicity` | src/components/ActivityReportForm.tsx:637-686 | With exactly Notice, Flyer and Publicity ticked, the preview is 1. Notice, 2. Flyer, 3. Publicity. |
| `Display.ActivityTypeLabel` | src/components/ActivityReportForm.tsx:452-454 | The label is never empty. For Other(Specify), it is the custom text, or "Other" when that is empty. Any other non-empty type reads as itself, and an empty type reads "N/A". It reads "Other(Specify)" only if the user typed exactly that. |
| `Display.CustomTypeIgnoredUnlessOther` | src/components/ActivityReportForm.tsx:452-454 | The custom text affects the label only when Other(Specify) is selected. |
| `Display.TimeDisplay` | src/components/ActivityReportForm.tsx:389 | The cell ends with one space and the period. The time slot before it is never blank. It shows a typed time as typed, and "HH:MM" when none is typed. |
| `Display.TimeDisplayDeterminesTime` | src/components/ActivityReportForm.tsx:389 | For a fixed period, two typed times that display alike are equal. |
| `Display.TimePlaceholderAmbiguous` | src/components/ActivityReportForm.tsx:389 | An empty time displays exactly like a typed "HH:MM". |
| `Display.EditAmountRule` | src/components/ActivityReportForm.tsx:544-548 | Digit-only input, including the empty input, becomes its decimal value, and the empty input gives 0. Any other input leaves the amount unchanged. |
| `Display.AllDigits` | src/components/ActivityReportForm.tsx:546 | The `/^\d*$/` test: every character is an ASCII digit, and the empty input passes. `EditAmountRule` uses it. |
| `Display.IsDigit` | src/components/ActivityReportForm.tsx:546 | `\d`: one of '0' to '9'. |
| `Display.EditAmount` | src/components/ActivityReportForm.tsx:544-548 | The amount after an edit. `EditAmountRule`, `AmountRoundTrip` and `LeadingZeroIgnored` give its meaning. |
| `Display.DecimalValue` | src/components/ActivityReportForm.tsx:547 | `Number(value)` on a digit string. `DecimalOfToDecimal` and `DecimalOfZeroPrefix` give its meaning. |
| `Display.ToDecimal` | src/components/ActivityReportForm.tsx:543 | The field shows the amount as a non-empty digit string with no leading zero. |
| `Display.AmountRoundTrip` | src/components/ActivityReportForm.tsx:541-548 | Re-entering the amount the field shows gives back that same amount. |
| `Display.LeadingZeroIgnored` | src/components/ActivityReportForm.tsx:546-547 | A leading zero is accepted and does not change the amount. |
| `Display.ExportFileName` | src/components/ActivityReportForm.tsx:207 | The name is "Activity_Report_", then year1, then "_", then year2, then ".pdf", each at its stated position. |
| `Display.FileNameDeterminesYears` | src/components/ActivityReportForm.tsx:207 | If year1 contains no underscore, equal file names imply equal years. |
| `Display.FileNameAmbiguous` | src/components/ActivityReportForm.tsx:207 | Without that condition, two different year pairs can give the same file name. |
| `Display.SignatureBlocks` | src/components/ActivityReportForm.tsx:771-900 | The preview has four signature blocks: the teacher, the head, the IQAC coordinator and the principal, in that order, each under its own name field. Each one shows the teacher's date. |
| `Display.OtherDatesNotShown` | src/components/ActivityReportForm.tsx:785-898 | Changing the head, IQAC or principal date does not change the preview's signature blocks. |
| `Display.BlankFormPreview` | src/components/ActivityReportForm.tsx:154-192 | On the blank record, the documentation map is empty, so no checklist row is shown (`Checklist.NoDocumentationNoRows`). The type reads "N/A", the time reads "HH:MM AM" and the file name is "Activity_Report__.pdf". |

## Left out

- Rendering: JSX, CSS classes, the scrolling banner, the logo and `window.scrollTo`. These are presentation only.
- Browser storage and JSON: `localStorage.getItem`/`setItem`, `JSON.parse` and `JSON.stringify` are I/O. `LoadSavedReports` receives the parsed list, and the save and delete methods return the list that would be written. A serialisation round trip is not modelled. The case where `JSON.parse` throws on a malformed entry is not modelled either.
- `toast` notifications and the `Button`/`useToast` imports: user-interface side effects only.
- The PDF export itself: `html2pdf`, its options, the page geometry, the 100 ms `setTimeout` and the promise are a foreign library and async scheduling. Only the preview flag and the file name are modelled. Two overlapping exports are not tracked separately: the first `ExportSaved` ends preview for both.
- Exporting a saved report from the history list (`exportToPDF(report)`, line 960 of src/components/ActivityReportForm.tsx): only the file name comes from that report. The captured element (`report-content`, from line 243) renders `formData`, so the PDF shows the current form. The model does not capture the PDF's content.
- `Form.ActivityReportForm.SaveReport`: every storage write is assumed to succeed. In the source, `localStorage.setItem` (:124) can throw, for example when storage is full. The handler then stops before the reset at :131-132: no notification appears, `isEditing` and `currentEditId` stay set, the list update from :123 still takes effect, and storage stays stale.
- `Form.ActivityReportForm.DeleteReport`: the same assumption. A throwing `setItem` at :145 leaves storage with the deleted record, while the list update from :144 still takes effect.
- Date formatting with `toLocaleDateString`: this is locale behaviour, including the "N/A" date cell. `SignatureBlocks` carries the raw date strings.
- The one-field edits of the other inputs (`setFormData(prev => ({...prev, field: value}))` for text, date, select and radio fields). Each of them replaces one field of `formData`. Only the documentation checkbox and the filtered amount are modelled.
- The history list's "Untitled Activity" fallback and the preview's `Number(amount) || '0'`: presentation only.
- `Display.EditAmount`: digit strings are read as exact natural numbers. JavaScript's `Number()` gives a float, which loses precision above 2^53.
- `Display.DecimalValue`: the same exact reading of `Number(value)`; above 2^53 the source rounds.
- `Display.ToDecimal`: the shortest decimal form of an exact natural. JavaScript's `String(n)` switches to exponent form from 1e21.
- `Display.AmountRoundTrip`: holds for exact naturals only. In the source it fails once `Number()` rounds or `String()` uses exponent form.
- `Report.ActivityReport`: `amount` is a `nat` and `customActivityType` is a plain string. The source types them as `number` and as an optional string, but every use treats a missing custom type like `""`.
- Timestamp ordering: the source reads the clock and never compares timestamps. `now` is a free parameter, so the model makes no claim that a new timestamp is at least as large as earlier ones.
