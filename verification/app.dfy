/**
 The application component's handlers: it opens the form, applies the
 form's created/updated events to the collection, and receives the list's
 deleted event. The fresh id of a created record is a parameter.

 `handleEmployeeDeleted` in the source shows a notification and never
 removes the record; `HandleEmployeeDeleted` models that as written and
 `HandleEmployeeDeletedFixed` removes the record, as the rest of the
 application (and the notification's text) expects.
 */
module App {
  import opened Wrappers
  import opened Seqs
  import opened Records
  import opened Store
  import opened Validation
  import opened FormController
  import opened ListController
  import I18n

  datatype AppState = AppState(employees: seq<Employee>, showForm: bool, editingEmployee: Option<Employee>)

  /** `handleAddEmployee`: show the form for a new record. */
  function HandleAddEmployee(st: AppState): (r: AppState)
    ensures r.showForm && r.editingEmployee.None? && r.employees == st.employees
  {
    st.(showForm := true, editingEmployee := None)
  }

  /** `handleEditEmployee`: show the form for the record the list sent. */
  function HandleEditEmployee(st: AppState, e: Employee): (r: AppState)
    ensures r.showForm && r.editingEmployee == Some(e) && r.employees == st.employees
  {
    st.(showForm := true, editingEmployee := Some(e))
  }

  /** `handleFormClosed`. */
  function HandleFormClosed(st: AppState): (r: AppState)
    ensures !r.showForm && r.editingEmployee.None? && r.employees == st.employees
  {
    st.(showForm := false, editingEmployee := None)
  }

  /** `openForm`'s deferred call: the form is opened on the record being edited, if any. */
  function OpenForm(st: AppState, form: FormState): (r: FormState)
    ensures r.isOpen && r.errors == map[]
    ensures r.IsEdit() <==> st.editingEmployee.Some?
  {
    Open(form, st.editingEmployee)
  }

  /** `handleEmployeeCreated`: the record is appended under a fresh id, replacing the form's. */
  function HandleEmployeeCreated(st: AppState, data: map<string, string>, formId: int, freshId: int): (r: AppState)
    requires FormShaped(data)
    ensures |r.employees| == |st.employees| + 1
    ensures r.employees[..|st.employees|] == st.employees
    ensures r.employees[|st.employees|] == RecordOf(data, freshId)
  {
    st.(employees := AddEmployee(st.employees, RecordOf(data, formId), freshId))
  }

  /** `handleEmployeeUpdated`. */
  function HandleEmployeeUpdated(st: AppState, data: map<string, string>, id: int): (r: AppState)
    requires FormShaped(data)
    ensures |r.employees| == |st.employees|
    ensures forall i :: 0 <= i < |r.employees| ==> r.employees[i].id == st.employees[i].id
    ensures forall i :: 0 <= i < |r.employees| && st.employees[i].id == id ==> r.employees[i] == RecordOf(data, id)
    ensures forall i :: 0 <= i < |r.employees| && st.employees[i].id != id ==> r.employees[i] == st.employees[i]
  {
    st.(employees := UpdateEmployee(st.employees, RecordOf(data, id)))
  }

  /** `handleEmployeeDeleted` as written: only a notification, the collection is untouched. */
  function HandleEmployeeDeleted(st: AppState, deleted: Employee): (r: AppState)
    ensures r.employees == st.employees
  {
    st
  }

  /** The record the list reported as deleted is still in the collection afterwards. */
  lemma DeletedRecordStaysListed(st: AppState, e: Employee)
    requires e in st.employees
    ensures e in HandleEmployeeDeleted(st, e).employees
    ensures HasId(HandleEmployeeDeleted(st, e).employees, e.id)
  {
    var i :| 0 <= i < |st.employees| && st.employees[i] == e;
  }

  /** `handleEmployeeDeleted` as intended: the reported record's id leaves the collection. */
  function HandleEmployeeDeletedFixed(st: AppState, deleted: Employee): (r: AppState)
    ensures !HasId(r.employees, deleted.id)
    ensures forall e :: e in r.employees <==> e in st.employees && e.id != deleted.id
    ensures IsSubsequence(r.employees, st.employees)
  {
    st.(employees := DeleteEmployee(st.employees, deleted.id))
  }

  /**
   The notification the created/updated/deleted handlers show, as written:
   `t(key, { name: record.name })`. A form-shaped record has no `name`
   property, and `String.prototype.replace` turns the missing value into the
   text "undefined". `e` is the record handed to the handler; `Employee` has
   no `name` field, so the value `e.name` stands for is always "undefined"
   and `e` is not read.
   */
  function NotificationAsWritten(cat: I18n.Catalog, lang: string, key: string, e: Employee): string {
    I18n.T(cat, lang, key, [("name", "undefined")])
  }

  /** For a template that opens with `{name}`, the as-written text shows "undefined" whatever the record. */
  lemma NotificationShowsUndefined(cat: I18n.Catalog, lang: string, key: string, rest: string, e: Employee)
    requires I18n.Lookup(cat, lang, key) == I18n.Placeholder("name") + rest && '{' !in rest
    ensures NotificationAsWritten(cat, lang, key, e) == "undefined" + rest
  {
    I18n.SubstituteLeadingPlaceholder("name", rest, "undefined");
  }

  /** The name the list shows for a record (the confirmation modal's `recordName`). */
  function FullName(e: Employee): string {
    e.firstName + " " + e.lastName
  }

  /** The notification with the record's name put in, as the templates intend. */
  function Notification(cat: I18n.Catalog, lang: string, key: string, e: Employee): string {
    I18n.T(cat, lang, key, [("name", FullName(e))])
  }

  /** For a template that opens with `{name}`, the notification opens with the record's full name. */
  lemma NotificationNamesRecord(cat: I18n.Catalog, lang: string, key: string, rest: string, e: Employee)
    requires I18n.Lookup(cat, lang, key) == I18n.Placeholder("name") + rest && '{' !in rest
    ensures Notification(cat, lang, key, e) == e.firstName + " " + e.lastName + rest
  {
    I18n.SubstituteLeadingPlaceholder("name", rest, FullName(e));
  }

  /** A form submission dispatched to the matching handler (the form-closed event goes to `HandleFormClosed`). */
  function ApplyFormEvent(st: AppState, ev: FormEvent, freshId: int): AppState
    requires ev.FormClosed? || FormShaped(ev.data)
  {
    match ev
    case EmployeeCreated(data, id) => HandleEmployeeCreated(st, data, id, freshId)
    case EmployeeUpdated(data, id) => HandleEmployeeUpdated(st, data, id)
    case FormClosed => HandleFormClosed(st)
  }

  /**
   Applying a committed form event (created or updated) keeps ids unique
   when the id given to a new record is fresh; the close event that follows
   it does not touch the collection.
   */
  lemma CommitKeepsIdsUnique(st: AppState, ev: FormEvent, freshId: int)
    requires IdsUnique(st.employees) && !HasId(st.employees, freshId)
    requires IsCommit(ev) && FormShaped(ev.data)
    ensures IdsUnique(ApplyFormEvent(st, ev, freshId).employees)
    ensures ApplyFormEvent(ApplyFormEvent(st, ev, freshId), FormClosed, freshId).employees == ApplyFormEvent(st, ev, freshId).employees
  {
    match ev
    case EmployeeCreated(data, id) =>
      AddKeepsIdsUnique(st.employees, RecordOf(data, id), freshId);
    case EmployeeUpdated(data, id) =>
      UpdateKeepsIdsUnique(st.employees, RecordOf(data, id));
  }

  /** An accepted submission, applied to the collection, keeps ids unique. */
  lemma AcceptedSubmitKeepsIdsUnique(st: AppState, form: FormState, now: int, freshId: int)
    requires IdsUnique(st.employees) && !HasId(st.employees, freshId)
    requires FormShaped(form.formData) && ValidateForm(form.formData) == map[]
    ensures var ev := HandleSubmit(form, now).events[0];
      && IsCommit(ev) && FormShaped(ev.data)
      && IdsUnique(ApplyFormEvent(st, ev, freshId).employees)
  {
    var ev := HandleSubmit(form, now).events[0];
    SubmitCommitsFormData(form, now);
    CommitKeepsIdsUnique(st, ev, freshId);
  }

  /**
   Saving an edit of the k-th stored record updates it in place: the size is
   unchanged, that record becomes the form's record under its own id, and
   every other record is as it was (ids being unique, no other record carries
   that id).
   */
  lemma EditUpdatesInPlace(st: AppState, data: map<string, string>, k: nat)
    requires IdsUnique(st.employees) && k < |st.employees|
    requires FormShaped(data)
    ensures var r := HandleEmployeeUpdated(st, data, st.employees[k].id);
      && |r.employees| == |st.employees|
      && r.employees[k] == RecordOf(data, st.employees[k].id)
      && forall i :: 0 <= i < |st.employees| && i != k ==> r.employees[i] == st.employees[i]
  {
    forall i | 0 <= i < |st.employees| && i != k
      ensures st.employees[i].id != st.employees[k].id
    {
    }
  }

  /**
   The whole delete flow with the intended handler: request, confirm, and the
   record's id is gone while every other record stays.
   */
  lemma ConfirmedDeleteRemovesRecord(st: AppState, list: ListState, e: Employee, recordName: string)
    ensures var out := HandleModalConfirm(HandleDeleteEmployee(list, e), ConfirmDetail("delete", recordName));
      && out.deleted == Some(e)
      && !HasId(HandleEmployeeDeletedFixed(st, out.deleted.value).employees, e.id)
      && forall x :: x in st.employees && x.id != e.id ==> x in HandleEmployeeDeletedFixed(st, out.deleted.value).employees
  {
  }

  /** Cancelling the modal reports nothing, so the collection cannot change. */
  lemma CancelledDeleteKeepsCollection(list: ListState, e: Employee)
    ensures var l := HandleModalClose(HandleDeleteEmployee(list, e));
      !l.openModal && l.employees == list.employees
  {
  }
}
