/**
 The add/edit form as a state machine: `open`, `handleInputChange`,
 `handleSubmit` and `handleClose` over the form data, the error map, the
 open flag and the employee being edited. Every transition is a function
 from the old state to the new one; a transition that dispatches DOM events
 returns them, in dispatch order, beside the new state. The creation-time id
 (`Date.now()` in the source) is a parameter.
 */
module FormController {
  import opened Wrappers
  import opened Records
  import opened Validation
  import I18n

  /** The form data carries an entry for every field the form renders. */
  predicate FormShaped(data: map<string, string>) {
    KnownFields <= data.Keys
  }

  /** `getInitialFormData`: the eight fields, all empty. */
  function InitialFormData(): (d: map<string, string>)
    ensures d.Keys == KnownFields
    ensures forall f :: f in d ==> d[f] == ""
  {
    map["firstName" := "", "lastName" := "", "email" := "", "position" := "",
        "department" := "", "phone" := "", "startDate" := "", "birthDate" := ""]
  }

  /**
   The form's state. `isEdit` is not stored: `open` always sets it to whether
   an employee was given, together with `employee`, and nothing else writes
   either, so it is `employee.Some?`. An error entry of None is the `null` that
   `handleInputChange` writes over a cleared error.
   */
  datatype FormState = FormState(
    isOpen: bool,
    employee: Option<Employee>,
    formData: map<string, string>,
    errors: map<string, Option<FieldError>>)
  {
    predicate IsEdit() {
      employee.Some?
    }
  }

  /**
   The state the constructor is meant to set up; it is reached only when the
   manager also provides the positions (see `Construct`).
   */
  function InitialForm(): (st: FormState)
    ensures !st.isOpen && !st.IsEdit() && FormShaped(st.formData) && st.errors == map[]
    ensures forall f :: f in st.formData ==> st.formData[f] == ""
  {
    FormState(false, None, InitialFormData(), map[])
  }

  /**
   The constructor run against a manager that defines the methods `methods`:
   it asks the manager for its departments, its positions and its language,
   then registers its language listener, and a call to a method the manager
   lacks throws, leaving no form (None). When every call succeeds the form
   is `InitialForm()`.
   */
  function Construct(methods: set<string>): (r: Option<FormState>)
    ensures r.Some? <==> "getDepartments" in methods && "getPositions" in methods
                         && "getLanguage" in methods && "addListener" in methods
    ensures r.Some? ==> r.value == InitialForm() && !r.value.isOpen
  {
    if "getDepartments" !in methods then None
    else if "getPositions" !in methods then None
    else if "getLanguage" !in methods then None
    else if "addListener" !in methods then None
    else Some(InitialForm())
  }

  /**
   As written, the localization manager has no `getPositions`, so the form's
   constructor throws: there is no form for the application to open.
   */
  lemma ConstructorThrows()
    ensures "getDepartments" in I18n.ManagerMethods && "getPositions" !in I18n.ManagerMethods
    ensures Construct(I18n.ManagerMethods) == None
  {
  }

  /** The fields whose error is currently shown (a truthy entry). */
  function ShownErrors(errors: map<string, Option<FieldError>>): set<string> {
    set f | f in errors && errors[f].Some?
  }

  /** The form data `open` builds from an employee: missing fields become empty. */
  function FormDataOf(e: Employee): (d: map<string, string>)
    ensures d.Keys == KnownFields
  {
    map["firstName" := e.firstName, "lastName" := e.lastName, "email" := e.email,
        "position" := e.position.GetOr(""), "department" := e.department.GetOr(""),
        "phone" := e.phone.GetOr(""), "startDate" := e.startDate.GetOr(""),
        "birthDate" := e.birthDate.GetOr("")]
  }

  /** `open(employee)`. */
  function Open(st: FormState, employee: Option<Employee>): (r: FormState)
    ensures r.isOpen && r.errors == map[] && r.employee == employee
    ensures r.IsEdit() <==> employee.Some?
    ensures r.formData.Keys == KnownFields
    ensures employee.None? ==> forall f :: f in r.formData ==> r.formData[f] == ""
    ensures employee.Some? ==>
      var e := employee.value;
      && r.formData["firstName"] == e.firstName && r.formData["lastName"] == e.lastName
      && r.formData["email"] == e.email && r.formData["position"] == e.position.GetOr("")
      && r.formData["department"] == e.department.GetOr("") && r.formData["phone"] == e.phone.GetOr("")
      && r.formData["startDate"] == e.startDate.GetOr("") && r.formData["birthDate"] == e.birthDate.GetOr("")
  {
    FormState(true, employee, if employee.Some? then FormDataOf(employee.value) else InitialFormData(), map[])
  }

  /** `handleInputChange(field)` with the input's new value. */
  function HandleInputChange(st: FormState, field: string, value: string): (r: FormState)
    ensures r.formData.Keys == st.formData.Keys + {field}
    ensures field in r.formData && r.formData[field] == value
    ensures forall f :: f in st.formData && f != field ==> r.formData[f] == st.formData[f]
    ensures ShownErrors(r.errors) == ShownErrors(st.errors) - {field}
    ensures r.errors.Keys == st.errors.Keys
    ensures forall f :: f in st.errors && f != field ==> r.errors[f] == st.errors[f]
    ensures r.isOpen == st.isOpen && r.employee == st.employee
  {
    var errors := if field in st.errors && st.errors[field].Some? then st.errors[field := None] else st.errors;
    st.(formData := st.formData[field := value], errors := errors)
  }

  /** The events the form dispatches. */
  datatype FormEvent =
    | EmployeeCreated(data: map<string, string>, id: int)
    | EmployeeUpdated(data: map<string, string>, id: int)
    | FormClosed

  predicate IsCommit(ev: FormEvent) {
    ev.EmployeeCreated? || ev.EmployeeUpdated?
  }

  /** Number of created/updated events in a dispatch sequence. */
  function Commits(events: seq<FormEvent>): nat {
    if |events| == 0 then 0 else (if IsCommit(events[0]) then 1 else 0) + Commits(events[1..])
  }

  /** A transition's new state and the events it dispatched, in order. */
  datatype Step = Step(state: FormState, events: seq<FormEvent>)

  /** `handleClose`. */
  function HandleClose(st: FormState): (r: Step)
    ensures !r.state.isOpen && r.state.errors == map[]
    ensures forall f :: f in r.state.formData <==> f in KnownFields
    ensures forall f :: f in r.state.formData ==> r.state.formData[f] == ""
    ensures r.state.employee == st.employee
    ensures r.events == [FormClosed]
  {
    Step(st.(isOpen := false, formData := InitialFormData(), errors := map[]), [FormClosed])
  }

  /** The error map `handleSubmit` stores: every failing field with its error. */
  function AsShown(errors: map<string, FieldError>): (r: map<string, Option<FieldError>>)
    ensures r.Keys == errors.Keys && ShownErrors(r) == errors.Keys
    ensures forall f :: f in r ==> r[f] == Some(errors[f])
  {
    map f | f in errors :: Some(errors[f])
  }

  /** `handleSubmit`; `now` is the id a new record is given. */
  function HandleSubmit(st: FormState, now: int): (r: Step)
    ensures ValidateForm(st.formData) != map[] ==>
      && r.events == []
      && r.state == st.(errors := AsShown(ValidateForm(st.formData)))
    ensures ValidateForm(st.formData) == map[] ==>
      && |r.events| == 2 && r.events[1] == FormClosed
      && r.events[0] == (if st.IsEdit() then EmployeeUpdated(st.formData, st.employee.value.id)
                         else EmployeeCreated(st.formData, now))
      && !r.state.isOpen && r.state.errors == map[]
      && r.state.formData == InitialFormData()
      && r.state.employee == st.employee
    ensures Commits(r.events) == (if ValidateForm(st.formData) == map[] then 1 else 0)
  {
    var errors := ValidateForm(st.formData);
    var shown := st.(errors := AsShown(errors));
    if |errors| == 0 then
      var event :=
        if st.IsEdit() then EmployeeUpdated(st.formData, st.employee.value.id)
        else EmployeeCreated(st.formData, now);
      var closed := HandleClose(shown);
      assert Commits([event] + closed.events) == 1 by {
        assert ([event] + closed.events)[1..] == [FormClosed];
      }
      Step(closed.state, [event] + closed.events)
    else
      Step(shown, [])
  }

  /** A submission is accepted exactly when every field of the form validates. */
  lemma SubmitAcceptedIffAllFieldsValid(st: FormState, now: int)
    ensures Commits(HandleSubmit(st, now).events) == 1 <==>
      forall f :: f in st.formData ==> ValidateField(f, st.formData[f]) == None
  {
    var errors := ValidateForm(st.formData);
    if errors != map[] {
      var f :| f in errors;
      assert ValidateField(f, st.formData[f]).Some?;
    }
  }

  /**
   After a submission the form shows an error on exactly the fields that
   fail validation, each with that field's error: none when it is accepted.
   */
  lemma SubmitShowsFailingFields(st: FormState, now: int)
    ensures var r := HandleSubmit(st, now);
      && ShownErrors(r.state.errors) == (set f | f in st.formData && ValidateField(f, st.formData[f]).Some?)
      && forall f :: f in r.state.errors ==> f in st.formData && r.state.errors[f] == ValidateField(f, st.formData[f])
  {
    var errors := ValidateForm(st.formData);
    var r := HandleSubmit(st, now);
    if errors == map[] {
      assert r.state.errors == map[];
      forall f | f in st.formData ensures ValidateField(f, st.formData[f]).None? {
        assert f !in errors;
      }
    } else {
      assert r.state.errors == AsShown(errors);
    }
  }

  /** Every transition keeps all eight fields in the form data. */
  lemma TransitionsKeepFormShape(st: FormState, employee: Option<Employee>, field: string, value: string)
    requires FormShaped(st.formData)
    ensures FormShaped(Open(st, employee).formData)
    ensures FormShaped(HandleInputChange(st, field, value).formData)
    ensures FormShaped(HandleClose(st).state.formData)
  {
  }

  /** A submission keeps the form data's shape. */
  lemma SubmitKeepsFormShape(st: FormState, now: int)
    requires FormShaped(st.formData)
    ensures FormShaped(HandleSubmit(st, now).state.formData)
  {
    var r := HandleSubmit(st, now);
    if ValidateForm(st.formData) == map[] {
      assert r.state.formData == InitialFormData();
    } else {
      assert r.state.formData == st.formData;
    }
  }

  /** What a submission commits is the form's data as it stood. */
  lemma SubmitCommitsFormData(st: FormState, now: int)
    ensures var r := HandleSubmit(st, now);
      forall i :: 0 <= i < |r.events| && IsCommit(r.events[i]) ==> r.events[i].data == st.formData
  {
    var r := HandleSubmit(st, now);
    if ValidateForm(st.formData) == map[] {
      assert r.events[1] == FormClosed;
      assert r.events[0].data == st.formData;
    } else {
      assert r.events == [];
    }
  }

  /** The record a created/updated event stands for: the form's fields plus the id. */
  function RecordOf(data: map<string, string>, id: int): (e: Employee)
    requires FormShaped(data)
    ensures e.id == id
    ensures e.firstName == data["firstName"] && e.lastName == data["lastName"] && e.email == data["email"]
    ensures e.position == Some(data["position"]) && e.department == Some(data["department"])
    ensures e.phone == Some(data["phone"]) && e.startDate == Some(data["startDate"]) && e.birthDate == Some(data["birthDate"])
  {
    Employee(id, data["firstName"], data["lastName"], data["email"],
             Some(data["position"]), Some(data["department"]), Some(data["phone"]),
             Some(data["startDate"]), Some(data["birthDate"]))
  }

  /** Every optional field is present, as in any record the form has saved. */
  predicate Complete(e: Employee) {
    e.position.Some? && e.department.Some? && e.phone.Some? && e.startDate.Some? && e.birthDate.Some?
  }

  /** Opening a complete record and reading it back gives the record itself. */
  lemma OpenThenRecordOf(st: FormState, e: Employee)
    requires Complete(e)
    ensures FormShaped(Open(st, Some(e)).formData)
    ensures RecordOf(Open(st, Some(e)).formData, e.id) == e
  {
  }

  /** Submitting an untouched, valid edit form reports the record unchanged. */
  lemma UntouchedEditSubmitsSameRecord(st: FormState, e: Employee, now: int)
    requires Complete(e)
    requires ValidateForm(FormDataOf(e)) == map[]
    ensures HandleSubmit(Open(st, Some(e)), now).events[0] == EmployeeUpdated(FormDataOf(e), e.id)
    ensures RecordOf(HandleSubmit(Open(st, Some(e)), now).events[0].data, e.id) == e
  {
    OpenThenRecordOf(st, e);
  }

  /**
   A blank form with only the first name filled in is rejected: the e-mail
   shows the Required error, the form stays open and nothing is dispatched.
   */
  lemma BlankEmailRejected(st: FormState, now: int)
    ensures var r := HandleSubmit(HandleInputChange(Open(st, None), "firstName", "Ada"), now);
      && r.events == []
      && r.state.isOpen
      && "email" in r.state.errors && r.state.errors["email"] == Some(Required("email"))
  {
    var s := HandleInputChange(Open(st, None), "firstName", "Ada");
    assert "email" in s.formData && s.formData["email"] == "";
    assert ValidateField("email", "") == Some(Required("email"));
    assert "email" in ValidateForm(s.formData);
  }
}
