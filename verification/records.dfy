/**
 The employee record as the form produces it: an id and the eight form
 fields. First name, last name and e-mail are always present; the other
 five may be missing from a record (JavaScript `undefined`), which is kept
 distinct from the empty string.
 */
module Records {
  import opened Wrappers

  datatype Employee = Employee(
    id: int,
    firstName: string,
    lastName: string,
    email: string,
    position: Option<string>,
    department: Option<string>,
    phone: Option<string>,
    startDate: Option<string>,
    birthDate: Option<string>)

  /** No two records of the collection share an id. */
  predicate IdsUnique(employees: seq<Employee>) {
    forall i, j :: 0 <= i < j < |employees| ==> employees[i].id != employees[j].id
  }

  /** Some record of the collection carries `id`. */
  predicate HasId(employees: seq<Employee>, id: int) {
    exists i :: 0 <= i < |employees| && employees[i].id == id
  }
}
