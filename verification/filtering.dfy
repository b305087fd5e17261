/**
 The list's filter: an employee is shown when it matches the search term
 (case-insensitive substring of first name, last name or e-mail) and the
 department filter (exact value). An empty term or filter matches everything.
 */
module Filtering {
  import opened Wrappers
  import opened Text
  import opened Seqs
  import opened Records

  /** The search condition, with `includes` as the scanning checker. */
  predicate MatchesSearch(e: Employee, term: string) {
    || term == ""
    || Includes(Lower(e.firstName), Lower(term))
    || Includes(Lower(e.lastName), Lower(term))
    || Includes(Lower(e.email), Lower(term))
  }

  /** The department condition: `===` on the stored value; a missing department never equals a filter. */
  predicate MatchesDepartment(e: Employee, department: string) {
    department == "" || e.department == Some(department)
  }

  predicate Matches(e: Employee, term: string, department: string) {
    MatchesSearch(e, term) && MatchesDepartment(e, department)
  }

  /** The test `filterEmployees` hands to `Array.prototype.filter`. */
  function Criteria(term: string, department: string): Employee -> bool {
    e => Matches(e, term, department)
  }

  /** `filterEmployees` (and `applyFilters`, which only unpacks the criteria). */
  function FilterEmployees(employees: seq<Employee>, term: string, department: string): (r: seq<Employee>)
    ensures |r| <= |employees|
    ensures IsSubsequence(r, employees)
    ensures forall e :: e in r <==> e in employees && Matches(e, term, department)
    ensures forall e :: multiset(r)[e] == if Matches(e, term, department) then multiset(employees)[e] else 0
  {
    FilterIsSubsequence(employees, Criteria(term, department));
    forall e ensures multiset(Filter(employees, Criteria(term, department)))[e] ==
      if Matches(e, term, department) then multiset(employees)[e] else 0
    {
      FilterMultiset(employees, Criteria(term, department), e);
    }
    Filter(employees, Criteria(term, department))
  }

  /** The search condition read declaratively: a case-folded substring of one of the three fields. */
  lemma MatchesSearchIsSubstring(e: Employee, term: string)
    ensures MatchesSearch(e, term) <==>
      || term == ""
      || Contains(Lower(e.firstName), Lower(term))
      || Contains(Lower(e.lastName), Lower(term))
      || Contains(Lower(e.email), Lower(term))
  {
    IncludesIsContains(Lower(e.firstName), Lower(term));
    IncludesIsContains(Lower(e.lastName), Lower(term));
    IncludesIsContains(Lower(e.email), Lower(term));
  }

  /** Search ignores ASCII case: a term and its lower-case form select the same records. */
  lemma SearchIgnoresCase(employees: seq<Employee>, term: string, department: string)
    ensures FilterEmployees(employees, Lower(term), department) == FilterEmployees(employees, term, department)
  {
    LowerIdempotent(term);
    FilterCongruent(employees, Criteria(Lower(term), department), Criteria(term, department));
  }

  /** Empty criteria show the collection as it is. */
  lemma EmptyCriteriaKeepAll(employees: seq<Employee>)
    ensures FilterEmployees(employees, "", "") == employees
  {
    FilterKeepAll(employees, Criteria("", ""));
  }

  /** Filtering an already filtered list changes nothing. */
  lemma FilterTwiceIsOnce(employees: seq<Employee>, term: string, department: string)
    ensures FilterEmployees(FilterEmployees(employees, term, department), term, department)
         == FilterEmployees(employees, term, department)
  {
    FilterIdempotent(employees, Criteria(term, department));
  }
}
