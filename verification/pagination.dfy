/**
 Page arithmetic of the list: `getPaginatedEmployees` (built on JavaScript's
 `Array.prototype.slice`, negative indices included), `getTotalPages`
 (`Math.ceil(n / k)`), and the controls `renderPagination` lays out.
 */
module Pagination {
  import opened Wrappers

  function Min(a: int, b: int): int {
    if a <= b then a else b
  }

  /** ECMAScript's relative index: a negative index counts from the end; the result is clamped to 0..n. */
  function RelativeIndex(i: int, n: nat): (r: nat)
    ensures r <= n
    ensures 0 <= i ==> r == Min(i, n)
    ensures i < 0 && n + i >= 0 ==> r == n + i
    ensures n + i < 0 ==> r == 0
  {
    if i < 0 then (if n + i < 0 then 0 else n + i) else Min(i, n)
  }

  /** `s.slice(start, end)`. */
  function JsSlice<T>(s: seq<T>, start: int, end: int): (r: seq<T>)
    ensures |r| <= |s|
  {
    var from := RelativeIndex(start, |s|);
    var to := RelativeIndex(end, |s|);
    if from <= to then s[from..to] else []
  }

  /** `getPaginatedEmployees`: the `page`-th block of `perPage` elements, pages counted from 1. */
  function PageOf<T>(s: seq<T>, page: int, perPage: int): (r: seq<T>)
    ensures page >= 1 && perPage > 0 ==> r == s[Min((page - 1) * perPage, |s|)..Min(page * perPage, |s|)]
  {
    var start := (page - 1) * perPage;
    if page >= 1 && perPage > 0 then
      MulNonNegative(page - 1, perPage);
      assert start + perPage == page * perPage;
      JsSlice(s, start, start + perPage)
    else
      JsSlice(s, start, start + perPage)
  }

  /** For a page from 1 on, the page is the window [(page-1)*k, page*k) clamped to the length. */
  lemma PageWindow<T>(s: seq<T>, page: int, perPage: int)
    requires page >= 1 && perPage > 0
    ensures (page - 1) * perPage >= 0
    ensures PageOf(s, page, perPage) == s[Min((page - 1) * perPage, |s|)..Min(page * perPage, |s|)]
    ensures (page - 1) * perPage >= |s| ==> PageOf(s, page, perPage) == []
  {
    var start := (page - 1) * perPage;
    assert start >= 0 by {
      MulNonNegative(page - 1, perPage);
    }
    assert start + perPage == page * perPage;
  }

  lemma MulPred(a: int, b: int)
    ensures a * b == (a - 1) * b + b
  {
  }

  lemma MulNonNegative(a: int, b: int)
    requires a >= 0 && b >= 0
    ensures a * b >= 0
  {
  }

  /** `getTotalPages`: Math.ceil(n / perPage). */
  function TotalPages(n: nat, perPage: int): (r: nat)
    requires perPage > 0
    ensures n <= r * perPage
    ensures r > 0 ==> (r - 1) * perPage < n
    ensures n == 0 <==> r == 0
  {
    (n + perPage - 1) / perPage
  }

  /** Pages 1..count laid end to end. */
  function Pages<T>(s: seq<T>, perPage: int, count: nat): seq<T> {
    if count == 0 then [] else Pages(s, perPage, count - 1) + PageOf(s, count, perPage)
  }

  lemma {:induction false} PagesArePrefix<T>(s: seq<T>, perPage: int, count: nat)
    requires perPage > 0
    ensures count * perPage >= 0
    ensures Pages(s, perPage, count) == s[..Min(count * perPage, |s|)]
  {
    MulNonNegative(count, perPage);
    if count > 0 {
      var lo := (count - 1) * perPage;
      var hi := count * perPage;
      MulPred(count, perPage);
      assert hi == lo + perPage;
      PagesArePrefix(s, perPage, count - 1);
      PageWindow(s, count, perPage);
      var a := Min(lo, |s|);
      var b := Min(hi, |s|);
      assert Pages(s, perPage, count - 1) == s[..a];
      assert PageOf(s, count, perPage) == s[a..b];
      PrefixThenSlice(s, a, b);
    }
  }

  lemma PrefixThenSlice<T>(s: seq<T>, a: int, b: int)
    requires 0 <= a <= b <= |s|
    ensures s[..a] + s[a..b] == s[..b]
  {
  }

  /** Concatenating pages 1..totalPages gives back the list, with nothing lost or repeated. */
  lemma PagesReconstruct<T>(s: seq<T>, perPage: int)
    requires perPage > 0
    ensures Pages(s, perPage, TotalPages(|s|, perPage)) == s
  {
    var t := TotalPages(|s|, perPage);
    PagesArePrefix(s, perPage, t);
  }

  /** A page past the last one is empty. */
  lemma PageBeyondLastIsEmpty<T>(s: seq<T>, page: int, perPage: int)
    requires perPage > 0 && page > TotalPages(|s|, perPage)
    ensures PageOf(s, page, perPage) == []
  {
    var t := TotalPages(|s|, perPage);
    assert (page - 1) * perPage >= t * perPage by {
      MulMonotone(t, page - 1, perPage);
    }
    PageWindow(s, page, perPage);
  }

  /** A page from 1 on has records exactly when it is not past the last page. */
  lemma PageNonEmptyIffInRange<T>(s: seq<T>, page: int, perPage: int)
    requires page >= 1 && perPage > 0
    ensures PageOf(s, page, perPage) != [] <==> page <= TotalPages(|s|, perPage)
  {
    var t := TotalPages(|s|, perPage);
    if page <= t {
      MulMonotone(page - 1, t - 1, perPage);
      MulPred(page, perPage);
      PageWindow(s, page, perPage);
      assert (page - 1) * perPage < |s|;
      assert s[Min((page - 1) * perPage, |s|)..Min(page * perPage, |s|)] != [];
    } else {
      PageBeyondLastIsEmpty(s, page, perPage);
    }
  }

  lemma MulMonotone(a: int, b: int, c: int)
    requires 0 <= a <= b && c >= 0
    ensures a * c <= b * c
  {
  }

  /** What `renderPagination` lays out: the page buttons and the state of Prev and Next. */
  datatype Controls = Controls(pages: seq<int>, active: int, prevDisabled: bool, nextDisabled: bool)

  /** `renderPagination`: nothing when everything fits on one page, otherwise buttons 1..totalPages. */
  method RenderPagination(totalItems: int, totalPages: int, currentPage: int, perPage: int) returns (c: Option<Controls>)
    ensures c.None? <==> totalItems <= perPage
    ensures c.Some? ==> |c.value.pages| == (if totalPages < 0 then 0 else totalPages)
    ensures c.Some? ==> forall i :: 0 <= i < |c.value.pages| ==> c.value.pages[i] == i + 1
    ensures c.Some? ==> c.value.active == currentPage
    ensures c.Some? ==> (c.value.prevDisabled <==> currentPage == 1)
    ensures c.Some? ==> (c.value.nextDisabled <==> currentPage == totalPages)
  {
    if totalItems <= perPage {
      return None;
    }
    var pages: seq<int> := [];
    var i := 1;
    while i <= totalPages
      invariant 1 <= i <= (if totalPages >= 1 then totalPages + 1 else 1)
      invariant |pages| == i - 1
      invariant forall k :: 0 <= k < |pages| ==> pages[k] == k + 1
    {
      pages := pages + [i];
      i := i + 1;
    }
    return Some(Controls(pages, currentPage, currentPage == 1, currentPage == totalPages));
  }
}
