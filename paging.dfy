/** `paged_list` (backend/flaskr/__init__.py:38-43): a window of ten items, taken with
    Python's slice `list[start:end]`. */
module Paging {

  const QuestionsPerPage: nat := 10

  function Min(a: int, b: int): int { if a <= b then a else b }

  /** Python's normalisation of a slice bound for a list of length `n`: a negative bound
      counts from the end, and the result is clamped to `0..n`. */
  function SliceBound(i: int, n: nat): (k: nat)
    ensures k <= n
  {
    if i < 0 then (if i + n < 0 then 0 else i + n)
    else if i > n then n
    else i
  }

  /** `s[i:j]` in Python: empty when the normalised bounds cross. */
  function PySlice<T>(s: seq<T>, i: int, j: int): seq<T>
  {
    var lo, hi := SliceBound(i, |s|), SliceBound(j, |s|);
    if lo < hi then s[lo..hi] else []
  }

  function PagedList<T>(l: seq<T>, page: int): seq<T>
  {
    var start := (page - 1) * QuestionsPerPage;
    PySlice(l, start, start + QuestionsPerPage)
  }

  /** For a positive page, the window holds at most ten items, and its item `i` is item
      `(page - 1) * 10 + i` of the list. */
  lemma PagedListWindow<T>(l: seq<T>, page: int)
    requires page >= 1
    ensures |PagedList(l, page)| <= QuestionsPerPage
    ensures |PagedList(l, page)| ==
              if |l| <= (page - 1) * QuestionsPerPage then 0
              else Min(QuestionsPerPage, |l| - (page - 1) * QuestionsPerPage)
    ensures PagedList(l, page) == [] <==> |l| <= (page - 1) * QuestionsPerPage
    ensures forall i :: 0 <= i < |PagedList(l, page)| ==>
              PagedList(l, page)[i] == l[(page - 1) * QuestionsPerPage + i]
  {
  }

  /** The same window written as a Dafny slice, for callers that reason on slices. */
  lemma PagedListSlice<T>(l: seq<T>, page: int)
    requires page >= 1
    requires (page - 1) * QuestionsPerPage < |l|
    ensures PagedList(l, page) == l[(page - 1) * QuestionsPerPage .. Min(page * QuestionsPerPage, |l|)]
  {
  }

  /** Page 0 is always empty, and a negative page counts from the end of the list: page
      -1 is the window ending ten items before the end. Only a page at or beyond the
      front is empty. */
  lemma PagedListNonPositive<T>(l: seq<T>, page: int)
    requires page <= 0
    ensures PagedList(l, page) != [] <==> page < 0 && |l| + page * QuestionsPerPage > 0
    ensures page < 0 && |l| + page * QuestionsPerPage > 0 ==>
              var hi := |l| + page * QuestionsPerPage;
              PagedList(l, page) == l[if hi < QuestionsPerPage then 0 else hi - QuestionsPerPage .. hi]
  {
  }

  /** Item `i` of the list is on page `i / 10 + 1`, at position `i % 10`. */
  lemma ItemOnItsPage<T>(l: seq<T>, i: nat)
    requires i < |l|
    ensures i % QuestionsPerPage < |PagedList(l, i / QuestionsPerPage + 1)|
    ensures PagedList(l, i / QuestionsPerPage + 1)[i % QuestionsPerPage] == l[i]
  {
    PagedListWindow(l, i / QuestionsPerPage + 1);
  }

  /** Pages 1 to k, one after another. */
  function FirstPages<T>(l: seq<T>, k: nat): seq<T>
  {
    if k == 0 then [] else FirstPages(l, k - 1) + PagedList(l, k)
  }

  /** Consecutive pages neither repeat nor skip an item: pages 1 to k, concatenated, are
      exactly the first `10 * k` items of the list. */
  lemma {:induction false} FirstPagesArePrefix<T>(l: seq<T>, k: nat)
    ensures FirstPages(l, k) == l[..Min(k * QuestionsPerPage, |l|)]
  {
    if k > 0 {
      FirstPagesArePrefix(l, k - 1);
      var a := Min((k - 1) * QuestionsPerPage, |l|);
      var b := Min(k * QuestionsPerPage, |l|);
      if (k - 1) * QuestionsPerPage < |l| {
        PagedListSlice(l, k);
        assert l[..b] == l[..a] + l[a..b];
      } else {
        PagedListWindow(l, k);
      }
    }
  }
}
