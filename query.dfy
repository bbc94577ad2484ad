/** The library view's search: a stable filter of the list by a free-text
    query, compared after lower-casing both sides, and by a status filter. */
module Query {
  import opened Strings
  import opened Library

  /** The status drop-down: the sentinel `'all'` or one status. */
  datatype StatusFilter = All | Only(status: Status)

  /** The search test: the lower-cased title includes the lower-cased query.
      The empty query passes every title, and a query longer than the title
      passes none. */
  predicate MatchesSearch(m: Manga, query: string)
    ensures |query| == 0 ==> MatchesSearch(m, query)
    ensures MatchesSearch(m, query) ==> |query| <= |m.title|
  {
    assert |query| == 0 ==> Lower(query) <= Lower(m.title);
    Contains(Lower(m.title), Lower(query))
  }

  /** The search ignores case on both sides: queries that differ only in the
      case of ASCII letters, and titles that do, give the same verdict. */
  lemma SearchIgnoresCase(m: Manga, m2: Manga, q: string, q2: string)
    requires SameTextIgnoringCase(q, q2) && SameTextIgnoringCase(m.title, m2.title)
    ensures MatchesSearch(m, q) <==> MatchesSearch(m2, q2)
  {
    LowerIgnoresCase(q, q2);
    LowerIgnoresCase(m.title, m2.title);
  }

  /** The status test: `'all'` or exactly the entry's status. The two
      filters an entry passes are `'all'` and its own status. */
  predicate MatchesStatus(m: Manga, filter: StatusFilter)
    ensures MatchesStatus(m, filter) <==> filter in {All, Only(m.status)}
  {
    filter == All || m.status == filter.status
  }

  /** An entry is shown when it passes both tests: with an empty query and
      `'all'` every entry is shown, and a shown entry's title is at least as
      long as the query. */
  predicate Keep(m: Manga, query: string, filter: StatusFilter)
    ensures |query| == 0 && filter == All ==> Keep(m, query, filter)
    ensures Keep(m, query, filter) ==> |query| <= |m.title|
  {
    MatchesSearch(m, query) && MatchesStatus(m, filter)
  }

  /** `mangaList.filter(...)`: the entries that pass, in list order. */
  function FilterManga(list: seq<Manga>, query: string, filter: StatusFilter): (r: seq<Manga>)
    ensures |r| <= |list|
    ensures forall k :: 0 <= k < |r| ==> r[k] in list && Keep(r[k], query, filter)
    decreases |list|
  {
    if |list| == 0 then []
    else if Keep(list[0], query, filter) then [list[0]] + FilterManga(list[1..], query, filter)
    else FilterManga(list[1..], query, filter)
  }

  /** a can be obtained from b by deleting elements: a keeps b's order. */
  predicate IsSubsequence<T(==)>(a: seq<T>, b: seq<T>)
    decreases |b|
  {
    if |a| == 0 then true
    else if |b| == 0 then false
    else (a[0] == b[0] && IsSubsequence(a[1..], b[1..])) || IsSubsequence(a, b[1..])
  }

  /** The filtered list is an order-preserving subsequence of the list. */
  lemma {:induction false} FilterIsSubsequence(list: seq<Manga>, query: string, filter: StatusFilter)
    ensures IsSubsequence(FilterManga(list, query, filter), list)
    decreases |list|
  {
    if |list| > 0 {
      FilterIsSubsequence(list[1..], query, filter);
      var rest := FilterManga(list[1..], query, filter);
      if Keep(list[0], query, filter) {
        assert ([list[0]] + rest)[1..] == rest;
      }
    }
  }

  /** Every entry of the list that passes both tests is in the filtered list. */
  lemma {:induction false} FilterComplete(list: seq<Manga>, query: string, filter: StatusFilter, m: Manga)
    requires m in list && Keep(m, query, filter)
    ensures m in FilterManga(list, query, filter)
    decreases |list|
  {
    if list[0] != m {
      FilterComplete(list[1..], query, filter, m);
    }
  }

  /** Any order-preserving selection of passing entries is at most as long as
      the filtered list. */
  lemma {:induction false} FilterIsLongestPassing(
    list: seq<Manga>, query: string, filter: StatusFilter, r: seq<Manga>)
    requires IsSubsequence(r, list)
    requires forall k :: 0 <= k < |r| ==> Keep(r[k], query, filter)
    ensures |r| <= |FilterManga(list, query, filter)|
    decreases |list|
  {
    if |r| > 0 {
      if r[0] == list[0] && IsSubsequence(r[1..], list[1..]) {
        assert forall k :: 0 <= k < |r[1..]| ==> r[1..][k] == r[k + 1];
        FilterIsLongestPassing(list[1..], query, filter, r[1..]);
      } else {
        FilterIsLongestPassing(list[1..], query, filter, r);
      }
    }
  }

  /** Exactness: a selection of passing entries as long as the filtered list is
      the filtered list. With FilterIsLongestPassing, the filter keeps every
      passing entry, in order, and nothing else. */
  lemma {:induction false} FilterIsLongestPassingSubsequence(
    list: seq<Manga>, query: string, filter: StatusFilter, r: seq<Manga>)
    requires IsSubsequence(r, list)
    requires forall k :: 0 <= k < |r| ==> Keep(r[k], query, filter)
    ensures |r| == |FilterManga(list, query, filter)| ==> r == FilterManga(list, query, filter)
    decreases |list|
  {
    if |r| > 0 && |r| == |FilterManga(list, query, filter)| {
      var rest := FilterManga(list[1..], query, filter);
      if r[0] == list[0] && IsSubsequence(r[1..], list[1..]) {
        assert forall k :: 0 <= k < |r[1..]| ==> r[1..][k] == r[k + 1];
        assert FilterManga(list, query, filter) == [list[0]] + rest;
        FilterIsLongestPassingSubsequence(list[1..], query, filter, r[1..]);
        assert r == [r[0]] + r[1..];
      } else {
        assert IsSubsequence(r, list[1..]);
        FilterIsLongestPassing(list[1..], query, filter, r);
        assert Keep(list[0], query, filter) ==> |FilterManga(list, query, filter)| == |rest| + 1;
        if !Keep(list[0], query, filter) {
          FilterIsLongestPassingSubsequence(list[1..], query, filter, r);
        }
      }
    }
  }

  /** The filter works entry by entry: filtering a concatenation filters each
      part and concatenates the results, so relative order is kept. */
  lemma {:induction false} FilterAppend(a: seq<Manga>, b: seq<Manga>, query: string, filter: StatusFilter)
    ensures FilterManga(a + b, query, filter) == FilterManga(a, query, filter) + FilterManga(b, query, filter)
    decreases |a|
  {
    if |a| == 0 {
      assert a + b == b;
    } else {
      assert (a + b)[1..] == a[1..] + b;
      FilterAppend(a[1..], b, query, filter);
    }
  }

  /** When exactly one entry passes, the filtered list is that entry alone. */
  lemma FilterSingleMatch(list: seq<Manga>, query: string, filter: StatusFilter, k: int)
    requires 0 <= k < |list|
    requires forall j :: 0 <= j < |list| ==> (Keep(list[j], query, filter) <==> j == k)
    ensures FilterManga(list, query, filter) == [list[k]]
  {
    var before, after := list[..k], list[k + 1..];
    assert list == before + [list[k]] + after;
    FilterAppend(before + [list[k]], after, query, filter);
    FilterAppend(before, [list[k]], query, filter);
    assert forall j :: 0 <= j < |before| ==> before[j] == list[j];
    assert forall j :: 0 <= j < |after| ==> after[j] == list[k + 1 + j];
    FilterEmptyIffNoMatch(before, query, filter);
    FilterEmptyIffNoMatch(after, query, filter);
  }

  /** An empty query with `'all'` shows the whole list unchanged. */
  lemma {:induction false} FilterEverything(list: seq<Manga>)
    ensures FilterManga(list, "", All) == list
    decreases |list|
  {
    if |list| > 0 {
      ContainsEmpty(Lower(list[0].title));
      assert Lower("") == "";
      FilterEverything(list[1..]);
      assert [list[0]] + list[1..] == list;
    }
  }

  /** No match is not an error: the result is empty exactly when no entry passes. */
  lemma {:induction false} FilterEmptyIffNoMatch(list: seq<Manga>, query: string, filter: StatusFilter)
    ensures FilterManga(list, query, filter) == [] <==>
            forall k :: 0 <= k < |list| ==> !Keep(list[k], query, filter)
    decreases |list|
  {
    if |list| > 0 {
      FilterEmptyIffNoMatch(list[1..], query, filter);
      assert forall k :: 1 <= k < |list| ==> list[k] == list[1..][k - 1];
    }
  }

  /** Filtering the filtered list again with the same inputs changes nothing. */
  lemma {:induction false} FilterIdempotent(list: seq<Manga>, query: string, filter: StatusFilter)
    ensures FilterManga(FilterManga(list, query, filter), query, filter) == FilterManga(list, query, filter)
    decreases |list|
  {
    if |list| > 0 {
      var rest := FilterManga(list[1..], query, filter);
      FilterIdempotent(list[1..], query, filter);
      if Keep(list[0], query, filter) {
        assert ([list[0]] + rest)[1..] == rest;
      }
    }
  }

  /** Under a specific status every shown entry has that status; under `'all'`
      the status test never removes an entry. */
  lemma FilterStatus(list: seq<Manga>, query: string, s: Status)
    ensures forall k :: 0 <= k < |FilterManga(list, query, Only(s))| ==>
              FilterManga(list, query, Only(s))[k].status == s
    ensures forall k :: 0 <= k < |list| && MatchesSearch(list[k], query) ==>
              list[k] in FilterManga(list, query, All)
  {
    forall k | 0 <= k < |list| && MatchesSearch(list[k], query)
      ensures list[k] in FilterManga(list, query, All)
    {
      FilterComplete(list, query, All, list[k]);
    }
  }

  /** The two tests are independent: filtering by query and status is filtering
      by the query alone and then by the status alone. */
  lemma {:induction false} FilterSplitsIntoTests(list: seq<Manga>, query: string, filter: StatusFilter)
    ensures FilterManga(list, query, filter) == FilterManga(FilterManga(list, query, All), "", filter)
    decreases |list|
  {
    if |list| > 0 {
      var m := list[0];
      var rest := FilterManga(list[1..], query, All);
      FilterSplitsIntoTests(list[1..], query, filter);
      ContainsEmpty(Lower(m.title));
      assert Lower("") == "";
      if MatchesSearch(m, query) {
        assert ([m] + rest)[1..] == rest;
      }
    }
  }
}
