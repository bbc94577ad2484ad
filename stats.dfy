/** The statistics tab: counts per status, chapters read in total, the mean
    rating over rated entries and the share of each status, all derived from
    the whole list. Division is exact here (rationals, or integers in tenths);
    a JavaScript 0 / 0 is the text "NaN" that `toFixed(1)` prints for it. */
module Stats {
  import opened Strings
  import opened Library
  import opened Query

  /// Counts and sums

  /** `mangaList.filter(m => m.status === s).length`. */
  function CountStatus(list: seq<Manga>, s: Status): (n: nat)
    ensures n <= |list|
    decreases |list|
  {
    if |list| == 0 then 0
    else (if list[0].status == s then 1 else 0) + CountStatus(list[1..], s)
  }

  /** A status count is the length of the list view filtered by that status
      with an empty search. */
  lemma {:induction false} CountStatusIsFilterLength(list: seq<Manga>, s: Status)
    ensures CountStatus(list, s) == |FilterManga(list, "", Only(s))|
    decreases |list|
  {
    if |list| > 0 {
      ContainsEmpty(Lower(list[0].title));
      assert Lower("") == "";
      CountStatusIsFilterLength(list[1..], s);
    }
  }

  /** Every entry has exactly one of the four statuses, so the four counts
      add up to the list length. */
  lemma {:induction false} StatusCountsPartition(list: seq<Manga>)
    ensures CountStatus(list, Reading) + CountStatus(list, Completed)
          + CountStatus(list, PlanToRead) + CountStatus(list, Dropped) == |list|
    decreases |list|
  {
    if |list| > 0 {
      StatusCountsPartition(list[1..]);
    }
  }

  /** `mangaList.reduce((acc, m) => acc + m.chaptersRead, 0)`: a left fold. */
  function SumChapters(list: seq<Manga>): (r: int)
    ensures (forall k :: 0 <= k < |list| ==> list[k].chaptersRead >= 0) ==> r >= 0
    decreases |list|
  {
    if |list| == 0 then 0
    else
      var init := list[..|list| - 1];
      assert forall k :: 0 <= k < |init| ==> init[k] == list[k];
      SumChapters(init) + list[|list| - 1].chaptersRead
  }

  /** With no negative chapter count, the total is at least every single count
      and is itself non-negative. */
  lemma {:induction false} SumChaptersAtLeastEach(list: seq<Manga>)
    requires forall k :: 0 <= k < |list| ==> list[k].chaptersRead >= 0
    ensures SumChapters(list) >= 0
    ensures forall k :: 0 <= k < |list| ==> list[k].chaptersRead <= SumChapters(list)
    decreases |list|
  {
    if |list| > 0 {
      var init := list[..|list| - 1];
      SumChaptersAtLeastEach(init);
      assert forall k :: 0 <= k < |init| ==> init[k] == list[k];
    }
  }

  /// Ratings

  /** `mangaList.filter(m => m.rating > 0)`: the rated entries, in order. */
  function Rated(list: seq<Manga>): (r: seq<Manga>)
    ensures |r| <= |list|
    ensures forall k :: 0 <= k < |r| ==> r[k] in list && r[k].rating > 0
    decreases |list|
  {
    if |list| == 0 then []
    else if list[0].rating > 0 then [list[0]] + Rated(list[1..])
    else Rated(list[1..])
  }

  /** There is a rated entry exactly when some entry has a positive rating. */
  lemma {:induction false} RatedEmptyIffNoneRated(list: seq<Manga>)
    ensures Rated(list) == [] <==> forall k :: 0 <= k < |list| ==> list[k].rating <= 0
    decreases |list|
  {
    if |list| > 0 {
      RatedEmptyIffNoneRated(list[1..]);
      assert forall k :: 1 <= k < |list| ==> list[k] == list[1..][k - 1];
    }
  }

  /** Selecting the rated entries works entry by entry over a concatenation. */
  lemma {:induction false} RatedAppend(a: seq<Manga>, b: seq<Manga>)
    ensures Rated(a + b) == Rated(a) + Rated(b)
    decreases |a|
  {
    if |a| == 0 {
      assert a + b == b;
    } else {
      assert (a + b)[1..] == a[1..] + b;
      RatedAppend(a[1..], b);
    }
  }

  /** A list whose every entry is rated is kept whole. */
  lemma {:induction false} RatedAll(list: seq<Manga>)
    requires forall k :: 0 <= k < |list| ==> list[k].rating > 0
    ensures Rated(list) == list
    decreases |list|
  {
    if |list| > 0 {
      assert forall k :: 0 <= k < |list[1..]| ==> list[1..][k] == list[k + 1];
      RatedAll(list[1..]);
      assert [list[0]] + list[1..] == list;
    }
  }

  /** `reduce((acc, m) => acc + m.rating, 0)`: a left fold. */
  function RatingSum(list: seq<Manga>): (r: int)
    ensures (forall k :: 0 <= k < |list| ==> list[k].rating > 0) ==> r >= |list|
    decreases |list|
  {
    if |list| == 0 then 0
    else
      var init := list[..|list| - 1];
      assert forall k :: 0 <= k < |init| ==> init[k] == list[k];
      RatingSum(init) + list[|list| - 1].rating
  }

  /** A lower bound on every rating bounds the sum from below. */
  lemma {:induction false} RatingSumAtLeast(list: seq<Manga>, v: int)
    requires forall k :: 0 <= k < |list| ==> v <= list[k].rating
    ensures |list| * v <= RatingSum(list)
    decreases |list|
  {
    if |list| > 0 {
      var init := list[..|list| - 1];
      assert forall k :: 0 <= k < |init| ==> init[k] == list[k];
      RatingSumAtLeast(init, v);
      assert |list| * v == |init| * v + v;
    }
  }

  /** An upper bound on every rating bounds the sum from above. */
  lemma {:induction false} RatingSumAtMost(list: seq<Manga>, v: int)
    requires forall k :: 0 <= k < |list| ==> list[k].rating <= v
    ensures RatingSum(list) <= |list| * v
    decreases |list|
  {
    if |list| > 0 {
      var init := list[..|list| - 1];
      assert forall k :: 0 <= k < |init| ==> init[k] == list[k];
      RatingSumAtMost(init, v);
      assert |list| * v == |init| * v + v;
    }
  }

  /** The smallest rating of a non-empty list. */
  function MinRating(list: seq<Manga>): (v: int)
    requires |list| > 0
    ensures exists k :: 0 <= k < |list| && list[k].rating == v
    ensures forall k :: 0 <= k < |list| ==> v <= list[k].rating
    decreases |list|
  {
    if |list| == 1 then list[0].rating
    else
      var m := MinRating(list[1..]);
      assert forall k :: 1 <= k < |list| ==> list[k] == list[1..][k - 1];
      if list[0].rating <= m then list[0].rating else m
  }

  /** The largest rating of a non-empty list. */
  function MaxRating(list: seq<Manga>): (v: int)
    requires |list| > 0
    ensures exists k :: 0 <= k < |list| && list[k].rating == v
    ensures forall k :: 0 <= k < |list| ==> list[k].rating <= v
    decreases |list|
  {
    if |list| == 1 then list[0].rating
    else
      var m := MaxRating(list[1..]);
      assert forall k :: 1 <= k < |list| ==> list[k] == list[1..][k - 1];
      if m <= list[0].rating then list[0].rating else m
  }

  /** The exact mean rating over rated entries: sum over count. With no rated
      entry the source divides 0 by 0, which is `None` here. */
  function MeanRating(list: seq<Manga>): (r: Option<real>)
    ensures r.None? <==> forall k :: 0 <= k < |list| ==> list[k].rating <= 0
    ensures r.Some? ==> r.value >= 1.0
  {
    RatedEmptyIffNoneRated(list);
    var rated := Rated(list);
    assert |rated| > 0 ==> RatingSum(rated) >= |rated|;
    if |rated| == 0 then None
    else
      FractionLe(1, 1, RatingSum(rated), |rated|);
      Some(RatingSum(rated) as real / |rated| as real)
  }

  /** When at least one entry is rated, the mean lies between the smallest and
      the largest positive rating; when none is, there is no mean. */
  lemma MeanRatingBounds(list: seq<Manga>)
    ensures MeanRating(list).None? <==> forall k :: 0 <= k < |list| ==> list[k].rating <= 0
    ensures MeanRating(list).Some? ==>
              0.0 < MinRating(Rated(list)) as real <= MeanRating(list).value
              && MeanRating(list).value <= MaxRating(Rated(list)) as real
  {
    RatedEmptyIffNoneRated(list);
    var rated := Rated(list);
    if |rated| > 0 {
      var lo, hi := MinRating(rated), MaxRating(rated);
      var n, s := |rated|, RatingSum(rated);
      RatingSumAtLeast(rated, lo);
      RatingSumAtMost(rated, hi);
      MeanBetween(s, n, lo, hi);
    }
  }

  /** A sum of n values between lo and hi, divided by n, stays between them. */
  lemma MeanBetween(s: int, n: nat, lo: int, hi: int)
    requires n > 0 && n * lo <= s <= n * hi
    ensures lo as real <= s as real / n as real <= hi as real
  {
    FractionLe(lo, 1, s, n);
    FractionLe(s, n, hi, 1);
  }

  /** `averageRating`: the mean rounded by `toFixed(1)`, or "NaN" for 0 / 0. */
  function AverageRatingText(list: seq<Manga>): (r: string)
    ensures r == "NaN" <==> forall k :: 0 <= k < |list| ==> list[k].rating <= 0
    ensures r != "NaN" ==> |r| >= 3 && r[0] != '-'
  {
    RatedEmptyIffNoneRated(list);
    var rated := Rated(list);
    if |rated| == 0 then "NaN"
    else
      var text := Fixed1(RatingSum(rated), |rated|);
      assert text[|text| - 1] != "NaN"[2];
      text
  }

  /** The average-rating text is "NaN" exactly when nothing is rated; otherwise
      it reads back as the mean rounded to the nearest tenth. */
  lemma AverageRatingTextRoundsMean(list: seq<Manga>)
    ensures AverageRatingText(list) == "NaN" <==> MeanRating(list).None?
    ensures MeanRating(list).Some? ==>
              NearTenths(ParseTenths(AverageRatingText(list)), MeanRating(list).value)
  {
    var rated := Rated(list);
    if |rated| > 0 {
      var s, n := RatingSum(rated), |rated|;
      RatingSumAtLeast(rated, 1);
      var text := Fixed1(s, n);
      assert AverageRatingText(list) == text;
      assert text[|text| - 1] != "NaN"[2];
      Fixed1ReadsBack(s, n);
      RoundTenthsNearest(s, n);
      TenthsNearReal(s, n, RoundTenths(s, n));
    }
  }

  /// Status distribution

  /** A status's share of the library as `toFixed(1)` prints it: "NaN" for an
      empty library (0 / 0), otherwise count * 100 / total rounded to tenths. */
  function ShareText(count: nat, total: nat): (r: string)
    ensures r == "NaN" <==> total == 0
    ensures total > 0 ==> |r| >= 3 && r[0] != '-' && r[|r| - 2] == '.'
  {
    if total == 0 then "NaN"
    else
      var text := Fixed1(100 * count, total);
      assert text[|text| - 1] != "NaN"[2];
      text
  }

  /** A part of the library never reads as more than 100.0 percent. */
  lemma ShareAtMostHundred(count: nat, total: nat)
    requires count <= total
    ensures total > 0 ==> 0 <= ParseTenths(ShareText(count, total)) <= 1000
    ensures total == 0 <==> ShareText(count, total) == "NaN"
  {
    if total > 0 {
      var text := Fixed1(100 * count, total);
      assert text[|text| - 1] != "NaN"[2];
      Fixed1ReadsBack(100 * count, total);
      RoundTenthsAtMost(100 * count, total, 100);
    }
  }

  /// The stats object

  datatype Summary = Summary(
    totalManga: nat,
    reading: nat,
    completed: nat,
    planToRead: nat,
    totalChaptersRead: int,
    averageRating: string
  )

  /** The `stats` object of the dashboard. */
  function Summarize(list: seq<Manga>): (r: Summary)
    ensures r.totalManga == |list|
    ensures r.reading + r.completed + r.planToRead == |list| - CountStatus(list, Dropped)
  {
    StatusCountsPartition(list);
    Summary(
      |list|,
      CountStatus(list, Reading),
      CountStatus(list, Completed),
      CountStatus(list, PlanToRead),
      SumChapters(list),
      AverageRatingText(list))
  }

  /** The summary of an empty library has zero counts and the "NaN" rating the
      source prints for it, rather than failing. */
  lemma SummarizeEmpty()
    ensures Summarize([]) == Summary(0, 0, 0, 0, 0, "NaN")
  {
  }
}
