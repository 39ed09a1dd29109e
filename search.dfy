/** The two static searches over a list of movies. Neither touches its
    argument: each sorts a copy and searches that. */
module MovieSearch {
  import opened Catalog
  import opened Wrappers
  import opened Sorting
  import opened Text

  /** The movie's lower-cased title contains `term`. */
  predicate TitleMatches(x: Movie, term: string) {
    Includes(Lower(x.title), term)
  }

  /** `movies.filter(...)` on the title test: the matching movies, in their
      original order. */
  function FilterMatching(movies: seq<Movie>, term: string): (r: seq<Movie>)
    ensures forall x :: multiset(r)[x] == if TitleMatches(x, term) then multiset(movies)[x] else 0
    ensures forall x :: x in r <==> x in movies && TitleMatches(x, term)
  {
    if movies == [] then []
    else
      assert movies == [movies[0]] + movies[1..];
      (if TitleMatches(movies[0], term) then [movies[0]] else []) + FilterMatching(movies[1..], term)
  }

  /** The title order of the sorted copy: `localeCompare` on titles, taken
      as the code-point order `Less`. */
  predicate TitleLe(a: Movie, b: Movie) {
    !Less(b.title, a.title)
  }

  predicate RatingLe(a: Movie, b: Movie) {
    a.rating <= b.rating
  }

  lemma {:induction false} LessAsymmetric(a: string, b: string)
    ensures !(Less(a, b) && Less(b, a))
  {
    if a != [] && b != [] && a[0] == b[0] {
      LessAsymmetric(a[1..], b[1..]);
    }
  }

  /** Not coming after is transitive. */
  lemma NotLessTransitive(a: string, b: string, c: string)
    requires !Less(b, a) && !Less(c, b)
    ensures !Less(c, a)
  {
    LessTotal(a, b);
    if Less(c, a) && Less(a, b) {
      LessTransitive(c, a, b);
    }
  }

  lemma TitleOrderIsTotal()
    ensures TotalPreorder(TitleLe)
  {
    forall a: Movie, b: Movie ensures TitleLe(a, b) || TitleLe(b, a) {
      LessAsymmetric(a.title, b.title);
    }
    forall a: Movie, b: Movie, c: Movie | TitleLe(a, b) && TitleLe(b, c) ensures TitleLe(a, c) {
      NotLessTransitive(a.title, b.title, c.title);
    }
  }

  lemma RatingOrderIsTotal()
    ensures TotalPreorder(RatingLe)
  {
  }

  /** The title-sorted copy is in title order. */
  lemma TitleSortedCopy(movies: seq<Movie>)
    ensures SortedBy(Sort(movies, TitleLe), TitleLe)
  {
    TitleOrderIsTotal();
    SortSorted(movies, TitleLe);
  }

  ghost predicate RatingAscending(s: seq<Movie>) {
    forall i, j :: 0 <= i < j < |s| ==> s[i].rating <= s[j].rating
  }

  /** The rating-sorted copy is in non-decreasing rating order. */
  lemma RatingSortedCopy(movies: seq<Movie>)
    ensures RatingAscending(Sort(movies, RatingLe))
  {
    RatingOrderIsTotal();
    SortSorted(movies, RatingLe);
  }

  /** The title test as a function value, for the block collection. */
  function Matcher(term: string): Movie -> bool {
    x => TitleMatches(x, term)
  }

  /** Entries `lo` to `hi - 1` of `s` form a non-empty block of entries
      satisfying `p` that cannot be extended on either side. */
  ghost predicate RunBounds<T>(s: seq<T>, p: T -> bool, lo: int, hi: int) {
    && 0 <= lo < hi <= |s|
    && (forall j :: lo <= j < hi ==> p(s[j]))
    && (lo > 0 ==> !p(s[lo - 1]))
    && (hi < |s| ==> !p(s[hi]))
  }

  /** `r` is a maximal block of consecutive matching entries of `s`. */
  ghost predicate MatchRun(s: seq<Movie>, term: string, r: seq<Movie>) {
    exists lo, hi :: RunBounds(s, Matcher(term), lo, hi) && r == s[lo..hi]
  }

  /** Every entry of a matching block of the sorted copy is a matching
      movie of the input, and the block is not empty. */
  lemma RunSound(movies: seq<Movie>, term: string, r: seq<Movie>)
    requires MatchRun(Sort(movies, TitleLe), term, r)
    ensures r != [] && r[0] in r
    ensures forall x :: x in r ==> x in movies && TitleMatches(x, term)
  {
    var s := Sort(movies, TitleLe);
    var lo, hi :| RunBounds(s, Matcher(term), lo, hi) && r == s[lo..hi];
    forall x | x in r ensures x in movies && TitleMatches(x, term) {
      var j :| 0 <= j < |r| && r[j] == x;
      assert x == s[lo + j];
      assert Matcher(term)(x);
      SortSameElements(movies, TitleLe, x);
    }
    assert r[0] == s[lo];
  }

  /** The hit branch of the title search: from the entry `mid`, which
      satisfies `p`, collects the entries satisfying `p` to its left
      (prepending them) and then those to its right. */
  method CollectAround<T>(s: seq<T>, p: T -> bool, mid: nat) returns (results: seq<T>, lo: nat, hi: nat)
    requires mid < |s| && p(s[mid])
    ensures RunBounds(s, p, lo, hi) && results == s[lo..hi]
    ensures lo <= mid < hi
  {
    results := [];
    var i: int := mid;
    while i >= 0 && p(s[i])
      invariant -1 <= i <= mid
      invariant results == s[i + 1..mid + 1]
      invariant forall j :: i < j <= mid ==> p(s[j])
    {
      results := [s[i]] + results;
      i := i - 1;
    }
    lo := i + 1;
    i := mid + 1;
    while i < |s| && p(s[i])
      invariant mid + 1 <= i <= |s|
      invariant results == s[lo..i]
      invariant forall j :: lo <= j < i ==> p(s[j])
    {
      results := results + [s[i]];
      i := i + 1;
    }
    hi := i;
  }

  /** Title search: binary search over the title-sorted copy for an entry
      whose lower-cased title contains the lower-cased query; on a hit the
      block of matching entries around it, on a miss the plain filter over
      the original list. */
  method SearchByTitle(movies: seq<Movie>, query: string) returns (results: seq<Movie>)
    ensures forall x :: x in results ==> x in movies && TitleMatches(x, Lower(query))
    ensures results == [] <==> forall x :: x in movies ==> !TitleMatches(x, Lower(query))
    ensures results == FilterMatching(movies, Lower(query))
            || MatchRun(Sort(movies, TitleLe), Lower(query), results)
  {
    var sorted := Sort(movies, TitleLe);
    var term := Lower(query);
    var left, right := 0, |sorted| - 1;
    while left <= right
      invariant 0 <= left && right < |sorted|
      decreases right + 1 - left
    {
      var mid := (left + right) / 2;
      var midTitle := Lower(sorted[mid].title);
      if Includes(midTitle, term) {
        var lo, hi;
        results, lo, hi := CollectAround(sorted, Matcher(term), mid);
        RunSound(movies, term, results);
        return;
      } else if Less(midTitle, term) {
        left := mid + 1;
      } else {
        right := mid - 1;
      }
    }
    results := FilterMatching(movies, term);
  }

  /** Rating search: exact binary search over the rating-sorted copy. It
      finds a movie with the target rating whenever there is one. */
  method SearchByRating(movies: seq<Movie>, target: int) returns (r: Option<Movie>)
    ensures r.Some? ==> r.value in movies && r.value.rating == target
    ensures r.None? <==> forall x :: x in movies ==> x.rating != target
  {
    var sorted := Sort(movies, RatingLe);
    RatingSortedCopy(movies);
    var left, right := 0, |sorted| - 1;
    while left <= right
      invariant 0 <= left <= |sorted| && -1 <= right < |sorted|
      invariant forall j :: 0 <= j < left ==> sorted[j].rating < target
      invariant forall j :: right < j < |sorted| ==> sorted[j].rating > target
      decreases right + 1 - left
    {
      var mid := (left + right) / 2;
      if sorted[mid].rating == target {
        SortSameElements(movies, RatingLe, sorted[mid]);
        return Some(sorted[mid]);
      } else if sorted[mid].rating < target {
        assert forall j :: 0 <= j < mid ==> sorted[j].rating <= sorted[mid].rating;
        left := mid + 1;
      } else {
        assert forall j :: mid < j < |sorted| ==> sorted[mid].rating <= sorted[j].rating;
        right := mid - 1;
      }
    }
    forall x | x in movies ensures x.rating != target {
      SortSameElements(movies, RatingLe, x);
    }
    return None;
  }
}
