/** The reviews page of a group (public/assets/js/single-reviews.js): the five-star rendering of
    one review, the summary stars of the group, the tab that re-sorts the reviews in place, and
    the search box. Ratings are exact reals: the page only compares them with small integers
    and rounds them down. */
module Reviews {
  import opened Common
  import opened Sorting

  /** A review as the page holds it. */
  datatype Review = Review(
    id: nat,
    userName: string,
    content: string,
    rating: real,
    helpfulCount: int,
    createdAt: int,
    recommends: bool)

  // ---------------------------------------------------------------------------
  // generateStars

  const FilledStar := "<i class=\"fas fa-star\"></i>"
  const EmptyStar := "<i class=\"far fa-star\"></i>"

  /** Every icon is 27 characters long, so the markup can be cut back into icons. */
  function Icon(filled: bool): (s: string)
    ensures |s| == 27
  {
    if filled then FilledStar else EmptyStar
  }

  /** The first n stars of a rating, left to right: star i (counting from 1) is filled when i
      is at most the rating. */
  function Stars(rating: real, n: nat): (s: string)
    ensures |s| == 27 * n
  {
    if n == 0 then "" else Stars(rating, n - 1) + Icon(n as real <= rating)
  }

  /** generateStars: five icons appended in a loop, the i-th filled when i <= rating. */
  method GenerateStars(rating: real) returns (stars: string)
    ensures stars == Stars(rating, 5)
    ensures |stars| == 5 * 27
  {
    stars := "";
    var i := 1;
    while i <= 5
      invariant 1 <= i <= 6
      invariant stars == Stars(rating, i - 1)
    {
      stars := stars + Icon(i as real <= rating);
      i := i + 1;
    }
  }

  /** The markup of a rating is five icons in a row, the i-th (counting from 1) filled exactly
      when i <= rating: a whole rating r fills its first r stars and no more. */
  lemma StarsShowRating(rating: real)
    ensures Stars(rating, 5)
         == Icon(1.0 <= rating) + Icon(2.0 <= rating) + Icon(3.0 <= rating) + Icon(4.0 <= rating) + Icon(5.0 <= rating)
  {
    var s1, s2, s3, s4 := Icon(1.0 <= rating), Icon(2.0 <= rating), Icon(3.0 <= rating), Icon(4.0 <= rating);
    assert Stars(rating, 1) == s1 by {
      assert Stars(rating, 0) == [];
    }
    assert Stars(rating, 2) == s1 + s2;
    assert Stars(rating, 3) == s1 + s2 + s3;
    assert Stars(rating, 4) == s1 + s2 + s3 + s4;
  }

  // ---------------------------------------------------------------------------
  // renderReviewStats

  /** `rating || 4.6`: an absent or zero rating shows the page's placeholder. */
  function ShownRating(rating: Option<real>): (r: real)
    ensures rating.Some? && rating.value != 0.0 ==> r == rating.value
    ensures rating.None? || rating.value == 0.0 ==> r == 4.6
  {
    if rating.Some? && rating.value != 0.0 then rating.value else 4.6
  }

  /** The summary stars: of the `count` star icons on the page, the one at index k is filled
      when k is below the rating rounded down. */
  function SummaryStars(rating: Option<real>, count: nat): (f: seq<bool>)
    ensures |f| == count
    ensures forall k :: 0 <= k < count ==> (f[k] <==> k < ShownRating(rating).Floor)
  {
    var whole := ShownRating(rating).Floor;
    seq(count, k requires 0 <= k < count => k < whole)
  }

  /** Without a rating, four of five summary stars are filled. */
  lemma PlaceholderFillsFour()
    ensures SummaryStars(None, 5) == [true, true, true, true, false]
  {
    assert (4.6).Floor == 4;
  }

  // ---------------------------------------------------------------------------
  // The page: sortReviews and switchTab

  function Helpful(r: Review): int {
    r.helpfulCount
  }

  function Recency(r: Review): int {
    r.createdAt
  }

  /** The reviews as the page holds them, and the tab last chosen. */
  class ReviewsPage {
    var reviews: seq<Review>
    var currentTab: string

    /** A fresh page starts on 'most-helpful' with no reviews loaded. */
    constructor ()
      ensures reviews == [] && currentTab == "most-helpful"
    {
      reviews := [];
      currentTab := "most-helpful";
    }

    /** sortReviews: 'most-helpful' sorts by helpful count and 'most-recent' by creation time,
        largest first and keeping ties in their order; any other tab leaves the list alone. In
        every case the list keeps the same reviews. */
    method SortReviews(tab: string)
      modifies this
      ensures currentTab == old(currentTab)
      ensures multiset(reviews) == multiset(old(reviews))
      ensures tab == "most-helpful" ==> reviews == SortDesc(old(reviews), Helpful) && SortedDesc(reviews, Helpful)
      ensures tab == "most-recent" ==> reviews == SortDesc(old(reviews), Recency) && SortedDesc(reviews, Recency)
      ensures tab != "most-helpful" && tab != "most-recent" ==> reviews == old(reviews)
    {
      if tab == "most-helpful" {
        reviews := SortDesc(reviews, Helpful);
      } else if tab == "most-recent" {
        reviews := SortDesc(reviews, Recency);
      }
    }

    /** switchTab: records the tab, then sorts for it. */
    method SwitchTab(tab: string)
      modifies this
      ensures currentTab == tab
      ensures multiset(reviews) == multiset(old(reviews))
      ensures tab == "most-helpful" ==> reviews == SortDesc(old(reviews), Helpful)
      ensures tab == "most-recent" ==> reviews == SortDesc(old(reviews), Recency)
      ensures tab != "most-helpful" && tab != "most-recent" ==> reviews == old(reviews)
    {
      currentTab := tab;
      SortReviews(tab);
    }
  }

  /** Choosing the same tab twice gives the order of choosing it once. */
  lemma SortTwiceIsSortOnce(s: seq<Review>, key: Review -> int)
    ensures SortDesc(SortDesc(s, key), key) == SortDesc(s, key)
  {
    SortSortedKeeps(SortDesc(s, key), key);
  }

  // ---------------------------------------------------------------------------
  // filterReviews

  /** A review matches when its content or its author's name contains the term, ignoring case. */
  predicate ReviewMatches(r: Review, term: string) {
    Contains(Lower(r.content), Lower(term)) || Contains(Lower(r.userName), Lower(term))
  }

  function Filtered(reviews: seq<Review>, term: string): (r: seq<Review>)
    ensures forall x :: x in r <==> x in reviews && ReviewMatches(x, term)
    ensures |r| <= |reviews|
  {
    if reviews == [] then []
    else
      var rest := Filtered(reviews[1..], term);
      assert forall x :: x in reviews <==> x == reviews[0] || x in reviews[1..];
      if ReviewMatches(reviews[0], term) then [reviews[0]] + rest else rest
  }

  /** A single review is kept exactly when it matches. */
  lemma FilteredOne(x: Review, term: string)
    ensures Filtered([x], term) == if ReviewMatches(x, term) then [x] else []
  {
    assert [x][1..] == [];
  }

  /** Filtering a list is filtering its two halves and joining the results: the kept reviews
      stay in order, each as often as it occurs. */
  lemma {:induction false} FilteredAppend(a: seq<Review>, b: seq<Review>, term: string)
    ensures Filtered(a + b, term) == Filtered(a, term) + Filtered(b, term)
  {
    if a == [] {
      assert a + b == b;
    } else {
      assert (a + b)[1..] == a[1..] + b;
      FilteredAppend(a[1..], b, term);
    }
  }

  /** filterReviews: a blank term shows every review; otherwise the matching ones, in order. */
  function FilterReviews(reviews: seq<Review>, term: string): (r: seq<Review>)
    ensures Trim(term) == [] ==> r == reviews
    ensures Trim(term) != [] ==> forall x :: x in r <==> x in reviews && ReviewMatches(x, term)
  {
    if Trim(term) == [] then reviews else Filtered(reviews, term)
  }
}
