/** `standardize_rating`: brings a rating onto the 0-5 scale by guessing
    the scale it was given on. A missing rating is `None` (pandas' NaN after
    coercion). */
module Ratings {
  import opened Wrappers

  const MaxStars: real := 5.0

  /** A rating on the 5-point scale. */
  predicate OnFivePointScale(x: real) {
    0.0 <= x <= MaxStars
  }

  /** The three buckets, tried in order: [0, 5] is kept, [0, 10] is halved,
      [0, 100] is read as a percentage; anything else is dropped. */
  function StandardizeRating(rating: Option<real>): (r: Option<real>)
    ensures r.Some? ==> OnFivePointScale(r.value)
    ensures r.None? <==> rating.None? || rating.value < 0.0 || rating.value > 100.0
  {
    if rating.None? then None
    else
      var x := rating.value;
      if 0.0 <= x <= 5.0 then Some(x)
      else if 0.0 <= x <= 10.0 then Some(x / 2.0)
      else if 0.0 <= x <= 100.0 then Some(x / 20.0)
      else None
  }

  /** Each bucket in terms of the scale the rating is read on: the result,
      scaled back up by the bucket's factor, is the input. Exact 5 and exact
      10 belong to the lower bucket. */
  lemma RatingBuckets(x: real)
    ensures 0.0 <= x <= 5.0 ==> StandardizeRating(Some(x)) == Some(x)
    ensures 5.0 < x <= 10.0 ==> StandardizeRating(Some(x)).Some? && StandardizeRating(Some(x)).value * 2.0 == x
    ensures 10.0 < x <= 100.0 ==> StandardizeRating(Some(x)).Some? && StandardizeRating(Some(x)).value * 20.0 == x
  {
  }

  /** A present rating is left unchanged exactly when it is already on the
      5-point scale. */
  lemma RatingFixedPointIff(x: real)
    ensures StandardizeRating(Some(x)) == Some(x) <==> OnFivePointScale(x)
  {
  }

  /** Standardising a standardised rating changes nothing. */
  lemma RatingIdempotent(rating: Option<real>)
    ensures StandardizeRating(StandardizeRating(rating)) == StandardizeRating(rating)
  {
  }

  /** Standardising never raises a rating. */
  lemma RatingNeverGrows(x: real)
    requires StandardizeRating(Some(x)).Some?
    ensures StandardizeRating(Some(x)).value <= x
  {
  }

  /** Within one bucket, the standardisation keeps the order of ratings. */
  lemma RatingMonotoneWithinBucket(x: real, y: real)
    requires x <= y
    requires (0.0 <= x && y <= 5.0) || (5.0 < x && y <= 10.0) || (10.0 < x && y <= 100.0)
    ensures StandardizeRating(Some(x)).value <= StandardizeRating(Some(y)).value
  {
  }

  /** Across buckets the order is not kept: 5 stays 5 while 6, read on the
      10-point scale, becomes 3. */
  lemma RatingOrderAcrossBuckets()
    ensures StandardizeRating(Some(5.0)).value > StandardizeRating(Some(6.0)).value
  {
  }

  lemma RatingExamples()
    ensures StandardizeRating(Some(4.5)) == Some(4.5)
    ensures StandardizeRating(Some(5.0)) == Some(5.0)
    ensures StandardizeRating(Some(8.0)) == Some(4.0)
    ensures StandardizeRating(Some(10.0)) == Some(5.0)
    ensures StandardizeRating(Some(85.0)) == Some(4.25)
    ensures StandardizeRating(Some(100.0)) == Some(5.0)
    ensures StandardizeRating(Some(150.0)) == None
    ensures StandardizeRating(Some(-1.0)) == None
    ensures StandardizeRating(None) == None
  {
  }
}
