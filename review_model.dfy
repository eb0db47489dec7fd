/** The Review document: a rating between 1 and 5, an optional comment and
    two required references. No handler of the modelled core stores reviews. */
module ReviewModel {
  import opened Common

  const MinRating: int := 1
  const MaxRating: int := 5

  /** `rating` is a Number in the source; the model keeps integers. */
  datatype Review = Review(rating: int, comment: Option<string>, user: Id, hairstyle: Id)

  predicate Valid(r: Review)
  {
    MinRating <= r.rating <= MaxRating
  }

  datatype ReviewDraft = ReviewDraft(
    rating: Option<int>,
    comment: Option<string>,
    user: Option<Id>,
    hairstyle: Option<Id>)

  /** Mongoose validation on save: None when the save is refused. */
  function Validate(d: ReviewDraft): (r: Option<Review>)
    ensures r.Some? <==>
      d.rating.Some? && MinRating <= d.rating.value <= MaxRating && d.user.Some? && d.hairstyle.Some?
    ensures r.Some? ==> Valid(r.value)
    ensures r.Some? ==>
      r.value.rating == d.rating.value && r.value.comment == d.comment
      && r.value.user == d.user.value && r.value.hairstyle == d.hairstyle.value
  {
    if d.rating.Some? && MinRating <= d.rating.value <= MaxRating && d.user.Some? && d.hairstyle.Some? then
      Some(Review(d.rating.value, d.comment, d.user.value, d.hairstyle.value))
    else
      None
  }

  function DraftOf(r: Review): ReviewDraft
  {
    ReviewDraft(Some(r.rating), r.comment, Some(r.user), Some(r.hairstyle))
  }

  lemma ValidateDraftOf(r: Review)
    ensures Validate(DraftOf(r)) == (if Valid(r) then Some(r) else None)
  {
  }
}
