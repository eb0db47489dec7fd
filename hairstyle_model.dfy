/** The Hairstyle document: required name and description, non-empty image
    urls, the gender enum and the counter defaults. */
module HairstyleModel {
  import opened Common

  const Genders: set<string> := {"ชาย", "หญิง", "Unisex"}
  const DefaultAverageRating: real := 0.0
  const DefaultNumReviews: int := 0

  datatype Hairstyle = Hairstyle(
    name: string,
    description: string,
    imageUrls: seq<string>,
    tags: seq<string>,
    suitableFaceShapes: seq<string>,
    gender: string,
    averageRating: real,
    numReviews: int)

  /** Every element of `imageUrls` is required, so none may be "". */
  predicate ImageUrlsPresent(urls: seq<string>)
  {
    forall i :: 0 <= i < |urls| ==> urls[i] != ""
  }

  predicate Valid(h: Hairstyle)
  {
    h.name != "" && h.description != "" && ImageUrlsPresent(h.imageUrls) && h.gender in Genders
  }

  datatype HairstyleDraft = HairstyleDraft(
    name: Option<string>,
    description: Option<string>,
    imageUrls: Option<seq<string>>,
    tags: Option<seq<string>>,
    suitableFaceShapes: Option<seq<string>>,
    gender: Option<string>,
    averageRating: Option<real>,
    numReviews: Option<int>)

  /** Defaults (empty arrays, zero counters) then validation, as on `save`. */
  function Validate(d: HairstyleDraft): (r: Option<Hairstyle>)
    ensures r.Some? <==>
      Truthy(d.name) && Truthy(d.description)
      && (d.imageUrls.None? || ImageUrlsPresent(d.imageUrls.value))
      && d.gender.Some? && d.gender.value in Genders
    ensures r.Some? ==> Valid(r.value)
    ensures r.Some? ==>
      r.value.name == d.name.value && r.value.description == d.description.value && r.value.gender == d.gender.value
    ensures r.Some? ==>
      r.value.imageUrls == (if d.imageUrls.Some? then d.imageUrls.value else [])
      && r.value.tags == (if d.tags.Some? then d.tags.value else [])
      && r.value.suitableFaceShapes == (if d.suitableFaceShapes.Some? then d.suitableFaceShapes.value else [])
    ensures r.Some? && d.averageRating.None? ==> r.value.averageRating == DefaultAverageRating
    ensures r.Some? && d.numReviews.None? ==> r.value.numReviews == DefaultNumReviews
  {
    var urls := if d.imageUrls.Some? then d.imageUrls.value else [];
    var tags := if d.tags.Some? then d.tags.value else [];
    var shapes := if d.suitableFaceShapes.Some? then d.suitableFaceShapes.value else [];
    var rating := if d.averageRating.Some? then d.averageRating.value else DefaultAverageRating;
    var count := if d.numReviews.Some? then d.numReviews.value else DefaultNumReviews;
    if Truthy(d.name) && Truthy(d.description) && ImageUrlsPresent(urls) && d.gender.Some? && d.gender.value in Genders then
      Some(Hairstyle(d.name.value, d.description.value, urls, tags, shapes, d.gender.value, rating, count))
    else
      None
  }

  function DraftOf(h: Hairstyle): HairstyleDraft
  {
    HairstyleDraft(Some(h.name), Some(h.description), Some(h.imageUrls), Some(h.tags),
                   Some(h.suitableFaceShapes), Some(h.gender), Some(h.averageRating), Some(h.numReviews))
  }

  lemma ValidateDraftOf(h: Hairstyle)
    ensures Validate(DraftOf(h)) == (if Valid(h) then Some(h) else None)
  {
  }
}
