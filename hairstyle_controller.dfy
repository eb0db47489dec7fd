/** The hairstyle handlers' rules: the document createHairstyle saves, the
    field-by-field merge of updateHairstyle, and the two lookups. */
module HairstyleController {
  import opened Common
  import opened HairstyleModel

  ghost predicate TableValid(hairstyles: map<Id, Hairstyle>)
  {
    forall id :: id in hairstyles ==> HairstyleModel.Valid(hairstyles[id])
  }

  /** The six fields a request body may carry; None is undefined or null. */
  datatype HairstyleInput = HairstyleInput(
    name: Option<string>,
    description: Option<string>,
    imageUrls: Option<seq<string>>,
    tags: Option<seq<string>>,
    suitableFaceShapes: Option<seq<string>>,
    gender: Option<string>)

  // ----- createHairstyle -----

  /** createHairstyle: the supplied fields and the schema's defaults; None
      when the save is refused. */
  function Created(input: HairstyleInput): (r: Option<Hairstyle>)
    ensures r.Some? <==>
      Truthy(input.name) && Truthy(input.description)
      && (input.imageUrls.None? || ImageUrlsPresent(input.imageUrls.value))
      && input.gender.Some? && input.gender.value in Genders
    ensures r.Some? ==> HairstyleModel.Valid(r.value)
    ensures r.Some? ==>
      r.value.name == input.name.value && r.value.description == input.description.value
      && r.value.imageUrls == OrElseList(input.imageUrls, [])
      && r.value.tags == OrElseList(input.tags, [])
      && r.value.suitableFaceShapes == OrElseList(input.suitableFaceShapes, [])
      && r.value.gender == input.gender.value
    ensures r.Some? ==> r.value.averageRating == DefaultAverageRating && r.value.numReviews == DefaultNumReviews
  {
    HairstyleModel.Validate(HairstyleDraft(input.name, input.description, input.imageUrls, input.tags,
                                           input.suitableFaceShapes, input.gender, None, None))
  }

  /** The request body that would create exactly `h` again. */
  function InputOf(h: Hairstyle): HairstyleInput
  {
    HairstyleInput(Some(h.name), Some(h.description), Some(h.imageUrls), Some(h.tags), Some(h.suitableFaceShapes), Some(h.gender))
  }

  /** Every valid hairstyle with fresh counters can be created from its own fields. */
  lemma CreatedInputOf(h: Hairstyle)
    requires HairstyleModel.Valid(h) && h.averageRating == DefaultAverageRating && h.numReviews == DefaultNumReviews
    ensures Created(InputOf(h)) == Some(h)
  {
  }

  // ----- updateHairstyle -----

  /** updateHairstyle's six assignments `field || hairstyle.field`: a string
      is kept when absent or "", an array is kept only when absent (an empty
      array is truthy); the counters never change. */
  function Merged(h: Hairstyle, input: HairstyleInput): (r: Hairstyle)
    ensures r.name == (if Truthy(input.name) then input.name.value else h.name)
    ensures r.description == (if Truthy(input.description) then input.description.value else h.description)
    ensures r.gender == (if Truthy(input.gender) then input.gender.value else h.gender)
    ensures r.imageUrls == (if input.imageUrls.Some? then input.imageUrls.value else h.imageUrls)
    ensures r.tags == (if input.tags.Some? then input.tags.value else h.tags)
    ensures r.suitableFaceShapes == (if input.suitableFaceShapes.Some? then input.suitableFaceShapes.value else h.suitableFaceShapes)
    ensures r.averageRating == h.averageRating && r.numReviews == h.numReviews
  {
    h.(name := OrElse(input.name, h.name),
       description := OrElse(input.description, h.description),
       imageUrls := OrElseList(input.imageUrls, h.imageUrls),
       tags := OrElseList(input.tags, h.tags),
       suitableFaceShapes := OrElseList(input.suitableFaceShapes, h.suitableFaceShapes),
       gender := OrElse(input.gender, h.gender))
  }

  /** A body whose every field is absent or "" saves the document unchanged. */
  lemma MergedFalsyKeeps(h: Hairstyle, name: Option<string>, description: Option<string>, gender: Option<string>)
    requires !Truthy(name) && !Truthy(description) && !Truthy(gender)
    ensures Merged(h, HairstyleInput(name, description, None, None, None, gender)) == h
  {
  }

  /** An empty array in the body clears the stored one. */
  lemma MergedEmptyArrayOverwrites(h: Hairstyle)
    ensures Merged(h, HairstyleInput(None, None, Some([]), Some([]), Some([]), None)).imageUrls == []
    ensures Merged(h, HairstyleInput(None, None, Some([]), Some([]), Some([]), None)).tags == []
    ensures Merged(h, HairstyleInput(None, None, Some([]), Some([]), Some([]), None)).suitableFaceShapes == []
  {
  }

  /** Sending the same update twice changes nothing the second time. */
  lemma MergedIdempotent(h: Hairstyle, input: HairstyleInput)
    ensures Merged(Merged(h, input), input) == Merged(h, input)
  {
  }

  /** Merging every field of `g` into any document with the same counters gives `g`. */
  lemma MergedInputOf(h: Hairstyle, g: Hairstyle)
    requires g.name != "" && g.description != "" && g.gender != ""
    requires g.averageRating == h.averageRating && g.numReviews == h.numReviews
    ensures Merged(h, InputOf(g)) == g
  {
  }

  /** The save after the merge: refused when the merged document breaks the
      schema (a gender outside the enum, an empty image url). */
  function Updated(h: Hairstyle, input: HairstyleInput): (r: Option<Hairstyle>)
    ensures r.Some? <==> HairstyleModel.Valid(Merged(h, input))
    ensures r.Some? ==> r.value == Merged(h, input)
    ensures (HairstyleModel.Valid(h) && (input.gender.None? || input.gender.value == "" || input.gender.value in Genders)
             && (input.imageUrls.None? || ImageUrlsPresent(input.imageUrls.value))) ==> r.Some?
  {
    var m := Merged(h, input);
    if HairstyleModel.Valid(m) then Some(m) else None
  }

  // ----- getHairstyles and getHairstyleById -----

  /** The documents with the listed ids, paired with their ids. */
  function Entries(hairstyles: map<Id, Hairstyle>, ids: seq<Id>): (r: seq<(Id, Hairstyle)>)
    requires forall x :: x in ids ==> x in hairstyles
    ensures |r| == |ids|
    ensures forall i :: 0 <= i < |r| ==> r[i].0 == ids[i] && r[i].1 == hairstyles[ids[i]]
  {
    seq(|ids|, i requires 0 <= i < |ids| => (ids[i], hairstyles[ids[i]]))
  }

  /** getHairstyles: every stored hairstyle, once, in natural order. */
  function AllHairstyles(hairstyles: map<Id, Hairstyle>): (r: seq<(Id, Hairstyle)>)
    ensures |r| == |hairstyles|
    ensures forall i :: 0 <= i < |r| ==> r[i].0 in hairstyles && r[i].1 == hairstyles[r[i].0]
    ensures forall id :: id in hairstyles ==> exists i :: 0 <= i < |r| && r[i].0 == id
    ensures forall i, j :: 0 <= i < j < |r| ==> r[i].0 < r[j].0
  {
    var ids := Ascending(hairstyles.Keys);
    var r := Entries(hairstyles, ids);
    forall id | id in hairstyles
      ensures exists i :: 0 <= i < |r| && r[i].0 == id
    {
      var i :| 0 <= i < |ids| && ids[i] == id;
      assert r[i].0 == id;
    }
    r
  }

  /** getHairstyleById: the document with that id; None is the 404. */
  function HairstyleById(hairstyles: map<Id, Hairstyle>, id: Id): (r: Option<Hairstyle>)
    ensures r.Some? <==> id in hairstyles
    ensures r.Some? ==> r.value == hairstyles[id]
  {
    Get(hairstyles, id)
  }

  /** Each document listed by getHairstyles is what getHairstyleById answers for its id. */
  lemma ListingAgreesWithLookup(hairstyles: map<Id, Hairstyle>, i: nat)
    requires i < |AllHairstyles(hairstyles)|
    ensures HairstyleById(hairstyles, AllHairstyles(hairstyles)[i].0) == Some(AllHairstyles(hairstyles)[i].1)
  {
  }
}
