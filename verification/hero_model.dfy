/**
The hero slide schema: which fields are required, which have defaults, and the
enumeration its `type` field is restricted to. Saving a document runs the
schema's validators; a document that fails any of them is not stored.
*/
module HeroModel {
  import opened Wrappers

  /** The two values the `type` enumeration admits. */
  datatype SlideType = ProductSlide | ComingSoon

  const ProductName: string := "product"
  const ComingSoonName: string := "coming_soon"

  function SlideTypeName(t: SlideType): string {
    match t
    case ProductSlide => ProductName
    case ComingSoon => ComingSoonName
  }

  /** The enum validator: only the two listed spellings are accepted. */
  function ParseSlideType(s: string): (t: Option<SlideType>)
    ensures t.Some? ==> SlideTypeName(t.value) == s
  {
    if s == ProductName then Some(ProductSlide)
    else if s == ComingSoonName then Some(ComingSoon)
    else None
  }

  lemma SlideTypeRoundTrip(t: SlideType)
    ensures ParseSlideType(SlideTypeName(t)) == Some(t)
  {
  }

  /** A slide as stored. `description` and `productId` are optional paths. */
  datatype HeroSlide = HeroSlide(
    image: string,
    heading: string,
    subHeading: string,
    description: Option<string>,
    productCode: string,
    isActive: bool,
    kind: SlideType,
    productId: Option<string>)

  /** A document about to be saved: any path may still be unset, and `type` is raw text. */
  datatype HeroDraft = HeroDraft(
    image: Option<string>,
    heading: Option<string>,
    subHeading: Option<string>,
    description: Option<string>,
    productCode: Option<string>,
    isActive: Option<bool>,
    kind: Option<string>,
    productId: Option<string>)

  /** What the `required` validator on a String path accepts: set and not empty. */
  predicate Present(s: Option<string>) {
    s.Some? && s.value != ""
  }

  /** A stored slide never lacks a required field. */
  predicate WellFormed(s: HeroSlide) {
    s.image != "" && s.heading != "" && s.subHeading != "" && s.productCode != ""
  }

  datatype Validation = Valid(slide: HeroSlide) | Rejected(paths: seq<string>)

  function Check(ok: bool, path: string): seq<string> {
    if ok then [] else [path]
  }

  /** The required paths, and all paths that carry a validator, in schema order. */
  const RequiredPaths: seq<string> := ["image", "heading", "subHeading", "productCode"]
  const SchemaPaths: seq<string> := RequiredPaths + ["type"]

  /** The failing `required` validators, in schema order. */
  function MissingPaths(d: HeroDraft): (paths: seq<string>)
    ensures "image" in paths <==> !Present(d.image)
    ensures "heading" in paths <==> !Present(d.heading)
    ensures "subHeading" in paths <==> !Present(d.subHeading)
    ensures "productCode" in paths <==> !Present(d.productCode)
    ensures forall p :: p in paths ==> p in RequiredPaths
  {
    Check(Present(d.image), "image")
    + Check(Present(d.heading), "heading")
    + Check(Present(d.subHeading), "subHeading")
    + Check(Present(d.productCode), "productCode")
  }

  /** The paths whose validator fails, in schema order. */
  function FailingPaths(d: HeroDraft): (paths: seq<string>)
    ensures "image" in paths <==> !Present(d.image)
    ensures "heading" in paths <==> !Present(d.heading)
    ensures "subHeading" in paths <==> !Present(d.subHeading)
    ensures "productCode" in paths <==> !Present(d.productCode)
    ensures "type" in paths <==> d.kind.Some? && ParseSlideType(d.kind.value).None?
    ensures forall p :: p in paths ==> p in SchemaPaths
  {
    assert "type" !in RequiredPaths;
    MissingPaths(d) + Check(d.kind.None? || ParseSlideType(d.kind.value).Some?, "type")
  }

  /**
  `document.save()`: defaults fill the unset paths (`isActive` true, `type`
  "product"), then every validator runs; the document is stored only when none fails.
  */
  function Save(d: HeroDraft): (v: Validation)
    ensures v.Valid? <==> Present(d.image) && Present(d.heading) && Present(d.subHeading)
                          && Present(d.productCode)
                          && (d.kind.None? || ParseSlideType(d.kind.value).Some?)
    ensures v.Valid? ==> WellFormed(v.slide)
    ensures v.Valid? ==> v.slide.image == d.image.value && v.slide.heading == d.heading.value
                         && v.slide.subHeading == d.subHeading.value
                         && v.slide.productCode == d.productCode.value
    ensures v.Valid? ==> v.slide.isActive == d.isActive.GetOr(true)
    ensures v.Valid? && d.kind.None? ==> v.slide.kind == ProductSlide
    ensures v.Valid? && d.kind.Some? ==> SlideTypeName(v.slide.kind) == d.kind.value
    ensures v.Valid? ==> v.slide.description == d.description && v.slide.productId == d.productId
    ensures v.Rejected? ==> |v.paths| > 0
  {
    var paths := FailingPaths(d);
    if paths != [] then Rejected(paths)
    else
      var kind := if d.kind.None? then ProductSlide else ParseSlideType(d.kind.value).value;
      Valid(HeroSlide(d.image.value, d.heading.value, d.subHeading.value, d.description,
                      d.productCode.value, d.isActive.GetOr(true), kind, d.productId))
  }

  /** The draft a loaded slide becomes before its paths are reassigned. */
  function DraftOf(s: HeroSlide): HeroDraft {
    HeroDraft(Some(s.image), Some(s.heading), Some(s.subHeading), s.description,
              Some(s.productCode), Some(s.isActive), Some(SlideTypeName(s.kind)), s.productId)
  }

  /** Saving a stored slide unchanged stores it again, exactly. */
  lemma SaveDraftOf(s: HeroSlide)
    requires WellFormed(s)
    ensures Save(DraftOf(s)) == Valid(s)
  {
    SlideTypeRoundTrip(s.kind);
  }

  /** A value outside the enumeration is rejected at `type`, whatever the other paths hold. */
  lemma UnknownTypeRejected(d: HeroDraft)
    requires d.kind.Some? && d.kind.value != ProductName && d.kind.value != ComingSoonName
    ensures Save(d).Rejected? && "type" in Save(d).paths
  {
  }
}
