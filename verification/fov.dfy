/** `estimate_fov` in tools/extract_metadata.py: the horizontal field of
    view guessed from a video's container tags. The tags come from ffprobe's
    JSON output; the degrees for a 35 mm-equivalent focal length
    (`2 * atan(36 / (2 * f))` in degrees, rounded to two places) are a
    parameter `fovOf`. */
module FovEstimate {
  import opened Wrappers
  import opened Text

  /** The `format` object of ffprobe's output, with its optional `tags`. */
  datatype Format = Format(tags: Option<map<string, string>>)

  /** ffprobe's output, with its optional `format` object. */
  datatype Metadata = Metadata(format: Option<Format>)

  const AppleMake: string := "com.apple.quicktime.make"
  const AppleModel: string := "com.apple.quicktime.model"
  const PlainMake: string := "make"
  const PlainModel: string := "model"

  /** The value returned when no focal length is known. */
  const DefaultFov: real := 73.0

  /** `metadata.get("format", {}).get("tags", {})`. */
  function FormatTags(m: Metadata): map<string, string>
  {
    match m.format
    case None => map[]
    case Some(f) => f.tags.GetOr(map[])
  }

  /** `tags.get(key, "")`. */
  function Tag(tags: map<string, string>, key: string): string
  {
    if key in tags then tags[key] else ""
  }

  /** The lower-cased Apple tag, or the lower-cased plain tag when the Apple
      one is missing or empty. */
  function TagWithFallback(tags: map<string, string>, apple: string, plain: string): string
  {
    var v := Lower(Tag(tags, apple));
    if v == [] then Lower(Tag(tags, plain)) else v
  }

  /** The make, which `estimate_fov` only reports. */
  function MakeOf(m: Metadata): string
  {
    TagWithFallback(FormatTags(m), AppleMake, PlainMake)
  }

  function ModelOf(m: Metadata): string
  {
    TagWithFallback(FormatTags(m), AppleModel, PlainModel)
  }

  /** The 35 mm-equivalent focal length of the main camera, when the model
      is known: 24 mm for the 14, 15 and 16 Pro iPhones, 26 mm for the
      13 Pro and every other iPhone. */
  function FocalLength(model: string): Option<real>
  {
    if Contains(model, "iphone") then
      if Contains(model, "14 pro") || Contains(model, "15 pro") || Contains(model, "16 pro") then Some(24.0)
      else if Contains(model, "13 pro") then Some(26.0)
      else Some(26.0)
    else None
  }

  /** `estimate_fov`. */
  function EstimateFov(m: Metadata, fovOf: real -> real): (r: real)
    ensures r == fovOf(24.0) || r == fovOf(26.0) || r == DefaultFov
  {
    match FocalLength(ModelOf(m))
    case Some(f) => fovOf(f)
    case None => DefaultFov
  }

  /** A recent Pro iPhone, by its lower-cased model string. */
  ghost predicate RecentPro(model: string) {
    exists k :: OccursAt(model, "14 pro", k) || OccursAt(model, "15 pro", k) || OccursAt(model, "16 pro", k)
  }

  ghost predicate IsIphone(model: string) {
    exists k :: OccursAt(model, "iphone", k)
  }

  /** The decision, stated with substring occurrences: an iPhone model with
      `14 pro`, `15 pro` or `16 pro` in it gets 24 mm, any other iPhone
      26 mm, and anything else the default. */
  lemma EstimateFovSpec(m: Metadata, fovOf: real -> real)
    ensures IsIphone(ModelOf(m)) && RecentPro(ModelOf(m)) ==> EstimateFov(m, fovOf) == fovOf(24.0)
    ensures IsIphone(ModelOf(m)) && !RecentPro(ModelOf(m)) ==> EstimateFov(m, fovOf) == fovOf(26.0)
    ensures !IsIphone(ModelOf(m)) ==> EstimateFov(m, fovOf) == DefaultFov
  {
    var model := ModelOf(m);
    ContainsIff(model, "iphone");
    ContainsIff(model, "14 pro");
    ContainsIff(model, "15 pro");
    ContainsIff(model, "16 pro");
    assert RecentPro(model) <==>
      (Contains(model, "14 pro") || Contains(model, "15 pro") || Contains(model, "16 pro"));
  }

  /** The make never affects the result: two inputs whose model tags agree
      get the same estimate. */
  lemma MakeIrrelevant(m1: Metadata, m2: Metadata, fovOf: real -> real)
    requires Tag(FormatTags(m1), AppleModel) == Tag(FormatTags(m2), AppleModel)
    requires Tag(FormatTags(m1), PlainModel) == Tag(FormatTags(m2), PlainModel)
    ensures EstimateFov(m1, fovOf) == EstimateFov(m2, fovOf)
  {
  }

  /** Tags are compared without regard to ASCII case. */
  lemma CaseInsensitive(m1: Metadata, m2: Metadata, fovOf: real -> real)
    requires Lower(Tag(FormatTags(m1), AppleModel)) == Lower(Tag(FormatTags(m2), AppleModel))
    requires Lower(Tag(FormatTags(m1), PlainModel)) == Lower(Tag(FormatTags(m2), PlainModel))
    ensures EstimateFov(m1, fovOf) == EstimateFov(m2, fovOf)
  {
  }

  /** A non-empty Apple model tag wins over the plain one; when the Apple
      tag is missing or empty, the plain `model` tag, lower-cased, is used
      (and an absent plain tag reads as empty). */
  lemma AppleTagFirst(tags: map<string, string>)
    ensures AppleModel in tags && tags[AppleModel] != [] ==>
      TagWithFallback(tags, AppleModel, PlainModel) == Lower(tags[AppleModel])
    ensures AppleModel !in tags || tags[AppleModel] == [] ==>
      TagWithFallback(tags, AppleModel, PlainModel)
        == (if PlainModel in tags then Lower(tags[PlainModel]) else [])
  {
  }

  /** Without a `format` object, or without tags in it, the default comes
      back. */
  lemma NoTagsDefault(m: Metadata, fovOf: real -> real)
    requires m.format.None? || m.format.value.tags.None?
    ensures EstimateFov(m, fovOf) == DefaultFov
  {
    assert ModelOf(m) == [];
    assert !Contains([], "iphone");
  }

  /** An iPhone model string without a `4`, `5` or `6` in it, such as
      "iphone 13 pro" or "iphone 12", gets the generic 26 mm. */
  lemma OlderIphone(m: Metadata, fovOf: real -> real)
    requires Contains(ModelOf(m), "iphone")
    requires '4' !in ModelOf(m) && '5' !in ModelOf(m) && '6' !in ModelOf(m)
    ensures EstimateFov(m, fovOf) == fovOf(26.0)
  {
    var model := ModelOf(m);
    MissingCharNotContained(model, "14 pro", 1);
    MissingCharNotContained(model, "15 pro", 1);
    MissingCharNotContained(model, "16 pro", 1);
  }
}
