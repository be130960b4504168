/** Images as the copy tool sees them (an id, the parsed references, and the
    engine's handle), how an engine image is turned into one, and the tag
    migration that derives destination references from source references. */
module Images {
  import opened Wrappers
  import opened ImageTags

  /** An engine image wrapped for the tool. The handle `H` is the engine's
      own object; the model only passes it along. */
  datatype Image<H> = Image(id: string, tags: seq<ImageTag>, handle: H)

  /** One engine call `handle.tag(repository, tag=tag)`. */
  datatype TagCall<H> = TagCall(target: H, repository: string, tag: string)

  /** What a migration returns: the image with its new tag list, and the
      engine tag calls it issued, in order. */
  datatype Migration<H> = Migration(image: Image<H>, calls: seq<TagCall<H>>)

  /** Parses every raw reference in order, stopping at the first one the
      parser rejects (a list comprehension that raises). */
  function ParseTags(raw: seq<string>, parse: string -> Result<ImageTag, ParseError>)
    : (r: Result<seq<ImageTag>, ParseError>)
    ensures r.Success? <==> forall k :: 0 <= k < |raw| ==> parse(raw[k]).Success?
    ensures r.Success? ==>
      |r.value| == |raw| && forall k :: 0 <= k < |raw| ==> parse(raw[k]) == Success(r.value[k])
    ensures r.Failure? ==>
      exists k :: 0 <= k < |raw| && parse(raw[k]) == Failure(r.error)
        && forall j :: 0 <= j < k ==> parse(raw[j]).Success?
    decreases |raw|
  {
    if |raw| == 0 then Success([])
    else
      match parse(raw[0])
      case Failure(e) => Failure(e)
      case Success(t) =>
        match ParseTags(raw[1..], parse)
        case Failure(e) =>
          ghost var k :| 0 <= k < |raw[1..]| && parse(raw[1..][k]) == Failure(e)
            && forall j :: 0 <= j < k ==> parse(raw[1..][j]).Success?;
          assert parse(raw[k + 1]) == Failure(e);
          Failure(e)
        case Success(ts) => Success([t] + ts)
  }

  /** Wraps an engine image with the current parser. It fails on the first
      raw reference without a colon; otherwise the parsed references print
      back to the raw ones, one for one and in order. */
  function FormatImage<H>(id: string, raw: seq<string>, handle: H): (r: Result<Image<H>, ParseError>)
    ensures r.Success? <==> forall k :: 0 <= k < |raw| ==> Colon in raw[k]
    ensures r.Success? ==>
      && r.value.id == id && r.value.handle == handle && |r.value.tags| == |raw|
      && forall k :: 0 <= k < |raw| ==> r.value.tags[k].Uri() == raw[k] && Colon !in r.value.tags[k].tag
    ensures r.Failure? ==>
      exists k :: 0 <= k < |raw| && Colon !in raw[k] && r.error == InvalidTagName(raw[k])
        && forall j :: 0 <= j < k ==> Colon in raw[j]
  {
    match ParseTags(raw, FromString)
    case Success(tags) => Success(Image(id, tags, handle))
    case Failure(e) => Failure(e)
  }

  /** Wraps an engine image with the legacy parser: every raw reference must
      have exactly one colon. */
  function FormatImageLegacy<H>(id: string, raw: seq<string>, handle: H): (r: Result<Image<H>, ParseError>)
    ensures r.Success? <==> forall k :: 0 <= k < |raw| ==> Text.Count(raw[k], Colon) == 1
    ensures r.Success? ==>
      && r.value.id == id && r.value.handle == handle && |r.value.tags| == |raw|
      && forall k :: 0 <= k < |raw| ==> r.value.tags[k].Uri() == raw[k]
    ensures r.Failure? ==>
      exists k :: 0 <= k < |raw| && Text.Count(raw[k], Colon) != 1 && r.error == InvalidTagName(raw[k])
        && forall j :: 0 <= j < k ==> Text.Count(raw[j], Colon) == 1
  {
    match ParseTags(raw, FromStringLegacy)
    case Success(tags) => Success(Image(id, tags, handle))
    case Failure(e) => Failure(e)
  }

  /** The references a migration derives, in the order of the originals: one
      `dst:tag` for each reference whose repository starts with `src`. */
  function DerivedTags(tags: seq<ImageTag>, src: string, dst: string): (d: seq<ImageTag>)
    ensures |d| <= |tags|
    ensures forall k :: 0 <= k < |d| ==> d[k].repository == dst
    decreases |tags|
  {
    if |tags| == 0 then []
    else
      (if src <= tags[0].repository then [ImageTag(dst, tags[0].tag)] else [])
      + DerivedTags(tags[1..], src, dst)
  }

  /** Derivation works reference by reference: the derived tags of a
      concatenation are the derived tags of each part, in order. */
  lemma {:induction false} DerivedTagsAppend(a: seq<ImageTag>, b: seq<ImageTag>, src: string, dst: string)
    ensures DerivedTags(a + b, src, dst) == DerivedTags(a, src, dst) + DerivedTags(b, src, dst)
    decreases |a|
  {
    if |a| == 0 {
      assert a + b == b;
    } else {
      assert (a + b)[0] == a[0];
      assert (a + b)[1..] == a[1..] + b;
      DerivedTagsAppend(a[1..], b, src, dst);
    }
  }

  /** The loop's append step: visiting one more original appends its derived
      reference when its repository starts with `src`, and nothing else. */
  lemma DerivedTagsSnoc(tags: seq<ImageTag>, t: ImageTag, src: string, dst: string)
    ensures DerivedTags(tags + [t], src, dst)
      == DerivedTags(tags, src, dst) + (if src <= t.repository then [ImageTag(dst, t.tag)] else [])
  {
    DerivedTagsAppend(tags, [t], src, dst);
    assert [t][1..] == [];
  }

  /** A reference is derived exactly when it lies in `dst` and carries the
      tag of some original whose repository starts with `src`. */
  lemma {:induction false} DerivedTagsMembership(tags: seq<ImageTag>, src: string, dst: string)
    ensures forall u :: u in DerivedTags(tags, src, dst) <==>
      u.repository == dst && exists t :: t in tags && src <= t.repository && t.tag == u.tag
    decreases |tags|
  {
    if |tags| > 0 {
      DerivedTagsMembership(tags[1..], src, dst);
      assert tags == [tags[0]] + tags[1..];
    }
  }

  /** `migrate_tags`: the original references, then the derived ones. Ids
      and handle are unchanged. With `apply` set, one engine tag call per
      derived reference, in the same order; in a dry run, none. */
  function MigrateTags<H>(image: Image<H>, src: string, dst: string, apply: bool): (r: Migration<H>)
    ensures r.image.id == image.id && r.image.handle == image.handle
    ensures |image.tags| <= |r.image.tags| && r.image.tags[..|image.tags|] == image.tags
    ensures r.image.tags[|image.tags|..] == DerivedTags(image.tags, src, dst)
    ensures forall u :: u in r.image.tags[|image.tags|..] <==>
      u.repository == dst && exists t :: t in image.tags && src <= t.repository && t.tag == u.tag
    ensures !apply ==> r.calls == []
    ensures apply ==> |r.calls| == |r.image.tags| - |image.tags|
    ensures apply ==> forall k :: 0 <= k < |r.calls| ==>
      r.calls[k] == TagCall(image.handle, dst, r.image.tags[|image.tags| + k].tag)
  {
    var derived := DerivedTags(image.tags, src, dst);
    DerivedTagsMembership(image.tags, src, dst);
    var calls :=
      if apply then seq(|derived|, k requires 0 <= k < |derived| => TagCall(image.handle, dst, derived[k].tag))
      else [];
    var tags := image.tags + derived;
    assert tags[..|image.tags|] == image.tags && tags[|image.tags|..] == derived;
    Migration(Image(image.id, tags, image.handle), calls)
  }

  /** Migrations do not de-duplicate: migrating an already migrated image
      derives the first round's references again and appends them once more. */
  lemma {:induction false} MigrateTwiceRepeats<H>(image: Image<H>, src: string, dst: string, apply: bool)
    ensures var first := MigrateTags(image, src, dst, apply).image;
      var second := MigrateTags(first, src, dst, apply).image;
      var derived := first.tags[|image.tags|..];
      |first.tags| + |derived| <= |second.tags|
      && second.tags[|first.tags|..|first.tags| + |derived|] == derived
  {
    var first := MigrateTags(image, src, dst, apply).image;
    var derived := DerivedTags(image.tags, src, dst);
    assert first.tags == image.tags + derived;
    assert first.tags[|image.tags|..] == derived;
    DerivedTagsAppend(image.tags, derived, src, dst);
    var second := MigrateTags(first, src, dst, apply).image;
    assert second.tags == first.tags + (derived + DerivedTags(derived, src, dst));
  }
}
