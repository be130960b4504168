/** Image references `repository:tag`: the current parser, which splits at the
    last colon so that registry hosts with ports are accepted, and the legacy
    parser, which insists on exactly one colon. */
module ImageTags {
  import opened Wrappers
  import opened Text

  const Colon: char := ':'

  /** A parsed image reference. The repository may itself contain colons
      (`host:5000/org/app`). */
  datatype ImageTag = ImageTag(repository: string, tag: string) {
    /** The printed reference `repository:tag`. */
    function Uri(): string {
      repository + [Colon] + tag
    }
  }

  /** The `ValueError` raised for a string that is not a reference. */
  datatype ParseError = InvalidTagName(raw: string)

  /** Current parser: the segment after the last colon is the tag, the
      segments before it, joined again with colons, are the repository.
      It fails exactly when there is no colon (the empty string included);
      otherwise printing the result gives the input back, and the tag is
      colon-free, so the split is at the last colon. */
  function FromString(s: string): (r: Result<ImageTag, ParseError>)
    ensures r.Failure? <==> Colon !in s
    ensures r.Failure? ==> r.error == InvalidTagName(s)
    ensures r.Success? ==> r.value.Uri() == s && Colon !in r.value.tag
  {
    var parts := Split(s, Colon);
    SplitCount(s, Colon);
    if |parts| < 2 then Failure(InvalidTagName(s))
    else
      var n := |parts|;
      JoinSplit(s, Colon);
      assert parts == parts[..n - 1] + [parts[n - 1]];
      JoinSnoc(parts[..n - 1], parts[n - 1], Colon);
      Success(ImageTag(Join(parts[..n - 1], Colon), parts[n - 1]))
  }

  /** Parsing a printed reference gives the reference back, provided its tag
      has no colon; the repository may contain any number of colons. */
  lemma FromStringUri(t: ImageTag)
    requires Colon !in t.tag
    ensures FromString(t.Uri()) == Success(t)
  {
    var r := FromString(t.Uri());
    assert Colon in t.Uri() by {
      assert t.Uri()[|t.repository|] == Colon;
    }
    LastSeparatorUnique(r.value.repository, r.value.tag, t.repository, t.tag, Colon);
  }

  /** Legacy parser: the string must split into exactly two segments, that
      is, contain exactly one colon; `host:5000/app:v1` is rejected. */
  function FromStringLegacy(s: string): (r: Result<ImageTag, ParseError>)
    ensures r.Success? <==> Count(s, Colon) == 1
    ensures r.Failure? ==> r.error == InvalidTagName(s)
    ensures r.Success? ==> r.value.Uri() == s
    ensures r.Success? ==> Colon !in r.value.repository && Colon !in r.value.tag
  {
    var parts := Split(s, Colon);
    SplitCount(s, Colon);
    if |parts| != 2 then Failure(InvalidTagName(s))
    else
      JoinSplit(s, Colon);
      assert Join(parts, Colon) == parts[0] + [Colon] + Join(parts[1..], Colon);
      Success(ImageTag(parts[0], parts[1]))
  }

  /** The legacy parser inverts printing for references with no colon in
      either part. */
  lemma FromStringLegacyUri(t: ImageTag)
    requires Colon !in t.repository && Colon !in t.tag
    ensures FromStringLegacy(t.Uri()) == Success(t)
  {
    CountAppend(t.repository, [Colon], Colon);
    CountAppend(t.repository + [Colon], t.tag, Colon);
    assert Count([Colon], Colon) == 1 by {
      assert [Colon][1..] == [];
    }
    var r := FromStringLegacy(t.Uri());
    LastSeparatorUnique(r.value.repository, r.value.tag, t.repository, t.tag, Colon);
  }

  /** Wherever the legacy parser succeeds, the current parser succeeds with
      the same reference: the current parser accepts a superset. */
  lemma LegacyAgreesWithCurrent(s: string)
    requires FromStringLegacy(s).Success?
    ensures FromString(s) == FromStringLegacy(s)
  {
    // Both results print back to `s` and have a colon-free tag, and that
    // decomposition is unique.
  }

  /** A repository with a colon in it, such as a registry host with a port
      (`host:5000/app:v1`): the current parser splits at the last colon and
      gives the reference back, the legacy parser rejects it. */
  lemma CurrentAcceptsHostPort(t: ImageTag)
    requires Colon in t.repository && Colon !in t.tag
    ensures FromString(t.Uri()) == Success(t)
    ensures FromStringLegacy(t.Uri()).Failure?
  {
    FromStringUri(t);
    if FromStringLegacy(t.Uri()).Success? {
      LegacyAgreesWithCurrent(t.Uri());
      assert false;
    }
  }
}
