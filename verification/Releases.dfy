/** Releases: the versions that are nothing but three numbers. */
module Releases {
  import opened Text
  import opened Decimal
  import opened Versions
  import opened Parser
  import opened Precedence

  datatype Triple = Triple(major: nat, minor: nat, patch: nat)

  const ORIGIN := Triple(0, 0, 0)

  predicate Before(t: Triple, u: Triple) {
    || t.major < u.major
    || (t.major == u.major && t.minor < u.minor)
    || (t.major == u.major && t.minor == u.minor && t.patch < u.patch)
  }

  function ByTriple(t: Triple, u: Triple): Ordering {
    if t == u then Equal else if Before(t, u) then Less else Greater
  }

  /** Every number is less than `bound`. */
  predicate Below(t: Triple, bound: int) {
    t.major < bound && t.minor < bound && t.patch < bound
  }

  function Release(t: Triple): Version {
    Version(Dec(t.major), Dec(t.minor), Dec(t.patch))
  }

  /** `X.Y.Z`. */
  function Rel(t: Triple): string {
    Dec(t.major) + ("." + (Dec(t.minor) + ("." + Dec(t.patch))))
  }

  /** The core of a version is three canonical numerals; unlike `parse`, this admits a major 0. */
  predicate Numbered(v: Version) {
    Canonical(v.major) && Canonical(v.minor) && Canonical(v.patch)
  }

  function Core(v: Version): Triple
    requires Numbered(v)
  {
    Triple(Val(v.major), Val(v.minor), Val(v.patch))
  }

  lemma ReleaseFacts(t: Triple)
    ensures Numbered(Release(t)) && Core(Release(t)) == t
    ensures Print(Release(t)) == Rel(t)
    ensures WellFormed(Release(t)) <==> t.major > 0
  {
    DecCanonical(t.major);
    DecCanonical(t.minor);
    DecCanonical(t.patch);
    assert Dec(t.patch) + Labels(Release(t)) == Dec(t.patch);
  }

  lemma ReleaseOfCore(v: Version)
    requires Numbered(v)
    ensures Release(Core(v)) == v.(preRelease := None, build := None)
  {
    DecOfVal(v.major);
    DecOfVal(v.minor);
    DecOfVal(v.patch);
  }

  /** On cores, `<=>` is the lexicographic order of the numbers they denote. */
  lemma CompareByCore(v: Version, w: Version)
    requires Numbered(v) && Numbered(w)
    ensures Compare(v, w) == ByTriple(Core(v), Core(w)).Then(ByPreRelease(v.preRelease, w.preRelease))
  {
    ByNumberIsNumeric(v.major, w.major);
    ByNumberIsNumeric(v.minor, w.minor);
    ByNumberIsNumeric(v.patch, w.patch);
  }

  lemma RelText(t: Triple)
    ensures Rel(t) == Dec(t.major) + "." + Dec(t.minor) + "." + Dec(t.patch)
  {
  }

  // ----- Parsing releases

  lemma ReleaseParses(t: Triple)
    ensures t.major > 0 && |Rel(t)| <= MAX_VERSION_LENGTH <==> Parsed(Rel(t)) == Ok(Release(t))
  {
    ReleaseFacts(t);
    LastOfPrint(Release(t));
    ParsedOfPrint(Release(t));
  }

  /** A version with a zero major is never accepted. */
  lemma ZeroMajorsAreRejected(v: Version)
    requires Numbered(v) && Val(v.major) == 0
    ensures Parsed(Print(v)).Err?
  {
    var t := Print(v);
    var l, r := TrimParts(t);
    DecOfVal(v.major);
    assert t[0] == v.major[0] == '0';
    assert forall i | 0 <= i < |l| :: t[i] == l[i];
    assert t == Trim(t) + r;
    if Parsed(t).Ok? {
      var w := Parsed(t).value;
      PrintOfParsed(t, w);
      PrintStartsWithDigit(w);
    }
  }

  // ----- What parses, character by character

  /** `X.Y.Z`, with `-` and a pre-release, and `+` and a build. */
  function VersionText(t: Triple, preRelease: Option<string>, build: Option<string>): string {
    Dec(t.major) + "." + Dec(t.minor) + "." + Dec(t.patch)
    + (if preRelease == None then "" else "-" + preRelease.value)
    + (if build == None then "" else "+" + build.value)
  }

  /** The pieces of a printed version, one after the other. */
  lemma Flattened(a: string, b: string, c: string, p: string, q: string)
    ensures a + "." + b + "." + c + p + q == a + ("." + (b + ("." + (c + (p + q)))))
  {
    assert a + "." + b + "." + c + p + q == (a + "." + b + "." + c) + (p + q);
    assert (a + "." + b + "." + c) + (p + q) == a + ("." + (b + "." + c + (p + q)));
    assert b + "." + c + (p + q) == b + ("." + (c + (p + q)));
  }

  lemma PrintSpelled(v: Version, p: string, q: string)
    requires Suffix('-', v.preRelease) == p && Suffix('+', v.build) == q
    ensures Print(v) == v.major + "." + v.minor + "." + v.patch + p + q
  {
    Flattened(v.major, v.minor, v.patch, p, q);
  }

  lemma SuffixSpelled(preRelease: Option<string>, build: Option<string>)
    ensures Suffix('-', preRelease) == if preRelease == None then "" else "-" + preRelease.value
    ensures Suffix('+', build) == if build == None then "" else "+" + build.value
  {
  }

  lemma PrintIsText(t: Triple, preRelease: Option<string>, build: Option<string>)
    ensures Print(Release(t).(preRelease := preRelease, build := build)) == VersionText(t, preRelease, build)
  {
    SuffixSpelled(preRelease, build);
    PrintSpelled(Release(t).(preRelease := preRelease, build := build),
                 if preRelease == None then "" else "-" + preRelease.value,
                 if build == None then "" else "+" + build.value);
  }

  /** `parse` accepts exactly these texts, with white space around them and at most 256 characters
      in all: a positive major number, any pre-release that is not empty and has no `+`, and any
      build that is not empty. */
  lemma ParsesExactly(input: string, t: Triple, preRelease: Option<string>, build: Option<string>)
    ensures Parsed(input) == Ok(Version(Dec(t.major), Dec(t.minor), Dec(t.patch), preRelease, build)) <==>
            && |input| <= 256 && t.major > 0
            && (preRelease.Some? ==> preRelease.value != "" && '+' !in preRelease.value)
            && (build.Some? ==> build.value != "")
            && exists front, back :: IsPaddedText(input, front, VersionText(t, preRelease, build), back)
  {
    var v := Release(t).(preRelease := preRelease, build := build);
    ReleaseFacts(t);
    PrintIsText(t, preRelease, build);
    ParsedExact(input, v);
    if front, back :| IsPadded(input, front, v, back) {
      assert IsPaddedText(input, front, VersionText(t, preRelease, build), back);
    }
    if front, back :| IsPaddedText(input, front, VersionText(t, preRelease, build), back) {
      assert WellFormed(v) ==> IsPadded(input, front, v, back);
    }
  }

  /** A text that does not end in white space, with white space around it. */
  ghost predicate IsPaddedText(input: string, front: string, text: string, back: string) {
    && OnlyWhite(front) && OnlyWhite(back) && text != "" && !IsWhite(text[|text| - 1])
    && input == front + text + back
  }

  /** ... and no other versions. */
  lemma ParsedIsSuch(input: string, v: Version) returns (t: Triple)
    requires Parsed(input) == Ok(v)
    ensures v == Version(Dec(t.major), Dec(t.minor), Dec(t.patch), v.preRelease, v.build)
  {
    PrintOfParsed(input, v);
    ReleaseOfCore(v);
    t := Core(v);
  }
}
