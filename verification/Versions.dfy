/** The `version` record of version_weaver.h, its printed form, and the versions that have one. */
module Versions {
  import opened Text
  import opened Decimal

  const MAX_VERSION_LENGTH := 256

  datatype Version = Version(
    major: string,
    minor: string,
    patch: string,
    preRelease: Option<string> := None,
    build: Option<string> := None)

  datatype ParseError =
    | VersionLargerThanMaxLength
    | InvalidInput
    | InvalidMajor
    | InvalidMinor
    | InvalidPatch
    | InvalidReleaseType

  /** `std::expected<T, parse_error>`. */
  datatype Result<+T> = Ok(value: T) | Err(error: ParseError)

  /** A separator and a field, when there is one. */
  function Suffix(separator: char, field: Option<string>): string {
    match field
    case None => ""
    case Some(text) => [separator] + text
  }

  function Labels(v: Version): string {
    Suffix('-', v.preRelease) + Suffix('+', v.build)
  }

  function FromPatch(v: Version): string {
    v.patch + Labels(v)
  }

  function FromMinor(v: Version): string {
    v.minor + ("." + FromPatch(v))
  }

  /** The conversion of a version to `std::string`. */
  function Print(v: Version): string {
    v.major + ("." + FromMinor(v))
  }

  predicate MajorOk(major: string) {
    Canonical(major) && major[0] != '0'
  }

  predicate LabelsOk(v: Version) {
    && (v.preRelease.Some? ==> v.preRelease.value != "" && '+' !in v.preRelease.value)
    && (v.build.Some? ==> v.build.value != "")
  }

  /** The grammar `parse` implements: a major number not starting with 0, canonical minor and
      patch numbers, a non-empty pre-release without `+`, and a non-empty build. */
  predicate WellFormed(v: Version) {
    MajorOk(v.major) && Canonical(v.minor) && Canonical(v.patch) && LabelsOk(v)
  }

  ghost predicate Denotes(t: string, v: Version) {
    WellFormed(v) && Print(v) == t
  }

  // ----- What a printed version looks like from each of its fields on, and where that field ends

  ghost predicate DenotesFromMinor(t: string, v: Version) {
    Canonical(v.minor) && Canonical(v.patch) && LabelsOk(v) && FromMinor(v) == t
  }

  ghost predicate DenotesFromPatch(t: string, v: Version) {
    Canonical(v.patch) && LabelsOk(v) && FromPatch(v) == t
  }

  ghost predicate DenotesLabels(t: string, v: Version) {
    LabelsOk(v) && Labels(v) == t
  }

  lemma NoDotInDigits(s: string)
    requires AllDigits(s)
    ensures '.' !in s && '-' !in s && '+' !in s
  {
  }

  lemma MajorEndsAtDot(t: string, v: Version)
    ensures var dot := Find(t, {'.'}, 0);
            Denotes(t, v) <==>
            dot < |t| && v.major == t[..dot] && MajorOk(t[..dot]) && DenotesFromMinor(t[dot + 1..], v)
  {
    CutAt(t, '.', v.major, FromMinor(v));
  }

  lemma MinorEndsAtDot(t: string, v: Version)
    ensures var dot := Find(t, {'.'}, 0);
            DenotesFromMinor(t, v) <==>
            dot < |t| && v.minor == t[..dot] && Canonical(t[..dot]) && DenotesFromPatch(t[dot + 1..], v)
  {
    CutAt(t, '.', v.minor, FromPatch(v));
  }

  lemma LabelsStart(v: Version)
    ensures Labels(v) != "" ==> Labels(v)[0] == '-' || Labels(v)[0] == '+'
  {
  }

  lemma PatchEndsAtLabel(t: string, v: Version)
    ensures var end := Find(t, {'-', '+'}, 0);
            DenotesFromPatch(t, v) <==>
            v.patch == t[..end] && Canonical(t[..end]) && DenotesLabels(t[end..], v)
  {
    LabelsStart(v);
    if Canonical(v.patch) {
      NoDotInDigits(v.patch);
      CutBefore(t, {'-', '+'}, v.patch, Labels(v));
    }
  }

  lemma BuildIsTheRest(rest: string, v: Version)
    ensures DenotesLabels("+" + rest, v) <==> v.preRelease == None && v.build == Some(rest) && rest != ""
  {
    if v.preRelease == None {
      assert Labels(v) == Suffix('+', v.build);
      assert v.build.Some? && Labels(v) == "+" + rest ==> v.build.value == Labels(v)[1..] == rest;
    } else {
      assert Labels(v)[0] == '-' != ("+" + rest)[0];
    }
  }

  lemma PreReleaseEndsAtPlus(rest: string, v: Version)
    ensures var plus := Find(rest, {'+'}, 0);
            DenotesLabels("-" + rest, v) <==>
            && v.preRelease == Some(rest[..plus]) && rest[..plus] != ""
            && (if plus == |rest| then v.build == None
                else v.build == Some(rest[plus + 1..]) && rest[plus + 1..] != "")
  {
    var t := "-" + rest;
    assert t[1..] == rest;
    if v.preRelease == None {
      assert Labels(v) == Suffix('+', v.build);
    } else {
      var pre := v.preRelease.value;
      assert Labels(v) == "-" + (pre + Suffix('+', v.build));
      assert Labels(v)[1..] == pre + Suffix('+', v.build);
      if v.build == None {
        assert pre + Suffix('+', v.build) == pre;
        AllOf(rest, '+', pre);
      } else {
        CutAt(rest, '+', pre, v.build.value);
      }
    }
  }

  lemma NoLabels(v: Version)
    ensures DenotesLabels("", v) <==> v.preRelease == None && v.build == None
  {
  }

  /** The version whose labels print as `t`, if there is one, is unique. */
  lemma LabelsInjective(t: string, v: Version, w: Version)
    requires DenotesLabels(t, v) && DenotesLabels(t, w)
    ensures v.preRelease == w.preRelease && v.build == w.build
  {
    if v.preRelease.Some? {
      assert t[0] == '-' && t == "-" + t[1..];
      PreReleaseEndsAtPlus(t[1..], v);
      PreReleaseEndsAtPlus(t[1..], w);
    } else if v.build.Some? {
      assert t == "" + ("+" + v.build.value) == "+" + v.build.value;
      BuildIsTheRest(v.build.value, v);
      BuildIsTheRest(v.build.value, w);
    } else {
      NoLabels(v);
      NoLabels(w);
    }
  }

  /** A text is the printed form of at most one well-formed version. */
  lemma PrintInjective(t: string, v: Version, w: Version)
    requires Denotes(t, v) && Denotes(t, w)
    ensures v == w
  {
    MajorEndsAtDot(t, v);
    MajorEndsAtDot(t, w);
    var t1 := t[|v.major| + 1..];
    MinorEndsAtDot(t1, v);
    MinorEndsAtDot(t1, w);
    var t2 := t1[|v.minor| + 1..];
    PatchEndsAtLabel(t2, v);
    PatchEndsAtLabel(t2, w);
    LabelsInjective(t2[|v.patch|..], v, w);
  }
}
