/** `inc` and `increment`: the next version of a kind. */
module Increment {
  import opened Text
  import opened Decimal
  import opened Versions
  import opened Precedence
  import opened Releases
  import opened Parser

  /** `release_type`; any other value of the enumeration is `Unknown`. */
  datatype ReleaseType = Major | Minor | Patch | Unknown

  /** `inc`. Adding 1 to the greatest `int` is undefined. */
  function Inc(v: Version, kind: ReleaseType): Outcome<Result<string>> {
    match kind
    case Major =>
      var n := FromChars(v.major);
      if n == None then Returns(Err(InvalidMajor))
      else if n.value == INT_MAX then Faults(Undefined)
      else Returns(Ok(Print(Version(DecInt(n.value + 1), "0", "0"))))
    case Minor =>
      var n := FromChars(v.minor);
      if n == None then Returns(Err(InvalidMinor))
      else if n.value == INT_MAX then Faults(Undefined)
      else Returns(Ok(Print(Version(v.major, DecInt(n.value + 1), "0"))))
    case Patch =>
      if v.preRelease.Some? then Returns(Ok(Print(Version(v.major, v.minor, v.patch))))
      else
        var n := FromChars(v.patch);
        if n == None then Returns(Err(InvalidPatch))
        else if n.value == INT_MAX then Faults(Undefined)
        else Returns(Ok(Print(Version(v.major, v.minor, DecInt(n.value + 1)))))
    case Unknown => Returns(Err(InvalidReleaseType))
  }

  // ----- The successor

  /** The releases that an increment of `v` of this kind may reach. */
  predicate Reaches(v: Version, kind: ReleaseType, u: Triple)
    requires Numbered(v)
  {
    match kind
    case Major => Core(v).major < u.major
    case Minor => Before(Triple(Core(v).major, Core(v).minor, 0), u.(patch := 0))
    case Patch => Compare(v, Release(u)) == Less
    case Unknown => false
  }

  ghost predicate IsLeastReached(v: Version, kind: ReleaseType, u: Triple)
    requires Numbered(v)
  {
    Reaches(v, kind, u) && forall w :: Reaches(v, kind, w) ==> !Before(w, u)
  }

  /** The number that the increment adds 1 to; dropping a pre-release adds nothing. */
  function Counter(v: Version, kind: ReleaseType): Option<nat>
    requires Numbered(v)
  {
    match kind
    case Major => Some(Core(v).major)
    case Minor => Some(Core(v).minor)
    case Patch => if v.preRelease.Some? then None else Some(Core(v).patch)
    case Unknown => None
  }

  function Next(v: Version, kind: ReleaseType): Triple
    requires Numbered(v)
  {
    var t := Core(v);
    match kind
    case Major => Triple(t.major + 1, 0, 0)
    case Minor => Triple(t.major, t.minor + 1, 0)
    case Patch => if v.preRelease.Some? then t else t.(patch := t.patch + 1)
    case Unknown => t
  }

  lemma ReadNumeral(s: string)
    requires Canonical(s)
    ensures FromChars(s) == if Val(s) <= INT_MAX then Some(Val(s)) else None
  {
    ReadDigitLed(s);
    NumOfDigits(s);
  }

  lemma NextPrints(v: Version, kind: ReleaseType)
    requires Numbered(v)
    ensures kind == Major ==> Print(Version(Dec(Val(v.major) + 1), "0", "0")) == Rel(Next(v, kind))
    ensures kind == Minor ==> Print(Version(v.major, Dec(Val(v.minor) + 1), "0")) == Rel(Next(v, kind))
    ensures kind == Patch && v.preRelease.Some? ==> Print(Version(v.major, v.minor, v.patch)) == Rel(Next(v, kind))
    ensures kind == Patch && v.preRelease.None? ==>
              Print(Version(v.major, v.minor, Dec(Val(v.patch) + 1))) == Rel(Next(v, kind))
  {
    ReleaseOfCore(v);
    ReleaseFacts(Next(v, kind));
    assert Dec(0) == "0";
  }

  /** The error for a number that is too large to read. */
  function TooLarge(kind: ReleaseType): ParseError {
    match kind
    case Major => InvalidMajor
    case Minor => InvalidMinor
    case Patch => InvalidPatch
    case Unknown => InvalidReleaseType
  }

  /** Success, error and undefined behaviour, each exactly. */
  lemma IncOutcome(v: Version, kind: ReleaseType)
    requires Numbered(v) && kind != Unknown
    ensures var n := Counter(v, kind); var r := Inc(v, kind);
            && (n == None || n.value < INT_MAX ==> r == Returns(Ok(Rel(Next(v, kind)))))
            && (n.Some? && n.value == INT_MAX ==> r == Faults(Undefined))
            && (n.Some? && n.value > INT_MAX ==> r == Returns(Err(TooLarge(kind))))
            && TooLarge(Major) == InvalidMajor && TooLarge(Minor) == InvalidMinor && TooLarge(Patch) == InvalidPatch
  {
    ReadNumeral(v.major);
    ReadNumeral(v.minor);
    ReadNumeral(v.patch);
    NextPrints(v, kind);
  }

  lemma ReleasesAbove(v: Version, u: Triple)
    requires Numbered(v)
    ensures Compare(v, Release(u)) == Less <==>
            Before(Core(v), u) || (v.preRelease.Some? && Core(v) == u)
  {
    ReleaseFacts(u);
    CompareByCore(v, Release(u));
  }

  lemma NextIsLeast(v: Version, kind: ReleaseType)
    requires Numbered(v) && kind != Unknown
    ensures IsLeastReached(v, kind, Next(v, kind))
    ensures Compare(v, Release(Next(v, kind))) == Less
  {
    var n := Next(v, kind);
    ReleasesAbove(v, n);
    forall w | Reaches(v, kind, w)
      ensures !Before(w, n)
    {
      ReleasesAbove(v, w);
    }
  }

  /** A successful `inc` prints the least release of its kind, and that is strictly above `v`. */
  lemma IncIsSuccessor(v: Version, kind: ReleaseType, s: string)
    requires Numbered(v) && Inc(v, kind) == Returns(Ok(s))
    ensures s == Print(Release(Next(v, kind)))
    ensures IsLeastReached(v, kind, Next(v, kind))
    ensures Compare(v, Release(Next(v, kind))) == Less
  {
    IncOutcome(v, kind);
    NextIsLeast(v, kind);
    ReleaseFacts(Next(v, kind));
  }

  /** What `increment` may answer on a version: an unknown kind is an error; otherwise the least
      release of its kind above the version, unless the number to add 1 to is the greatest `int`,
      which is undefined, or beyond it, which is an error. */
  ghost predicate Answers(v: Version, kind: ReleaseType, r: Outcome<Result<string>>) {
    && Numbered(v)
    && if kind == Unknown then r == Returns(Err(InvalidReleaseType))
       else
         var n := Counter(v, kind);
         if n == None || n.value < INT_MAX then
           exists u ::
             r == Returns(Ok(Print(Release(u)))) && IsLeastReached(v, kind, u) && Compare(v, Release(u)) == Less
         else if n.value == INT_MAX then r == Faults(Undefined)
         else r == Returns(Err(TooLarge(kind)))
  }

  method IncrementText(input: string, kind: ReleaseType) returns (r: Outcome<Result<string>>)
    ensures Parsed(input).Err? ==> r == Returns(Err(Parsed(input).error))
    ensures Parsed(input).Ok? ==> Answers(Parsed(input).value, kind, r)
  {
    var parts := Parse(input);
    if parts.Err? {
      return Returns(Err(parts.error));
    }
    r := Inc(parts.value, kind);
    PrintOfParsed(input, parts.value);
    if kind != Unknown {
      IncOutcome(parts.value, kind);
      NextIsLeast(parts.value, kind);
      ReleaseFacts(Next(parts.value, kind));
    }
  }

  lemma NotAbove(v: Version, w: Version)
    requires Numbered(v) && Numbered(w) && Compare(v, w) != Greater
    ensures Before(Core(v), Core(w)) || (Core(v) == Core(w) && (v.preRelease.None? ==> w.preRelease.None?))
  {
    CompareByCore(v, w);
  }

  lemma ReleaseOrder(t: Triple, u: Triple)
    ensures Compare(Release(t), Release(u)) == ByTriple(t, u)
  {
    ReleaseFacts(t);
    ReleaseFacts(u);
    CompareByCore(Release(t), Release(u));
  }

  /** `inc` never reverses two versions. */
  lemma IncIsMonotone(v: Version, w: Version, kind: ReleaseType, s: string, r: string)
    requires Numbered(v) && Numbered(w) && Compare(v, w) != Greater
    requires Inc(v, kind) == Returns(Ok(s)) && Inc(w, kind) == Returns(Ok(r))
    ensures s == Print(Release(Next(v, kind))) && r == Print(Release(Next(w, kind)))
    ensures Compare(Release(Next(v, kind)), Release(Next(w, kind))) != Greater
  {
    IncIsSuccessor(v, kind, s);
    IncIsSuccessor(w, kind, r);
    NotAbove(v, w);
    ReleaseOrder(Next(v, kind), Next(w, kind));
  }

  // ----- Length

  lemma NextNumeralLength(s: string)
    requires Canonical(s)
    ensures 1 <= |Dec(Val(s) + 1)| <= |s| + 1
  {
    ValBound(s);
    DecLength(Val(s) + 1, |s| + 1);
  }

  lemma PrintLength(v: Version)
    ensures |Print(v)| == |v.major| + |v.minor| + |v.patch| + |Labels(v)| + 2
  {
  }

  lemma RelLength(t: Triple)
    ensures |Rel(t)| == |Dec(t.major)| + |Dec(t.minor)| + |Dec(t.patch)| + 2
    ensures |Dec(0)| == 1
  {
  }

  lemma NextLength(v: Version, kind: ReleaseType)
    requires Numbered(v)
    ensures |Rel(Next(v, kind))| <= |Print(v)| + 1
  {
    PrintLength(v);
    RelLength(Next(v, kind));
    if kind == Major {
      NextNumeralLength(v.major);
    } else if kind == Minor {
      DecOfVal(v.major);
      NextNumeralLength(v.minor);
    } else {
      DecOfVal(v.major);
      DecOfVal(v.minor);
      DecOfVal(v.patch);
      NextNumeralLength(v.patch);
    }
  }

  /** A successful `inc` of a parsed version parses again exactly when its result is within the
      length limit, and it is at most one character longer than the version. */
  lemma IncParses(v: Version, kind: ReleaseType, s: string)
    requires Parsable(v) && Inc(v, kind) == Returns(Ok(s))
    ensures |s| <= |Print(v)| + 1
    ensures |s| <= MAX_VERSION_LENGTH <==> Parsed(s) == Ok(Release(Next(v, kind)))
    ensures |s| > MAX_VERSION_LENGTH <==> Parsed(s) == Err(VersionLargerThanMaxLength)
  {
    IncIsSuccessor(v, kind, s);
    ReleaseFacts(Next(v, kind));
    NextLength(v, kind);
    ValPositive(v.major);
    ReleaseParses(Next(v, kind));
  }

  /** At 256 characters the result may no longer parse. */
  lemma IncMayOutgrowTheLimit()
    ensures var v := Version(seq(252, _ => '1'), "0", "9");
            && |Print(v)| == MAX_VERSION_LENGTH && Parsable(v)
            && Inc(v, Patch).Returns? && Inc(v, Patch).value.Ok?
            && Parsed(Inc(v, Patch).value.value) == Err(VersionLargerThanMaxLength)
  {
    var v := Version(seq(252, _ => '1'), "0", "9");
    assert Val("9") == 9 by {
      assert "9"[..0] == "";
    }
    assert Parsable(v) by {
      assert Labels(v) == "" && FromPatch(v) == "9";
      assert Print(v)[255] == '9' && Print(v)[0] == '1';
    }
    IncOutcome(v, Patch);
    ReleaseOfCore(v);
    assert Dec(10) == Dec(1) + "0";
    assert |Rel(Next(v, Patch))| == 257;
    IncParses(v, Patch, Rel(Next(v, Patch)));
  }

  // ----- Any fields whatever

  /** What `inc` makes of the number it read, if it read one. */
  function AfterReading(n: Option<int>, error: ParseError, front: string, back: string): Outcome<Result<string>> {
    if n == None then Returns(Err(error))
    else if n.value == 2147483647 then Faults(Undefined)
    else Returns(Ok(front + DecInt(n.value + 1) + back))
  }

  lemma PrintThree(a: string, b: string, c: string)
    ensures Print(Version(a, b, c)) == a + "." + b + "." + c
  {
    assert Labels(Version(a, b, c)) == "";
    assert FromPatch(Version(a, b, c)) == c;
    assert a + "." + b + "." + c == a + ("." + (b + ("." + c)));
  }

  /** `inc` on a version with any fields, such as one whose major is `fake`: each kind reads only its
      own number, reports its own error, and keeps the fields before it. */
  lemma IncOfAnyFields(v: Version)
    ensures Inc(v, Major) == AfterReading(FromChars(v.major), InvalidMajor, "", ".0.0")
    ensures Inc(v, Minor) == AfterReading(FromChars(v.minor), InvalidMinor, v.major + ".", ".0")
    ensures v.preRelease == None ==>
              Inc(v, Patch) == AfterReading(FromChars(v.patch), InvalidPatch, v.major + "." + v.minor + ".", "")
    ensures v.preRelease.Some? ==> Inc(v, Patch) == Returns(Ok(v.major + "." + v.minor + "." + v.patch))
    ensures Inc(v, Unknown) == Returns(Err(InvalidReleaseType))
  {
    PrintThree(v.major, v.minor, v.patch);
    IncMajorOfAny(v);
    IncMinorOfAny(v);
    IncPatchOfAny(v);
  }

  lemma IncMajorOfAny(v: Version)
    ensures Inc(v, Major) == AfterReading(FromChars(v.major), InvalidMajor, "", ".0.0")
  {
    var n := FromChars(v.major);
    if n.Some? {
      var s := DecInt(n.value + 1);
      PrintThree(s, "0", "0");
      assert s + "." + "0" + "." + "0" == "" + s + ".0.0";
    }
  }

  lemma IncMinorOfAny(v: Version)
    ensures Inc(v, Minor) == AfterReading(FromChars(v.minor), InvalidMinor, v.major + ".", ".0")
  {
    var n := FromChars(v.minor);
    if n.Some? {
      var s := DecInt(n.value + 1);
      PrintThree(v.major, s, "0");
      assert v.major + "." + s + "." + "0" == (v.major + ".") + s + ".0";
    }
  }

  lemma IncPatchOfAny(v: Version)
    ensures v.preRelease == None ==>
              Inc(v, Patch) == AfterReading(FromChars(v.patch), InvalidPatch, v.major + "." + v.minor + ".", "")
  {
    var n := FromChars(v.patch);
    if n.Some? {
      var s := DecInt(n.value + 1);
      PrintThree(v.major, v.minor, s);
      assert v.major + "." + v.minor + "." + s == (v.major + "." + v.minor + ".") + s + "";
    }
  }
}
