/** The bounds that range operators turn into: `incrementVersion`, the caret and tilde upper
    bounds, and `satisfies_constraint`. */
module Bounds {
  import opened Text
  import opened Decimal
  import opened FieldSplitting
  import opened Releases
  import opened PartOrder
  import opened Coercion

  const DOT: set<char> := {'.'}

  /** The pieces between dots. */
  function DotParts(s: string): (parts: seq<string>)
    ensures parts != []
  {
    Fields(s, DOT)
  }

  lemma DotPartsOfRel(t: Triple)
    ensures DotParts(Rel(t)) == [Dec(t.major), Dec(t.minor), Dec(t.patch)]
  {
    FieldsAt(Dec(t.major), '.', Dec(t.minor) + ("." + Dec(t.patch)), DOT);
    FieldsAt(Dec(t.minor), '.', Dec(t.patch), DOT);
    OneField(Dec(t.patch), DOT);
  }

  // ----- incrementVersion

  function NumberPart(version: string): string {
    version[..Find(version, {'-'}, 0)]
  }

  function LabelPart(version: string): string {
    var dash := Find(version, {'-'}, 0);
    if dash == |version| then "" else version[dash + 1..]
  }

  /** The pieces that `incrementVersion` reads numbers from. */
  function Pieces(version: string): (parts: seq<string>)
    ensures parts != []
  {
    DotParts(NumberPart(version))
  }

  /** The number of a component; a missing one is 0. */
  function Component(parts: seq<string>, i: nat): Outcome<int> {
    if i < |parts| then Stoi(parts[i]) else Returns(0)
  }

  function Numbers(a: int, b: int, c: int): string {
    DecInt(a) + ("." + (DecInt(b) + ("." + DecInt(c))))
  }

  function Labelled(core: string, preRelease: string): string {
    core + ("-" + (preRelease + ("." + "0")))
  }

  /** A pre-release is extended by `.0`, a release gets the next patch number; nothing comes of
      a component that is not an `int`. */
  function BumpNumbers(a: Outcome<int>, b: Outcome<int>, c: Outcome<int>, preRelease: string): Outcome<Option<string>> {
    if a.Faults? || b.Faults? || c.Faults? then Returns(None)
    else if preRelease != "" then Returns(Some(Labelled(Numbers(a.value, b.value, c.value), preRelease)))
    else if c.value == INT_MAX then Faults(Undefined)
    else Returns(Some(Numbers(a.value, b.value, c.value + 1)))
  }

  /** What `incrementVersion` answers. */
  function Bump(version: string): Outcome<Option<string>> {
    var parts := Pieces(version);
    BumpNumbers(Component(parts, 0), Component(parts, 1), Component(parts, 2), LabelPart(version))
  }

  /** The loop of `incrementVersion`. */
  method SplitNumbers(numPart: string) returns (parts: seq<string>)
    ensures parts == DotParts(numPart)
  {
    parts := [];
    var start := 0;
    assert numPart[0..] == numPart;
    while true
      invariant start <= |numPart|
      invariant parts + Fields(numPart[start..], DOT) == DotParts(numPart)
      decreases |numPart| - start
    {
      FieldStep(parts, numPart, start, DOT);
      var dotPos := Find(numPart, DOT, start);
      if dotPos == |numPart| {
        parts := parts + [numPart[start..]];
        return;
      }
      parts := parts + [numPart[start..dotPos]];
      start := dotPos + 1;
    }
  }

  method IncrementVersion(version: string) returns (r: Outcome<Option<string>>)
    ensures r == Bump(version)
  {
    var numPart, preRelease := version, "";
    var dashPos := Find(version, {'-'}, 0);
    if dashPos != |version| {
      numPart := version[..dashPos];
      preRelease := version[dashPos + 1..];
    }
    assert numPart == NumberPart(version) && preRelease == LabelPart(version);
    var parts := SplitNumbers(numPart);

    var major, minor, patch := Stoi(parts[0]), Returns(0), Returns(0);
    if |parts| >= 2 {
      minor := Stoi(parts[1]);
    }
    if |parts| >= 3 {
      patch := Stoi(parts[2]);
    }
    assert major == Component(parts, 0) && minor == Component(parts, 1) && patch == Component(parts, 2);
    return BumpNumbers(major, minor, patch, preRelease);
  }

  // ----- Caret and tilde

  /** The end of the caret window: the leftmost non-zero number plus 1. */
  function CaretEnd(t: Triple): Triple {
    if t.major > 0 then Triple(t.major + 1, 0, 0)
    else if t.minor > 0 then Triple(0, t.minor + 1, 0)
    else Triple(0, 0, t.patch + 1)
  }

  /** The number of `t` that the caret bound adds 1 to. */
  function CaretCounter(t: Triple): nat {
    if t.major > 0 then t.major else if t.minor > 0 then t.minor else t.patch
  }

  function CaretOfNumbers(t: Triple): Outcome<string> {
    if !Below(t, INT_MAX + 1) then Faults(OutOfRange)
    else if CaretCounter(t) == INT_MAX then Faults(Undefined)
    else Returns(Rel(CaretEnd(t)))
  }

  /** The caret bound of the coerced version; an empty bound when there is no number. */
  function CaretBound(version: string): Outcome<string> {
    var coerced :- Coerce(version);
    if coerced == None then Returns("") else CaretOfNumbers(Scan(version).value)
  }

  lemma Head(token: string, s: string, i: nat)
    requires i < |s|
    ensures token + s[i..] == token + ([s[i]] + s[i + 1..])
    ensures token + s[i..] == (token + [s[i]]) + s[i + 1..]
    ensures "" + s[i + 1..] == s[i + 1..]
  {
  }

  /** The loop of `computeCaretUpperBound`. */
  method SplitCoerced(coerced: string) returns (parts: seq<string>)
    ensures parts == DotParts(coerced)
  {
    parts := [];
    var token := "";
    assert "" + coerced[0..] == coerced;
    for i := 0 to |coerced|
      invariant NoneOf(token, DOT)
      invariant parts + Fields(token + coerced[i..], DOT) == DotParts(coerced)
    {
      Head(token, coerced, i);
      if coerced[i] == '.' {
        FieldsAt(token, '.', coerced[i + 1..], DOT);
        AppendOne(parts, token, Fields(coerced[i + 1..], DOT));
        parts := parts + [token];
        token := "";
      } else {
        token := token + [coerced[i]];
      }
    }
    assert token + coerced[|coerced|..] == token;
    OneField(token, DOT);
    parts := parts + [token];
  }

  method ComputeCaretUpperBound(version: string) returns (r: Outcome<string>)
    ensures r == CaretBound(version)
  {
    var coerced :- Coerce(version);
    if coerced == None {
      return Returns("");
    }
    var parts := SplitCoerced(coerced.value);

    ghost var t := Scan(version).value;
    DotPartsOfRel(t);
    StoiOfDec(t.major);
    StoiOfDec(t.minor);
    StoiOfDec(t.patch);
    CaretTexts(t);
    if |parts| < 3 {
      return Returns("");
    }
    var major :- Stoi(parts[0]);
    var minor :- Stoi(parts[1]);
    var patch :- Stoi(parts[2]);
    if major > 0 {
      if major == INT_MAX {
        return Faults(Undefined);
      }
      return Returns(DecInt(major + 1) + ("." + ("0" + ("." + "0"))));
    } else if minor > 0 {
      if minor == INT_MAX {
        return Faults(Undefined);
      }
      return Returns("0" + ("." + (DecInt(minor + 1) + ("." + "0"))));
    }
    if patch == INT_MAX {
      return Faults(Undefined);
    }
    return Returns(Numbers(major, minor, patch + 1));
  }

  lemma CaretTexts(t: Triple)
    ensures t.major > 0 ==> DecInt(t.major + 1) + ("." + ("0" + ("." + "0"))) == Rel(CaretEnd(t))
    ensures t.major == 0 && t.minor > 0 ==> "0" + ("." + (DecInt(t.minor + 1) + ("." + "0"))) == Rel(CaretEnd(t))
    ensures t.major == 0 && t.minor == 0 ==> Numbers(t.major, t.minor, t.patch + 1) == Rel(CaretEnd(t))
  {
    assert Dec(0) == "0";
  }

  lemma StoiOfDec(n: nat)
    ensures Stoi(Dec(n)) == if n <= INT_MAX then Returns(n) else Faults(OutOfRange)
    ensures DecInt(n) == Dec(n)
  {
    NumOfDec(n);
    ReadDigitLed(Dec(n));
  }

  function TildeOfNumbers(major: int, minor: int): Outcome<string> {
    if minor == INT_MAX then Faults(Undefined) else Returns(Numbers(major, minor + 1, 0))
  }

  /** The tilde bound `X.(Y+1).0` of the first two pieces. With fewer than two pieces the code
      reads past the end of a vector. */
  function TildeOfPieces(parts: seq<string>): Outcome<string> {
    if |parts| < 1 then Faults(Undefined)
    else
      var major :- Stoi(parts[0]);
      if |parts| < 2 then Faults(Undefined)
      else
        var minor :- Stoi(parts[1]);
        TildeOfNumbers(major, minor)
  }

  function TildeBound(version: string): Outcome<string> {
    var coerced :- Coerce(version);
    if coerced == None then Returns("") else TildeOfPieces(WithoutEmptyEnd(DotParts(version)))
  }

  /** The loop of `computeTildeUpperBound`. */
  method SplitTilde(version: string) returns (parts: seq<string>)
    ensures parts == WithoutEmptyEnd(DotParts(version))
  {
    parts := [];
    var pos := 0;
    assert version[0..] == version;
    while pos < |version| && Find(version, DOT, pos) != |version|
      invariant pos <= |version|
      invariant parts + Fields(version[pos..], DOT) == DotParts(version)
      decreases |version| - pos
    {
      FieldStep(parts, version, pos, DOT);
      var dotPos := Find(version, DOT, pos);
      parts := parts + [version[pos..dotPos]];
      pos := dotPos + 1;
    }
    FieldStep(parts, version, pos, DOT);
    DropEmptyEnd(parts, version[pos..]);
    if pos < |version| {
      parts := parts + [version[pos..]];
    }
  }

  method ComputeTildeUpperBound(version: string) returns (r: Outcome<string>)
    ensures r == TildeBound(version)
  {
    var coerced :- Coerce(version);
    if coerced == None {
      return Returns("");
    }
    var parts := SplitTilde(version);
    if |parts| < 1 {
      return Faults(Undefined);
    }
    var major :- Stoi(parts[0]);
    if |parts| < 2 {
      return Faults(Undefined);
    }
    var minor :- Stoi(parts[1]);
    return TildeOfNumbers(major, minor);
  }

  // ----- satisfies_constraint

  datatype Op = Gt | Ge | Lt | Le | Caret | Tilde

  /** Only the four comparisons are satisfiable; caret and tilde are rewritten into them. */
  predicate Satisfies(candidate: string, op: Op, version: string) {
    match op
    case Gt => SemLess(version, candidate)
    case Ge => !SemLess(candidate, version)
    case Lt => SemLess(candidate, version)
    case Le => !SemLess(version, candidate)
    case _ => false
  }

  /** A comparison throws on a number beyond `int`; `>=` and `<=` never compare equal texts. */
  ghost function SatisfyFault(candidate: string, op: Op, version: string): Option<Fault> {
    if op == Caret || op == Tilde || ((op == Ge || op == Le) && candidate == version) then None
    else CompareFault(candidate, version)
  }

  method SatisfiesConstraint(candidate: string, op: Op, version: string) returns (r: Outcome<bool>)
    ensures r.Returns? ==> r.value == Satisfies(candidate, op, version)
    ensures r.Failure() == SatisfyFault(candidate, op, version)
  {
    SemLessIsStrictWeak(version, version, version);
    OverflowIsSymmetric(candidate, version);
    if op == Gt {
      var less :- CompareSemVer(version, candidate);
      return Returns(less && candidate != version);
    } else if op == Ge {
      if candidate == version {
        return Returns(true);
      }
      var less :- CompareSemVer(candidate, version);
      return Returns(!less);
    } else if op == Lt {
      r := CompareSemVer(candidate, version);
      return;
    } else if op == Le {
      if candidate == version {
        return Returns(true);
      }
      var less :- CompareSemVer(version, candidate);
      return Returns(!less);
    }
    return Returns(false);
  }

  /** `>` is the complement of `<=` and `>=` that of `<`; what satisfies a lower constraint is
      closed upwards, and what satisfies an upper one downwards. */
  lemma ConstraintLaws(c: string, d: string, version: string)
    ensures Satisfies(c, Gt, version) <==> !Satisfies(c, Le, version)
    ensures Satisfies(c, Ge, version) <==> !Satisfies(c, Lt, version)
    ensures !SemLess(d, c) && Satisfies(c, Gt, version) ==> Satisfies(d, Gt, version)
    ensures !SemLess(d, c) && Satisfies(c, Ge, version) ==> Satisfies(d, Ge, version)
    ensures !SemLess(d, c) && Satisfies(d, Lt, version) ==> Satisfies(c, Lt, version)
    ensures !SemLess(d, c) && Satisfies(d, Le, version) ==> Satisfies(c, Le, version)
  {
    SemLessIsStrictWeak(version, d, c);
    SemLessIsStrictWeak(d, version, c);
    SemLessIsStrictWeak(d, c, version);
    SemLessIsStrictWeak(c, d, version);
  }
}
