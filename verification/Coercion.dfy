/** `coerce`: the first version-like number in a text. */
module Coercion {
  import opened Text
  import opened Decimal
  import opened Versions
  import opened Releases
  import opened Parser

  predicate NoDigit(s: string) {
    forall i | 0 <= i < |s| :: !IsDigit(s[i])
  }

  function SkipToDigit(s: string): (r: string)
    ensures r == "" || IsDigit(r[0])
  {
    if s == "" || IsDigit(s[0]) then s else SkipToDigit(s[1..])
  }

  /** The digits of a `.digits` group at the front of a text; empty when there is none. */
  function DotGroup(s: string): (r: string)
    ensures AllDigits(r)
    ensures r != "" ==> |s| > |r| && s[0] == '.' && s[1..|r| + 1] == r
  {
    if s != "" && s[0] == '.' then Lead(s[1..]) else ""
  }

  function AfterGroup(s: string): string {
    var g := DotGroup(s);
    if g == "" then s else s[1..][|g|..]
  }

  /** The numbers that the pattern `digits[.digits][.digits]` captures at its leftmost, greedy
      match; a group that does not take part counts as 0. */
  function Scan(s: string): Option<Triple> {
    var t := SkipToDigit(s);
    if t == "" then None
    else
      var m := Lead(t);
      var afterMajor := t[|m|..];
      var afterMinor := AfterGroup(afterMajor);
      Some(Triple(Val(m), Val(DotGroup(afterMajor)), Val(DotGroup(afterMinor))))
  }

  /** `coerce`: a captured number beyond `long long` makes `std::stoll` throw. */
  function Coerce(s: string): Outcome<Option<string>> {
    match Scan(s)
    case None => Returns(None)
    case Some(t) => if Below(t, LLONG_MAX + 1) then Returns(Some(Rel(t))) else Faults(OutOfRange)
  }

  // ----- The match, declaratively

  function Group(digits: string): string {
    if digits == "" then "" else "." + digits
  }

  predicate StartsWithGroup(s: string) {
    |s| >= 2 && s[0] == '.' && IsDigit(s[1])
  }

  /** `s` with a leftmost match whose every piece is as long as it can be. */
  ghost predicate IsMatch(s: string, front: string, m: string, n: string, p: string, rest: string) {
    && s == front + (m + (Group(n) + (Group(p) + rest)))
    && NoDigit(front) && m != "" && AllDigits(m) && AllDigits(n) && AllDigits(p)
    && (n == "" ==> p == "")
    && (rest != "" ==> !IsDigit(rest[0]))
    && (p == "" ==> !StartsWithGroup(rest))
  }

  lemma {:induction false} SkipIs(front: string, t: string)
    requires NoDigit(front) && t != "" && IsDigit(t[0])
    ensures SkipToDigit(front + t) == t
  {
    if front == "" {
      assert front + t == t;
    } else {
      assert (front + t)[1..] == front[1..] + t;
      SkipIs(front[1..], t);
    }
  }

  lemma {:induction false} SkipParts(s: string) returns (front: string)
    ensures NoDigit(front) && s == front + SkipToDigit(s)
  {
    if s == "" || IsDigit(s[0]) {
      front := "";
    } else {
      var front' := SkipParts(s[1..]);
      front := [s[0]] + front';
      assert s == [s[0]] + s[1..];
    }
  }

  lemma GroupIs(digits: string, rest: string)
    requires AllDigits(digits)
    requires rest != "" ==> !IsDigit(rest[0])
    requires digits == "" ==> !StartsWithGroup(rest)
    ensures DotGroup(Group(digits) + rest) == digits && AfterGroup(Group(digits) + rest) == rest
  {
    var s := Group(digits) + rest;
    if digits != "" {
      assert s[1..] == digits + rest;
      LeadIs(s[1..], digits, rest);
    } else {
      assert s == rest;
    }
  }

  lemma LeadParts(t: string)
    ensures t == Lead(t) + t[|Lead(t)|..]
    ensures t[|Lead(t)|..] != "" ==> !IsDigit(t[|Lead(t)|..][0])
    ensures t != "" && IsDigit(t[0]) ==> Lead(t) != ""
  {
  }

  lemma GroupParts(s: string)
    ensures s == Group(DotGroup(s)) + AfterGroup(s)
    ensures DotGroup(s) == "" ==> !StartsWithGroup(s)
    ensures DotGroup(s) != "" && AfterGroup(s) != "" ==> !IsDigit(AfterGroup(s)[0])
  {
    if DotGroup(s) != "" {
      LeadParts(s[1..]);
      assert s == "." + s[1..];
    }
  }

  lemma ScanIs(s: string, front: string, m: string, n: string, p: string, rest: string)
    requires IsMatch(s, front, m, n, p, rest)
    ensures Scan(s) == Some(Triple(Val(m), Val(n), Val(p)))
  {
    var afterMinor := Group(p) + rest;
    var afterMajor := Group(n) + afterMinor;
    SkipIs(front, m + afterMajor);
    LeadIs(m + afterMajor, m, afterMajor);
    GroupIs(p, rest);
    GroupIs(n, afterMinor);
  }

  lemma ScanParts(s: string) returns (front: string, m: string, n: string, p: string, rest: string)
    requires Scan(s).Some?
    ensures IsMatch(s, front, m, n, p, rest)
    ensures Scan(s) == Some(Triple(Val(m), Val(n), Val(p)))
  {
    front := SkipParts(s);
    var t := SkipToDigit(s);
    m := Lead(t);
    LeadParts(t);
    var afterMajor := t[|m|..];
    n := DotGroup(afterMajor);
    GroupParts(afterMajor);
    var afterMinor := AfterGroup(afterMajor);
    p := DotGroup(afterMinor);
    GroupParts(afterMinor);
    rest := AfterGroup(afterMinor);
  }

  /** `coerce` reads exactly the leftmost, greedy match. */
  lemma ScanExact(s: string, t: Triple)
    ensures Scan(s) == Some(t) <==>
            exists front, m, n, p, rest ::
              IsMatch(s, front, m, n, p, rest) && t == Triple(Val(m), Val(n), Val(p))
  {
    if Scan(s) == Some(t) {
      var front, m, n, p, rest := ScanParts(s);
    }
    if exists front, m, n, p, rest :: IsMatch(s, front, m, n, p, rest) && t == Triple(Val(m), Val(n), Val(p)) {
      var front, m, n, p, rest :| IsMatch(s, front, m, n, p, rest) && t == Triple(Val(m), Val(n), Val(p));
      ScanIs(s, front, m, n, p, rest);
    }
  }

  // ----- What coerce promises

  /** Nothing comes back exactly when there is no digit. */
  lemma {:induction false} CoerceFindsDigits(s: string)
    ensures Coerce(s) == Returns(None) <==> NoDigit(s)
  {
    var front := SkipParts(s);
    if SkipToDigit(s) != "" {
      assert IsDigit(s[|front|]);
    }
  }

  lemma OneGroup(digits: string, rest: string)
    requires digits != ""
    ensures "." + (digits + rest) == Group(digits) + rest
  {
  }

  lemma ScanOfCore(front: string, a: string, b: string, c: string, rest: string)
    requires NoDigit(front) && Canonical(a) && Canonical(b) && Canonical(c)
    requires rest != "" ==> !IsDigit(rest[0])
    ensures Scan(front + (a + ("." + (b + ("." + (c + rest)))))) == Some(Triple(Val(a), Val(b), Val(c)))
  {
    OneGroup(c, rest);
    OneGroup(b, "." + (c + rest));
    ScanIs(front + (a + (Group(b) + (Group(c) + rest))), front, a, b, c, rest);
  }

  lemma ScanOfRel(t: Triple)
    ensures Scan(Rel(t)) == Some(t)
  {
    DecCanonical(t.major);
    DecCanonical(t.minor);
    DecCanonical(t.patch);
    ScanOfCore("", Dec(t.major), Dec(t.minor), Dec(t.patch), "");
    assert Dec(t.patch) + "" == Dec(t.patch);
    assert "" + Rel(t) == Rel(t);
  }

  lemma LongLength(t: Triple)
    requires Below(t, LLONG_MAX + 1)
    ensures |Rel(t)| <= 59
  {
    assert Pow10(4) == 10000;
    assert Pow10(8) == 100000000;
    assert Pow10(12) == 1000000000000;
    assert Pow10(16) == 10000000000000000;
    assert Pow10(19) == 10000000000000000000;
    DecLength(t.major, 19);
    DecLength(t.minor, 19);
    DecLength(t.patch, 19);
  }

  lemma ReleaseParsesOrNot(t: Triple)
    requires |Rel(t)| <= MAX_VERSION_LENGTH
    ensures Parsed(Rel(t)).Ok? <==> t.major != 0
  {
    ReleaseFacts(t);
    ReleaseParses(t);
    if t.major == 0 {
      ZeroMajorsAreRejected(Release(t));
    }
  }

  /** A coerced text is a release, coercing it again changes nothing, and it parses exactly when
      its first number is not 0. */
  lemma CoerceNormalises(s: string, r: string)
    requires Coerce(s) == Returns(Some(r))
    ensures Scan(s).Some? && r == Rel(Scan(s).value)
    ensures Coerce(r) == Returns(Some(r))
    ensures Parsed(r).Ok? <==> Scan(s).value.major != 0
  {
    var t := Scan(s).value;
    ScanOfRel(t);
    LongLength(t);
    ReleaseParsesOrNot(t);
  }

  lemma CoreBetween(front: string, v: Version, back: string)
    ensures front + Print(v) + back ==
            front + (v.major + ("." + (v.minor + ("." + (v.patch + (Labels(v) + back))))))
  {
    assert FromPatch(v) + back == v.patch + (Labels(v) + back);
    assert FromMinor(v) + back == v.minor + ("." + (FromPatch(v) + back));
    assert Print(v) + back == v.major + ("." + (FromMinor(v) + back));
  }

  lemma LabelsEnd(v: Version, back: string)
    requires AllSpaces(back)
    ensures Labels(v) + back != "" ==> !IsDigit((Labels(v) + back)[0])
  {
    if Labels(v) == "" {
      assert Labels(v) + back == back;
    } else {
      assert Labels(v)[0] == '-' || Labels(v)[0] == '+';
    }
  }

  /** Coercing a text that parses keeps its core and drops the rest. */
  lemma CoerceOfParsed(s: string, v: Version)
    requires Parsed(s) == Ok(v)
    ensures Scan(s) == Some(Core(v))
    ensures Coerce(s) ==
            if Below(Core(v), LLONG_MAX + 1) then Returns(Some(Print(Release(Core(v))))) else Faults(OutOfRange)
    ensures Print(Release(Core(v))) == v.major + ("." + (v.minor + ("." + v.patch)))
  {
    PrintOfParsed(s, v);
    var front, back := TrimParts(s);
    CoreBetween(front, v, back);
    LabelsEnd(v, back);
    ScanOfCore(front, v.major, v.minor, v.patch, Labels(v) + back);
    ReleaseFacts(Core(v));
    ReleaseOfCore(v);
  }

  lemma ScanOfDec(n: nat)
    ensures Scan(Dec(n)) == Some(Triple(n, 0, 0))
  {
    DecCanonical(n);
    assert "" + (Dec(n) + (Group("") + (Group("") + ""))) == Dec(n);
    ScanIs(Dec(n), "", Dec(n), "", "", "");
  }

  /** A number alone is coerced up to 9223372036854775807. */
  lemma CoerceLimit(n: nat)
    ensures Coerce(Dec(n)) == if n <= 9223372036854775807 then Returns(Some(Dec(n) + ".0.0")) else Faults(OutOfRange)
  {
    ScanOfDec(n);
    assert Dec(0) == "0";
    assert Dec(n) + ("." + ("0" + ("." + "0"))) == Dec(n) + ".0.0";
  }
}
