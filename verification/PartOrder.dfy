/** `split` and `compareSemVer`: the order on raw version strings, part by part. */
module PartOrder {
  import opened Text
  import opened Decimal
  import opened FieldSplitting

  const SEPARATORS: set<char> := {'.', '-'}

  /** The parts between dots and hyphens; nothing after a final separator is not a part. */
  function Parts(s: string): seq<string> {
    WithoutEmptyEnd(Fields(s, SEPARATORS))
  }

  lemma PartsWhenDone(s: string, done: seq<string>, last: string)
    requires Fields(s, SEPARATORS) == done + [last]
    ensures Parts(s) == if last == "" then done else done + [last]
  {
    DropEmptyEnd(done, last);
  }

  /** What stands behind the last dot or hyphen. */
  function LastField(s: string): string {
    var f := Fields(s, SEPARATORS);
    f[|f| - 1]
  }

  method Split(s: string) returns (parts: seq<string>)
    ensures parts == Parts(s)
  {
    parts := [];
    var start := 0;
    assert s[0..] == s;
    while start < |s|
      invariant start <= |s|
      invariant parts + Fields(s[start..], SEPARATORS) == Fields(s, SEPARATORS)
    {
      FieldStep(parts, s, start, SEPARATORS);
      var end := Find(s, SEPARATORS, start);
      if end == |s| {
        PartsWhenDone(s, parts, s[start..]);
        parts := parts + [s[start..]];
        return;
      } else {
        parts := parts + [s[start..end]];
      }
      start := end + 1;
    }
    assert Fields(s[start..], SEPARATORS) == [""];
    PartsWhenDone(s, parts, "");
  }

  /** A separator ends a part, whatever follows. */
  lemma PartsAt(p: string, separator: char, rest: string)
    requires NoneOf(p, SEPARATORS) && separator in SEPARATORS
    ensures Parts(p + ([separator] + rest)) == [p] + Parts(rest)
  {
    FieldsAt(p, separator, rest, SEPARATORS);
    KeepFront([p], Fields(rest, SEPARATORS));
  }

  lemma OnePart(p: string)
    requires NoneOf(p, SEPARATORS) && p != ""
    ensures Parts(p) == [p]
  {
    OneField(p, SEPARATORS);
  }

  lemma FirstPart(s: string)
    requires s != ""
    ensures var end := Find(s, SEPARATORS, 0);
            Parts(s) == if end == |s| then [s] else [s[..end]] + Parts(s[end + 1..])
  {
    var end := Find(s, SEPARATORS, 0);
    if end == |s| {
      OnePart(s);
    } else {
      Rejoin(s, end);
      PartsAt(s[..end], s[end], s[end + 1..]);
    }
  }

  /** Each part with the separator that follows it. */
  function Glue(parts: seq<string>, separators: string): string
    requires |separators| == |parts|
  {
    if parts == [] then "" else parts[0] + ([separators[0]] + Glue(parts[1..], separators[1..]))
  }

  lemma GlueStep(part: string, separator: char, parts: seq<string>, separators: string)
    requires |separators| == |parts|
    ensures Glue([part] + parts, [separator] + separators) == part + ([separator] + Glue(parts, separators))
  {
    assert ([part] + parts)[1..] == parts && ([separator] + separators)[1..] == separators;
  }

  lemma PrefixStep(front: string, a: string, b: string)
    requires a <= b
    ensures front + a <= front + b
  {
    assert b == a + b[|a|..];
    assert front + b == (front + a) + b[|a|..];
  }

  /** Splitting loses only the separators: they rebuild the text, with one too many at its end
      unless the text ends in one. */
  lemma {:induction false} SplitGlues(s: string) returns (separators: string)
    ensures |separators| == |Parts(s)|
    ensures forall i | 0 <= i < |separators| :: separators[i] == '.' || separators[i] == '-'
    ensures forall i | 0 <= i < |Parts(s)| :: '.' !in Parts(s)[i] && '-' !in Parts(s)[i]
    ensures s <= Glue(Parts(s), separators) && |Glue(Parts(s), separators)| <= |s| + 1
    decreases |s|
  {
    if s == "" {
      return "";
    }
    FirstPart(s);
    var end := Find(s, SEPARATORS, 0);
    if end == |s| {
      GlueStep(s, '.', [], "");
      separators := ['.'] + "";
      assert [s] + [] == [s];
    } else {
      var part, rest := s[..end], s[end + 1..];
      var tail := SplitGlues(rest);
      separators := [s[end]] + tail;
      GlueStep(part, s[end], Parts(rest), tail);
      Rejoin(s, end);
      PrefixStep([s[end]], rest, Glue(Parts(rest), tail));
      PrefixStep(part, [s[end]] + rest, [s[end]] + Glue(Parts(rest), tail));
    }
  }

  // ----- Comparing parts

  /** Parts led by digits compare by the number they start with, all others by bytes. */
  predicate PartLess(p: string, q: string) {
    if DigitLed(p) && DigitLed(q) then Num(p) < Num(q) else StrLess(p, q)
  }

  predicate PartTies(p: string, q: string) {
    if DigitLed(p) && DigitLed(q) then Num(p) == Num(q) else p == q
  }

  /** The first parts that do not tie decide, and then the number of parts. */
  predicate PartsLess(a: seq<string>, b: seq<string>) {
    b != [] && (a == [] || PartLess(a[0], b[0]) || (PartTies(a[0], b[0]) && PartsLess(a[1..], b[1..])))
  }

  /** `a` is below `b` for `compareSemVer`. */
  predicate SemLess(a: string, b: string) {
    PartsLess(Parts(a), Parts(b))
  }

  predicate FitsInt(p: string) {
    DigitLed(p) ==> Num(p) <= INT_MAX
  }

  predicate AllFit(parts: seq<string>) {
    forall i | 0 <= i < |parts| :: FitsInt(parts[i])
  }

  /** No number in the text is beyond `int`. */
  predicate Fits(s: string) {
    AllFit(Parts(s))
  }

  predicate TiesUpTo(a: seq<string>, b: seq<string>, k: nat)
    requires k <= |a| && k <= |b|
  {
    forall i | 0 <= i < k :: PartTies(a[i], b[i])
  }

  /** The comparison reads the parts at `k`, and one of the two numbers there is beyond `int`. */
  predicate OverflowsAt(a: seq<string>, b: seq<string>, k: nat) {
    && k < |a| && k < |b| && TiesUpTo(a, b, k)
    && DigitLed(a[k]) && DigitLed(b[k]) && !(FitsInt(a[k]) && FitsInt(b[k]))
  }

  /** The comparison of the two texts reads a number beyond `int`. */
  ghost predicate Overflow(a: string, b: string) {
    exists k :: OverflowsAt(Parts(a), Parts(b), k)
  }

  ghost function CompareFault(a: string, b: string): Option<Fault> {
    if Overflow(a, b) then Some(OutOfRange) else None
  }

  lemma OverflowEitherWay(a: seq<string>, b: seq<string>, k: nat)
    requires OverflowsAt(a, b, k)
    ensures OverflowsAt(b, a, k)
  {
    forall i | 0 <= i < k ensures PartTies(b[i], a[i]) {
      PartLaws(a[i], b[i], "");
    }
  }

  /** Which text comes first does not matter. */
  lemma OverflowIsSymmetric(a: string, b: string)
    ensures CompareFault(a, b) == CompareFault(b, a)
  {
    if k :| OverflowsAt(Parts(a), Parts(b), k) {
      OverflowEitherWay(Parts(a), Parts(b), k);
    }
    if k :| OverflowsAt(Parts(b), Parts(a), k) {
      OverflowEitherWay(Parts(b), Parts(a), k);
    }
  }

  lemma PartsOfNumber(n: nat)
    ensures Parts(Dec(n)) == [Dec(n)] && DigitLed(Dec(n)) && Num(Dec(n)) == n
  {
    NumOfDec(n);
    OnePart(Dec(n));
  }

  lemma OverflowOfOne(p: string, q: string)
    requires DigitLed(p) && DigitLed(q)
    ensures (exists k :: OverflowsAt([p], [q], k)) <==> Num(p) > 2147483647 || Num(q) > 2147483647
  {
    assert TiesUpTo([p], [q], 0);
    assert OverflowsAt([p], [q], 0) <==> Num(p) > 2147483647 || Num(q) > 2147483647;
  }

  lemma LessOfOne(p: string, q: string)
    requires DigitLed(p) && DigitLed(q)
    ensures PartsLess([p], [q]) <==> Num(p) < Num(q)
  {
    assert [p][1..] == [] && [q][1..] == [];
  }

  /** Two numbers alone compare as long as neither is beyond 2147483647. */
  lemma CompareLimit(m: nat, n: nat)
    ensures CompareFault(Dec(m), Dec(n)) == if m > 2147483647 || n > 2147483647 then Some(OutOfRange) else None
    ensures SemLess(Dec(m), Dec(n)) <==> m < n
  {
    PartsOfNumber(m);
    PartsOfNumber(n);
    OverflowOfOne(Dec(m), Dec(n));
    LessOfOne(Dec(m), Dec(n));
  }

  lemma FittingTexts(a: string, b: string)
    requires Fits(a) && Fits(b)
    ensures CompareFault(a, b) == None
  {
  }

  lemma {:induction false} DecidedAt(a: seq<string>, b: seq<string>, k: nat)
    requires k <= |a| && k <= |b| && TiesUpTo(a, b, k)
    ensures PartsLess(a, b) == PartsLess(a[k..], b[k..])
  {
    if k > 0 {
      assert a[1..][k - 1..] == a[k..] && b[1..][k - 1..] == b[k..];
      PartLaws(a[0], b[0], "");
      DecidedAt(a[1..], b[1..], k - 1);
    }
  }

  /** The first `n` parts tie, and no number among them is beyond `int`. */
  ghost predicate CleanUpTo(a: seq<string>, b: seq<string>, n: nat) {
    && n <= |a| && n <= |b| && TiesUpTo(a, b, n)
    && forall k | 0 <= k < n :: !OverflowsAt(a, b, k)
  }

  ghost predicate IsComparison(a: seq<string>, b: seq<string>, r: Outcome<bool>) {
    && (r.Returns? ==> r.value == PartsLess(a, b))
    && (r.Faults? <==> exists k :: OverflowsAt(a, b, k))
    && (r.Faults? ==> r.fault == OutOfRange)
  }

  /** The parts at `i` can be compared: unless both start with numbers, or both those are `int`s. */
  predicate Comparable(a: seq<string>, b: seq<string>, i: nat)
    requires i < |a| && i < |b|
  {
    DigitLed(a[i]) && DigitLed(b[i]) ==> FitsInt(a[i]) && FitsInt(b[i])
  }

  lemma ThrowsAt(a: seq<string>, b: seq<string>, i: nat)
    requires CleanUpTo(a, b, i) && i < |a| && i < |b| && !Comparable(a, b, i)
    ensures IsComparison(a, b, Faults(OutOfRange))
  {
    assert OverflowsAt(a, b, i);
  }

  lemma SettledAt(a: seq<string>, b: seq<string>, i: nat)
    requires CleanUpTo(a, b, i) && i < |a| && i < |b| && Comparable(a, b, i) && !PartTies(a[i], b[i])
    ensures IsComparison(a, b, Returns(PartLess(a[i], b[i])))
  {
    DecidedAt(a, b, i);
    PartLaws(a[i], b[i], "");
    assert !OverflowsAt(a, b, i);
  }

  lemma TiedAt(a: seq<string>, b: seq<string>, i: nat)
    requires CleanUpTo(a, b, i) && i < |a| && i < |b| && Comparable(a, b, i) && PartTies(a[i], b[i])
    ensures CleanUpTo(a, b, i + 1)
  {
    assert !OverflowsAt(a, b, i);
  }

  lemma RunsOutAt(a: seq<string>, b: seq<string>, n: nat)
    requires CleanUpTo(a, b, n) && (n == |a| || n == |b|)
    ensures IsComparison(a, b, Returns(|a| < |b|))
  {
    DecidedAt(a, b, n);
  }

  /** `compareSemVer`: throws exactly when it reads a number beyond `int`. */
  method CompareSemVer(a: string, b: string) returns (r: Outcome<bool>)
    ensures r.Returns? ==> r.value == SemLess(a, b)
    ensures r.Faults? <==> exists k :: OverflowsAt(Parts(a), Parts(b), k)
    ensures r.Failure() == CompareFault(a, b)
  {
    var aParts := Split(a);
    var bParts := Split(b);
    r := CompareParts(aParts, bParts);
  }

  /** The loop of `compareSemVer`. */
  method CompareParts(aParts: seq<string>, bParts: seq<string>) returns (r: Outcome<bool>)
    ensures IsComparison(aParts, bParts, r)
  {
    var minSize := if |aParts| < |bParts| then |aParts| else |bParts|;
    for i := 0 to minSize
      invariant CleanUpTo(aParts, bParts, i)
    {
      var aIsDigit := aParts[i] != "" && IsDigit(aParts[i][0]);
      var bIsDigit := bParts[i] != "" && IsDigit(bParts[i][0]);
      if !Comparable(aParts, bParts, i) {
        ThrowsAt(aParts, bParts, i);
      } else if PartTies(aParts[i], bParts[i]) {
        TiedAt(aParts, bParts, i);
      } else {
        SettledAt(aParts, bParts, i);
      }
      if aIsDigit && bIsDigit {
        ReadDigitLed(aParts[i]);
        ReadDigitLed(bParts[i]);
        var numA :- Stoi(aParts[i]);
        var numB :- Stoi(bParts[i]);
        if numA != numB {
          return Returns(numA < numB);
        }
      } else {
        if aParts[i] != bParts[i] {
          return Returns(StrLess(aParts[i], bParts[i]));
        }
      }
    }
    RunsOutAt(aParts, bParts, minSize);
    return Returns(|aParts| < |bParts|);
  }

  // ----- Order laws

  /** Where a part stands among the parts led by digits: before, with or after them. */
  function Zone(p: string): int {
    if p == "" || p[0] < '0' then -1 else if p[0] <= '9' then 0 else 1
  }

  lemma ZoneDecides(p: string, q: string)
    requires Zone(p) != Zone(q)
    ensures PartLess(p, q) <==> Zone(p) < Zone(q)
    ensures !PartTies(p, q)
  {
  }

  /** Parts are weakly ordered: bytes and numbers do not get in each other's way. */
  lemma PartLaws(p: string, q: string, r: string)
    ensures PartLess(p, q) || PartLess(q, p) || PartTies(p, q)
    ensures !(PartLess(p, q) && (PartLess(q, p) || PartTies(p, q)))
    ensures PartTies(p, p) && PartTies(p, q) == PartTies(q, p)
    ensures PartLess(p, q) && PartLess(q, r) ==> PartLess(p, r)
    ensures PartTies(p, q) ==> PartLess(p, r) == PartLess(q, r) && PartLess(r, p) == PartLess(r, q)
    ensures PartTies(p, q) && PartTies(q, r) ==> PartTies(p, r)
  {
    StrLessTotal(p, q);
    if Zone(p) != Zone(q) {
      ZoneDecides(p, q);
      ZoneDecides(q, p);
    }
    if Zone(q) != Zone(r) {
      ZoneDecides(q, r);
      ZoneDecides(r, q);
    }
    if Zone(p) != Zone(r) {
      ZoneDecides(p, r);
      ZoneDecides(r, p);
    } else if PartLess(p, q) && PartLess(q, r) {
      if Zone(p) != 0 && Zone(q) == Zone(p) {
        StrLessTransitive(p, q, r);
      }
    }
  }

  ghost predicate PartsTie(a: seq<string>, b: seq<string>) {
    |a| == |b| && TiesUpTo(a, b, |a|)
  }

  lemma {:induction false} PartsLaws(a: seq<string>, b: seq<string>, c: seq<string>)
    ensures PartsLess(a, b) || PartsLess(b, a) || PartsTie(a, b)
    ensures !(PartsLess(a, b) && (PartsLess(b, a) || PartsTie(a, b)))
    ensures PartsLess(a, b) && PartsLess(b, c) ==> PartsLess(a, c)
    ensures PartsTie(a, b) ==> PartsLess(a, c) == PartsLess(b, c) && PartsLess(c, a) == PartsLess(c, b)
  {
    if a != [] && b != [] {
      if c != [] {
        PartLaws(a[0], b[0], c[0]);
        PartLaws(b[0], c[0], a[0]);
        PartLaws(c[0], a[0], b[0]);
        PartsLaws(a[1..], b[1..], c[1..]);
      } else {
        PartLaws(a[0], b[0], "");
        PartsLaws(a[1..], b[1..], []);
      }
      PartsTieByHead(a, b);
    }
  }

  lemma PartsTieByHead(a: seq<string>, b: seq<string>)
    requires a != [] && b != []
    ensures PartsTie(a, b) <==> PartTies(a[0], b[0]) && PartsTie(a[1..], b[1..])
  {
    if PartTies(a[0], b[0]) && PartsTie(a[1..], b[1..]) {
      forall i | 0 <= i < |a| ensures PartTies(a[i], b[i]) {
        if i > 0 {
          assert a[i] == a[1..][i - 1] && b[i] == b[1..][i - 1];
        }
      }
    }
    if PartsTie(a, b) {
      assert forall i | 0 <= i < |a| - 1 :: a[1..][i] == a[i + 1] && b[1..][i] == b[i + 1];
    }
  }

  /** `compareSemVer` is a strict weak order on all strings: irreflexive, transitive, and with
      "neither is below the other" an equivalence, namely part-by-part ties. */
  lemma SemLessIsStrictWeak(a: string, b: string, c: string)
    ensures !SemLess(a, a)
    ensures SemLess(a, b) && SemLess(b, c) ==> SemLess(a, c)
    ensures !SemLess(a, b) && !SemLess(b, c) ==> !SemLess(a, c)
    ensures !SemLess(a, b) && !SemLess(b, a) <==> PartsTie(Parts(a), Parts(b))
    ensures PartsTie(Parts(a), Parts(b)) ==> SemLess(a, c) == SemLess(b, c) && SemLess(c, a) == SemLess(c, b)
  {
    PartsLaws(Parts(a), Parts(a), Parts(a));
    PartsLaws(Parts(a), Parts(b), Parts(c));
    PartsLaws(Parts(b), Parts(c), Parts(a));
    PartsLaws(Parts(c), Parts(b), Parts(a));
    PartsLaws(Parts(b), Parts(a), Parts(c));
  }

  // ----- Lists with a common front

  lemma HeadsDecide(a: seq<string>, b: seq<string>)
    requires a != [] && b != [] && !PartTies(a[0], b[0])
    ensures PartsLess(a, b) <==> PartLess(a[0], b[0])
  {
  }

  lemma HeadDecides(p: string, a: seq<string>, q: string, b: seq<string>)
    ensures PartsLess([p] + a, [q] + b) <==> PartLess(p, q) || (PartTies(p, q) && PartsLess(a, b))
  {
    assert ([p] + a)[1..] == a && ([q] + b)[1..] == b;
  }

  lemma PartsLessOneWay(a: seq<string>, b: seq<string>)
    ensures !(PartsLess(a, b) && PartsLess(b, a))
  {
    PartsLaws(a, b, a);
  }

  lemma FrontIsLess(a: seq<string>, b: seq<string>)
    requires b != []
    ensures PartsLess(a, a + b)
  {
    forall i | 0 <= i < |a| ensures PartTies(a[i], (a + b)[i]) {
      PartLaws(a[i], a[i], "");
    }
    DecidedAt(a, a + b, |a|);
    assert (a + b)[|a|..] == b && a[|a|..] == [];
  }

  lemma SameFront(front: seq<string>, a: seq<string>, b: seq<string>)
    ensures PartsLess(front + a, front + b) == PartsLess(a, b)
  {
    forall i | 0 <= i < |front| ensures PartTies((front + a)[i], (front + b)[i]) {
      PartLaws(front[i], front[i], "");
    }
    DecidedAt(front + a, front + b, |front|);
    assert (front + a)[|front|..] == a && (front + b)[|front|..] == b;
  }
}
