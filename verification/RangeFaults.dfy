/** When `minimum` ends without an answer: the first of its steps that throws or is undefined, and
    the numbers that keep every step from doing so. */
module RangeFaults {
  import opened Text
  import opened Decimal
  import opened FieldSplitting
  import opened Releases
  import opened PartOrder
  import opened Agreement
  import opened Coercion
  import opened Bounds
  import opened Bumps
  import opened Windows
  import opened Ranges
  import opened RangeLaws

  // ----- The steps, and the first that faults

  function FirstFault(steps: seq<Option<Fault>>): Option<Fault> {
    if steps == [] then None else if steps[0].Some? then steps[0] else FirstFault(steps[1..])
  }

  ghost predicate NoneUpTo(steps: seq<Option<Fault>>, i: nat)
    requires i <= |steps|
  {
    forall k | 0 <= k < i :: steps[k] == None
  }

  lemma {:induction false} FirstFaultFrom(steps: seq<Option<Fault>>, i: nat)
    requires i <= |steps| && NoneUpTo(steps, i)
    ensures FirstFault(steps) == FirstFault(steps[i..])
  {
    if i > 0 {
      assert steps[0] == None;
      assert forall k | 0 <= k < i - 1 :: steps[1..][k] == steps[k + 1];
      FirstFaultFrom(steps[1..], i - 1);
      assert steps[1..][i - 1..] == steps[i..];
    }
  }

  /** The steps before have not faulted, and this one does. */
  lemma FaultsAt(steps: seq<Option<Fault>>, i: nat)
    requires i < |steps| && NoneUpTo(steps, i)
    ensures steps[i].Some? ==> FirstFault(steps) == steps[i]
    ensures steps[i] == None ==> NoneUpTo(steps, i + 1)
  {
    FirstFaultFrom(steps, i);
  }

  lemma NoFault(steps: seq<Option<Fault>>)
    requires NoneUpTo(steps, |steps|)
    ensures FirstFault(steps) == None
  {
    FirstFaultFrom(steps, |steps|);
  }

  function OrElse(first: Option<Fault>, second: Option<Fault>): Option<Fault> {
    if first.Some? then first else second
  }

  // ----- The steps of `minimum`

  function BoundFault(c: Constraint): Option<Fault> {
    match c.op
    case Caret => CaretBound(c.version).Failure()
    case Tilde => TildeBound(c.version).Failure()
    case _ => None
  }

  function BoundFaults(cs: seq<Constraint>): (steps: seq<Option<Fault>>)
    ensures |steps| == |cs|
    ensures forall i | 0 <= i < |cs| :: steps[i] == BoundFault(cs[i])
  {
    seq(|cs|, i requires 0 <= i < |cs| => BoundFault(cs[i]))
  }

  /** Bumping a `>` operand, and then comparing its lowest text with the candidate so far. */
  ghost function LowerFault(best: string, lower: Constraint): Option<Fault> {
    OrElse(
      if lower.op == Gt then Bump(lower.version).Failure() else None,
      if best == "" then None else CompareFault(best, Lowest(lower)))
  }

  ghost function LowerFaults(lowers: seq<Constraint>): (steps: seq<Option<Fault>>)
    ensures |steps| == |lowers|
    ensures forall i | 0 <= i < |lowers| :: steps[i] == LowerFault(Highest(lowers[..i]), lowers[i])
  {
    seq(|lowers|, i requires 0 <= i < |lowers| => LowerFault(Highest(lowers[..i]), lowers[i]))
  }

  /** Checking an upper constraint, when the candidate has come that far. */
  ghost function UpperFault(candidate: Option<string>, upper: Constraint): Option<Fault> {
    if candidate == None then None
    else SatisfyFault(if Rewrites(candidate.value, upper) then ZERO_PRE else candidate.value, upper.op, upper.version)
  }

  ghost function UpperFaults(first: string, uppers: seq<Constraint>): (steps: seq<Option<Fault>>)
    ensures |steps| == |uppers|
    ensures forall i | 0 <= i < |uppers| :: steps[i] == UpperFault(Admitted(first, uppers[..i]), uppers[i])
  {
    seq(|uppers|, i requires 0 <= i < |uppers| => UpperFault(Admitted(first, uppers[..i]), uppers[i]))
  }

  ghost function AlternativeFault(a: Alternative): Option<Fault> {
    match a
    case Star => None
    case Bare(text) => Coerce(text).Failure()
    case Ops(cs) =>
      OrElse(FirstFault(BoundFaults(cs)),
             OrElse(FirstFault(LowerFaults(Lowers(cs))),
                    FirstFault(UpperFaults(FirstCandidate(a), Uppers(cs)))))
  }

  ghost function ImproveFault(best: Option<string>, next: Option<string>): Option<Fault> {
    if best.Some? && next.Some? then CompareFault(next.value, best.value) else None
  }

  /** A `*` is compared as 0.0.0, and when that is no improvement again as a text. */
  ghost function NextFault(best: Option<string>, a: Alternative): Option<Fault> {
    OrElse(
      if a.Star? then ImproveFault(best, Some(ZERO)) else None,
      if a.Star? && (best == None || SemLess(ZERO, best.value)) then None
      else OrElse(AlternativeFault(a), ImproveFault(best, Accepted(a))))
  }

  ghost function UnionFaults(alternatives: seq<Alternative>): (steps: seq<Option<Fault>>)
    ensures |steps| == |alternatives|
    ensures forall i | 0 <= i < |alternatives| :: steps[i] == NextFault(Best(alternatives[..i]), alternatives[i])
  {
    seq(|alternatives|, i requires 0 <= i < |alternatives| => NextFault(Best(alternatives[..i]), alternatives[i]))
  }

  ghost function RangeFault(range: Range): Option<Fault> {
    match range
    case Between(low) => Coerce(low).Failure()
    case Union(alternatives) => FirstFault(UnionFaults(alternatives))
    case _ => None
  }

  // ----- Numbers that keep a constraint from faulting

  /** The caret bound has `int`s to read and one that can grow, or no number at all. */
  predicate CaretReadable(version: string) {
    Scan(version).Some? ==> CaretCounts(Scan(version).value)
  }

  function TildePieces(version: string): seq<string> {
    WithoutEmptyEnd(DotParts(version))
  }

  /** The tilde bound has two `int`s to read, or no number at all; `coerce` reads the version as well. */
  predicate TildeCoerces(version: string) {
    Scan(version) == None || (Below(Scan(version).value, LLONG_MAX + 1) && TildeReadable(TildePieces(version)))
  }

  predicate TildeNumbers(parts: seq<string>) {
    TildeReadable(parts) && Reading(parts[0]).value >= 0 && Reading(parts[1]).value >= 0
  }

  /** The same with numbers that are not negative. */
  predicate TildeSafe(version: string) {
    Scan(version) == None || (Below(Scan(version).value, LLONG_MAX + 1) && TildeNumbers(TildePieces(version)))
  }

  /** Every number in the version is an `int`, and so is every number computed from it. */
  predicate SafeConstraint(c: Constraint) {
    && Fits(c.version)
    && (c.op == Gt ==> Legible(c.version))
    && (c.op == Caret ==> CaretReadable(c.version))
    && (c.op == Tilde ==> TildeSafe(c.version))
  }

  predicate AllSafe(cs: seq<Constraint>) {
    forall i | 0 <= i < |cs| :: SafeConstraint(cs[i])
  }

  predicate SafeAlternative(a: Alternative) {
    match a
    case Star => true
    case Bare(text) => if Scan(text) == None then Fits(text) else Below(Scan(text).value, INT_MAX + 1)
    case Ops(cs) => AllSafe(cs)
  }

  predicate Safe(range: Range) {
    match range
    case Between(low) => Scan(low).Some? ==> Below(Scan(low).value, LLONG_MAX + 1)
    case Union(alternatives) => forall i | 0 <= i < |alternatives| :: SafeAlternative(alternatives[i])
    case _ => true
  }

  lemma CaretFaultsExactly(version: string)
    ensures CaretBound(version).Returns? <==> CaretReadable(version)
  {
    CaretOutcome(version);
    CoerceFindsDigits(version);
  }

  lemma TildeBoundIs(version: string)
    ensures TildeBound(version) ==
            if Scan(version) == None then Returns("")
            else if !Below(Scan(version).value, LLONG_MAX + 1) then Faults(OutOfRange)
            else TildeOfPieces(TildePieces(version))
  {
  }

  lemma TildeFaultsExactly(version: string)
    ensures TildeBound(version).Returns? <==> TildeCoerces(version)
  {
    TildeBoundIs(version);
    TildeReturns(TildePieces(version));
  }

  lemma BumpFaultsExactly(version: string)
    ensures Bump(version).Returns? <==> Legible(version)
  {
    BumpOutcome(version);
  }

  /** Whether what is computed for a constraint faults, by the numbers of its operand. */
  lemma OperandFaultsExactly(c: Constraint)
    ensures BoundFault(c) == None && (c.op == Gt ==> Bump(c.version).Returns?) <==>
            && (c.op == Gt ==> Legible(c.version))
            && (c.op == Caret ==> CaretReadable(c.version))
            && (c.op == Tilde ==> TildeCoerces(c.version))
  {
    if c.op == Gt {
      BumpFaultsExactly(c.version);
    } else if c.op == Caret {
      CaretFaultsExactly(c.version);
    } else if c.op == Tilde {
      TildeFaultsExactly(c.version);
    }
  }

  // ----- Computed texts fit

  lemma FitsByParts(s: string, parts: seq<string>)
    requires Parts(s) == parts && AllFit(parts)
    ensures Fits(s)
  {
  }

  lemma AllFitTogether(a: seq<string>, b: seq<string>)
    ensures AllFit(a + b) <==> AllFit(a) && AllFit(b)
  {
    if AllFit(a + b) {
      assert forall i | 0 <= i < |a| :: a[i] == (a + b)[i];
      assert forall i | 0 <= i < |b| :: b[i] == (a + b)[|a| + i];
    }
  }

  lemma ZeroFits()
    ensures AllFit(["0"]) && AllFit([""]) && AllFit(ZEROS)
  {
    ReadDigit("0");
  }

  lemma SpecialTextsFit()
    ensures Fits(ZERO) && Fits(ZERO_PRE) && Fits("*") && Fits("")
  {
    ZeroFits();
    PartsOfZero();
    PartsOfZeroPre();
    AllFitTogether(ZEROS, ["0"]);
    OnePart("*");
    assert Parts("") == [];
  }

  lemma GrownFits(preRelease: string)
    requires AllFit(Parts(preRelease))
    ensures AllFit(Grown(preRelease))
  {
    var f := Fields(preRelease, SEPARATORS);
    ZeroFits();
    if f[|f| - 1] == "" {
      assert f == Parts(preRelease) + [""];
      AllFitTogether(Parts(preRelease), [""]);
    }
    AllFitTogether(f, ["0"]);
  }

  lemma LabelledFits(t: Triple, preRelease: string)
    requires Below(t, INT_MAX + 1) && AllFit(Parts(preRelease))
    ensures Fits(Labelled(Rel(t), preRelease))
  {
    PartsOfLabelled(t, preRelease);
    GrownFits(preRelease);
    RelFits(t);
    PartsOfRel(t);
    AllFitTogether(Numerals(t), Grown(preRelease));
    FitsByParts(Labelled(Rel(t), preRelease), Numerals(t) + Grown(preRelease));
  }

  lemma LabelFits(version: string)
    requires Fits(version)
    ensures AllFit(Parts(LabelPart(version)))
  {
    if LabelPart(version) == "" {
      assert Parts("") == [];
    } else {
      PartsOfLabelledPieces(version);
      AllFitTogether(Pieces(version), Parts(LabelPart(version)));
    }
  }

  lemma NextPatchFits(t: Triple)
    requires Below(t, INT_MAX + 1) && t.patch < INT_MAX
    ensures Fits(Rel(t.(patch := t.patch + 1)))
  {
    RelFits(t.(patch := t.patch + 1));
  }

  lemma BumpedFits(t: Triple, preRelease: string)
    requires Below(t, INT_MAX + 1) && (preRelease == "" ==> t.patch < INT_MAX)
    requires AllFit(Parts(preRelease))
    ensures Fits(BumpedText(t, preRelease))
  {
    if preRelease == "" {
      NextPatchFits(t);
    } else {
      LabelledFits(t, preRelease);
    }
  }

  lemma LowestFits(c: Constraint)
    requires Fits(c.version) && (c.op == Gt ==> Legible(c.version))
    ensures c.op == Gt ==> Bump(c.version).Returns?
    ensures Fits(Lowest(c))
  {
    if c.op == Gt {
      BumpOutcome(c.version);
      if Readable(c.version) {
        LabelFits(c.version);
        BumpedFits(NumbersRead(Pieces(c.version)), LabelPart(c.version));
      }
    }
  }

  lemma CaretEndFits(t: Triple)
    requires CaretCounts(t)
    ensures Fits(Rel(CaretEnd(t)))
  {
    RelFits(CaretEnd(t));
  }

  lemma CaretBoundFits(version: string)
    requires CaretReadable(version)
    ensures CaretBound(version).Returns? && Fits(CaretBound(version).value)
  {
    if Scan(version).Some? {
      var t := Scan(version).value;
      CaretTextIs(version, t);
      CaretEndFits(t);
    } else {
      SpecialTextsFit();
      CaretOutcome(version);
      CoerceFindsDigits(version);
    }
  }

  lemma TildePiecesFit(parts: seq<string>)
    requires TildeNumbers(parts)
    ensures TildeOfPieces(parts).Returns? && Fits(TildeOfPieces(parts).value)
  {
    var x, y := Reading(parts[0]).value, Reading(parts[1]).value;
    TildeOfPieceNumbers(parts, x, y);
    RelFits(Triple(x, y + 1, 0));
  }

  lemma TildeBoundFits(version: string)
    requires TildeSafe(version)
    ensures TildeBound(version).Returns? && Fits(TildeBound(version).value)
  {
    SpecialTextsFit();
    TildeBoundIs(version);
    if Scan(version).Some? {
      TildePiecesFit(TildePieces(version));
    }
  }

  // ----- No step faults on safe ranges

  predicate SafeLower(lower: Constraint) {
    Fits(lower.version) && (lower.op == Gt ==> Legible(lower.version))
  }

  predicate AllSafeLower(lowers: seq<Constraint>) {
    forall i | 0 <= i < |lowers| :: SafeLower(lowers[i])
  }

  predicate AllFitting(bounds: seq<Constraint>) {
    forall i | 0 <= i < |bounds| :: Fits(bounds[i].version)
  }

  lemma SafeBound(c: Constraint)
    requires SafeConstraint(c)
    ensures BoundFault(c) == None
    ensures LowerOf(c).Some? ==> SafeLower(LowerOf(c).value)
    ensures UpperOf(c).Some? ==> Fits(UpperOf(c).value.version)
  {
    if c.op == Caret {
      CaretBoundFits(c.version);
    } else if c.op == Tilde {
      TildeBoundFits(c.version);
    }
  }

  lemma SafeWith(bounds: seq<Constraint>, next: Option<Constraint>)
    requires AllSafeLower(bounds) && (next.Some? ==> SafeLower(next.value))
    ensures AllSafeLower(With(bounds, next))
  {
    if next.Some? {
      var longer := bounds + [next.value];
      forall i | 0 <= i < |longer| ensures SafeLower(longer[i]) {
        assert longer[i] == if i < |bounds| then bounds[i] else next.value;
      }
    }
  }

  lemma FittingWith(bounds: seq<Constraint>, next: Option<Constraint>)
    requires AllFitting(bounds) && (next.Some? ==> Fits(next.value.version))
    ensures AllFitting(With(bounds, next))
  {
    if next.Some? {
      var longer := bounds + [next.value];
      forall i | 0 <= i < |longer| ensures Fits(longer[i].version) {
        assert longer[i] == if i < |bounds| then bounds[i] else next.value;
      }
    }
  }

  lemma {:induction false} SafeBounds(cs: seq<Constraint>)
    requires AllSafe(cs)
    ensures AllSafeLower(Lowers(cs)) && AllFitting(Uppers(cs))
  {
    if cs != [] {
      var n := |cs| - 1;
      assert forall i | 0 <= i < n :: cs[..n][i] == cs[i];
      SafeBounds(cs[..n]);
      SafeBound(cs[n]);
      SafeWith(Lowers(cs[..n]), LowerOf(cs[n]));
      FittingWith(Uppers(cs[..n]), UpperOf(cs[n]));
    }
  }

  lemma SafeCollect(cs: seq<Constraint>)
    requires AllSafe(cs)
    ensures FirstFault(BoundFaults(cs)) == None
  {
    forall i | 0 <= i < |cs| ensures BoundFaults(cs)[i] == None {
      SafeBound(cs[i]);
    }
    NoFault(BoundFaults(cs));
  }

  lemma HighestFits(lowers: seq<Constraint>)
    requires AllSafeLower(lowers)
    ensures Fits(Highest(lowers))
  {
    SpecialTextsFit();
    if lowers != [] {
      HighestIsGreatest(lowers);
      var k :| 0 <= k < |lowers| && Highest(lowers) == Lowest(lowers[k]);
      LowestFits(lowers[k]);
    } else {
      assert LowestTexts(lowers) == [];
    }
  }

  lemma SafeLowerStep(lowers: seq<Constraint>, i: nat)
    requires AllSafeLower(lowers) && i < |lowers|
    ensures LowerFault(Highest(lowers[..i]), lowers[i]) == None
  {
    assert forall k | 0 <= k < i :: lowers[..i][k] == lowers[k];
    HighestFits(lowers[..i]);
    LowestFits(lowers[i]);
    FittingTexts(Highest(lowers[..i]), Lowest(lowers[i]));
  }

  lemma SafeHighest(lowers: seq<Constraint>)
    requires AllSafeLower(lowers)
    ensures FirstFault(LowerFaults(lowers)) == None
  {
    forall i | 0 <= i < |lowers| ensures LowerFaults(lowers)[i] == None {
      SafeLowerStep(lowers, i);
    }
    NoFault(LowerFaults(lowers));
  }

  lemma {:induction false} AdmittedIsOneOf(candidate: string, uppers: seq<Constraint>)
    ensures var r := Admitted(candidate, uppers); r == None || r == Some(candidate) || r == Some(ZERO_PRE)
    decreases |uppers|
  {
    if uppers != [] {
      AdmittedIsOneOf(candidate, uppers[1..]);
      AdmittedIsOneOf(ZERO_PRE, uppers[1..]);
    }
  }

  lemma SafeUpperStep(first: string, uppers: seq<Constraint>, i: nat)
    requires Fits(first) && AllFitting(uppers) && i < |uppers|
    ensures UpperFault(Admitted(first, uppers[..i]), uppers[i]) == None
  {
    SpecialTextsFit();
    AdmittedIsOneOf(first, uppers[..i]);
    FittingTexts(first, uppers[i].version);
    FittingTexts(ZERO_PRE, uppers[i].version);
  }

  lemma SafeCheck(first: string, uppers: seq<Constraint>)
    requires Fits(first) && AllFitting(uppers)
    ensures FirstFault(UpperFaults(first, uppers)) == None
  {
    forall i | 0 <= i < |uppers| ensures UpperFaults(first, uppers)[i] == None {
      SafeUpperStep(first, uppers, i);
    }
    NoFault(UpperFaults(first, uppers));
  }

  lemma BareFits(text: string)
    requires SafeAlternative(Bare(text))
    ensures Fits(FirstCandidate(Bare(text)))
  {
    if Scan(text).Some? {
      RelFits(Scan(text).value);
    }
  }

  lemma FirstCandidateFits(a: Alternative)
    requires SafeAlternative(a)
    ensures Fits(FirstCandidate(a))
  {
    SpecialTextsFit();
    if a.Bare? {
      BareFits(a.text);
    } else if a.Ops? {
      SafeBounds(a.constraints);
      HighestFits(Lowers(a.constraints));
    }
  }

  lemma SafeOps(cs: seq<Constraint>)
    requires AllSafe(cs)
    ensures AlternativeFault(Ops(cs)) == None
  {
    FirstCandidateFits(Ops(cs));
    SafeCollect(cs);
    SafeBounds(cs);
    SafeHighest(Lowers(cs));
    SafeCheck(FirstCandidate(Ops(cs)), Uppers(cs));
  }

  lemma SafeAlternativeReturns(a: Alternative)
    requires SafeAlternative(a)
    ensures AlternativeFault(a) == None
  {
    if a.Ops? {
      SafeOps(a.constraints);
    }
  }

  lemma AcceptedFits(a: Alternative)
    requires SafeAlternative(a)
    ensures Accepted(a).Some? ==> Fits(Accepted(a).value)
  {
    SpecialTextsFit();
    FirstCandidateFits(a);
    AdmittedIsOneOf(FirstCandidate(a), UpperConstraints(a));
  }

  ghost predicate Fitting(text: Option<string>) {
    text.Some? ==> Fits(text.value)
  }

  lemma NoImproveFault(best: Option<string>, next: Option<string>)
    requires Fitting(best) && Fitting(next)
    ensures ImproveFault(best, next) == None
  {
    if best.Some? && next.Some? {
      FittingTexts(next.value, best.value);
    }
  }

  lemma NextReturns(best: Option<string>, a: Alternative)
    requires SafeAlternative(a) && Fitting(best)
    ensures NextFault(best, a) == None
  {
    SpecialTextsFit();
    SafeAlternativeReturns(a);
    AcceptedFits(a);
    NoImproveFault(best, Some(ZERO));
    NoImproveFault(best, Accepted(a));
  }

  lemma NextIsOneOf(best: Option<string>, a: Alternative)
    ensures Next(best, a) == best || Next(best, a) == Some(ZERO) || Next(best, a) == Accepted(a)
  {
  }

  lemma {:induction false} BestFits(alternatives: seq<Alternative>)
    requires forall i | 0 <= i < |alternatives| :: SafeAlternative(alternatives[i])
    ensures Fitting(Best(alternatives))
  {
    if alternatives != [] {
      var n := |alternatives| - 1;
      assert forall i | 0 <= i < n :: alternatives[..n][i] == alternatives[i];
      BestFits(alternatives[..n]);
      SpecialTextsFit();
      AcceptedFits(alternatives[n]);
      NextIsOneOf(Best(alternatives[..n]), alternatives[n]);
    }
  }

  lemma SafeUnionStep(alternatives: seq<Alternative>, i: nat)
    requires forall k | 0 <= k < |alternatives| :: SafeAlternative(alternatives[k])
    requires i < |alternatives|
    ensures NextFault(Best(alternatives[..i]), alternatives[i]) == None
  {
    assert forall k | 0 <= k < i :: alternatives[..i][k] == alternatives[k];
    BestFits(alternatives[..i]);
    NextReturns(Best(alternatives[..i]), alternatives[i]);
  }

  /** When all numbers in a range and all numbers computed from it are `int`s, nothing faults. */
  lemma SafeRangesReturn(range: Range)
    requires Safe(range)
    ensures RangeFault(range) == None
  {
    if range.Union? {
      var steps := UnionFaults(range.alternatives);
      forall i | 0 <= i < |steps| ensures steps[i] == None {
        SafeUnionStep(range.alternatives, i);
      }
      NoFault(steps);
    }
  }
}
