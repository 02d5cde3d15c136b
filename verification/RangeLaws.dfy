/** What the answer of `minimum` means on arbitrary version texts, and where it fails to mean that. */
module RangeLaws {
  import opened Text
  import opened Decimal
  import opened FieldSplitting
  import opened Releases
  import opened PartOrder
  import opened Agreement
  import opened Coercion
  import opened Bounds
  import opened Bumps
  import opened Windows
  import opened Ranges

  ghost predicate MeetsAll(text: string, bounds: seq<Constraint>) {
    forall i | 0 <= i < |bounds| :: Satisfies(text, bounds[i].op, bounds[i].version)
  }

  predicate IsLower(c: Constraint) {
    c.op == Gt || c.op == Ge
  }

  predicate IsUpper(c: Constraint) {
    c.op == Lt || c.op == Le
  }

  predicate AllLower(bounds: seq<Constraint>) {
    forall i | 0 <= i < |bounds| :: IsLower(bounds[i])
  }

  predicate AllUpper(bounds: seq<Constraint>) {
    forall i | 0 <= i < |bounds| :: IsUpper(bounds[i])
  }

  lemma BoundsOfOne(c: Constraint)
    ensures (LowerOf(c).Some? ==> IsLower(LowerOf(c).value)) && (UpperOf(c).Some? ==> IsUpper(UpperOf(c).value))
  {
  }

  lemma {:induction false} LowersAreLower(cs: seq<Constraint>)
    ensures AllLower(Lowers(cs)) && AllUpper(Uppers(cs))
  {
    if cs != [] {
      LowersAreLower(cs[..|cs| - 1]);
      BoundsOfOne(cs[|cs| - 1]);
    }
  }

  // ----- What a constraint asks, by its operator and operand

  /** From below: `>` means above the operand; `>=`, `^` and `~` mean not below it. */
  ghost predicate LowerAllows(c: Constraint, text: string) {
    match c.op
    case Gt => SemLess(c.version, text)
    case Ge => !SemLess(text, c.version)
    case Caret => !SemLess(text, c.version)
    case Tilde => !SemLess(text, c.version)
    case Lt => true
    case Le => true
  }

  /** From above: `<` means below the operand and `<=` not above it; `^` and `~` mean below the
      bound, but without a digit `^` allows nothing and `~` anything. */
  ghost predicate UpperAllows(c: Constraint, text: string) {
    match c.op
    case Gt => true
    case Ge => true
    case Lt => SemLess(text, c.version)
    case Le => !SemLess(c.version, text)
    case Caret =>
      !NoDigit(c.version) && CaretBound(c.version).Returns? && SemLess(text, CaretBound(c.version).value)
    case Tilde =>
      !NoDigit(c.version) && TildeBound(c.version).Returns? ==> SemLess(text, TildeBound(c.version).value)
  }

  ghost predicate LowersAllow(cs: seq<Constraint>, text: string) {
    forall i | 0 <= i < |cs| :: LowerAllows(cs[i], text)
  }

  ghost predicate UppersAllow(cs: seq<Constraint>, text: string) {
    forall i | 0 <= i < |cs| :: UpperAllows(cs[i], text)
  }

  ghost predicate AllowsAll(cs: seq<Constraint>, text: string) {
    LowersAllow(cs, text) && UppersAllow(cs, text)
  }

  // ----- Lists of constraints

  lemma LowersOfMore(cs: seq<Constraint>, c: Constraint)
    ensures Lowers(cs + [c]) == With(Lowers(cs), LowerOf(c))
    ensures Uppers(cs + [c]) == With(Uppers(cs), UpperOf(c))
  {
    assert (cs + [c])[..|cs|] == cs;
  }

  lemma HighestOfMore(lowers: seq<Constraint>, next: Constraint)
    ensures Highest(lowers + [next]) == Higher(Highest(lowers), Lowest(next))
  {
    var texts := LowestTexts(lowers + [next]);
    assert texts[..|lowers|] == LowestTexts(lowers);
  }

  lemma OneBound(text: string, bound: Constraint)
    ensures MeetsAll(text, [bound]) <==> Satisfies(text, bound.op, bound.version)
    ensures MeetsAll(text, [])
  {
    assert [bound][0] == bound;
  }

  lemma MeetsBoth(text: string, a: seq<Constraint>, b: seq<Constraint>)
    ensures MeetsAll(text, a + b) <==> MeetsAll(text, a) && MeetsAll(text, b)
  {
    if MeetsAll(text, a + b) {
      assert forall i | 0 <= i < |a| :: a[i] == (a + b)[i];
      assert forall i | 0 <= i < |b| :: b[i] == (a + b)[|a| + i];
    }
  }

  ghost predicate MeetsOne(text: string, bound: Option<Constraint>) {
    bound.Some? ==> Satisfies(text, bound.value.op, bound.value.version)
  }

  lemma MeetsWith(text: string, bounds: seq<Constraint>, next: Option<Constraint>)
    ensures MeetsAll(text, With(bounds, next)) <==> MeetsAll(text, bounds) && MeetsOne(text, next)
  {
    if next.Some? {
      OneBound(text, next.value);
      MeetsBoth(text, bounds, [next.value]);
    }
  }

  lemma LowerOfMeans(c: Constraint, text: string)
    ensures MeetsOne(text, LowerOf(c)) <==> LowerAllows(c, text)
  {
  }

  lemma NothingIsBelowEmpty(text: string)
    ensures !SemLess(text, "")
  {
    assert Parts("") == [];
  }

  lemma CaretBoundIsText(version: string)
    ensures NoDigit(version) ==> CaretBound(version) == Returns("")
    ensures !NoDigit(version) && CaretBound(version).Returns? ==> CaretBound(version).value != ""
  {
    CoerceFindsDigits(version);
  }

  lemma TildeTextIsNotEmpty(pieces: seq<string>)
    ensures TildeOfPieces(pieces).Returns? ==> TildeOfPieces(pieces).value != ""
  {
  }

  lemma TildeBoundIsText(version: string)
    ensures NoDigit(version) ==> TildeBound(version) == Returns("")
    ensures !NoDigit(version) && TildeBound(version).Returns? ==> TildeBound(version).value != ""
  {
    CoerceFindsDigits(version);
    TildeTextIsNotEmpty(WithoutEmptyEnd(DotParts(version)));
  }

  lemma BelowBound(bound: string, text: string)
    ensures MeetsOne(text, Some(Constraint(Lt, bound))) <==> SemLess(text, bound)
  {
  }

  lemma UpperOfCaret(version: string, text: string)
    ensures MeetsOne(text, UpperOf(Constraint(Caret, version))) <==> UpperAllows(Constraint(Caret, version), text)
  {
    CaretBoundIsText(version);
    NothingIsBelowEmpty(text);
    BelowBound(BoundText(CaretBound(version)), text);
  }

  lemma UpperOfTilde(version: string, text: string)
    ensures MeetsOne(text, UpperOf(Constraint(Tilde, version))) <==> UpperAllows(Constraint(Tilde, version), text)
  {
    TildeBoundIsText(version);
    if !NoDigit(version) && TildeBound(version).Returns? {
      BelowBound(TildeBound(version).value, text);
    } else {
      assert UpperOf(Constraint(Tilde, version)) == None;
    }
  }

  lemma UpperOfMeans(c: Constraint, text: string)
    ensures MeetsOne(text, UpperOf(c)) <==> UpperAllows(c, text)
  {
    match c.op
    case Caret => UpperOfCaret(c.version, text);
    case Tilde => UpperOfTilde(c.version, text);
    case _ =>
  }

  lemma FrontIs(cs: seq<Constraint>, i: nat)
    requires i < |cs| - 1
    ensures cs[..|cs| - 1][i] == cs[i]
  {
  }

  lemma LowersAllowFront(cs: seq<Constraint>, text: string)
    requires cs != [] && LowersAllow(cs, text)
    ensures LowersAllow(cs[..|cs| - 1], text) && LowerAllows(cs[|cs| - 1], text)
  {
    var front := cs[..|cs| - 1];
    forall i: nat | i < |front| ensures LowerAllows(front[i], text) {
      FrontIs(cs, i);
      assert LowerAllows(cs[i], text);
    }
  }

  lemma LowersAllowMore(cs: seq<Constraint>, text: string)
    requires cs != [] && LowersAllow(cs[..|cs| - 1], text) && LowerAllows(cs[|cs| - 1], text)
    ensures LowersAllow(cs, text)
  {
    forall i: nat | i < |cs| ensures LowerAllows(cs[i], text) {
      if i < |cs| - 1 {
        FrontIs(cs, i);
        assert LowerAllows(cs[..|cs| - 1][i], text);
      }
    }
  }

  lemma UppersAllowFront(cs: seq<Constraint>, text: string)
    requires cs != [] && UppersAllow(cs, text)
    ensures UppersAllow(cs[..|cs| - 1], text) && UpperAllows(cs[|cs| - 1], text)
  {
    var front := cs[..|cs| - 1];
    forall i: nat | i < |front| ensures UpperAllows(front[i], text) {
      FrontIs(cs, i);
      assert UpperAllows(cs[i], text);
    }
  }

  lemma UppersAllowMore(cs: seq<Constraint>, text: string)
    requires cs != [] && UppersAllow(cs[..|cs| - 1], text) && UpperAllows(cs[|cs| - 1], text)
    ensures UppersAllow(cs, text)
  {
    forall i: nat | i < |cs| ensures UpperAllows(cs[i], text) {
      if i < |cs| - 1 {
        FrontIs(cs, i);
        assert UpperAllows(cs[..|cs| - 1][i], text);
      }
    }
  }

  lemma {:induction false} UppersMean(cs: seq<Constraint>, text: string)
    ensures MeetsAll(text, Uppers(cs)) <==> UppersAllow(cs, text)
  {
    if cs != [] {
      var n := |cs| - 1;
      UppersMean(cs[..n], text);
      MeetsWith(text, Uppers(cs[..n]), UpperOf(cs[n]));
      UpperOfMeans(cs[n], text);
      if UppersAllow(cs, text) {
        UppersAllowFront(cs, text);
      } else if UppersAllow(cs[..n], text) && UpperAllows(cs[n], text) {
        UppersAllowMore(cs, text);
      }
    }
  }

  lemma {:induction false} LowersMean(cs: seq<Constraint>, text: string)
    ensures MeetsAll(text, Lowers(cs)) <==> LowersAllow(cs, text)
  {
    if cs != [] {
      var n := |cs| - 1;
      LowersMean(cs[..n], text);
      MeetsWith(text, Lowers(cs[..n]), LowerOf(cs[n]));
      LowerOfMeans(cs[n], text);
      if LowersAllow(cs, text) {
        LowersAllowFront(cs, text);
      } else if LowersAllow(cs[..n], text) && LowerAllows(cs[n], text) {
        LowersAllowMore(cs, text);
      }
    }
  }

  /** The lower and upper constraints that are collected ask together what the constraints ask. */
  lemma CollectedMeans(cs: seq<Constraint>, text: string)
    ensures MeetsAll(text, Lowers(cs)) && MeetsAll(text, Uppers(cs)) <==> AllowsAll(cs, text)
  {
    LowersMean(cs, text);
    UppersMean(cs, text);
  }

  lemma MeetsAllByHead(text: string, bounds: seq<Constraint>)
    requires bounds != []
    ensures MeetsAll(text, bounds) <==>
            Satisfies(text, bounds[0].op, bounds[0].version) && MeetsAll(text, bounds[1..])
  {
    assert forall i | 0 < i < |bounds| :: bounds[i] == bounds[1..][i - 1];
  }

  // ----- The candidate

  lemma NothingIsLeast(text: string)
    ensures !SemLess(text, "")
    ensures !SemLess("", text) ==> text == ""
  {
    assert Parts("") == [];
    if text != "" {
      FirstPart(text);
    }
  }

  lemma HigherTakes(best: string, next: string)
    ensures !SemLess(Higher(best, next), next)
  {
    SemLessIsStrictWeak(next, next, next);
  }

  lemma HigherKeeps(best: string, next: string, text: string)
    requires !SemLess(best, text)
    ensures !SemLess(Higher(best, next), text)
  {
    SemLessIsStrictWeak(next, text, best);
    SemLessIsStrictWeak(best, next, text);
    NothingIsLeast(text);
  }

  lemma {:induction false} HighestTextIsOne(texts: seq<string>)
    requires texts != []
    ensures HighestText(texts) in texts
  {
    var n := |texts| - 1;
    if n > 0 {
      HighestTextIsOne(texts[..n]);
    }
  }

  lemma {:induction false} HighestTextIsGreatest(texts: seq<string>, i: nat)
    requires i < |texts|
    ensures !SemLess(HighestText(texts), texts[i])
    decreases |texts|
  {
    var n := |texts| - 1;
    if i < n {
      assert texts[..n][i] == texts[i];
      HighestTextIsGreatest(texts[..n], i);
      HigherKeeps(HighestText(texts[..n]), texts[n], texts[i]);
    } else {
      HigherTakes(HighestText(texts[..n]), texts[n]);
    }
  }

  /** The candidate is one of the lowest texts, and below none of them. */
  lemma HighestIsGreatest(lowers: seq<Constraint>)
    requires lowers != []
    ensures exists i | 0 <= i < |lowers| :: Highest(lowers) == Lowest(lowers[i])
    ensures forall i | 0 <= i < |lowers| :: !SemLess(Highest(lowers), Lowest(lowers[i]))
  {
    var texts := LowestTexts(lowers);
    HighestTextIsOne(texts);
    var k :| 0 <= k < |texts| && texts[k] == HighestText(texts);
    assert Highest(lowers) == Lowest(lowers[k]);
    forall i | 0 <= i < |lowers|
      ensures !SemLess(Highest(lowers), Lowest(lowers[i]))
    {
      HighestTextIsGreatest(texts, i);
    }
  }

  /** The first of the greatest texts. */
  ghost predicate FirstGreatest(texts: seq<string>, k: nat)
    requires k < |texts|
  {
    && (forall i | 0 <= i < k :: SemLess(texts[i], texts[k]))
    && (forall i | k < i < |texts| :: !SemLess(texts[k], texts[i]))
  }

  lemma BelowGreatest(texts: seq<string>, m: nat, i: nat, next: string)
    requires m < |texts| && i < |texts| && FirstGreatest(texts, m) && SemLess(texts[m], next)
    ensures SemLess(texts[i], next)
  {
    BelowBoth(texts[i], texts[m], next);
    if i > m {
      BelowOne(texts[i], texts[m], next);
    }
  }

  lemma FirstOfMore(front: seq<string>, m: nat, next: string)
    requires m < |front| && FirstGreatest(front, m)
    ensures var n := |front|; FirstGreatest(front + [next], if SemLess(front[m], next) then n else m)
  {
    var all := front + [next];
    if SemLess(front[m], next) {
      forall i | 0 <= i < |front| ensures SemLess(all[i], next) {
        BelowGreatest(front, m, i, next);
      }
    }
  }

  lemma HigherIs(best: string, next: string)
    ensures Higher(best, next) == if SemLess(best, next) then next else best
  {
    if best == "" {
      NothingIsLeast(next);
    }
  }

  lemma BelowBoth(a: string, b: string, c: string)
    ensures SemLess(a, b) && SemLess(b, c) ==> SemLess(a, c)
  {
    SemLessIsStrictWeak(a, b, c);
  }

  lemma BelowOne(a: string, b: string, c: string)
    requires !SemLess(b, a) && SemLess(b, c)
    ensures SemLess(a, c)
  {
    SemLessIsStrictWeak(b, a, c);
    SemLessIsStrictWeak(b, c, a);
  }

  /** Of texts that tie, the first stays. */
  lemma {:induction false} HighestTextIsFirst(texts: seq<string>) returns (k: nat)
    requires texts != []
    ensures k < |texts| && HighestText(texts) == texts[k] && FirstGreatest(texts, k)
  {
    var n := |texts| - 1;
    var front := texts[..n];
    if n == 0 {
      k := 0;
      assert HighestText(front) == "";
    } else {
      var m := HighestTextIsFirst(front);
      FirstOfMore(front, m, texts[n]);
      HigherIs(front[m], texts[n]);
      assert texts == front + [texts[n]];
      k := if SemLess(front[m], texts[n]) then n else m;
    }
  }

  /** The candidate is the lowest text of the first constraint that no other one exceeds. */
  lemma HighestIsFirst(lowers: seq<Constraint>) returns (k: nat)
    requires lowers != []
    ensures k < |lowers| && Highest(lowers) == Lowest(lowers[k])
    ensures forall i | 0 <= i < k :: SemLess(Lowest(lowers[i]), Lowest(lowers[k]))
    ensures forall i | k < i < |lowers| :: !SemLess(Lowest(lowers[k]), Lowest(lowers[i]))
  {
    var texts := LowestTexts(lowers);
    k := HighestTextIsFirst(texts);
    forall i | 0 <= i < k ensures SemLess(Lowest(lowers[i]), Lowest(lowers[k])) {
      assert SemLess(texts[i], texts[k]);
    }
    forall i | k < i < |lowers| ensures !SemLess(Lowest(lowers[k]), Lowest(lowers[i])) {
      assert !SemLess(texts[k], texts[i]);
    }
  }

  /** Where no rewriting happens, the upper constraints either all hold or reject. */
  predicate NoRewrite(candidate: string, uppers: seq<Constraint>) {
    candidate == ZERO ==> forall i | 0 <= i < |uppers| :: uppers[i] != Constraint(Lt, FIRST_BETA)
  }

  lemma {:induction false} AdmittedPlainly(candidate: string, uppers: seq<Constraint>)
    requires NoRewrite(candidate, uppers)
    ensures Admitted(candidate, uppers) == if MeetsAll(candidate, uppers) then Some(candidate) else None
  {
    if uppers != [] {
      AdmittedPlainly(candidate, uppers[1..]);
      MeetsAllByHead(candidate, uppers);
    }
  }

  /** Upper constraints are closed downwards. */
  lemma UppersCloseDown(text: string, lower: string, uppers: seq<Constraint>)
    requires AllUpper(uppers)
    requires MeetsAll(text, uppers) && !SemLess(text, lower)
    ensures MeetsAll(lower, uppers)
  {
    forall i | 0 <= i < |uppers|
      ensures Satisfies(lower, uppers[i].op, uppers[i].version)
    {
      ConstraintLaws(lower, text, uppers[i].version);
    }
  }

  // ----- Soundness on arbitrary texts

  lemma LowestOfGreater(t: Triple)
    requires Below(t, INT_MAX)
    ensures Lowest(Constraint(Gt, Rel(t))) == Rel(t.(patch := t.patch + 1))
  {
    BumpOfRelease(t, ORIGIN);
  }

  /** The numbers are `int`s, and the next text is above the version. */
  predicate Climbs(version: string) {
    Readable(version) && Bumpable(version)
  }

  lemma UnreadableIsKept(version: string)
    requires !Readable(version)
    ensures Lowest(Constraint(Gt, version)) == version
  {
    BumpOutcome(version);
  }

  lemma BumpedIsAbove(version: string)
    requires Legible(version) && Readable(version)
    ensures SemLess(version, Lowest(Constraint(Gt, version))) <==> Bumpable(version)
  {
    BumpOutcome(version);
    BumpIsAboveExactly(version, Lowest(Constraint(Gt, version)));
  }

  /** The text that stands for `>version` meets it exactly when the version is readable and climbs. */
  lemma StrictOperandExactly(version: string)
    requires Legible(version)
    ensures Satisfies(Lowest(Constraint(Gt, version)), Gt, version) <==> Climbs(version)
  {
    if Readable(version) {
      BumpedIsAbove(version);
    } else {
      UnreadableIsKept(version);
      SemLessIsStrictWeak(version, version, version);
    }
  }

  lemma AboveAll(v: string, h: string, low: string)
    requires !SemLess(h, low)
    ensures SemLess(v, low) ==> SemLess(v, h)
  {
    SemLessIsStrictWeak(v, h, low);
  }

  predicate IsLowerOp(op: Op) {
    op != Lt && op != Le
  }

  /** The lowest text that a constraint with a lower side is taken to allow. */
  function LowestFor(c: Constraint): string {
    if c.op == Gt then Lowest(c) else c.version
  }

  lemma LowestForIs(c: Constraint)
    ensures IsLowerOp(c.op) <==> LowerOf(c).Some?
    ensures IsLowerOp(c.op) ==> Lowest(LowerOf(c).value) == LowestFor(c)
  {
  }

  /** Every lower constraint comes from a constraint. */
  lemma {:induction false} LowerComesFrom(cs: seq<Constraint>, i: nat) returns (j: nat)
    requires i < |Lowers(cs)|
    ensures j < |cs| && LowerOf(cs[j]) == Some(Lowers(cs)[i])
  {
    var n := |cs| - 1;
    if i < |Lowers(cs[..n])| {
      j := LowerComesFrom(cs[..n], i);
    } else {
      j := n;
    }
  }

  /** ... and every constraint with a lower side is there. */
  lemma {:induction false} LowerIsThere(cs: seq<Constraint>, j: nat) returns (i: nat)
    requires j < |cs| && LowerOf(cs[j]).Some?
    ensures i < |Lowers(cs)| && Some(Lowers(cs)[i]) == LowerOf(cs[j])
    decreases |cs|
  {
    var n := |cs| - 1;
    if j < n {
      i := LowerIsThere(cs[..n], j);
    } else {
      i := |Lowers(cs[..n])|;
    }
  }

  /** The candidate of a list is the lowest text of one of its constraints, and below that of none. */
  lemma CandidateTops(cs: seq<Constraint>) returns (k: nat)
    requires Lowers(cs) != []
    ensures k < |cs| && IsLowerOp(cs[k].op) && Highest(Lowers(cs)) == LowestFor(cs[k])
    ensures forall j | 0 <= j < |cs| && IsLowerOp(cs[j].op) :: !SemLess(Highest(Lowers(cs)), LowestFor(cs[j]))
  {
    HighestIsGreatest(Lowers(cs));
    var m :| 0 <= m < |Lowers(cs)| && Highest(Lowers(cs)) == Lowest(Lowers(cs)[m]);
    k := LowerComesFrom(cs, m);
    LowestForIs(cs[k]);
    forall j | 0 <= j < |cs| && IsLowerOp(cs[j].op)
      ensures !SemLess(Highest(Lowers(cs)), LowestFor(cs[j]))
    {
      LowestForIs(cs[j]);
      var i := LowerIsThere(cs, j);
    }
  }

  predicate AllLegibleIn(cs: seq<Constraint>) {
    forall i | 0 <= i < |cs| && cs[i].op == Gt :: Legible(cs[i].version)
  }

  /** Some constraint takes the candidate above the text. */
  ghost predicate TakenAbove(cs: seq<Constraint>, text: string) {
    exists j | 0 <= j < |cs| && IsLowerOp(cs[j].op) :: SemLess(text, LowestFor(cs[j]))
  }

  /** Each `>` operand climbs, or some constraint takes the candidate above it. */
  ghost predicate OperandsCovered(cs: seq<Constraint>) {
    forall i | 0 <= i < |cs| && cs[i].op == Gt :: Climbs(cs[i].version) || TakenAbove(cs, cs[i].version)
  }

  lemma CandidateAllows(cs: seq<Constraint>, i: nat)
    requires i < |cs| && Lowers(cs) != [] && (cs[i].op == Gt ==> Legible(cs[i].version))
    ensures LowerAllows(cs[i], Highest(Lowers(cs))) <==>
            (cs[i].op == Gt ==> Climbs(cs[i].version) || TakenAbove(cs, cs[i].version))
  {
    var h, c := Highest(Lowers(cs)), cs[i];
    var k := CandidateTops(cs);
    if c.op == Gt {
      StrictOperandExactly(c.version);
      AboveAll(c.version, h, LowestFor(c));
      if TakenAbove(cs, c.version) {
        var j :| 0 <= j < |cs| && IsLowerOp(cs[j].op) && SemLess(c.version, LowestFor(cs[j]));
        AboveAll(c.version, h, LowestFor(cs[j]));
      }
      if SemLess(c.version, h) {
        assert IsLowerOp(cs[k].op) && SemLess(c.version, LowestFor(cs[k]));
      }
    } else if IsLowerOp(c.op) {
      assert !SemLess(h, LowestFor(c));
    }
  }

  lemma NoLowers(cs: seq<Constraint>)
    requires Lowers(cs) == []
    ensures forall i | 0 <= i < |cs| :: !IsLowerOp(cs[i].op)
  {
    forall i | 0 <= i < |cs| ensures !IsLowerOp(cs[i].op) {
      LowestForIs(cs[i]);
      if IsLowerOp(cs[i].op) {
        var k := LowerIsThere(cs, i);
      }
    }
  }

  /** No `<0.0.0-beta` among the constraints of a candidate 0.0.0. */
  predicate NotRewritten(cs: seq<Constraint>) {
    FirstCandidate(Ops(cs)) == ZERO ==> forall i | 0 <= i < |cs| :: cs[i] != Constraint(Lt, "0.0.0-beta")
  }

  lemma RelIsNotFirstBeta(t: Triple)
    ensures Rel(t) != FIRST_BETA
  {
    NoDashInRel(t);
    assert FIRST_BETA[5] == '-';
  }

  lemma CaretIsNotBeta(version: string)
    ensures BoundText(CaretBound(version)) != FIRST_BETA
  {
    CaretOutcome(version);
    CoerceFindsDigits(version);
    if Scan(version).Some? && CaretBound(version).Returns? {
      CaretTextIs(version, Scan(version).value);
      RelIsNotFirstBeta(CaretEnd(Scan(version).value));
    }
  }

  lemma NumbersEnd(x: int, y: int)
    ensures Numbers(x, y, 0) != FIRST_BETA
  {
    var n := Numbers(x, y, 0);
    assert DecInt(0) == "0";
    assert n[|n| - 1] == '0' && FIRST_BETA[9] == 'a';
  }

  lemma TildePiecesAreNotBeta(parts: seq<string>)
    ensures BoundText(TildeOfPieces(parts)) != FIRST_BETA
  {
    TildeReturns(parts);
    if TildeReadable(parts) {
      TildeText(parts);
      NumbersEnd(Reading(parts[0]).value, Reading(parts[1]).value + 1);
    }
  }

  lemma TildeIsNotBeta(version: string)
    ensures BoundText(TildeBound(version)) != FIRST_BETA
  {
    TildePiecesAreNotBeta(WithoutEmptyEnd(DotParts(version)));
  }

  lemma UpperIsBeta(c: Constraint)
    ensures UpperOf(c) == Some(Constraint(Lt, FIRST_BETA)) <==> c == Constraint(Lt, "0.0.0-beta")
  {
    if c.op == Caret {
      CaretIsNotBeta(c.version);
    } else if c.op == Tilde {
      TildeIsNotBeta(c.version);
    }
  }

  lemma {:induction false} UppersAreNotBeta(cs: seq<Constraint>)
    requires forall i | 0 <= i < |cs| :: cs[i] != Constraint(Lt, "0.0.0-beta")
    ensures forall i | 0 <= i < |Uppers(cs)| :: Uppers(cs)[i] != Constraint(Lt, FIRST_BETA)
  {
    if cs != [] {
      var n := |cs| - 1;
      assert forall i | 0 <= i < n :: cs[..n][i] == cs[i];
      UppersAreNotBeta(cs[..n]);
      UpperIsBeta(cs[n]);
    }
  }

  lemma NotRewrittenIs(cs: seq<Constraint>)
    requires NotRewritten(cs)
    ensures NoRewrite(FirstCandidate(Ops(cs)), Uppers(cs))
  {
    if FirstCandidate(Ops(cs)) == ZERO {
      UppersAreNotBeta(cs);
    }
  }

  /** The candidate of a list meets every constraint from below exactly when the `>` operands are
      covered. */
  lemma HighestMeetsLowersExactly(cs: seq<Constraint>)
    requires Lowers(cs) != [] && AllLegibleIn(cs)
    ensures LowersAllow(cs, Highest(Lowers(cs))) <==> OperandsCovered(cs)
  {
    forall i | 0 <= i < |cs|
      ensures LowerAllows(cs[i], Highest(Lowers(cs))) <==>
              (cs[i].op == Gt ==> Climbs(cs[i].version) || TakenAbove(cs, cs[i].version))
    {
      CandidateAllows(cs, i);
    }
  }

  /** An accepted candidate meets every constraint from above, and every one from below exactly
      when the `>` operands are covered. */
  lemma AcceptedMeetsAll(cs: seq<Constraint>, c: string)
    requires Accepted(Ops(cs)) == Some(c)
    requires AllLegibleIn(cs) && NotRewritten(cs)
    ensures UppersAllow(cs, c)
    ensures AllowsAll(cs, c) <==> OperandsCovered(cs)
  {
    NotRewrittenIs(cs);
    AdmittedPlainly(FirstCandidate(Ops(cs)), Uppers(cs));
    UppersMean(cs, c);
    if Lowers(cs) == [] {
      NoLowers(cs);
    } else {
      HighestMeetsLowersExactly(cs);
    }
  }

  lemma BetterIsOne(best: Option<string>, next: Option<string>)
    ensures Better(best, next) == None <==> best == None && next == None
    ensures Better(best, next) == best || Better(best, next) == next
  {
  }

  lemma BetterTakes(best: Option<string>, next: Option<string>)
    requires next.Some?
    ensures Better(best, next).Some? && !SemLess(next.value, Better(best, next).value)
  {
    SemLessIsStrictWeak(next.value, next.value, next.value);
  }

  lemma BetterKeeps(best: Option<string>, next: Option<string>, text: string)
    requires best.Some? && !SemLess(text, best.value)
    ensures Better(best, next).Some? && !SemLess(text, Better(best, next).value)
  {
    if next.Some? {
      SemLessIsStrictWeak(text, next.value, best.value);
    }
  }

  /** The fold of the loop over alternatives, on what each accepts. */
  function LeastOption(options: seq<Option<string>>): Option<string> {
    if options == [] then None else Better(LeastOption(options[..|options| - 1]), options[|options| - 1])
  }

  lemma {:induction false} LeastOptionIsOne(options: seq<Option<string>>)
    ensures LeastOption(options) == None <==> forall i | 0 <= i < |options| :: options[i] == None
    ensures LeastOption(options).Some? ==> LeastOption(options) in options
  {
    if options != [] {
      var n := |options| - 1;
      LeastOptionIsOne(options[..n]);
      BetterIsOne(LeastOption(options[..n]), options[n]);
      assert options == options[..n] + [options[n]];
    }
  }

  lemma {:induction false} LeastOptionIsLeast(options: seq<Option<string>>, i: nat)
    requires i < |options| && options[i].Some?
    ensures LeastOption(options).Some? && !SemLess(options[i].value, LeastOption(options).value)
    decreases |options|
  {
    var n := |options| - 1;
    if i < n {
      assert options[..n][i] == options[i];
      LeastOptionIsLeast(options[..n], i);
      BetterKeeps(LeastOption(options[..n]), options[n], options[i].value);
    } else {
      BetterTakes(LeastOption(options[..n]), options[n]);
    }
  }

  function AcceptedAll(alternatives: seq<Alternative>): (options: seq<Option<string>>)
    ensures |options| == |alternatives|
    ensures forall i | 0 <= i < |alternatives| :: options[i] == Accepted(alternatives[i])
  {
    seq(|alternatives|, i requires 0 <= i < |alternatives| => Accepted(alternatives[i]))
  }

  lemma {:induction false} BestIsLeastOption(alternatives: seq<Alternative>)
    requires forall i | 0 <= i < |alternatives| :: !alternatives[i].Star?
    ensures Best(alternatives) == LeastOption(AcceptedAll(alternatives))
  {
    if alternatives != [] {
      var n := |alternatives| - 1;
      BestIsLeastOption(alternatives[..n]);
      assert AcceptedAll(alternatives)[..n] == AcceptedAll(alternatives[..n]);
    }
  }

  /** Without `*`, the answer is accepted from some alternative and not above what any accepts. */
  lemma BestIsLeastAccepted(alternatives: seq<Alternative>)
    requires forall i | 0 <= i < |alternatives| :: !alternatives[i].Star?
    ensures Best(alternatives) == None <==> forall i | 0 <= i < |alternatives| :: Accepted(alternatives[i]) == None
    ensures Best(alternatives).Some? ==>
              exists i | 0 <= i < |alternatives| :: Accepted(alternatives[i]) == Best(alternatives)
    ensures forall i | 0 <= i < |alternatives| && Accepted(alternatives[i]).Some? ::
              !SemLess(Accepted(alternatives[i]).value, Best(alternatives).value)
  {
    var options := AcceptedAll(alternatives);
    BestIsLeastOption(alternatives);
    LeastOptionIsOne(options);
    assert forall i | 0 <= i < |alternatives| :: options[i] == Accepted(alternatives[i]);
    forall i | 0 <= i < |alternatives| && Accepted(alternatives[i]).Some?
      ensures !SemLess(Accepted(alternatives[i]).value, Best(alternatives).value)
    {
      LeastOptionIsLeast(options, i);
    }
  }

  // ----- Whole ranges on arbitrary texts

  /** The text meets every constraint of the alternative, as given. */
  ghost predicate MeetsAlternative(text: string, a: Alternative) {
    a.Ops? && AllowsAll(a.constraints, text)
  }

  lemma MeetsExactly(text: string, cs: seq<Constraint>)
    ensures MeetsAlternative(text, Ops(cs)) <==> MeetsAll(text, Lowers(cs)) && MeetsAll(text, Uppers(cs))
  {
    CollectedMeans(cs, text);
  }

  /** Constraints with legible `>` operands, whose candidate is not rewritten. */
  predicate Plainly(a: Alternative) {
    a.Ops? && AllLegibleIn(a.constraints) && NotRewritten(a.constraints)
  }

  lemma AcceptedByOne(alternatives: seq<Alternative>, best: string) returns (k: nat)
    requires forall i | 0 <= i < |alternatives| :: !alternatives[i].Star?
    requires Best(alternatives) == Some(best)
    ensures k < |alternatives| && Accepted(alternatives[k]) == Some(best)
    ensures forall i | 0 <= i < |alternatives| && Accepted(alternatives[i]).Some? ::
              !SemLess(Accepted(alternatives[i]).value, best)
  {
    BestIsLeastAccepted(alternatives);
    k :| 0 <= k < |alternatives| && Accepted(alternatives[k]) == Best(alternatives);
  }

  lemma AlternativeMet(a: Alternative, best: string)
    requires Plainly(a) && Accepted(a) == Some(best)
    ensures UppersAllow(a.constraints, best)
    ensures MeetsAlternative(best, a) <==> OperandsCovered(a.constraints)
  {
    assert a == Ops(a.constraints);
    AcceptedMeetsAll(a.constraints, best);
  }

  /** The answer comes from an alternative that meets it, upper constraints always and lower ones
      exactly when the `>` operands there are covered; it is not above any other accepted candidate. */
  lemma BestMeetsItsAlternative(alternatives: seq<Alternative>, best: string) returns (k: nat)
    requires forall i | 0 <= i < |alternatives| :: !alternatives[i].Star?
    requires Best(alternatives) == Some(best)
    ensures k < |alternatives| && Accepted(alternatives[k]) == Some(best)
    ensures Plainly(alternatives[k]) ==>
              var cs := alternatives[k].constraints;
              && UppersAllow(cs, best)
              && (MeetsAlternative(best, alternatives[k]) <==> OperandsCovered(cs))
    ensures forall i | 0 <= i < |alternatives| && Accepted(alternatives[i]).Some? ::
              !SemLess(Accepted(alternatives[i]).value, best)
  {
    k := AcceptedByOne(alternatives, best);
    if Plainly(alternatives[k]) {
      AlternativeMet(alternatives[k], best);
    }
  }

  // ----- Where the answer does not meet its constraints

  /** A `>` operand without readable numbers is kept as its own candidate, and never meets `>`. */
  lemma UnreadableOperandIsKept(version: string)
    requires version != "" && !Readable(version)
    ensures Accepted(Ops([Constraint(Gt, version)])) == Some(version)
    ensures !Satisfies(version, Gt, version)
  {
    var c := Constraint(Gt, version);
    SemLessIsStrictWeak(version, version, version);
    UnreadableIsKept(version);
    AcceptedAlone(c);
  }

  lemma AcceptedAlone(c: Constraint)
    requires c.op == Gt && Lowest(c) != ""
    ensures Accepted(Ops([c])) == Some(Lowest(c))
  {
    LowersOfMore([], c);
    HighestOfMore([], c);
    assert [] + [c] == [c];
    OnlyCandidate(c);
  }

  lemma BumpedIsLowest(version: string, s: string)
    requires Bump(version) == Returns(Some(s)) && !SemLess(version, s)
    ensures Lowest(Constraint(Gt, version)) == s && !Satisfies(s, Gt, version)
  {
  }

  /** A readable one may be answered wrongly as well: `>1.2.3.4-4` with `1.2.3-4.0`, which is below. */
  lemma FallingOperandIsAnswered(t: Triple, n: nat, p: nat)
    requires Below(t, INT_MAX + 1) && n >= p
    ensures var version, answer := FourNumbers(t, n, p), Labelled(Rel(t), Dec(p));
            Accepted(Ops([Constraint(Gt, version)])) == Some(answer) && !Satisfies(answer, Gt, version)
  {
    var version, answer := FourNumbers(t, n, p), Labelled(Rel(t), Dec(p));
    BumpOfFourNumbers(t, n, p, version, answer);
    BumpedIsLowest(version, answer);
    assert answer != "";
    AcceptedAlone(Constraint(Gt, version));
  }

  lemma OnlyCandidate(c: Constraint)
    requires Lowers([c]) == [c] && Uppers([c]) == []
    requires Highest([c]) == Higher(Highest([]), Lowest(c)) && Lowest(c) != ""
    ensures Accepted(Ops([c])) == Some(Lowest(c))
  {
    assert LowestTexts([]) == [];
  }

  predicate FirstRewriteAt(uppers: seq<Constraint>, k: nat) {
    k < |uppers| && uppers[k] == Constraint(Lt, FIRST_BETA) && forall i | 0 <= i < k :: uppers[i] != uppers[k]
  }

  /** With `<0.0.0-beta` among its upper constraints, 0.0.0 becomes 0.0.0-0 on the way: what comes
      before is checked on the one, what comes after on the other. */
  lemma {:induction false} RewriteOutcome(uppers: seq<Constraint>, k: nat)
    requires FirstRewriteAt(uppers, k)
    ensures Admitted(ZERO, uppers) ==
            if MeetsAll(ZERO, uppers[..k]) && MeetsAll(ZERO_PRE, uppers[k..]) then Some(ZERO_PRE) else None
    decreases k
  {
    var rest := uppers[1..];
    if k == 0 {
      AdmittedPlainly(ZERO_PRE, rest);
      MeetsAllByHead(ZERO_PRE, uppers);
      assert uppers[..0] == [] && uppers[0..] == uppers;
    } else {
      RewriteOutcome(rest, k - 1);
      assert rest[..k - 1] == uppers[..k][1..] && rest[k - 1..] == uppers[k..];
      MeetsAllByHead(ZERO, uppers[..k]);
    }
  }

  lemma MeetsCut(text: string, bounds: seq<Constraint>, k: nat)
    requires k <= |bounds|
    ensures MeetsAll(text, bounds) <==> MeetsAll(text, bounds[..k]) && MeetsAll(text, bounds[k..])
  {
    MeetsBoth(text, bounds[..k], bounds[k..]);
    assert bounds[..k] + bounds[k..] == bounds;
  }

  /** So the rewritten candidate meets every upper constraint exactly when it meets the earlier ones. */
  lemma RewriteIsSoundExactly(uppers: seq<Constraint>, k: nat, c: string)
    requires FirstRewriteAt(uppers, k) && Admitted(ZERO, uppers) == Some(c)
    ensures c == ZERO_PRE
    ensures MeetsAll(c, uppers) <==> MeetsAll(c, uppers[..k])
  {
    RewriteOutcome(uppers, k);
    MeetsCut(c, uppers, k);
  }

  /** ... and it is rejected wrongly exactly when it fails from that constraint on. */
  lemma RewriteIsCompleteExactly(uppers: seq<Constraint>, k: nat)
    requires FirstRewriteAt(uppers, k) && MeetsAll(ZERO, uppers)
    ensures Admitted(ZERO, uppers) == None <==> !MeetsAll(ZERO_PRE, uppers[k..])
  {
    RewriteOutcome(uppers, k);
    MeetsCut(ZERO, uppers, k);
  }

  lemma PartsOfZeros(tail: string, text: string)
    requires text == "0" + ("." + ("0" + ("." + ("0" + ("-" + tail)))))
    ensures Parts(text) == ["0", "0", "0"] + Parts(tail)
  {
    PartsOfCore("0", "0", "0" + ("-" + tail));
    PartsAt("0", '-', tail);
  }

  /** The parts of `0.0.0`. */
  const ZEROS := ["0", "0", "0"]

  lemma PartsOfZero()
    ensures Parts(ZERO) == ZEROS
  {
    OnePart("0");
    PartsOfCore("0", "0", "0");
    assert "0" + ("." + ("0" + ("." + "0"))) == ZERO;
  }

  lemma PartsOfZeroPre()
    ensures Parts(ZERO_PRE) == ZEROS + ["0"]
  {
    OnePart("0");
    PartsOfZeros("0", ZERO_PRE);
  }

  lemma PartsOfFirstBeta()
    ensures Parts(FIRST_BETA) == ZEROS + ["beta"]
  {
    OnePart("beta");
    PartsOfZeros("beta", FIRST_BETA);
  }

  lemma SameFrontDecides(front: seq<string>, p: string, q: string)
    requires PartLess(p, q)
    ensures PartsLess(front + [p], front + [q])
  {
    var a, b, k := front + [p], front + [q], |front|;
    forall i | 0 <= i < k ensures PartTies(a[i], b[i]) {
      PartLaws(a[i], a[i], "");
    }
    DecidedAt(a, b, k);
    assert a[k..] == [p] && b[k..] == [q];
  }

  lemma PreBelowBeta()
    ensures SemLess(ZERO_PRE, FIRST_BETA)
  {
    PartsOfZeroPre();
    PartsOfFirstBeta();
    assert PartLess("0", "beta");
    SameFrontDecides(ZEROS, "0", "beta");
  }

  lemma ZeroBelowPre()
    ensures SemLess(ZERO, ZERO_PRE)
  {
    PartsOfZero();
    PartsOfZeroPre();
    FrontIsLess(ZEROS, ["0"]);
  }

  lemma SpecialTextsAscend()
    ensures SemLess(ZERO, ZERO_PRE) && SemLess(ZERO_PRE, FIRST_BETA) && SemLess(ZERO, FIRST_BETA)
  {
    ZeroBelowPre();
    PreBelowBeta();
    SemLessIsStrictWeak(ZERO, ZERO_PRE, FIRST_BETA);
  }

  /** The rewriting never loses a lower constraint. */
  lemma RewriteKeepsLowers(lowers: seq<Constraint>)
    requires AllLower(lowers) && MeetsAll(ZERO, lowers)
    ensures MeetsAll(ZERO_PRE, lowers)
  {
    ZeroBelowPre();
    SemLessIsStrictWeak(ZERO, ZERO_PRE, ZERO);
    forall i | 0 <= i < |lowers| ensures Satisfies(ZERO_PRE, lowers[i].op, lowers[i].version) {
      ConstraintLaws(ZERO, ZERO_PRE, lowers[i].version);
    }
  }

  lemma CoveredMeetsLowers(cs: seq<Constraint>)
    requires AllLegibleIn(cs) && OperandsCovered(cs)
    ensures MeetsAll(FirstCandidate(Ops(cs)), Lowers(cs))
  {
    if Lowers(cs) != [] {
      HighestMeetsLowersExactly(cs);
      LowersMean(cs, Highest(Lowers(cs)));
    }
  }

  /** So a rewritten answer meets its whole alternative, when its `>` operands are covered, exactly
      when it meets the earlier upper constraints. */
  lemma RewrittenMeetsAll(cs: seq<Constraint>, k: nat, c: string)
    requires FirstCandidate(Ops(cs)) == ZERO && FirstRewriteAt(Uppers(cs), k)
    requires Accepted(Ops(cs)) == Some(c) && AllLegibleIn(cs) && OperandsCovered(cs)
    ensures c == ZERO_PRE && LowersAllow(cs, c)
    ensures AllowsAll(cs, c) <==> MeetsAll(c, Uppers(cs)[..k])
  {
    LowersAreLower(cs);
    RewriteIsSoundExactly(Uppers(cs), k, c);
    CoveredMeetsLowers(cs);
    RewriteKeepsLowers(Lowers(cs));
    LowersMean(cs, c);
    UppersMean(cs, c);
  }

  lemma TwoBounds(text: string, a: Constraint, b: Constraint)
    ensures MeetsAll(text, [a, b]) <==>
            Satisfies(text, a.op, a.version) && Satisfies(text, b.op, b.version)
  {
    OneBound(text, a);
    OneBound(text, b);
    MeetsBoth(text, [a], [b]);
    assert [a] + [b] == [a, b];
  }

  lemma SpecialBounds()
    ensures Satisfies(ZERO, Le, ZERO) && !Satisfies(ZERO_PRE, Le, ZERO)
    ensures Satisfies(ZERO, Lt, FIRST_BETA) && Satisfies(ZERO_PRE, Lt, FIRST_BETA)
  {
    SpecialTextsAscend();
    SemLessIsStrictWeak(ZERO, ZERO, ZERO);
  }

  /** `<=0.0.0 <0.0.0-beta` is answered with 0.0.0-0, which is not at most 0.0.0. */
  lemma RewriteBreaksSoundness()
    ensures var uppers := [Constraint(Le, ZERO), Constraint(Lt, FIRST_BETA)];
            Admitted(ZERO, uppers) == Some(ZERO_PRE) && !MeetsAll(ZERO_PRE, uppers)
  {
    var le, lt := Constraint(Le, ZERO), Constraint(Lt, FIRST_BETA);
    SpecialBounds();
    RewriteSecond(le, lt);
    TwoBounds(ZERO_PRE, le, lt);
  }

  lemma RewriteSecond(first: Constraint, second: Constraint)
    requires second == Constraint(Lt, FIRST_BETA) != first
    requires Satisfies(ZERO, first.op, first.version) && Satisfies(ZERO_PRE, Lt, FIRST_BETA)
    ensures Admitted(ZERO, [first, second]) == Some(ZERO_PRE)
  {
    assert [first, second][..1] == [first] && [first, second][1..] == [second];
    OneBound(ZERO, first);
    OneBound(ZERO_PRE, second);
    RewriteOutcome([first, second], 1);
  }

  /** `<0.0.0-beta <=0.0.0` is answered with nothing, although 0.0.0 meets both constraints. */
  lemma RewriteBreaksCompleteness()
    ensures var uppers := [Constraint(Lt, FIRST_BETA), Constraint(Le, ZERO)];
            Admitted(ZERO, uppers) == None && MeetsAll(ZERO, uppers)
  {
    var le, lt := Constraint(Le, ZERO), Constraint(Lt, FIRST_BETA);
    SpecialBounds();
    RewriteOutcome([lt, le], 0);
    assert [lt, le][0..] == [lt, le];
    TwoBounds(ZERO_PRE, lt, le);
    TwoBounds(ZERO, lt, le);
  }
}
