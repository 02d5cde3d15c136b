/** `minimum` on ranges over releases: exactly the least release of the range, unless a `*` comes
    too late. */
module ReleaseRanges {
  import opened Text
  import opened Decimal
  import opened Releases
  import opened PartOrder
  import opened Agreement
  import opened Coercion
  import opened Bounds
  import opened Bumps
  import opened Windows
  import opened Ranges
  import opened RangeLaws
  import opened RangeFaults

  // ----- What a range over releases means, in numbers

  /** The release `w` meets the operator on the release `t`. */
  predicate Meets(op: Op, t: Triple, w: Triple) {
    match op
    case Gt => Before(t, w)
    case Ge => !Before(w, t)
    case Lt => Before(w, t)
    case Le => !Before(t, w)
    case Caret => !Before(w, t) && SameLeading(t, w)
    case Tilde => !Before(w, t) && SameMinor(t, w)
  }

  /** An operator on a release. */
  datatype Limit = Limit(op: Op, at: Triple)

  predicate MeetsEach(limits: seq<Limit>, w: Triple) {
    forall i | 0 <= i < |limits| :: Meets(limits[i].op, limits[i].at, w)
  }

  /** The text is `X.Y.Z` with numbers below the greatest `int`. */
  predicate IsRelease(s: string) {
    Scan(s).Some? && Below(Scan(s).value, INT_MAX) && s == Rel(Scan(s).value)
  }

  /** Constraints are on releases, and a text without operators holds a number. */
  predicate OnReleases(a: Alternative) {
    match a
    case Star => true
    case Bare(text) => Scan(text).Some? && Below(Scan(text).value, INT_MAX + 1)
    case Ops(cs) => forall i | 0 <= i < |cs| :: IsRelease(cs[i].version)
  }

  predicate AllOnReleases(alternatives: seq<Alternative>) {
    forall i | 0 <= i < |alternatives| :: OnReleases(alternatives[i])
  }

  function LimitsOf(cs: seq<Constraint>): (limits: seq<Limit>)
    requires OnReleases(Ops(cs))
    ensures |limits| == |cs|
    ensures forall i | 0 <= i < |cs| :: Below(limits[i].at, INT_MAX) && cs[i] == TextOf(limits[i])
  {
    seq(|cs|, i requires 0 <= i < |cs| => Limit(cs[i].op, Scan(cs[i].version).value))
  }

  /** An alternative on releases, in numbers: every release, one, or those within limits. */
  datatype Reading = Every | One(t: Triple) | Within(limits: seq<Limit>)

  function Read(a: Alternative): Reading
    requires OnReleases(a)
  {
    match a
    case Star => Every
    case Bare(text) => One(Scan(text).value)
    case Ops(cs) => Within(LimitsOf(cs))
  }

  function ReadAll(alternatives: seq<Alternative>): (readings: seq<Reading>)
    requires AllOnReleases(alternatives)
    ensures |readings| == |alternatives|
    ensures forall i | 0 <= i < |alternatives| :: readings[i] == Read(alternatives[i])
  {
    seq(|alternatives|, i requires 0 <= i < |alternatives| => Read(alternatives[i]))
  }

  predicate Admits(r: Reading, w: Triple) {
    match r
    case Every => true
    case One(t) => t == w
    case Within(limits) => MeetsEach(limits, w)
  }

  function TextOf(l: Limit): Constraint {
    Constraint(l.op, Rel(l.at))
  }

  function TextsOf(limits: seq<Limit>): seq<Constraint> {
    if limits == [] then [] else TextsOf(limits[..|limits| - 1]) + [TextOf(limits[|limits| - 1])]
  }

  predicate AllBelow(limits: seq<Limit>) {
    forall i | 0 <= i < |limits| :: Below(limits[i].at, INT_MAX)
  }

  // ----- One constraint: a lowest release, and an end

  function LowFor(op: Op, t: Triple): Triple {
    match op
    case Gt => t.(patch := t.patch + 1)
    case Lt => ORIGIN
    case Le => ORIGIN
    case _ => t
  }

  predicate BelowEnd(op: Op, t: Triple, w: Triple) {
    match op
    case Lt => Before(w, t)
    case Le => !Before(t, w)
    case Caret => Before(w, CaretEnd(t))
    case Tilde => Before(w, Triple(t.major, t.minor + 1, 0))
    case _ => true
  }

  lemma MeetsIsAWindow(op: Op, t: Triple, w: Triple)
    ensures Meets(op, t, w) <==> !Before(w, LowFor(op, t)) && BelowEnd(op, t, w)
  {
  }

  lemma LowestOfOthers(c: Constraint)
    requires c.op != Gt
    ensures Lowest(c) == c.version
  {
  }

  lemma LowestOfRelease(l: Limit)
    requires Below(l.at, INT_MAX)
    ensures var lower := LowerOf(TextOf(l));
            && (lower == None ==> LowFor(l.op, l.at) == ORIGIN)
            && (lower.Some? ==> Lowest(lower.value) == Rel(LowFor(l.op, l.at)))
  {
    if l.op == Gt {
      LowestOfGreater(l.at);
    } else {
      LowestOfOthers(Constraint(Ge, Rel(l.at)));
    }
  }

  /** Where the upper constraint of an operator on a release stands. */
  function EndAt(op: Op, t: Triple): Triple {
    match op
    case Caret => CaretEnd(t)
    case Tilde => Triple(t.major, t.minor + 1, 0)
    case _ => t
  }

  lemma UpperOfTilde(t: Triple)
    requires Below(t, INT_MAX)
    ensures UpperOf(Constraint(Tilde, Rel(t))) == Some(Constraint(Lt, Rel(EndAt(Tilde, t))))
  {
    TildeOfRelease(t);
    assert BoundText(TildeBound(Rel(t))) == Rel(EndAt(Tilde, t));
    assert Rel(EndAt(Tilde, t)) != "";
  }

  lemma UpperOfCaret(t: Triple)
    requires Below(t, INT_MAX)
    ensures UpperOf(Constraint(Caret, Rel(t))) == Some(Constraint(Lt, Rel(EndAt(Caret, t))))
  {
    CaretOfRelease(t);
    assert BoundText(CaretBound(Rel(t))) == Rel(EndAt(Caret, t));
  }

  lemma UpperOfOthers(op: Op, version: string)
    requires op != Caret && op != Tilde
    ensures UpperOf(Constraint(op, version)) == if op == Lt || op == Le then Some(Constraint(op, version)) else None
  {
  }

  /** The upper constraint, when there is one, is on a release. */
  lemma UpperOfRelease(op: Op, t: Triple)
    requires Below(t, INT_MAX)
    ensures op == Gt || op == Ge <==> UpperOf(Constraint(op, Rel(t))) == None
    ensures op != Gt && op != Ge ==>
              UpperOf(Constraint(op, Rel(t))) == Some(Constraint(if op == Le then Le else Lt, Rel(EndAt(op, t))))
  {
    if op == Caret {
      UpperOfCaret(t);
    } else if op == Tilde {
      UpperOfTilde(t);
    } else {
      UpperOfOthers(op, Rel(t));
    }
  }

  lemma EndOfRelease(l: Limit, w: Triple)
    requires Below(l.at, INT_MAX)
    ensures MeetsOne(Rel(w), UpperOf(TextOf(l))) <==> BelowEnd(l.op, l.at, w)
  {
    var end := EndAt(l.op, l.at);
    UpperOfRelease(l.op, l.at);
    SemLessOnReleases(w, end);
    SemLessOnReleases(end, w);
  }

  // ----- One list of constraints: the greatest of the lowest releases

  function Later(t: Triple, u: Triple): Triple {
    if Before(t, u) then u else t
  }

  function Low(limits: seq<Limit>): Triple {
    if limits == [] then ORIGIN
    else
      var l := limits[|limits| - 1];
      Later(Low(limits[..|limits| - 1]), LowFor(l.op, l.at))
  }

  lemma HigherRelease(t: Triple, u: Triple)
    ensures Higher(Rel(t), Rel(u)) == Rel(Later(t, u)) && Higher("", Rel(u)) == Rel(u)
  {
    SemLessOnReleases(t, u);
  }

  /** The lower constraints so far have no candidate yet, or have `t`. */
  ghost predicate Holds(lowers: seq<Constraint>, t: Triple) {
    if lowers == [] then t == ORIGIN else Highest(lowers) == Rel(t)
  }

  lemma HoldsMore(lowers: seq<Constraint>, t: Triple, next: Constraint, u: Triple)
    requires Holds(lowers, t) && Lowest(next) == Rel(u)
    ensures Holds(lowers + [next], Later(t, u))
  {
    HighestOfMore(lowers, next);
    HigherRelease(t, u);
    if lowers == [] {
      assert Highest([]) == "" && Later(t, u) == u;
    }
  }

  lemma HoldsNext(lowers: seq<Constraint>, t: Triple, l: Limit)
    requires Holds(lowers, t) && Below(l.at, INT_MAX)
    ensures Holds(With(lowers, LowerOf(TextOf(l))), Later(t, LowFor(l.op, l.at)))
  {
    LowestOfRelease(l);
    if LowerOf(TextOf(l)).Some? {
      HoldsMore(lowers, t, LowerOf(TextOf(l)).value, LowFor(l.op, l.at));
    }
  }

  /** The first candidate is the greatest of the lowest releases. */
  lemma {:induction false} CandidateOfReleases(limits: seq<Limit>)
    requires AllBelow(limits)
    ensures Holds(Lowers(TextsOf(limits)), Low(limits))
  {
    if limits != [] {
      var n := |limits| - 1;
      var l, front := limits[n], limits[..n];
      CandidateOfReleases(front);
      LowersOfMore(TextsOf(front), TextOf(l));
      HoldsNext(Lowers(TextsOf(front)), Low(front), l);
    }
  }

  lemma MeetsEachByLast(limits: seq<Limit>, w: Triple)
    requires limits != []
    ensures var n := |limits| - 1;
            MeetsEach(limits, w) <==> MeetsEach(limits[..n], w) && Meets(limits[n].op, limits[n].at, w)
  {
    var n := |limits| - 1;
    assert forall i | 0 <= i < n :: limits[..n][i] == limits[i];
  }

  /** A release meets every constraint exactly from the candidate on and below all the ends. */
  lemma {:induction false} MeetsEachIsAWindow(limits: seq<Limit>, w: Triple)
    requires AllBelow(limits)
    ensures MeetsEach(limits, w) <==> !Before(w, Low(limits)) && MeetsAll(Rel(w), Uppers(TextsOf(limits)))
  {
    if limits != [] {
      var n := |limits| - 1;
      var l, front := limits[n], limits[..n];
      MeetsEachIsAWindow(front, w);
      MeetsIsAWindow(l.op, l.at, w);
      EndOfRelease(l, w);
      LowersOfMore(TextsOf(front), TextOf(l));
      MeetsWith(Rel(w), Uppers(TextsOf(front)), UpperOf(TextOf(l)));
      MeetsEachByLast(limits, w);
    }
  }

  predicate NoneIsFirstBeta(bounds: seq<Constraint>) {
    forall i | 0 <= i < |bounds| :: bounds[i].version != FIRST_BETA
  }

  /** A bound on a release is never the special text `0.0.0-beta`. */
  lemma {:induction false} UppersNeverFirstBeta(limits: seq<Limit>)
    requires AllBelow(limits)
    ensures NoneIsFirstBeta(Uppers(TextsOf(limits)))
  {
    if limits != [] {
      var n := |limits| - 1;
      var l, front := limits[n], limits[..n];
      UppersNeverFirstBeta(front);
      LowersOfMore(TextsOf(front), TextOf(l));
      UpperOfRelease(l.op, l.at);
      RelIsNotFirstBeta(EndAt(l.op, l.at));
    }
  }

  lemma OriginText()
    ensures Rel(ORIGIN) == ZERO
  {
    assert Dec(0) == "0";
  }

  /** An answer in numbers, and as text. */
  function TextOption(t: Option<Triple>): Option<string> {
    if t == None then None else Some(Rel(t.value))
  }

  /** The answer is the least admitted release, and nothing when none is admitted. */
  ghost predicate Answers(r: Reading, answer: Option<Triple>) {
    match answer
    case None => forall w :: !Admits(r, w)
    case Some(t) => Admits(r, t) && forall w :: Admits(r, w) ==> !Before(w, t)
  }

  lemma {:induction false} TextsOfIs(limits: seq<Limit>, cs: seq<Constraint>)
    requires |cs| == |limits| && forall i | 0 <= i < |cs| :: cs[i] == TextOf(limits[i])
    ensures TextsOf(limits) == cs
  {
    if limits != [] {
      var n := |limits| - 1;
      TextsOfIs(limits[..n], cs[..n]);
      assert cs == cs[..n] + [cs[n]];
    }
  }

  lemma LimitsAnswer(limits: seq<Limit>)
    requires AllBelow(limits)
    ensures var answer, t := Accepted(Ops(TextsOf(limits))), Low(limits);
            && answer == (if MeetsEach(limits, t) then Some(Rel(t)) else None)
            && forall w :: MeetsEach(limits, w) ==> !Before(w, t) && MeetsEach(limits, t)
  {
    var cs, t := TextsOf(limits), Low(limits);
    OriginText();
    CandidateOfReleases(limits);
    UppersNeverFirstBeta(limits);
    AdmittedPlainly(Rel(t), Uppers(cs));
    MeetsEachIsAWindow(limits, t);
    LowersAreLower(cs);
    forall w | MeetsEach(limits, w)
      ensures !Before(w, t) && MeetsEach(limits, t)
    {
      MeetsEachIsAWindow(limits, w);
      SemLessOnReleases(w, t);
      UppersCloseDown(Rel(w), Rel(t), Uppers(cs));
    }
  }

  lemma LimitsAnswered(limits: seq<Limit>) returns (answer: Option<Triple>)
    requires AllBelow(limits)
    ensures Accepted(Ops(TextsOf(limits))) == TextOption(answer) && Answers(Within(limits), answer)
  {
    LimitsAnswer(limits);
    answer := if MeetsEach(limits, Low(limits)) then Some(Low(limits)) else None;
  }

  lemma BareAnswered(text: string) returns (answer: Option<Triple>)
    requires OnReleases(Bare(text))
    ensures Accepted(Bare(text)) == TextOption(answer) && Answers(Read(Bare(text)), answer)
  {
    answer := Some(Scan(text).value);
    assert Rel(Scan(text).value) != "";
  }

  /** What an alternative accepts is its least release; it accepts nothing when it admits nothing. */
  lemma AlternativeAnswers(a: Alternative) returns (answer: Option<Triple>)
    requires OnReleases(a) && !a.Star?
    ensures Accepted(a) == TextOption(answer) && Answers(Read(a), answer)
  {
    if a.Bare? {
      answer := BareAnswered(a.text);
    } else {
      var limits := LimitsOf(a.constraints);
      TextsOfIs(limits, a.constraints);
      answer := LimitsAnswered(limits);
      assert a == Ops(TextsOf(limits)) && Read(a) == Within(limits);
    }
  }

  // ----- All alternatives

  ghost predicate AdmittedBy(readings: seq<Reading>, w: Triple) {
    exists i | 0 <= i < |readings| :: Admits(readings[i], w)
  }

  /** Some `*` comes after an alternative that already admits 0.0.0. */
  ghost predicate StarTooLate(readings: seq<Reading>) {
    exists i, j | 0 <= i < j < |readings| :: readings[j] == Every && Admits(readings[i], ORIGIN)
  }

  ghost predicate IsLeastTriple(readings: seq<Reading>, answer: Option<Triple>) {
    match answer
    case None => forall w :: !AdmittedBy(readings, w)
    case Some(t) => AdmittedBy(readings, t) && forall w :: AdmittedBy(readings, w) ==> !Before(w, t)
  }

  /** The answer is the text of the least release of the range, and nothing for an empty range. */
  ghost predicate IsLeastRelease(readings: seq<Reading>, answer: Option<string>) {
    exists t :: answer == TextOption(t) && IsLeastTriple(readings, t)
  }

  lemma AdmittedByLast(front: seq<Reading>, last: Reading, w: Triple)
    ensures AdmittedBy(front + [last], w) <==> AdmittedBy(front, w) || Admits(last, w)
  {
    var all := front + [last];
    assert all[|front|] == last;
    assert forall i | 0 <= i < |front| :: all[i] == front[i];
  }

  lemma StarTooLateByLast(front: seq<Reading>, last: Reading)
    ensures StarTooLate(front + [last]) <==> StarTooLate(front) || (last == Every && AdmittedBy(front, ORIGIN))
  {
    var all := front + [last];
    assert all[|front|] == last;
    assert forall i | 0 <= i < |front| :: all[i] == front[i];
  }

  /** The text `*` is below every release, and accepted as it stands. */
  lemma StarText(t: Triple)
    ensures SemLess("*", Rel(t)) && !SemLess(Rel(t), "*") && !SemLess("*", "*")
    ensures Accepted(Star) == Some("*")
  {
    OnePart("*");
    PartsOfRel(t);
    NumOfDec(t.major);
    SemLessIsStrictWeak("*", Rel(t), "*");
    ZoneDecides("*", Dec(t.major));
  }

  function Earlier(best: Option<Triple>, next: Option<Triple>): Option<Triple> {
    if next == None then best
    else if best == None || Before(next.value, best.value) then next
    else best
  }

  /** Taking one more answer into account. */
  lemma BetterRelease(best: Option<Triple>, next: Option<Triple>)
    ensures Better(TextOption(best), TextOption(next)) == TextOption(Earlier(best, next))
  {
    if best.Some? && next.Some? {
      SemLessOnReleases(next.value, best.value);
    }
  }

  lemma LeastOfMore(front: seq<Reading>, best: Option<Triple>, last: Reading, next: Option<Triple>)
    requires IsLeastTriple(front, best) && Answers(last, next)
    ensures IsLeastTriple(front + [last], Earlier(best, next))
  {
    forall w {
      AdmittedByLast(front, last, w);
    }
  }

  /** What is known after some alternatives: the least release, or that a star came too late. */
  ghost predicate Known(readings: seq<Reading>, text: Option<string>, answer: Option<Triple>) {
    if StarTooLate(readings) then text == Some("*") else text == TextOption(answer) && IsLeastTriple(readings, answer)
  }

  lemma KnowMore(front: seq<Reading>, text: Option<string>, best: Option<Triple>, last: Reading, next: Option<Triple>)
    requires Known(front, text, best) && last != Every && Answers(last, next)
    ensures Known(front + [last], Better(text, TextOption(next)), Earlier(best, next))
  {
    StarTooLateByLast(front, last);
    if StarTooLate(front) {
      if next.Some? {
        StarText(next.value);
      }
    } else {
      BetterRelease(best, next);
      LeastOfMore(front, best, last, next);
    }
  }

  /** A star improves on any release but 0.0.0, and then counts as the text `*`. */
  lemma NextStar(best: Option<Triple>)
    ensures Next(TextOption(best), Star) == if best == Some(ORIGIN) then Some("*") else Some(ZERO)
  {
    OriginText();
    if best.Some? {
      StarText(best.value);
      SemLessOnReleases(ORIGIN, best.value);
    }
  }

  lemma StarAfterStar()
    ensures Next(Some("*"), Star) == Some("*")
  {
    OriginText();
    StarText(ORIGIN);
  }

  lemma OriginIsLeast(readings: seq<Reading>, best: Option<Triple>)
    requires IsLeastTriple(readings, best)
    ensures AdmittedBy(readings, ORIGIN) <==> best == Some(ORIGIN)
  {
    if best.Some? && AdmittedBy(readings, ORIGIN) {
      assert !Before(ORIGIN, best.value);
    }
  }

  lemma LeastWithStar(front: seq<Reading>)
    ensures IsLeastTriple(front + [Every], Some(ORIGIN))
  {
    AdmittedByLast(front, Every, ORIGIN);
  }

  lemma KnownFrom(readings: seq<Reading>, text: Option<string>)
    requires IsLeastTriple(readings, Some(ORIGIN))
    requires text == if StarTooLate(readings) then Some("*") else Some(ZERO)
    ensures Known(readings, text, Some(ORIGIN))
  {
    OriginText();
  }

  lemma TooLateNow(front: seq<Reading>, best: Option<Triple>)
    requires !StarTooLate(front) && IsLeastTriple(front, best)
    ensures StarTooLate(front + [Every]) <==> best == Some(ORIGIN)
  {
    StarTooLateByLast(front, Every);
    OriginIsLeast(front, best);
  }

  /** After a star, the least release is 0.0.0, unless it was before. */
  lemma KnowStar(front: seq<Reading>, text: Option<string>, best: Option<Triple>)
    requires Known(front, text, best)
    ensures Known(front + [Every], Next(text, Star), Some(ORIGIN))
  {
    LeastWithStar(front);
    if StarTooLate(front) {
      StarTooLateByLast(front, Every);
      StarAfterStar();
    } else {
      TooLateNow(front, best);
      NextStar(best);
    }
    KnownFrom(front + [Every], Next(text, Star));
  }

  lemma ReadAllByLast(alternatives: seq<Alternative>)
    requires AllOnReleases(alternatives) && alternatives != []
    ensures var n := |alternatives| - 1;
            ReadAll(alternatives) == ReadAll(alternatives[..n]) + [Read(alternatives[n])]
  {
  }

  lemma {:induction false} BestIsKnown(alternatives: seq<Alternative>) returns (answer: Option<Triple>)
    requires AllOnReleases(alternatives)
    ensures Known(ReadAll(alternatives), Best(alternatives), answer)
  {
    answer := None;
    if alternatives != [] {
      var n := |alternatives| - 1;
      var front, a := alternatives[..n], alternatives[n];
      var best := BestIsKnown(front);
      ReadAllByLast(alternatives);
      answer := KnowNext(ReadAll(front), Best(front), best, a);
    }
  }

  lemma KnowNext(front: seq<Reading>, text: Option<string>, best: Option<Triple>, a: Alternative)
    returns (answer: Option<Triple>)
    requires Known(front, text, best) && OnReleases(a)
    ensures Known(front + [Read(a)], Next(text, a), answer)
  {
    if a.Star? {
      KnowStar(front, text, best);
      answer := Some(ORIGIN);
    } else {
      var next := AlternativeAnswers(a);
      KnowMore(front, text, best, Read(a), next);
      answer := Earlier(best, next);
    }
  }

  /** On releases the answer is the least release of the range, and nothing exactly when there is
      none, unless a `*` comes too late: then it is the text `*`. */
  lemma BestOnReleases(alternatives: seq<Alternative>)
    requires AllOnReleases(alternatives)
    ensures IsLeastRelease(ReadAll(alternatives), Best(alternatives)) <==> !StarTooLate(ReadAll(alternatives))
    ensures Best(alternatives) == Some("*") <==> StarTooLate(ReadAll(alternatives))
  {
    var answer := BestIsKnown(alternatives);
    if answer.Some? {
      StarIsNoRelease(answer.value);
    }
    if IsLeastRelease(ReadAll(alternatives), Best(alternatives)) {
      var t :| Best(alternatives) == TextOption(t) && IsLeastTriple(ReadAll(alternatives), t);
      if t.Some? {
        StarIsNoRelease(t.value);
      }
    }
  }

  // ----- Every kind of range

  /** The whole range is in numbers: the low end of `low - high`, and every alternative. */
  predicate RangeOnReleases(range: Range) {
    match range
    case Empty => true
    case Anything => true
    case Between(low) => Scan(low).Some? && Below(Scan(low).value, LLONG_MAX + 1)
    case Union(alternatives) => AllOnReleases(alternatives)
  }

  /** Nothing at all, every release, the low end, or what the alternatives stand for. */
  function ReadRange(range: Range): seq<Reading>
    requires RangeOnReleases(range)
  {
    match range
    case Empty => []
    case Anything => [Every]
    case Between(low) => [One(Scan(low).value)]
    case Union(alternatives) => ReadAll(alternatives)
  }

  lemma OneReading(r: Reading, answer: Triple)
    requires Admits(r, answer) && forall w :: Admits(r, w) ==> !Before(w, answer)
    ensures IsLeastRelease([r], Some(Rel(answer))) && !StarTooLate([r])
  {
    assert [r][0] == r;
    assert Some(Rel(answer)) == TextOption(Some(answer));
    assert IsLeastTriple([r], Some(answer));
  }

  lemma NoReading()
    ensures IsLeastRelease([], None) && !StarTooLate([])
  {
    assert None == TextOption(None) && IsLeastTriple([], None);
  }

  /** The answer to any range in numbers is its least release, and nothing exactly when there is
      none, unless a `*` comes too late. */
  lemma LeastOfIsLeastRelease(range: Range)
    requires RangeOnReleases(range)
    ensures IsLeastRelease(ReadRange(range), LeastOf(range)) <==> !StarTooLate(ReadRange(range))
  {
    match range
    case Empty => NoReading();
    case Anything =>
      OriginText();
      OneReading(Every, ORIGIN);
    case Between(low) => OneReading(One(Scan(low).value), Scan(low).value);
    case Union(alternatives) => BestOnReleases(alternatives);
  }

  /** The smallest such range: `* || *` is answered with the text `*`. */
  lemma TwoStars()
    ensures Best([Star, Star]) == Some("*")
  {
    var alternatives := [Star, Star];
    BestOnReleases(alternatives);
    assert ReadAll(alternatives)[1] == Every && Admits(ReadAll(alternatives)[0], ORIGIN);
  }

  lemma StarIsNoRelease(t: Triple)
    ensures Rel(t) != "*"
  {
  }

  // ----- No faults on releases

  lemma LegibleRelease(t: Triple)
    requires Below(t, INT_MAX)
    ensures Legible(Rel(t))
  {
    NoDashInRel(t);
    AllOf(Rel(t), '-', Rel(t));
    DotPartsOfRel(t);
    NumbersOfNumerals(t, []);
    assert Numerals(t) + [] == Numerals(t);
  }

  lemma CaretSafeRelease(t: Triple)
    requires Below(t, INT_MAX)
    ensures CaretReadable(Rel(t))
  {
    ScanOfRel(t);
  }

  lemma NumeralsAreSafe(t: Triple)
    requires Below(t, INT_MAX)
    ensures TildeNumbers(Numerals(t))
  {
    ReadingOfDec(t.major);
    ReadingOfDec(t.minor);
  }

  lemma TildeSafeRelease(t: Triple)
    requires Below(t, INT_MAX)
    ensures TildeSafe(Rel(t))
  {
    ScanOfRel(t);
    PiecesOfRelease(t);
    NumeralsAreSafe(t);
  }

  lemma SafeLimit(l: Limit)
    requires Below(l.at, INT_MAX)
    ensures SafeConstraint(TextOf(l))
  {
    RelFits(l.at);
    if l.op == Gt {
      LegibleRelease(l.at);
    } else if l.op == Caret {
      CaretSafeRelease(l.at);
    } else if l.op == Tilde {
      TildeSafeRelease(l.at);
    }
  }

  lemma RangesOnReleasesAreSafe(range: Range)
    requires RangeOnReleases(range)
    ensures Safe(range)
  {
    if range.Union? {
      ReleasesAreSafe(range.alternatives);
    }
  }

  lemma ReleasesAreSafe(alternatives: seq<Alternative>)
    requires AllOnReleases(alternatives)
    ensures Safe(Union(alternatives))
  {
    forall i | 0 <= i < |alternatives|
      ensures SafeAlternative(alternatives[i])
    {
      var a := alternatives[i];
      if a.Ops? {
        var limits := LimitsOf(a.constraints);
        forall k | 0 <= k < |limits|
          ensures SafeConstraint(a.constraints[k])
        {
          SafeLimit(limits[k]);
        }
      }
    }
  }
}
