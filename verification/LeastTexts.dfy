/** The least text that a list of constraints allows, `>` included, and when `minimum` answers with
    the least text of a whole range. */
module LeastTexts {
  import opened Text
  import opened Decimal
  import opened FieldSplitting
  import opened Releases
  import opened PartOrder
  import opened Agreement
  import opened Bounds
  import opened Bumps
  import opened Ranges
  import opened RangeLaws

  // ----- The least text above another

  /** One more part, and an empty one. */
  function JustAbove(v: string): string {
    if LastField(v) == "" then v + "-" else v + "--"
  }

  lemma FieldsOfHyphens()
    ensures Fields("", SEPARATORS) == [""] && Fields("-", SEPARATORS) == ["", ""]
  {
    assert "-" == "" + ("-" + "");
    FieldsJoin("", '-', "", SEPARATORS);
  }

  lemma OneHyphenMore(v: string, f: seq<string>)
    requires f == Fields(v, SEPARATORS) && f[|f| - 1] == ""
    ensures Parts(v + "-") == WithoutEmptyEnd(f) + [""]
  {
    FieldsOfHyphens();
    assert v + "-" == v + ("-" + "");
    FieldsJoin(v, '-', "", SEPARATORS);
    DropEmptyEnd(f, "");
    assert f == f[..|f| - 1] + [""];
  }

  lemma TwoHyphensMore(v: string, f: seq<string>)
    requires f == Fields(v, SEPARATORS) && f[|f| - 1] != ""
    ensures Parts(v + "--") == WithoutEmptyEnd(f) + [""]
  {
    FieldsOfHyphens();
    assert v + "--" == v + ("-" + "-");
    FieldsJoin(v, '-', "-", SEPARATORS);
    assert f + ["", ""] == (f + [""]) + [""];
    DropEmptyEnd(f + [""], "");
  }

  lemma PartsOfJustAbove(v: string)
    ensures Parts(JustAbove(v)) == Parts(v) + [""]
  {
    if LastField(v) == "" {
      OneHyphenMore(v, Fields(v, SEPARATORS));
    } else {
      TwoHyphensMore(v, Fields(v, SEPARATORS));
    }
  }

  lemma NothingBelowEmpty(p: string)
    ensures !PartLess(p, "")
  {
  }

  /** No list of parts stands between another and that with one more, empty part. */
  lemma {:induction false} NoneBetween(p: seq<string>, x: seq<string>)
    ensures PartsLess(p, x) <==> !PartsLess(x, p + [""])
  {
    if p == [] {
      assert p + [""] == [""];
      if x != [] {
        NothingBelowEmpty(x[0]);
      }
    } else if x != [] {
      assert (p + [""])[1..] == p[1..] + [""];
      PartLaws(p[0], x[0], "");
      NoneBetween(p[1..], x[1..]);
    }
  }

  /** `JustAbove(v)` is the least of all texts above `v`. */
  lemma JustAboveIsNext(v: string, x: string)
    ensures SemLess(v, x) <==> !SemLess(x, JustAbove(v))
  {
    PartsOfJustAbove(v);
    NoneBetween(Parts(v), Parts(x));
  }

  // ----- The least text of the lower constraints

  function Threshold(lower: Constraint): string {
    if lower.op == Gt then JustAbove(lower.version) else lower.version
  }

  function Thresholds(lowers: seq<Constraint>): (texts: seq<string>)
    ensures |texts| == |lowers|
    ensures forall i | 0 <= i < |lowers| :: texts[i] == Threshold(lowers[i])
  {
    seq(|lowers|, i requires 0 <= i < |lowers| => Threshold(lowers[i]))
  }

  function Least(lowers: seq<Constraint>): string {
    HighestText(Thresholds(lowers))
  }

  lemma NotBelow(x: string, high: string, low: string)
    requires !SemLess(x, high) && !SemLess(high, low)
    ensures !SemLess(x, low)
  {
    SemLessIsStrictWeak(x, high, low);
  }

  lemma MeetsFromThreshold(x: string, lower: Constraint)
    requires IsLower(lower)
    ensures Satisfies(x, lower.op, lower.version) <==> !SemLess(x, Threshold(lower))
  {
    if lower.op == Gt {
      JustAboveIsNext(lower.version, x);
    }
  }

  lemma LeastIsOne(lowers: seq<Constraint>) returns (k: nat)
    requires lowers != []
    ensures k < |lowers| && Least(lowers) == Threshold(lowers[k])
  {
    var texts := Thresholds(lowers);
    HighestTextIsOne(texts);
    k :| 0 <= k < |texts| && texts[k] == HighestText(texts);
  }

  lemma LeastIsGreatest(lowers: seq<Constraint>, i: nat)
    requires i < |lowers|
    ensures !SemLess(Least(lowers), Threshold(lowers[i]))
  {
    HighestTextIsGreatest(Thresholds(lowers), i);
  }

  /** The texts that meet the lower constraints are those from the least one on. */
  lemma MeetsFromLeast(x: string, lowers: seq<Constraint>)
    requires AllLower(lowers)
    ensures MeetsAll(x, lowers) <==> !SemLess(x, Least(lowers))
  {
    if !SemLess(x, Least(lowers)) {
      forall i | 0 <= i < |lowers| ensures Satisfies(x, lowers[i].op, lowers[i].version) {
        LeastIsGreatest(lowers, i);
        NotBelow(x, Least(lowers), Threshold(lowers[i]));
        MeetsFromThreshold(x, lowers[i]);
      }
    }
    if MeetsAll(x, lowers) {
      if lowers == [] {
        assert Thresholds(lowers) == [];
        NothingIsLeast(x);
      } else {
        var k := LeastIsOne(lowers);
        assert Satisfies(x, lowers[k].op, lowers[k].version);
        MeetsFromThreshold(x, lowers[k]);
      }
    }
  }

  predicate Ties(a: string, b: string) {
    !SemLess(a, b) && !SemLess(b, a)
  }

  ghost predicate IsLeastMeeting(c: string, lowers: seq<Constraint>) {
    MeetsAll(c, lowers) && forall x :: MeetsAll(x, lowers) ==> !SemLess(x, c)
  }

  /** A candidate is the least text that meets its lower constraints exactly when it ties with theirs. */
  lemma CandidateIsLeastExactly(c: string, lowers: seq<Constraint>)
    requires AllLower(lowers)
    ensures IsLeastMeeting(c, lowers) <==> Ties(c, Least(lowers))
  {
    var least := Least(lowers);
    MeetsFromLeast(c, lowers);
    MeetsFromLeast(least, lowers);
    SemLessIsStrictWeak(least, least, least);
    if Ties(c, least) {
      forall x | MeetsAll(x, lowers) ensures !SemLess(x, c) {
        MeetsFromLeast(x, lowers);
        NotBelow(x, least, c);
      }
    }
  }

  // ----- A `>=`, `^` or `~` on top

  /** A lower constraint that is not strict, and whose operand is below no threshold and no lowest text. */
  ghost predicate OnTop(lowers: seq<Constraint>, i: nat)
    requires i < |lowers|
  {
    && lowers[i].op == Ge
    && forall j | 0 <= j < |lowers| ::
         !SemLess(lowers[i].version, Threshold(lowers[j])) && !SemLess(lowers[i].version, Lowest(lowers[j]))
  }

  lemma LastOfBumped(t: Triple, preRelease: string)
    ensures LastField(Rel(t)) != "" && LastField(Labelled(Rel(t), preRelease)) != ""
  {
    FieldsOfRel(t);
    FieldsOfLabelled(t, preRelease);
  }

  /** What comes of a bump does not end in a dot or hyphen. */
  lemma BumpEndsInPart(version: string, s: string)
    requires Bump(version) == Returns(Some(s))
    ensures LastField(s) != ""
  {
    var t := NumbersRead(Pieces(version));
    BumpText(version, s);
    LastOfBumped(t.(patch := t.patch + 1), "");
    LastOfBumped(t, LabelPart(version));
  }

  lemma LastPart(s: string)
    requires LastField(s) != ""
    ensures Parts(s) != [] && Parts(s)[|Parts(s)| - 1] != ""
  {
  }

  lemma TiesWithEmptyEnd(p: seq<string>, q: seq<string>)
    requires PartsTie(p, q + [""])
    ensures p != [] && p[|p| - 1] == ""
  {
    var n := |q|;
    assert (q + [""])[n] == "";
    assert PartTies(p[n], (q + [""])[n]);
  }

  /** A text that does not end in a separator is no `JustAbove`. */
  lemma NeverJustAbove(s: string, v: string)
    requires LastField(s) != ""
    ensures !Ties(s, JustAbove(v))
  {
    LastPart(s);
    PartsOfJustAbove(v);
    SemLessIsStrictWeak(s, JustAbove(v), s);
    if PartsTie(Parts(s), Parts(v) + [""]) {
      TiesWithEmptyEnd(Parts(s), Parts(v));
    }
  }

  lemma KeptNeverTies(v: string, above: string)
    requires !SemLess(above, JustAbove(v))
    ensures !Ties(v, above)
  {
    JustAboveIsNext(v, above);
  }

  lemma LowestIsOneOf(lower: Constraint)
    requires lower.op == Gt
    ensures Lowest(lower) == lower.version || Bump(lower.version) == Returns(Some(Lowest(lower)))
  {
  }

  /** The lowest text of a `>` ties with no threshold of a `>` that is not below its own. */
  lemma StrictNeverTies(lower: Constraint, other: string)
    requires lower.op == Gt && !SemLess(JustAbove(other), JustAbove(lower.version))
    ensures !Ties(Lowest(lower), JustAbove(other))
  {
    LowestIsOneOf(lower);
    if Lowest(lower) == lower.version {
      KeptNeverTies(lower.version, JustAbove(other));
    } else {
      BumpEndsInPart(lower.version, Lowest(lower));
      NeverJustAbove(Lowest(lower), other);
    }
  }

  lemma TopTies(lowers: seq<Constraint>, i: nat)
    requires i < |lowers| && OnTop(lowers, i)
    ensures Ties(Highest(lowers), Least(lowers))
  {
    var v := lowers[i].version;
    HighestIsGreatest(lowers);
    var m :| 0 <= m < |lowers| && Highest(lowers) == Lowest(lowers[m]);
    var n := LeastIsOne(lowers);
    LeastIsGreatest(lowers, i);
    assert Lowest(lowers[i]) == v == Threshold(lowers[i]);
    assert !SemLess(v, Lowest(lowers[m])) && !SemLess(v, Threshold(lowers[n]));
    NotBelow(Highest(lowers), v, Least(lowers));
    NotBelow(Least(lowers), v, Highest(lowers));
  }

  lemma OnTopIs(lowers: seq<Constraint>, i: nat)
    requires i < |lowers| && lowers[i].op == Ge
    requires !SemLess(lowers[i].version, Least(lowers)) && !SemLess(lowers[i].version, Highest(lowers))
    ensures OnTop(lowers, i)
  {
    HighestIsGreatest(lowers);
    forall j | 0 <= j < |lowers|
      ensures !SemLess(lowers[i].version, Threshold(lowers[j])) && !SemLess(lowers[i].version, Lowest(lowers[j]))
    {
      LeastIsGreatest(lowers, j);
      NotBelow(lowers[i].version, Least(lowers), Threshold(lowers[j]));
      NotBelow(lowers[i].version, Highest(lowers), Lowest(lowers[j]));
    }
  }

  /** The candidate is the least text that meets its lower constraints exactly when one that is not
      strict is on top. */
  lemma LeastIsOnTopExactly(lowers: seq<Constraint>)
    requires lowers != [] && AllLower(lowers)
    ensures Ties(Highest(lowers), Least(lowers)) <==> exists i | 0 <= i < |lowers| :: OnTop(lowers, i)
  {
    if i :| 0 <= i < |lowers| && OnTop(lowers, i) {
      TopTies(lowers, i);
    }
    if Ties(Highest(lowers), Least(lowers)) {
      HighestIsGreatest(lowers);
      var m :| 0 <= m < |lowers| && Highest(lowers) == Lowest(lowers[m]);
      var n := LeastIsOne(lowers);
      if lowers[m].op == Ge {
        SemLessIsStrictWeak(Highest(lowers), Highest(lowers), Highest(lowers));
        OnTopIs(lowers, m);
      } else if lowers[n].op == Ge {
        SemLessIsStrictWeak(Least(lowers), Least(lowers), Least(lowers));
        OnTopIs(lowers, n);
      } else {
        LeastIsGreatest(lowers, m);
        StrictNeverTies(lowers[m], lowers[n].version);
      }
    }
  }

  // ----- One alternative

  /** The least text that the lower constraints allow meets the upper ones. */
  ghost predicate Feasible(cs: seq<Constraint>) {
    MeetsAll(Least(Lowers(cs)), Uppers(cs))
  }

  /** ... which is so exactly when any text meets all of them. */
  lemma FeasibleExactly(cs: seq<Constraint>)
    ensures Feasible(cs) <==> exists text :: MeetsAlternative(text, Ops(cs))
  {
    var least := Least(Lowers(cs));
    LowersAreLower(cs);
    MeetsFromLeast(least, Lowers(cs));
    SemLessIsStrictWeak(least, least, least);
    MeetsExactly(least, cs);
    if text :| MeetsAlternative(text, Ops(cs)) {
      MeetsExactly(text, cs);
      MeetsFromLeast(text, Lowers(cs));
      UppersCloseDown(text, least, Uppers(cs));
    }
  }

  /** A candidate is rejected although some text meets every constraint exactly when the least such
      text meets the upper constraints and the candidate does not. */
  lemma RejectedWronglyExactly(cs: seq<Constraint>)
    requires NotRewritten(cs)
    ensures (Admitted(FirstCandidate(Ops(cs)), Uppers(cs)) == None && exists text :: MeetsAlternative(text, Ops(cs)))
            <==> Feasible(cs) && !MeetsAll(FirstCandidate(Ops(cs)), Uppers(cs))
  {
    NotRewrittenIs(cs);
    FeasibleExactly(cs);
    AdmittedPlainly(FirstCandidate(Ops(cs)), Uppers(cs));
  }

  /** With the special rewriting, when 0.0.0 fails before it or 0.0.0-0 from it on. */
  lemma RewrittenWronglyExactly(cs: seq<Constraint>, k: nat)
    requires FirstCandidate(Ops(cs)) == ZERO && FirstRewriteAt(Uppers(cs), k)
    ensures (Admitted(ZERO, Uppers(cs)) == None && exists text :: MeetsAlternative(text, Ops(cs)))
            <==> Feasible(cs) && !(MeetsAll(ZERO, Uppers(cs)[..k]) && MeetsAll(ZERO_PRE, Uppers(cs)[k..]))
  {
    FeasibleExactly(cs);
    RewriteOutcome(Uppers(cs), k);
  }

  /** The alternative accepts the least text that meets it, and nothing when there is none. */
  ghost predicate AcceptsLeast(a: Alternative) {
    match Accepted(a)
    case None => forall text :: !MeetsAlternative(text, a)
    case Some(t) => MeetsAlternative(t, a) && forall text :: MeetsAlternative(text, a) ==> !SemLess(text, t)
  }

  /** The candidate ties with the least text when that meets the upper constraints, and else fails
      them as well. */
  ghost predicate Exact(cs: seq<Constraint>) {
    var c := FirstCandidate(Ops(cs));
    if Feasible(cs) then Ties(c, Least(Lowers(cs))) else !MeetsAll(c, Uppers(cs))
  }

  lemma TiedMeets(cs: seq<Constraint>, c: string)
    requires Feasible(cs) && Ties(c, Least(Lowers(cs)))
    ensures MeetsAlternative(c, Ops(cs))
    ensures forall text :: MeetsAlternative(text, Ops(cs)) ==> !SemLess(text, c)
  {
    LowersAreLower(cs);
    MeetsFromLeast(c, Lowers(cs));
    UppersCloseDown(Least(Lowers(cs)), c, Uppers(cs));
    MeetsExactly(c, cs);
    forall text | MeetsAlternative(text, Ops(cs)) ensures !SemLess(text, c) {
      MeetsExactly(text, cs);
      MeetsFromLeast(text, Lowers(cs));
      NotBelow(text, Least(Lowers(cs)), c);
    }
  }

  lemma LeastMeetsAlternative(cs: seq<Constraint>)
    requires Feasible(cs)
    ensures MeetsAlternative(Least(Lowers(cs)), Ops(cs))
  {
    var least := Least(Lowers(cs));
    LowersAreLower(cs);
    MeetsFromLeast(least, Lowers(cs));
    SemLessIsStrictWeak(least, least, least);
    MeetsExactly(least, cs);
  }

  lemma AcceptsPlainly(cs: seq<Constraint>, c: string)
    requires NoRewrite(c, Uppers(cs)) && c == FirstCandidate(Ops(cs)) != ""
    ensures Accepted(Ops(cs)) == if MeetsAll(c, Uppers(cs)) then Some(c) else None
  {
    AdmittedPlainly(c, Uppers(cs));
  }

  lemma FeasibleAccepts(cs: seq<Constraint>, c: string)
    requires Feasible(cs) && Accepted(Ops(cs)) == (if MeetsAll(c, Uppers(cs)) then Some(c) else None)
    ensures AcceptsLeast(Ops(cs)) <==> Ties(c, Least(Lowers(cs)))
  {
    LeastMeetsAlternative(cs);
    LowersAreLower(cs);
    MeetsExactly(c, cs);
    MeetsFromLeast(c, Lowers(cs));
    if Ties(c, Least(Lowers(cs))) {
      TiedMeets(cs, c);
    }
  }

  /** Where nothing is rewritten, an alternative is answered rightly exactly then. */
  lemma AcceptsLeastExactly(cs: seq<Constraint>)
    requires NotRewritten(cs) && FirstCandidate(Ops(cs)) != ""
    ensures AcceptsLeast(Ops(cs)) <==> Exact(cs)
  {
    var c := FirstCandidate(Ops(cs));
    NotRewrittenIs(cs);
    AcceptsPlainly(cs, c);
    if Feasible(cs) {
      FeasibleAccepts(cs, c);
    } else {
      FeasibleExactly(cs);
    }
  }

  // ----- Without `>`

  predicate NoStrictLower(cs: seq<Constraint>) {
    forall i | 0 <= i < |cs| :: cs[i].op != Gt
  }

  lemma SameThresholds(cs: seq<Constraint>)
    requires NoStrictLower(cs)
    ensures Least(Lowers(cs)) == Highest(Lowers(cs))
  {
    forall i | 0 <= i < |Lowers(cs)| ensures Threshold(Lowers(cs)[i]) == Lowest(Lowers(cs)[i]) {
      var j := LowerComesFrom(cs, i);
    }
    assert Thresholds(Lowers(cs)) == LowestTexts(Lowers(cs));
  }

  /** With lower bounds, none of them strict, the candidate is the least text that they allow. */
  lemma CandidateIsLeast(cs: seq<Constraint>, text: string)
    requires Lowers(cs) != [] && NoStrictLower(cs)
    ensures LowersAllow(cs, Highest(Lowers(cs)))
    ensures LowersAllow(cs, text) ==> !SemLess(text, Highest(Lowers(cs)))
  {
    LowersMean(cs, text);
    LowersMean(cs, Highest(Lowers(cs)));
    LowersAreLower(cs);
    SameThresholds(cs);
    MeetsFromLeast(text, Lowers(cs));
    MeetsFromLeast(Highest(Lowers(cs)), Lowers(cs));
    SemLessIsStrictWeak(Highest(Lowers(cs)), Highest(Lowers(cs)), text);
  }

  /** ... and it is rejected exactly when no text at all meets every constraint. */
  lemma RejectedExactly(cs: seq<Constraint>)
    requires Lowers(cs) != [] && NoStrictLower(cs) && NotRewritten(cs)
    ensures Admitted(Highest(Lowers(cs)), Uppers(cs)) == None <==>
            !exists text :: MeetsAlternative(text, Ops(cs))
  {
    SameThresholds(cs);
    NotRewrittenIs(cs);
    AdmittedPlainly(Highest(Lowers(cs)), Uppers(cs));
    FeasibleExactly(cs);
  }

  /** So such alternatives are exact. */
  lemma NotStrictIsExact(cs: seq<Constraint>)
    requires Lowers(cs) != [] && NoStrictLower(cs)
    ensures Exact(cs)
  {
    var least := Least(Lowers(cs));
    SameThresholds(cs);
    SemLessIsStrictWeak(least, least, least);
  }

  // ----- Whole ranges

  ghost predicate MeetsSome(text: string, alternatives: seq<Alternative>) {
    exists i | 0 <= i < |alternatives| :: MeetsAlternative(text, alternatives[i])
  }

  /** The answer is the least of all texts that meet some alternative; no answer, no such text. */
  ghost predicate IsLeastTextOf(alternatives: seq<Alternative>, answer: Option<string>) {
    match answer
    case None => forall text :: !MeetsSome(text, alternatives)
    case Some(t) => MeetsSome(t, alternatives) && forall text :: MeetsSome(text, alternatives) ==> !SemLess(text, t)
  }

  predicate AllOps(alternatives: seq<Alternative>) {
    forall i | 0 <= i < |alternatives| :: alternatives[i].Ops?
  }

  /** The text is not below the least text of some alternative that has one. */
  ghost predicate Grounded(text: string, alternatives: seq<Alternative>)
    requires AllOps(alternatives)
  {
    exists j | 0 <= j < |alternatives| ::
      Feasible(alternatives[j].constraints) && !SemLess(text, Least(Lowers(alternatives[j].constraints)))
  }

  /** Some accepted candidate is not above the text. */
  ghost predicate Reached(text: string, alternatives: seq<Alternative>) {
    exists i | 0 <= i < |alternatives| ::
      Accepted(alternatives[i]).Some? && !SemLess(text, Accepted(alternatives[i]).value)
  }

  /** Every accepted candidate is grounded, and every least text that there is is reached. */
  ghost predicate AllExact(alternatives: seq<Alternative>)
    requires AllOps(alternatives)
  {
    && (forall i | 0 <= i < |alternatives| && Accepted(alternatives[i]).Some? ::
          Grounded(Accepted(alternatives[i]).value, alternatives))
    && (forall j | 0 <= j < |alternatives| && Feasible(alternatives[j].constraints) ::
          Reached(Least(Lowers(alternatives[j].constraints)), alternatives))
  }

  lemma MeetingIsGrounded(text: string, alternatives: seq<Alternative>)
    requires AllOps(alternatives) && MeetsSome(text, alternatives)
    ensures Grounded(text, alternatives)
  {
    var j :| 0 <= j < |alternatives| && MeetsAlternative(text, alternatives[j]);
    var cs := alternatives[j].constraints;
    assert alternatives[j] == Ops(cs);
    FeasibleExactly(cs);
    LowersAreLower(cs);
    MeetsExactly(text, cs);
    MeetsFromLeast(text, Lowers(cs));
  }

  lemma GroundedIsNotBelow(text: string, alternatives: seq<Alternative>) returns (j: nat)
    requires AllOps(alternatives) && Grounded(text, alternatives)
    ensures j < |alternatives| && Feasible(alternatives[j].constraints)
    ensures !SemLess(text, Least(Lowers(alternatives[j].constraints)))
    ensures MeetsAlternative(Least(Lowers(alternatives[j].constraints)), alternatives[j])
  {
    j :| 0 <= j < |alternatives| && Feasible(alternatives[j].constraints)
         && !SemLess(text, Least(Lowers(alternatives[j].constraints)));
    assert alternatives[j] == Ops(alternatives[j].constraints);
    LeastMeetsAlternative(alternatives[j].constraints);
  }

  lemma ReachedIsNotBelow(text: string, alternatives: seq<Alternative>)
    requires AllOps(alternatives) && Reached(text, alternatives)
    ensures Best(alternatives).Some? && !SemLess(text, Best(alternatives).value)
  {
    var i :| 0 <= i < |alternatives| && Accepted(alternatives[i]).Some?
             && !SemLess(text, Accepted(alternatives[i]).value);
    BestIsLeastAccepted(alternatives);
    NotBelow(text, Accepted(alternatives[i]).value, Best(alternatives).value);
  }

  lemma GroundedAnswer(alternatives: seq<Alternative>)
    requires AllOps(alternatives) && AllExact(alternatives) && Best(alternatives).Some?
    ensures MeetsSome(Best(alternatives).value, alternatives)
  {
    var best := Best(alternatives).value;
    var k := AcceptedByOne(alternatives, best);
    assert Grounded(Accepted(alternatives[k]).value, alternatives);
    var j := GroundedIsNotBelow(best, alternatives);
    var cs := alternatives[j].constraints;
    ReachedIsNotBelow(Least(Lowers(cs)), alternatives);
    TiedMeets(cs, best);
    assert alternatives[j] == Ops(cs);
  }

  lemma ExactAnswerIsLeast(alternatives: seq<Alternative>, text: string)
    requires AllOps(alternatives) && AllExact(alternatives) && MeetsSome(text, alternatives)
    ensures Best(alternatives).Some? && !SemLess(text, Best(alternatives).value)
  {
    MeetingIsGrounded(text, alternatives);
    var j := GroundedIsNotBelow(text, alternatives);
    var least := Least(Lowers(alternatives[j].constraints));
    ReachedIsNotBelow(least, alternatives);
    NotBelow(text, least, Best(alternatives).value);
  }

  lemma LeastAnswerIsExact(alternatives: seq<Alternative>)
    requires AllOps(alternatives) && IsLeastTextOf(alternatives, Best(alternatives))
    ensures AllExact(alternatives)
  {
    BestIsLeastAccepted(alternatives);
    forall i | 0 <= i < |alternatives| && Accepted(alternatives[i]).Some?
      ensures Grounded(Accepted(alternatives[i]).value, alternatives)
    {
      AcceptedIsGrounded(alternatives, Accepted(alternatives[i]).value);
    }
    forall j | 0 <= j < |alternatives| && Feasible(alternatives[j].constraints)
      ensures Reached(Least(Lowers(alternatives[j].constraints)), alternatives)
    {
      FeasibleIsReached(alternatives, j);
    }
  }

  lemma AcceptedIsGrounded(alternatives: seq<Alternative>, text: string)
    requires AllOps(alternatives) && IsLeastTextOf(alternatives, Best(alternatives))
    requires Best(alternatives).Some? && !SemLess(text, Best(alternatives).value)
    ensures Grounded(text, alternatives)
  {
    var best := Best(alternatives).value;
    MeetingIsGrounded(best, alternatives);
    var j := GroundedIsNotBelow(best, alternatives);
    NotBelow(text, best, Least(Lowers(alternatives[j].constraints)));
  }

  lemma FeasibleIsReached(alternatives: seq<Alternative>, j: nat)
    requires AllOps(alternatives) && IsLeastTextOf(alternatives, Best(alternatives))
    requires j < |alternatives| && Feasible(alternatives[j].constraints)
    ensures Reached(Least(Lowers(alternatives[j].constraints)), alternatives)
  {
    var cs := alternatives[j].constraints;
    assert alternatives[j] == Ops(cs);
    LeastMeetsAlternative(cs);
    assert MeetsSome(Least(Lowers(cs)), alternatives);
    var k := AcceptedByOne(alternatives, Best(alternatives).value);
  }

  /** `minimum` answers a range of constraints with the least text of the range exactly then. */
  lemma BestIsLeastTextExactly(alternatives: seq<Alternative>)
    requires AllOps(alternatives)
    ensures IsLeastTextOf(alternatives, Best(alternatives)) <==> AllExact(alternatives)
  {
    if IsLeastTextOf(alternatives, Best(alternatives)) {
      LeastAnswerIsExact(alternatives);
    }
    if AllExact(alternatives) {
      if Best(alternatives).Some? {
        GroundedAnswer(alternatives);
      }
      forall text | MeetsSome(text, alternatives)
        ensures Best(alternatives).Some? && !SemLess(text, Best(alternatives).value)
      {
        ExactAnswerIsLeast(alternatives, text);
      }
    }
  }

  /** Constraints that are exact, whose candidate is neither rewritten nor empty. */
  ghost predicate Complete(a: Alternative) {
    a.Ops? && Exact(a.constraints) && NotRewritten(a.constraints) && FirstCandidate(a) != ""
  }

  lemma CompleteAnswers(a: Alternative, text: string)
    requires Complete(a)
    ensures Accepted(a).Some? ==> MeetsAlternative(Accepted(a).value, a)
    ensures MeetsAlternative(text, a) ==> Accepted(a).Some? && !SemLess(text, Accepted(a).value)
  {
    assert a == Ops(a.constraints);
    AcceptsLeastExactly(a.constraints);
  }

  /** When every alternative is exact, the answer is the least of all texts that meet some
      alternative, and there is no answer exactly when no text meets any. */
  lemma BestIsLeastText(alternatives: seq<Alternative>)
    requires forall i | 0 <= i < |alternatives| :: Complete(alternatives[i])
    ensures IsLeastTextOf(alternatives, Best(alternatives))
  {
    assert forall i | 0 <= i < |alternatives| :: Complete(alternatives[i]) ==> alternatives[i].Ops?;
    BestIsLeastAccepted(alternatives);
    if Best(alternatives).Some? {
      var k := AcceptedByOne(alternatives, Best(alternatives).value);
      assert Complete(alternatives[k]);
      CompleteAnswers(alternatives[k], "");
    }
    forall text | MeetsSome(text, alternatives)
      ensures Best(alternatives).Some? && !SemLess(text, Best(alternatives).value)
    {
      var i :| 0 <= i < |alternatives| && MeetsAlternative(text, alternatives[i]);
      assert Complete(alternatives[i]);
      CompleteAnswers(alternatives[i], text);
      NotBelow(text, Accepted(alternatives[i]).value, Best(alternatives).value);
    }
  }

  // ----- Where `>` loses texts

  lemma BetweenReleases(t: Triple, next: Triple, text: string)
    requires next == t.(patch := t.patch + 1) && text == Rel(t) + ("-" + "0")
    ensures SemLess(Rel(t), text) && SemLess(text, Rel(next))
  {
    FieldsJoin(Rel(t), '-', "0", SEPARATORS);
    FieldsOfRel(t);
    OneField("0", SEPARATORS);
    assert Parts(text) == Numerals(t) + ["0"];
    PartsOfRel(t);
    PartsOfRel(next);
    FrontIsLess(Numerals(t), ["0"]);
    SemLessByParts(text, Numerals(t) + ["0"], Rel(next), Numerals(next));
    StartsWithNumerals(t, ["0"]);
    StartsWithNumerals(next, []);
    assert Numerals(next) + [] == Numerals(next);
    CoreDecides(Numerals(t) + ["0"], t, Numerals(next), next);
  }

  lemma StartsWithNumerals(t: Triple, rest: seq<string>)
    ensures StartsWith(Numerals(t) + rest, t)
  {
    NumOfDec(t.major);
    NumOfDec(t.minor);
    NumOfDec(t.patch);
  }

  lemma LowerAndUpper(lower: Constraint, upper: Constraint)
    requires lower.op == Gt && upper.op == Lt && Lowest(lower) != "" && Lowest(lower) != ZERO
    ensures var cs := [lower, upper];
            && Lowers(cs) == [lower] && Uppers(cs) == [upper]
            && Admitted(Highest([lower]), [upper]) ==
               if SemLess(Lowest(lower), upper.version) then Some(Lowest(lower)) else None
  {
    LowersOfMore([lower], upper);
    LowersOfMore([], lower);
    HighestOfMore([], lower);
    assert [lower] + [upper] == [lower, upper] && [] + [lower] == [lower];
    assert LowestTexts([]) == [];
    OneBound(Lowest(lower), upper);
    AdmittedPlainly(Lowest(lower), [upper]);
  }

  lemma RejectsPair(lower: Constraint, upper: Constraint)
    requires lower.op == Gt && upper.op == Lt && Lowest(lower) != "" && Lowest(lower) != ZERO
    requires !SemLess(Lowest(lower), upper.version)
    ensures Accepted(Ops([lower, upper])) == None
  {
    LowerAndUpper(lower, upper);
  }

  lemma PairAllows(lower: Constraint, upper: Constraint, text: string)
    requires lower.op == Gt && upper.op == Lt && SemLess(lower.version, text) && SemLess(text, upper.version)
    ensures MeetsAlternative(text, Ops([lower, upper]))
  {
    assert LowerAllows(lower, text) && UpperAllows(lower, text);
    assert LowerAllows(upper, text) && UpperAllows(upper, text);
  }

  /** A `>` may lose texts: `>1.2.3 <1.2.4` is answered with nothing, although `1.2.3-0` meets both. */
  lemma StrictIsIncomplete(t: Triple, next: Triple)
    requires Below(t, INT_MAX) && next == t.(patch := t.patch + 1)
    ensures var cs := [Constraint(Gt, Rel(t)), Constraint(Lt, Rel(next))];
            && Accepted(Ops(cs)) == None
            && MeetsAlternative(Rel(t) + ("-" + "0"), Ops(cs))
  {
    LowestOfGreater(t);
    NextIsNotZero(t, next);
    SemLessIsStrictWeak(Rel(next), Rel(next), Rel(next));
    BetweenReleases(t, next, Rel(t) + ("-" + "0"));
    RejectsPair(Constraint(Gt, Rel(t)), Constraint(Lt, Rel(next)));
    PairAllows(Constraint(Gt, Rel(t)), Constraint(Lt, Rel(next)), Rel(t) + ("-" + "0"));
  }

  lemma NextIsNotZero(t: Triple, next: Triple)
    requires next == t.(patch := t.patch + 1)
    ensures Rel(next) != ZERO && Rel(next) != ""
  {
    PartsOfRel(next);
    PartsOfZero();
    NumOfDec(next.patch);
    ReadDigit("0");
  }
}
