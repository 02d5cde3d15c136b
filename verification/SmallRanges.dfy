/** The answers of the smallest ranges, on any text, and which of several equal candidates stays. */
module SmallRanges {
  import opened Text
  import opened Decimal
  import opened Releases
  import opened PartOrder
  import opened Coercion
  import opened Bounds
  import opened Bumps
  import opened Ranges
  import opened RangeLaws

  // ----- One alternative

  lemma OneAlternative(a: Alternative)
    requires !a.Star?
    ensures Best([a]) == Accepted(a)
  {
    assert [a][..0] == [];
  }

  lemma OneConstraint(c: Constraint)
    ensures Lowers([c]) == if LowerOf(c) == None then [] else [LowerOf(c).value]
    ensures Uppers([c]) == if UpperOf(c) == None then [] else [UpperOf(c).value]
  {
    assert [c][..0] == [];
  }

  lemma OneLowest(lower: Constraint)
    ensures Highest([lower]) == Lowest(lower)
  {
    HighestOfMore([], lower);
    assert [] + [lower] == [lower] && LowestTexts([]) == [];
  }

  lemma AdmittedAlone(text: string, upper: Option<Constraint>)
    requires upper.Some? ==> !Rewrites(text, upper.value)
    ensures Admitted(text, With([], upper)) == if MeetsOne(text, upper) then Some(text) else None
  {
    if upper.Some? {
      assert [upper.value][1..] == [];
    }
  }

  lemma NeverRewrites(c: Constraint, text: string)
    requires c != Constraint(Lt, "0.0.0-beta") && UpperOf(c).Some?
    ensures !Rewrites(text, UpperOf(c).value)
  {
    UpperIsBeta(c);
  }

  lemma AcceptedOfOne(c: Constraint, text: string)
    requires c != Constraint(Lt, "0.0.0-beta") && FirstCandidate(Ops([c])) == text != ""
    ensures Accepted(Ops([c])) == if UpperAllows(c, text) then Some(text) else None
  {
    OneConstraint(c);
    assert Uppers([c]) == With([], UpperOf(c));
    if UpperOf(c).Some? {
      NeverRewrites(c, text);
    }
    AdmittedAlone(text, UpperOf(c));
    UpperOfMeans(c, text);
  }

  /** `>=v`, `^v` and `~v` are answered with the text `v` itself, unless that is not below their bound. */
  lemma LoneLower(c: Constraint)
    requires (c.op == Ge || c.op == Caret || c.op == Tilde) && c.version != ""
    ensures Best([Ops([c])]) == if UpperAllows(c, c.version) then Some(c.version) else None
    ensures c.op == Ge ==> Best([Ops([c])]) == Some(c.version)
  {
    OneAlternative(Ops([c]));
    OneConstraint(c);
    OneLowest(LowerOf(c).value);
    AcceptedOfOne(c, c.version);
  }

  lemma StrictLowest(version: string)
    requires version != "" && Legible(version)
    ensures var t, preRelease := NumbersRead(Pieces(version)), LabelPart(version);
            var low := Lowest(Constraint(Gt, version));
            && low != ""
            && low == if !Readable(version) then version
                      else if preRelease == "" then Dec(t.major) + "." + Dec(t.minor) + "." + Dec(t.patch + 1)
                      else Dec(t.major) + "." + Dec(t.minor) + "." + Dec(t.patch) + "-" + preRelease + ".0"
  {
    BumpOutcome(version);
    BumpedTextIs(NumbersRead(Pieces(version)), LabelPart(version));
  }

  /** `>v` is answered with `v` itself when its numbers cannot be read; and else with `v`'s numbers
      and `.0` behind its pre-release, or with the next patch number. */
  lemma LoneStrict(version: string)
    requires version != "" && Legible(version)
    ensures var t, preRelease := NumbersRead(Pieces(version)), LabelPart(version);
            Best([Ops([Constraint(Gt, version)])]) == Some(
              if !Readable(version) then version
              else if preRelease == "" then Dec(t.major) + "." + Dec(t.minor) + "." + Dec(t.patch + 1)
              else Dec(t.major) + "." + Dec(t.minor) + "." + Dec(t.patch) + "-" + preRelease + ".0")
  {
    var c := Constraint(Gt, version);
    OneAlternative(Ops([c]));
    OneConstraint(c);
    OneLowest(c);
    StrictLowest(version);
    AcceptedOfOne(c, Lowest(c));
  }

  lemma AdmittedByOne(candidate: string, upper: Constraint)
    ensures var c := if Rewrites(candidate, upper) then ZERO_PRE else candidate;
            Admitted(candidate, [upper]) == if Satisfies(c, upper.op, upper.version) then Some(c) else None
  {
    assert [upper][1..] == [];
  }

  lemma FirstBetaAdmits(upper: Constraint)
    requires upper == Constraint(Lt, FIRST_BETA)
    ensures Admitted(ZERO, [upper]) == Some(ZERO_PRE)
  {
    SpecialTextsAscend();
    AdmittedByOne(ZERO, upper);
  }

  lemma FirstBetaAlone()
    ensures Accepted(Ops([Constraint(Lt, "0.0.0-beta")])) == Some("0.0.0-0")
  {
    var c := Constraint(Lt, "0.0.0-beta");
    OneConstraint(c);
    FirstBetaAdmits(c);
  }

  lemma UpperAlone(c: Constraint)
    requires (c.op == Lt || c.op == Le) && c != Constraint(Lt, "0.0.0-beta")
    ensures Accepted(Ops([c])) == if UpperAllows(c, "0.0.0") then Some("0.0.0") else None
  {
    OneConstraint(c);
    AcceptedOfOne(c, "0.0.0");
  }

  /** `<v` and `<=v` are answered with 0.0.0 when that meets them, but for `<0.0.0-beta`. */
  lemma LoneUpper(c: Constraint)
    requires c.op == Lt || c.op == Le
    ensures Best([Ops([c])]) ==
            if c == Constraint(Lt, "0.0.0-beta") then Some("0.0.0-0")
            else if c.op == Lt && SemLess("0.0.0", c.version) then Some("0.0.0")
            else if c.op == Le && !SemLess(c.version, "0.0.0") then Some("0.0.0")
            else None
  {
    OneAlternative(Ops([c]));
    if c == Constraint(Lt, "0.0.0-beta") {
      FirstBetaAlone();
    } else {
      UpperAlone(c);
    }
  }

  lemma BareWithoutDigit(text: string)
    requires NoDigit(text)
    ensures Accepted(Bare(text)) == if text == "" then None else Some(text)
  {
    CoerceFindsDigits(text);
  }

  lemma BareWithDigit(text: string, t: Triple)
    requires Scan(text) == Some(t) && Below(t, 9223372036854775808)
    ensures Accepted(Bare(text)) == Some(Dec(t.major) + "." + Dec(t.minor) + "." + Dec(t.patch))
  {
    RelText(t);
    assert Coerce(text) == Returns(Some(Rel(t)));
  }

  /** A text without operators is answered with what it is coerced to, and without a digit with itself. */
  lemma BareAnswers(text: string)
    ensures NoDigit(text) ==> Best([Bare(text)]) == if text == "" then None else Some(text)
    ensures Scan(text).Some? && Below(Scan(text).value, 9223372036854775808) ==>
              var t := Scan(text).value;
              Best([Bare(text)]) == Some(Dec(t.major) + "." + Dec(t.minor) + "." + Dec(t.patch))
  {
    OneAlternative(Bare(text));
    if NoDigit(text) {
      BareWithoutDigit(text);
    }
    if Scan(text).Some? && Below(Scan(text).value, 9223372036854775808) {
      BareWithDigit(text, Scan(text).value);
    }
  }

  /** Operators without operands are answered with 0.0.0. */
  lemma NoConstraints()
    ensures Best([Ops([])]) == Some("0.0.0")
  {
    OneAlternative(Ops([]));
  }

  // ----- Which of several equal candidates stays

  /** The first of the least among the texts there are. */
  ghost predicate FirstLeast(options: seq<Option<string>>, k: nat)
    requires k < |options|
  {
    && options[k].Some?
    && (forall i | 0 <= i < k && options[i].Some? :: SemLess(options[k].value, options[i].value))
    && (forall i | k < i < |options| && options[i].Some? :: !SemLess(options[i].value, options[k].value))
  }

  lemma FirstLeastOfMore(front: seq<Option<string>>, m: nat, next: Option<string>)
    requires m < |front| && FirstLeast(front, m)
    ensures var n := |front|; var all := front + [next];
            FirstLeast(all, if next.Some? && SemLess(next.value, front[m].value) then n else m)
  {
    if next.Some? && SemLess(next.value, front[m].value) {
      forall i | 0 <= i < |front| && front[i].Some? ensures SemLess(next.value, front[i].value) {
        NotBelowLeast(front, m, i);
        StrictThenNotAbove(next.value, front[m].value, front[i].value);
      }
    }
  }

  lemma NotBothBelow(a: string, b: string)
    ensures SemLess(a, b) ==> !SemLess(b, a)
    ensures !SemLess(a, a)
  {
    PartsLessOneWay(Parts(a), Parts(b));
    PartsLessOneWay(Parts(a), Parts(a));
  }

  lemma NotBelowLeast(front: seq<Option<string>>, m: nat, i: nat)
    requires m < |front| && i < |front| && FirstLeast(front, m) && front[i].Some?
    ensures !SemLess(front[i].value, front[m].value)
  {
    if i < m {
      NotBothBelow(front[m].value, front[i].value);
    } else if i == m {
      NotBothBelow(front[m].value, front[m].value);
    }
  }

  lemma StrictThenNotAbove(a: string, b: string, c: string)
    requires SemLess(a, b) && !SemLess(c, b)
    ensures SemLess(a, c)
  {
    SemLessIsStrictWeak(a, c, b);
    SemLessIsStrictWeak(a, b, c);
  }

  lemma {:induction false} LeastOptionIsFirst(options: seq<Option<string>>) returns (k: nat)
    requires LeastOption(options).Some?
    ensures k < |options| && LeastOption(options) == options[k] && FirstLeast(options, k)
  {
    var n := |options| - 1;
    var front := options[..n];
    assert options == front + [options[n]];
    if LeastOption(front) == None {
      LeastOptionIsOne(front);
      k := n;
    } else {
      var m := LeastOptionIsFirst(front);
      FirstLeastOfMore(front, m, options[n]);
      k := if options[n].Some? && SemLess(options[n].value, front[m].value) then n else m;
    }
  }

  ghost predicate AllAbove(options: seq<Option<string>>, text: string) {
    forall i | 0 <= i < |options| && options[i].Some? :: SemLess(text, options[i].value)
  }

  /** A `*` brings 0.0.0 when all texts brought before it are above that, and otherwise the text
      `*`. Any other alternative brings what it accepts. */
  ghost function Brought(alternatives: seq<Alternative>): (options: seq<Option<string>>)
    ensures |options| == |alternatives|
  {
    if alternatives == [] then []
    else
      var n := |alternatives| - 1;
      var front := Brought(alternatives[..n]);
      front + [
        if !alternatives[n].Star? then Accepted(alternatives[n])
        else Some(if AllAbove(front, "0.0.0") then "0.0.0" else "*")
      ]
  }

  lemma LeastIsAbove(options: seq<Option<string>>, text: string)
    ensures AllAbove(options, text) <==> (LeastOption(options).Some? ==> SemLess(text, LeastOption(options).value))
  {
    LeastOptionIsOne(options);
    if LeastOption(options).Some? {
      var k := LeastOptionIsFirst(options);
      if SemLess(text, options[k].value) {
        forall i | 0 <= i < |options| && options[i].Some? ensures SemLess(text, options[i].value) {
          NotBelowLeast(options, k, i);
          StrictThenNotAbove(text, options[k].value, options[i].value);
        }
      }
    }
  }

  lemma StarIsText()
    ensures Accepted(Star) == Some("*")
  {
  }

  lemma LeastOptionOfMore(front: seq<Option<string>>, next: Option<string>)
    ensures LeastOption(front + [next]) == Better(LeastOption(front), next)
  {
    assert (front + [next])[..|front|] == front;
  }

  lemma {:induction false} BestIsLeastBrought(alternatives: seq<Alternative>)
    ensures Best(alternatives) == LeastOption(Brought(alternatives))
  {
    if alternatives != [] {
      var n := |alternatives| - 1;
      var front := Brought(alternatives[..n]);
      BestIsLeastBrought(alternatives[..n]);
      LeastIsAbove(front, "0.0.0");
      StarIsText();
      LeastOptionOfMore(front, Brought(alternatives)[n]);
    }
  }

  /** There is an answer exactly when some alternative brings a text. */
  lemma BestIsNothing(alternatives: seq<Alternative>)
    ensures Best(alternatives) == None <==> forall i | 0 <= i < |alternatives| :: Brought(alternatives)[i] == None
  {
    BestIsLeastBrought(alternatives);
    LeastOptionIsOne(Brought(alternatives));
  }

  /** The answer is the least text that is brought, and the first of those that tie. */
  lemma BestIsFirstLeast(alternatives: seq<Alternative>) returns (k: nat)
    requires Best(alternatives).Some?
    ensures k < |alternatives| && Brought(alternatives)[k] == Best(alternatives)
    ensures FirstLeast(Brought(alternatives), k)
  {
    BestIsLeastBrought(alternatives);
    k := LeastOptionIsFirst(Brought(alternatives));
  }
}
