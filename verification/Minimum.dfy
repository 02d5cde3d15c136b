/** `minimum`, loop by loop, and what its answer is. */
module Minimum {
  import opened Text
  import opened PartOrder
  import opened Coercion
  import opened Bounds
  import opened Ranges
  import opened RangeLaws
  import opened RangeFaults
  import opened ReleaseRanges

  lemma CollectStep(cs: seq<Constraint>, i: nat)
    requires i < |cs|
    ensures Lowers(cs[..i + 1]) == With(Lowers(cs[..i]), LowerOf(cs[i]))
    ensures Uppers(cs[..i + 1]) == With(Uppers(cs[..i]), UpperOf(cs[i]))
  {
    assert cs[..i + 1][..i] == cs[..i];
  }

  /** Sorts the constraints of one alternative into lower and upper ones; the first bound that
      faults ends it. */
  method Collect(cs: seq<Constraint>) returns (r: Outcome<(seq<Constraint>, seq<Constraint>)>)
    ensures r.Returns? ==> r.value == (Lowers(cs), Uppers(cs))
    ensures r.Failure() == FirstFault(BoundFaults(cs))
  {
    var lowerConstraints: seq<Constraint>, upperConstraints: seq<Constraint> := [], [];
    ghost var steps := BoundFaults(cs);
    for i := 0 to |cs|
      invariant lowerConstraints == Lowers(cs[..i]) && upperConstraints == Uppers(cs[..i])
      invariant NoneUpTo(steps, i)
    {
      var op, version := cs[i].op, cs[i].version;
      CollectStep(cs, i);
      FaultsAt(steps, i);
      if op == Caret {
        lowerConstraints := lowerConstraints + [Constraint(Ge, version)];
        var upperBound :- ComputeCaretUpperBound(version);
        upperConstraints := upperConstraints + [Constraint(Lt, upperBound)];
      } else if op == Tilde {
        lowerConstraints := lowerConstraints + [Constraint(Ge, version)];
        var upperBound :- ComputeTildeUpperBound(version);
        if upperBound != "" {
          upperConstraints := upperConstraints + [Constraint(Lt, upperBound)];
        }
      } else if op == Gt || op == Ge {
        lowerConstraints := lowerConstraints + [Constraint(op, version)];
      } else {
        upperConstraints := upperConstraints + [Constraint(op, version)];
      }
    }
    assert cs[..|cs|] == cs;
    NoFault(steps);
    return Returns((lowerConstraints, upperConstraints));
  }

  lemma HighestStep(lowers: seq<Constraint>, i: nat)
    requires i < |lowers|
    ensures Highest(lowers[..i + 1]) == Higher(Highest(lowers[..i]), Lowest(lowers[i]))
  {
    assert lowers[..i + 1] == lowers[..i] + [lowers[i]];
    HighestOfMore(lowers[..i], lowers[i]);
  }

  /** The candidate that the lower constraints ask for. */
  method HighestLower(lowers: seq<Constraint>) returns (r: Outcome<string>)
    ensures r.Returns? ==> r.value == Highest(lowers)
    ensures r.Failure() == FirstFault(LowerFaults(lowers))
  {
    var candidate := "";
    ghost var steps := LowerFaults(lowers);
    assert LowestTexts(lowers[..0]) == [];
    for i := 0 to |lowers|
      invariant candidate == Highest(lowers[..i])
      invariant NoneUpTo(steps, i)
    {
      HighestStep(lowers, i);
      FaultsAt(steps, i);
      var cur := lowers[i].version;
      if lowers[i].op == Gt {
        var incremented :- IncrementVersion(lowers[i].version);
        cur := incremented.GetOr(lowers[i].version);
      }
      assert cur == Lowest(lowers[i]);
      if candidate == "" {
        candidate := cur;
      } else {
        var less :- CompareSemVer(candidate, cur);
        if less {
          candidate := cur;
        }
      }
    }
    assert lowers[..|lowers|] == lowers;
    NoFault(steps);
    return Returns(candidate);
  }

  lemma {:induction false} AdmittedInTurn(candidate: string, uppers: seq<Constraint>, last: Constraint)
    ensures var before := Admitted(candidate, uppers);
            Admitted(candidate, uppers + [last]) == if before == None then None else Admitted(before.value, [last])
    decreases |uppers|
  {
    if uppers == [] {
      assert uppers + [last] == [last];
    } else {
      assert (uppers + [last])[1..] == uppers[1..] + [last];
      AdmittedInTurn(candidate, uppers[1..], last);
      AdmittedInTurn(ZERO_PRE, uppers[1..], last);
    }
  }

  lemma AdmittedStep(first: string, uppers: seq<Constraint>, i: nat, candidate: string)
    requires i < |uppers| && Admitted(first, uppers[..i]) == Some(candidate)
    ensures var c := if Rewrites(candidate, uppers[i]) then ZERO_PRE else candidate;
            Admitted(first, uppers[..i + 1]) ==
            if Satisfies(c, uppers[i].op, uppers[i].version) then Some(c) else None
  {
    assert uppers[..i + 1] == uppers[..i] + [uppers[i]];
    AdmittedInTurn(first, uppers[..i], uppers[i]);
  }

  lemma CheckStep(first: string, uppers: seq<Constraint>, i: nat, candidate: string)
    requires i < |uppers| && Admitted(first, uppers[..i]) == Some(candidate) && NoneUpTo(UpperFaults(first, uppers), i)
    ensures var c := if Rewrites(candidate, uppers[i]) then ZERO_PRE else candidate;
            var fault := SatisfyFault(c, uppers[i].op, uppers[i].version);
            if fault.Some? then FirstFault(UpperFaults(first, uppers)) == fault
            else NoneUpTo(UpperFaults(first, uppers), i + 1)
  {
    FaultsAt(UpperFaults(first, uppers), i);
  }

  /** Once rejected, a candidate stays rejected. */
  lemma {:induction false} StaysRejected(first: string, uppers: seq<Constraint>, i: nat, k: nat)
    requires i <= k <= |uppers| && Admitted(first, uppers[..i]) == None
    ensures Admitted(first, uppers[..k]) == None
    decreases k
  {
    if i < k {
      StaysRejected(first, uppers, i, k - 1);
      assert uppers[..k] == uppers[..k - 1] + [uppers[k - 1]];
      AdmittedInTurn(first, uppers[..k - 1], uppers[k - 1]);
    }
  }

  lemma RejectedAt(first: string, uppers: seq<Constraint>, i: nat)
    requires i <= |uppers| && Admitted(first, uppers[..i]) == None && NoneUpTo(UpperFaults(first, uppers), i)
    ensures Admitted(first, uppers) == None && FirstFault(UpperFaults(first, uppers)) == None
  {
    forall k: nat | i <= k < |uppers| ensures UpperFaults(first, uppers)[k] == None {
      StaysRejected(first, uppers, i, k);
    }
    StaysRejected(first, uppers, i, |uppers|);
    assert uppers[..|uppers|] == uppers;
    NoFault(UpperFaults(first, uppers));
  }

  /** Checks the upper constraints one after the other, with the special case of `<0.0.0-beta`. */
  method CheckUppers(first: string, uppers: seq<Constraint>) returns (r: Outcome<Option<string>>)
    ensures r.Returns? ==> r.value == Admitted(first, uppers)
    ensures r.Failure() == FirstFault(UpperFaults(first, uppers))
  {
    var candidate, valid := first, true;
    ghost var steps := UpperFaults(first, uppers);
    for i := 0 to |uppers|
      invariant valid && Admitted(first, uppers[..i]) == Some(candidate)
      invariant NoneUpTo(steps, i)
    {
      var op, version := uppers[i].op, uppers[i].version;
      AdmittedStep(first, uppers, i, candidate);
      CheckStep(first, uppers, i, candidate);
      if op == Lt && version == FIRST_BETA && candidate == ZERO {
        candidate := ZERO_PRE;
      }
      var satisfied :- SatisfiesConstraint(candidate, op, version);
      if !satisfied {
        RejectedAt(first, uppers, i + 1);
        valid := false;
        break;
      }
    }
    if valid {
      assert uppers[..|uppers|] == uppers;
      NoFault(steps);
    }
    return Returns(if valid then Some(candidate) else None);
  }

  lemma StarIsKept()
    ensures Coerce("*") == Returns(None)
  {
    CoerceFindsDigits("*");
  }

  lemma NoSteps(first: string)
    ensures FirstFault(UpperFaults(first, [])) == None
    ensures FirstFault(LowerFaults([])) == None
  {
    assert UpperFaults(first, []) == [];
    assert LowerFaults([]) == [];
  }

  /** The candidate of one alternative that has not been settled as a `*`. */
  method Consider(a: Alternative) returns (r: Outcome<Option<string>>)
    ensures r.Returns? ==> r.value == Accepted(a)
    ensures r.Failure() == AlternativeFault(a)
  {
    var candidate := "";
    var lowerConstraints: seq<Constraint>, upperConstraints: seq<Constraint> := [], [];
    StarIsKept();
    NoSteps(FirstCandidate(a));
    if !a.Ops? {
      var subRange := if a.Star? then "*" else a.text;
      var c :- Coerce(subRange);
      candidate := c.GetOr(subRange);
    } else {
      var collected :- Collect(a.constraints);
      lowerConstraints, upperConstraints := collected.0, collected.1;
      if lowerConstraints != [] {
        candidate :- HighestLower(lowerConstraints);
      } else {
        candidate := ZERO;
      }
    }
    var admitted :- CheckUppers(candidate, upperConstraints);
    return Returns(if admitted == Some("") then None else admitted);
  }

  lemma BestStep(alternatives: seq<Alternative>, i: nat)
    requires i < |alternatives|
    ensures Best(alternatives[..i + 1]) == Next(Best(alternatives[..i]), alternatives[i])
  {
    assert alternatives[..i + 1][..i] == alternatives[..i];
  }

  method MinimumOfUnion(alternatives: seq<Alternative>) returns (r: Outcome<Option<string>>)
    ensures r.Returns? ==> r.value == Best(alternatives)
    ensures r.Failure() == FirstFault(UnionFaults(alternatives))
  {
    var bestCandidate: Option<string> := None;
    ghost var steps := UnionFaults(alternatives);
    for i := 0 to |alternatives|
      invariant bestCandidate == Best(alternatives[..i])
      invariant NoneUpTo(steps, i)
    {
      var a := alternatives[i];
      BestStep(alternatives, i);
      FaultsAt(steps, i);
      if a.Star? {
        var improves := bestCandidate == None;
        if !improves {
          improves :- CompareSemVer(ZERO, bestCandidate.value);
        }
        if improves {
          bestCandidate := Some(ZERO);
          continue;
        }
      }
      var candidate :- Consider(a);
      if candidate.Some? {
        var improves := bestCandidate == None;
        if !improves {
          improves :- CompareSemVer(candidate.value, bestCandidate.value);
        }
        if improves {
          bestCandidate := candidate;
        }
      }
    }
    assert alternatives[..|alternatives|] == alternatives;
    NoFault(steps);
    return Returns(bestCandidate);
  }

  /** `minimum`: the least accepted candidate over the alternatives, unless a step faults, and then
      the fault of the first that does; with numbers in bounds none does. On ranges over releases
      the answer is the least release of the range. */
  method Minimum(range: Range) returns (r: Outcome<Option<string>>)
    ensures r.Returns? ==> r.value == LeastOf(range)
    ensures r.Failure() == RangeFault(range)
    ensures Safe(range) ==> r.Returns?
    ensures RangeOnReleases(range) && !StarTooLate(ReadRange(range)) ==>
              r.Returns? && IsLeastRelease(ReadRange(range), r.value)
  {
    if RangeOnReleases(range) {
      RangesOnReleasesAreSafe(range);
      LeastOfIsLeastRelease(range);
    }
    if Safe(range) {
      SafeRangesReturn(range);
    }
    match range {
      case Empty => return Returns(None);
      case Anything => return Returns(Some(ZERO));
      case Between(low) => return Coerce(low);
      case Union(alternatives) => r := MinimumOfUnion(alternatives);
    }
  }
}
