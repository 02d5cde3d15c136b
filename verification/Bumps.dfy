/** `incrementVersion` in numbers: when it has an answer, and when that is above its version. */
module Bumps {
  import opened Text
  import opened Decimal
  import opened FieldSplitting
  import opened Versions
  import opened Releases
  import opened PartOrder
  import opened Agreement
  import opened Bounds

  // ----- The parts of a version text, by its dots and its first hyphen

  lemma NumberPartHasNoDash(version: string)
    ensures Fields(NumberPart(version), SEPARATORS) == DotParts(NumberPart(version))
  {
    FieldsWithout(NumberPart(version), SEPARATORS, DOT);
  }

  lemma PartsByDash(version: string)
    ensures var d := DotParts(NumberPart(version));
            Parts(version) ==
            if Find(version, {'-'}, 0) == |version| then WithoutEmptyEnd(d) else d + Parts(LabelPart(version))
  {
    NumberPartHasNoDash(version);
    var dash := Find(version, {'-'}, 0);
    if dash == |version| {
      assert NumberPart(version) == version;
    } else {
      Rejoin(version, dash);
      FieldsJoin(NumberPart(version), '-', LabelPart(version), SEPARATORS);
      KeepFront(DotParts(NumberPart(version)), Fields(LabelPart(version), SEPARATORS));
    }
  }

  /** Each of the first three pieces starts with a digit. */
  predicate DigitsFirst(pieces: seq<string>) {
    && (0 < |pieces| ==> DigitLed(pieces[0]))
    && (1 < |pieces| ==> DigitLed(pieces[1]))
    && (2 < |pieces| ==> DigitLed(pieces[2]))
  }

  /** Each of the first three pieces starts with a number, behind white space and a plus sign. */
  predicate NumbersFirst(pieces: seq<string>) {
    && (0 < |pieces| ==> DigitLed(Unmarked(pieces[0])))
    && (1 < |pieces| ==> DigitLed(Unmarked(pieces[1])))
    && (2 < |pieces| ==> DigitLed(Unmarked(pieces[2])))
  }

  // ----- Which versions go up

  /** The parts of `cycle`, over and over. */
  function Cyclic(cycle: seq<string>, i: nat): string
    requires cycle != []
  {
    if i < |cycle| then cycle[i] else Cyclic(cycle, i - |cycle|)
  }

  /** Which parts tie with the cycle. */
  function TiesWith(parts: seq<string>, cycle: seq<string>): (ties: seq<bool>)
    requires cycle != []
    ensures |ties| == |parts|
    ensures forall i | 0 <= i < |parts| :: ties[i] == PartTies(Cyclic(cycle, i), parts[i])
  {
    seq(|parts|, i requires 0 <= i < |parts| => PartTies(Cyclic(cycle, i), parts[i]))
  }

  /** The first part that does not tie with the cycle. */
  function FirstOff(cycle: seq<string>, parts: seq<string>): (i: nat)
    requires cycle != []
    ensures i <= |parts|
  {
    FirstFalse(TiesWith(parts, cycle))
  }

  lemma TiesBeforeOff(cycle: seq<string>, parts: seq<string>, k: nat)
    requires cycle != [] && k < |parts| && k <= FirstOff(cycle, parts)
    ensures PartTies(Cyclic(cycle, k), parts[k]) <==> k < FirstOff(cycle, parts)
  {
    assert TiesWith(parts, cycle)[k] == PartTies(Cyclic(cycle, k), parts[k]);
  }

  lemma FirstOffIs(cycle: seq<string>, parts: seq<string>, i: nat)
    requires cycle != [] && i <= |parts|
    requires forall k | 0 <= k < i :: PartTies(Cyclic(cycle, k), parts[k])
    requires i < |parts| ==> !PartTies(Cyclic(cycle, i), parts[i])
    ensures FirstOff(cycle, parts) == i
  {
    var k := FirstOff(cycle, parts);
    if k < i {
      TiesBeforeOff(cycle, parts, k);
    } else if i < k {
      TiesBeforeOff(cycle, parts, i);
    }
  }

  /** The first part that does not tie with the cycle, if any, is below it. */
  predicate LeavesBelow(parts: seq<string>, cycle: seq<string>)
    requires cycle != []
  {
    var i := FirstOff(cycle, parts);
    i < |parts| ==> PartLess(parts[i], Cyclic(cycle, i))
  }

  /** Some part does not tie with the cycle, and the first such part is above it. */
  predicate LeavesAbove(parts: seq<string>, cycle: seq<string>)
    requires cycle != []
  {
    var i := FirstOff(cycle, parts);
    i < |parts| && PartLess(Cyclic(cycle, i), parts[i])
  }

  /** The zeros that stand in for missing numbers. */
  function Missing(pieces: seq<string>): seq<string>
    requires 0 < |pieces| < 3
  {
    if |pieces| == 1 then ["0", "0"] else ["0"]
  }

  /** The parts that a pre-release contributes to the bumped version. */
  function Grown(preRelease: string): (parts: seq<string>)
    ensures parts != []
  {
    Fields(preRelease, SEPARATORS) + ["0"]
  }

  /** Some number read stands behind white space or a plus sign; or a pre-release stands behind
      exactly three pieces; or behind fewer, and its first part that is not the number 0 is below
      it; or behind more, and the first part it grows to that does not repeat the pieces beyond the
      third is above them; or there is no pre-release. */
  predicate Bumpable(version: string) {
    var d, preRelease := Pieces(version), LabelPart(version);
    && NumbersFirst(d)
    && (DigitsFirst(d) && preRelease != "" ==>
          || |d| == 3
          || (|d| < 3 && LeavesBelow(Parts(preRelease), Missing(d)))
          || (|d| > 3 && LeavesAbove(Grown(preRelease), d[3..])))
  }

  /** All parts that the pre-release grows to repeat the pieces beyond the third, and there are as
      many as there were: the bumped version ties with the version. */
  predicate Stalling(version: string) {
    var d, preRelease := Pieces(version), LabelPart(version);
    && DigitsFirst(d) && preRelease != "" && |d| > 3
    && Repeats(d[3..], Grown(preRelease), |d| - 3 + |Parts(preRelease)|)
  }

  predicate Repeats(cycle: seq<string>, parts: seq<string>, n: nat)
    requires cycle != []
  {
    FirstOff(cycle, parts) == |parts| == n
  }

  function PieceNumber(pieces: seq<string>, i: nat): nat {
    if i < |pieces| then Num(Unmarked(pieces[i])) else 0
  }

  /** The numbers read; a missing one is 0. */
  function NumbersRead(pieces: seq<string>): Triple {
    Triple(PieceNumber(pieces, 0), PieceNumber(pieces, 1), PieceNumber(pieces, 2))
  }

  /** The piece, when it is there, starts with an `int`. */
  predicate PieceIsInt(pieces: seq<string>, i: nat) {
    i < |pieces| ==> DigitLed(Unmarked(pieces[i])) && Num(Unmarked(pieces[i])) <= INT_MAX
  }

  lemma NoDashInPiece(version: string, i: nat)
    requires i < |Pieces(version)|
    ensures '-' !in Pieces(version)[i]
  {
    var p := Pieces(version)[i];
    if k :| 0 <= k < |p| && p[k] == '-' {
      FieldChars(NumberPart(version), DOT, i, k);
    }
  }

  lemma ReadDashless(p: string)
    requires '-' !in p
    ensures Reading(p) == if DigitLed(Unmarked(p)) then Some(Num(Unmarked(p))) else None
  {
    var front := TrimFrontParts(p);
    var body := TrimFront(p);
    assert body != "" ==> body[0] == p[|front|];
  }

  lemma ReadPiece(version: string, i: nat)
    ensures PieceIsInt(Pieces(version), i) ==>
              Component(Pieces(version), i) == Returns(PieceNumber(Pieces(version), i))
    ensures !PieceIsInt(Pieces(version), i) ==> Component(Pieces(version), i).Faults?
  {
    if i < |Pieces(version)| {
      var p := Pieces(version)[i];
      NoDashInPiece(version, i);
      ReadDashless(p);
      StoiReads(p);
    }
  }

  lemma NumbersOfTriple(t: Triple)
    ensures Numbers(t.major, t.minor, t.patch) == Rel(t)
  {
  }

  /** The numbers of the version are there and are `int`s. */
  predicate Readable(version: string) {
    NumbersFirst(Pieces(version)) && Below(NumbersRead(Pieces(version)), INT_MAX + 1)
  }

  /** The patch number of a version without a pre-release cannot grow. */
  predicate AtLimit(version: string) {
    LabelPart(version) == "" && NumbersRead(Pieces(version)).patch == INT_MAX
  }

  /** Adding 1 to the patch number, if it comes to that, is defined. */
  predicate Legible(version: string) {
    !(Readable(version) && AtLimit(version))
  }

  function BumpedText(t: Triple, preRelease: string): string {
    if preRelease == "" then Rel(t.(patch := t.patch + 1)) else Labelled(Rel(t), preRelease)
  }

  /** The bumped text, character by character. */
  lemma BumpedTextIs(t: Triple, preRelease: string)
    ensures BumpedText(t, preRelease) ==
            if preRelease == "" then Dec(t.major) + "." + Dec(t.minor) + "." + Dec(t.patch + 1)
            else Dec(t.major) + "." + Dec(t.minor) + "." + Dec(t.patch) + "-" + preRelease + ".0"
  {
    if preRelease == "" {
      RelText(t.(patch := t.patch + 1));
    } else {
      RelText(t);
      LabelledText(Rel(t), preRelease);
    }
  }

  lemma LabelledText(core: string, preRelease: string)
    ensures Labelled(core, preRelease) == core + "-" + preRelease + ".0"
  {
    assert core + "-" + preRelease + ".0" == core + ("-" + (preRelease + ".0"));
  }

  lemma BumpOfNumbers(t: Triple, preRelease: string)
    requires Below(t, INT_MAX + 1)
    ensures BumpNumbers(Returns(t.major), Returns(t.minor), Returns(t.patch), preRelease) ==
            if preRelease == "" && t.patch == INT_MAX then Faults(Undefined)
            else Returns(Some(BumpedText(t, preRelease)))
  {
    NumbersOfTriple(t);
    NumbersOfTriple(t.(patch := t.patch + 1));
  }

  lemma ReadableByPieces(pieces: seq<string>)
    ensures NumbersFirst(pieces) && Below(NumbersRead(pieces), INT_MAX + 1) <==>
            PieceIsInt(pieces, 0) && PieceIsInt(pieces, 1) && PieceIsInt(pieces, 2)
  {
  }

  /** From the text alone: nothing comes of numbers that are not there or are beyond `int`, adding
      1 to the greatest patch number is undefined, and everything else has the next text. */
  lemma BumpOutcome(version: string)
    ensures Bump(version) == Returns(None) <==> !Readable(version)
    ensures Bump(version) == Faults(Undefined) <==> Readable(version) && AtLimit(version)
    ensures Readable(version) && !AtLimit(version) ==>
              Bump(version) == Returns(Some(BumpedText(NumbersRead(Pieces(version)), LabelPart(version))))
  {
    var pieces := Pieces(version);
    ReadPiece(version, 0);
    ReadPiece(version, 1);
    ReadPiece(version, 2);
    ReadableByPieces(pieces);
    if Readable(version) {
      BumpOfNumbers(NumbersRead(pieces), LabelPart(version));
    }
  }

  lemma BumpText(version: string, s: string)
    requires Bump(version) == Returns(Some(s))
    ensures Readable(version)
    ensures var t := NumbersRead(Pieces(version));
            && (LabelPart(version) == "" ==> s == Rel(t.(patch := t.patch + 1)))
            && (LabelPart(version) != "" ==> s == Labelled(Rel(t), LabelPart(version)))
  {
    BumpOutcome(version);
  }

  /** Without a pre-release, the parts start with the pieces. */
  lemma NoLabelParts(version: string)
    requires LabelPart(version) == "" && DigitsFirst(Pieces(version))
    ensures var p, d := Parts(version), Pieces(version);
            && p != [] && (|p| == |d| || (3 <= |p| && 3 <= |d|))
            && forall i | 0 <= i < |p| && i < |d| :: p[i] == d[i]
  {
    PartsByDash(version);
    assert Parts("") == [];
    var d := Pieces(version);
    assert |d| <= 3 ==> DigitLed(d[|d| - 1]);
  }

  // ----- incrementVersion goes up

  /** Up to three numbers that tie with those of `t` but for a smaller third, or that run out. */
  lemma ClimbToRelease(q: seq<string>, t: Triple)
    requires q != [] && DigitLed(q[0]) && Num(q[0]) == t.major
    requires |q| > 1 ==> DigitLed(q[1]) && Num(q[1]) == t.minor
    requires |q| > 2 ==> DigitLed(q[2]) && Num(q[2]) < t.patch
    ensures PartsLess(q, Parts(Rel(t)))
  {
    PartsOfRel(t);
    NumOfDec(t.major);
    NumOfDec(t.minor);
    NumOfDec(t.patch);
    var r := Parts(Rel(t));
    NumberDecides(q, r);
    if |q| > 1 {
      NumberDecides(q[1..], r[1..]);
      if |q| > 2 {
        DropTwice(q, 1);
        DropTwice(r, 1);
        NumberDecides(q[2..], r[2..]);
      } else {
        assert q[1..][1..] == [];
      }
    } else {
      assert q[1..] == [];
    }
  }

  function Numerals(t: Triple): seq<string> {
    [Dec(t.major), Dec(t.minor), Dec(t.patch)]
  }

  lemma FieldsOfLabelled(t: Triple, preRelease: string)
    ensures Fields(Labelled(Rel(t), preRelease), SEPARATORS) == Numerals(t) + Grown(preRelease)
  {
    var tail := preRelease + ("." + "0");
    FieldsJoin(Rel(t), '-', tail, SEPARATORS);
    FieldsJoin(preRelease, '.', "0", SEPARATORS);
    OneField("0", SEPARATORS);
    FieldsOfRel(t);
  }

  lemma PartsOfLabelled(t: Triple, preRelease: string)
    ensures Parts(Labelled(Rel(t), preRelease)) == Numerals(t) + Grown(preRelease)
  {
    FieldsOfLabelled(t, preRelease);
  }

  lemma FieldsOfRel(t: Triple)
    ensures Fields(Rel(t), SEPARATORS) == Numerals(t)
  {
    FieldsAt(Dec(t.major), '.', Dec(t.minor) + ("." + Dec(t.patch)), SEPARATORS);
    FieldsAt(Dec(t.minor), '.', Dec(t.patch), SEPARATORS);
    OneField(Dec(t.patch), SEPARATORS);
  }

  lemma LabelGrows(preRelease: string)
    ensures PartsLess(Parts(preRelease), Grown(preRelease))
  {
    var f := Fields(preRelease, SEPARATORS);
    if f[|f| - 1] == "" {
      assert f + ["0"] == f[..|f| - 1] + ["", "0"];
      FrontIsLess(f[..|f| - 1], ["", "0"]);
    } else {
      FrontIsLess(f, ["0"]);
    }
  }

  lemma NumbersStay(p: seq<string>, d: seq<string>)
    requires DigitsFirst(d) && p != [] && d != [] && (|p| == |d| || (3 <= |p| && 3 <= |d|))
    requires forall i | 0 <= i < |p| && i < |d| :: p[i] == d[i]
    ensures var t := NumbersRead(d);
            && DigitLed(p[0]) && Num(p[0]) == t.major
            && (|p| > 1 ==> DigitLed(p[1]) && Num(p[1]) == t.minor)
            && (|p| > 2 ==> DigitLed(p[2]) && Num(p[2]) == t.patch)
  {
    assert DigitLed(d[0]);
    assert |d| > 1 ==> DigitLed(d[1]);
    assert |d| > 2 ==> DigitLed(d[2]);
  }

  lemma NextPatchIsAbove(version: string, t: Triple)
    requires DigitsFirst(Pieces(version)) && t == NumbersRead(Pieces(version)) && LabelPart(version) == ""
    ensures SemLess(version, Rel(t.(patch := t.patch + 1)))
  {
    NoLabelParts(version);
    NumbersStay(Parts(version), Pieces(version));
    ClimbToRelease(Parts(version), t.(patch := t.patch + 1));
  }

  lemma StartsWithPieces(d: seq<string>, p: seq<string>, q: seq<string>)
    requires |d| >= 3 && DigitsFirst(d)
    ensures StartsWith(d + p, NumbersRead(d)) && (d + p)[3..] == d[3..] + p
    ensures StartsWith(Numerals(NumbersRead(d)) + q, NumbersRead(d)) && (Numerals(NumbersRead(d)) + q)[3..] == q
  {
    var t := NumbersRead(d);
    NumOfDec(t.major);
    NumOfDec(t.minor);
    NumOfDec(t.patch);
  }

  lemma FieldsExtendParts(text: string) returns (rest: seq<string>)
    ensures Fields(text, SEPARATORS) == Parts(text) + rest
  {
    var f := Fields(text, SEPARATORS);
    if f[|f| - 1] == "" {
      rest := [""];
      assert f == f[..|f| - 1] + [""];
    } else {
      rest := [];
      assert f == f + [];
    }
  }

  lemma GrownExtendsParts(preRelease: string) returns (rest: seq<string>)
    ensures Grown(preRelease) == Parts(preRelease) + rest
  {
    var end := FieldsExtendParts(preRelease);
    rest := end + ["0"];
    assert (Parts(preRelease) + end) + ["0"] == Parts(preRelease) + rest;
  }

  // ----- A list against itself, moved back behind a cycle

  lemma MovedAt(cycle: seq<string>, p: seq<string>, rest: seq<string>, other: seq<string>, i: nat)
    requires i < |cycle| + |p|
    ensures i < |cycle| ==> (cycle + (p + rest))[i] == cycle[i]
    ensures i >= |cycle| ==> (cycle + (p + rest))[i] == (p + other)[i - |cycle|]
  {
  }

  /** As long as the moved list ties with its own parts, it repeats the cycle. */
  lemma RepeatsCycle(cycle: seq<string>, p: seq<string>, rest: seq<string>, other: seq<string>, i: nat)
    requires cycle != [] && i < |cycle| + |p| && i <= FirstOff(cycle, p + other)
    ensures PartTies(Cyclic(cycle, i), (cycle + (p + rest))[i])
  {
    MovedAt(cycle, p, rest, other, i);
    if i < |cycle| {
      PartLaws(cycle[i], cycle[i], "");
    } else {
      TiesBeforeOff(cycle, p + other, i - |cycle|);
    }
  }

  lemma TiesBothWays(a: string, b: string, c: string)
    requires PartTies(c, a) && PartTies(c, b)
    ensures PartTies(a, b) && PartTies(b, a)
  {
    PartLaws(a, c, b);
    PartLaws(c, a, b);
    PartLaws(a, b, c);
  }

  lemma TiesAlike(a: string, b: string, c: string)
    requires PartTies(c, a) && !PartTies(c, b)
    ensures !PartTies(a, b) && !PartTies(b, a)
    ensures PartLess(a, b) == PartLess(c, b) && PartLess(b, a) == PartLess(b, c)
  {
    PartLaws(c, a, b);
    PartLaws(a, b, c);
    PartLaws(b, a, c);
  }

  lemma BothRepeat(cycle: seq<string>, p: seq<string>, rest: seq<string>, other: seq<string>, i: nat)
    requires cycle != [] && i < |cycle| + |p| && i < FirstOff(cycle, p + other)
    ensures var moved, list := cycle + (p + rest), p + other;
            PartTies(moved[i], list[i]) && PartTies(list[i], moved[i])
  {
    RepeatsCycle(cycle, p, rest, other, i);
    TiesBeforeOff(cycle, p + other, i);
    TiesBothWays((cycle + (p + rest))[i], (p + other)[i], Cyclic(cycle, i));
  }

  lemma FollowsUpTo(cycle: seq<string>, p: seq<string>, rest: seq<string>, other: seq<string>, k: nat)
    requires cycle != [] && k <= |cycle| + |p| && k <= FirstOff(cycle, p + other)
    ensures var moved, list := cycle + (p + rest), p + other;
            && PartsLess(moved, list) == PartsLess(moved[k..], list[k..])
            && PartsLess(list, moved) == PartsLess(list[k..], moved[k..])
  {
    var moved, list := cycle + (p + rest), p + other;
    forall m | 0 <= m < k ensures PartTies(moved[m], list[m]) && PartTies(list[m], moved[m]) {
      BothRepeat(cycle, p, rest, other, m);
    }
    DecidedAt(moved, list, k);
    DecidedAt(list, moved, k);
  }

  /** Where the list leaves the cycle decides how it compares with itself, moved back. */
  lemma LeavingDecides(cycle: seq<string>, p: seq<string>, rest: seq<string>, other: seq<string>, i: nat)
    requires cycle != [] && i == FirstOff(cycle, p + other) < |p + other| && i < |cycle| + |p|
    ensures var moved, list := cycle + (p + rest), p + other;
            && (PartsLess(moved, list) <==> PartLess(Cyclic(cycle, i), list[i]))
            && (PartsLess(list, moved) <==> PartLess(list[i], Cyclic(cycle, i)))
  {
    var moved, list := cycle + (p + rest), p + other;
    FollowsUpTo(cycle, p, rest, other, i);
    RepeatsCycle(cycle, p, rest, other, i);
    TiesBeforeOff(cycle, list, i);
    TiesAlike(moved[i], list[i], Cyclic(cycle, i));
    HeadsDecide(moved[i..], list[i..]);
    HeadsDecide(list[i..], moved[i..]);
  }

  lemma OneRunsOut(a: seq<string>, b: seq<string>, k: nat)
    requires k <= |a| && k <= |b| && (k == |a| || k == |b|)
    ensures PartsLess(a[k..], b[k..]) <==> |a| < |b|
  {
  }

  /** If it does not leave the cycle before one of the two ends, their lengths decide. */
  lemma LengthsDecide(cycle: seq<string>, p: seq<string>, rest: seq<string>, other: seq<string>, k: nat)
    requires cycle != [] && k <= |cycle| + |p| && k <= FirstOff(cycle, p + other)
    requires k == |cycle + (p + rest)| || k == |p + other|
    ensures var moved, list := cycle + (p + rest), p + other;
            && (PartsLess(moved, list) <==> |moved| < |list|)
            && (PartsLess(list, moved) <==> |list| < |moved|)
  {
    var moved, list := cycle + (p + rest), p + other;
    FollowsUpTo(cycle, p, rest, other, k);
    OneRunsOut(moved, list, k);
    OneRunsOut(list, moved, k);
  }

  /** A pre-release behind zeros is moved down unless it leaves them below. */
  lemma BehindZeros(parts: seq<string>, zeros: seq<string>, rest: seq<string>)
    requires zeros != []
    ensures PartsLess(parts, zeros + (parts + rest)) <==> LeavesBelow(parts, zeros)
    ensures PartsLess(zeros + (parts + rest), parts) <==> !LeavesBelow(parts, zeros)
  {
    var i := FirstOff(zeros, parts);
    assert parts + [] == parts;
    if i == |parts| {
      LengthsDecide(zeros, parts, rest, [], i);
    } else {
      LeavingDecides(zeros, parts, rest, [], i);
      TiesBeforeOff(zeros, parts, i);
      PartLaws(parts[i], Cyclic(zeros, i), "");
    }
  }

  lemma GrownEnd(preRelease: string)
    ensures var n, grown := |Parts(preRelease)|, Grown(preRelease);
            && |grown| <= n + 2
            && (|grown| == n + 2 ==> grown[n] == "" && grown[n + 1] == "0")
  {
  }

  /** Only behind one empty piece can it grow to more parts than there were, and then it leaves. */
  lemma GrownExceeds(extra: seq<string>, grown: seq<string>, n: nat)
    requires |extra| == 1 && |grown| == n + 2 && grown[n] == "" && grown[n + 1] == "0"
    ensures var i := FirstOff(extra, grown);
            i <= n + 1 && (i == n + 1 ==> PartLess(Cyclic(extra, i), grown[i]))
  {
    OneCycle(extra, n);
    OneCycle(extra, n + 1);
    if FirstOff(extra, grown) > n {
      TiesBeforeOff(extra, grown, n);
      EmptyBelowZero(extra[0]);
      TiesBeforeOff(extra, grown, n + 1);
    }
  }

  lemma EmptyBelowZero(p: string)
    ensures PartTies(p, "") ==> p == "" && !PartTies(p, "0") && PartLess(p, "0")
  {
  }

  lemma {:induction false} OneCycle(cycle: seq<string>, i: nat)
    requires |cycle| == 1
    ensures Cyclic(cycle, i) == cycle[0]
  {
    if i > 0 {
      OneCycle(cycle, i - 1);
    }
  }

  /** Pieces beyond the third are dropped, so what the pre-release grows to moves forward. */
  lemma BeyondThird(extra: seq<string>, preRelease: string)
    requires extra != []
    ensures PartsLess(extra + Parts(preRelease), Grown(preRelease)) <==> LeavesAbove(Grown(preRelease), extra)
    ensures PartsLess(Grown(preRelease), extra + Parts(preRelease)) <==>
            !LeavesAbove(Grown(preRelease), extra) && !Repeats(extra, Grown(preRelease), |extra| + |Parts(preRelease)|)
  {
    var p, grown := Parts(preRelease), Grown(preRelease);
    var rest := GrownExtendsParts(preRelease);
    var i := FirstOff(extra, grown);
    assert p + [] == p;
    GrownEnd(preRelease);
    if |grown| > |extra| + |p| {
      GrownExceeds(extra, grown, |p|);
    }
    if i == |grown| {
      LengthsDecide(extra, p, [], rest, i);
    } else if i == |extra| + |p| {
      LengthsDecide(extra, p, [], rest, i);
    } else {
      LeavingDecides(extra, p, [], rest, i);
      TiesBeforeOff(extra, grown, i);
      PartLaws(Cyclic(extra, i), grown[i], "");
    }
  }

  /** The numerals read from fewer than three pieces tie with those, and end in zeros. */
  lemma NumeralsOfPieces(pieces: seq<string>, rest: seq<string>)
    requires 0 < |pieces| < 3 && DigitsFirst(pieces)
    ensures var u, k := Numerals(NumbersRead(pieces)) + rest, |pieces|;
            && u[k..] == Missing(pieces) + rest
            && forall i | 0 <= i < k :: PartTies(pieces[i], u[i]) && PartTies(u[i], pieces[i])
  {
    var t := NumbersRead(pieces);
    assert Dec(0) == "0";
    NumOfDec(t.major);
    NumOfDec(t.minor);
  }

  lemma FrontsTie(front: seq<string>, a: seq<string>, b: seq<string>)
    requires |front| <= |b|
    requires forall i | 0 <= i < |front| :: PartTies(front[i], b[i]) && PartTies(b[i], front[i])
    ensures PartsLess(front + a, b) == PartsLess(a, b[|front|..])
    ensures PartsLess(b, front + a) == PartsLess(b[|front|..], a)
  {
    var whole, k := front + a, |front|;
    assert forall i | 0 <= i < k :: whole[i] == front[i];
    DecidedAt(whole, b, k);
    DecidedAt(b, whole, k);
    assert whole[k..] == a;
  }

  lemma PartialDecides(d: seq<string>, parts: seq<string>, rest: seq<string>)
    requires 0 < |d| < 3 && DigitsFirst(d)
    ensures var bumped, below := Numerals(NumbersRead(d)) + (parts + rest), LeavesBelow(parts, Missing(d));
            (PartsLess(d + parts, bumped) <==> below) && (PartsLess(bumped, d + parts) <==> !below)
  {
    NumeralsOfPieces(d, parts + rest);
    FrontsTie(d, parts, Numerals(NumbersRead(d)) + (parts + rest));
    BehindZeros(parts, Missing(d), rest);
  }

  lemma PartsOfLabelledPieces(version: string)
    requires LabelPart(version) != ""
    ensures Parts(version) == Pieces(version) + Parts(LabelPart(version))
  {
    PartsByDash(version);
  }

  lemma SemLessByParts(a: string, p: seq<string>, b: string, q: seq<string>)
    requires Parts(a) == p && Parts(b) == q
    ensures SemLess(a, b) == PartsLess(p, q) && SemLess(b, a) == PartsLess(q, p)
  {
  }

  lemma LabelledBehindFew(version: string, t: Triple, s: string)
    requires DigitsFirst(Pieces(version)) && |Pieces(version)| < 3 && LabelPart(version) != ""
    requires t == NumbersRead(Pieces(version)) && s == Labelled(Rel(t), LabelPart(version))
    ensures var below := LeavesBelow(Parts(LabelPart(version)), Missing(Pieces(version)));
            (SemLess(version, s) <==> below) && (SemLess(s, version) <==> !below)
  {
    var d, parts := Pieces(version), Parts(LabelPart(version));
    var rest := GrownExtendsParts(LabelPart(version));
    PartsOfLabelledPieces(version);
    PartsOfLabelled(t, LabelPart(version));
    SemLessByParts(version, d + parts, s, Numerals(t) + (parts + rest));
    PartialDecides(d, parts, rest);
  }

  /** Behind three pieces or more, what follows the third decides. */
  lemma LabelledBehindThree(version: string, t: Triple, s: string)
    requires DigitsFirst(Pieces(version)) && |Pieces(version)| >= 3 && LabelPart(version) != ""
    requires t == NumbersRead(Pieces(version)) && s == Labelled(Rel(t), LabelPart(version))
    ensures var a, b := Pieces(version)[3..] + Parts(LabelPart(version)), Grown(LabelPart(version));
            (SemLess(version, s) <==> PartsLess(a, b)) && (SemLess(s, version) <==> PartsLess(b, a))
  {
    var d, parts, grown := Pieces(version), Parts(LabelPart(version)), Grown(LabelPart(version));
    PartsOfLabelledPieces(version);
    PartsOfLabelled(t, LabelPart(version));
    SemLessByParts(version, d + parts, s, Numerals(t) + grown);
    StartsWithPieces(d, parts, grown);
    CoreDecides(d + parts, t, Numerals(t) + grown, t);
    CoreDecides(Numerals(t) + grown, t, d + parts, t);
  }

  /** Behind fewer than three numbers, the missing ones become zeros, and the text goes up exactly
      when the first part of the pre-release that is not zero, if any, is below; otherwise it goes down. */
  lemma BumpOfPartialPreRelease(version: string, s: string)
    requires DigitsFirst(Pieces(version)) && |Pieces(version)| < 3 && LabelPart(version) != ""
    requires Bump(version) == Returns(Some(s))
    ensures var below := LeavesBelow(Parts(LabelPart(version)), Missing(Pieces(version)));
            (SemLess(version, s) <==> below) && (SemLess(s, version) <==> !below)
  {
    BumpText(version, s);
    LabelledBehindFew(version, NumbersRead(Pieces(version)), s);
  }

  lemma LabelledIsAboveExactly(version: string, t: Triple, s: string)
    requires DigitsFirst(Pieces(version)) && LabelPart(version) != ""
    requires t == NumbersRead(Pieces(version)) && s == Labelled(Rel(t), LabelPart(version))
    ensures SemLess(version, s) <==> Bumpable(version)
    ensures SemLess(s, version) <==> !Bumpable(version) && !Stalling(version)
  {
    var d, preRelease := Pieces(version), LabelPart(version);
    if |d| < 3 {
      LabelledBehindFew(version, t, s);
    } else {
      LabelledBehindThree(version, t, s);
      if |d| == 3 {
        LabelGrows(preRelease);
        PartsLessOneWay(Parts(preRelease), Grown(preRelease));
        assert d[3..] + Parts(preRelease) == Parts(preRelease);
      } else {
        BeyondThird(d[3..], preRelease);
      }
    }
  }

  lemma NextPatchIsAboveExactly(version: string, t: Triple, s: string)
    requires DigitsFirst(Pieces(version)) && LabelPart(version) == ""
    requires t == NumbersRead(Pieces(version)) && s == Rel(t.(patch := t.patch + 1))
    ensures SemLess(version, s) <==> Bumpable(version)
    ensures SemLess(s, version) <==> !Bumpable(version) && !Stalling(version)
  {
    NextPatchIsAbove(version, t);
    PartsLessOneWay(Parts(version), Parts(s));
  }

  // ----- Numbers behind white space or a plus sign

  lemma MarkedIsLow(p: string)
    requires DigitLed(Unmarked(p)) && !DigitLed(p)
    ensures p != "" && Zone(p) == -1
  {
    var front := TrimFrontParts(p);
    if front == "" {
      assert p == TrimFront(p);
    } else {
      assert p[0] == front[0];
    }
  }

  /** Parts up to a piece that is not empty are the pieces. */
  lemma PartsUpTo(version: string, m: nat)
    requires m < |Pieces(version)| && Pieces(version)[m] != ""
    ensures m < |Parts(version)| && Parts(version)[..m + 1] == Pieces(version)[..m + 1]
  {
    PartsByDash(version);
  }

  lemma LowerAt(a: seq<string>, b: seq<string>, m: nat)
    requires m < |a| && m < |b| && TiesUpTo(a, b, m) && Zone(a[m]) < Zone(b[m])
    ensures PartsLess(a, b) && !PartsLess(b, a)
  {
    DecidedAt(a, b, m);
    ZoneDecides(a[m], b[m]);
    PartsLessOneWay(a, b);
  }

  /** The first piece that is read but does not start with a digit. */
  function FirstMarked(d: seq<string>): (m: nat)
    requires NumbersFirst(d) && !DigitsFirst(d)
    ensures m < |d| && m < 3 && DigitLed(Unmarked(d[m])) && !DigitLed(d[m])
    ensures (m > 0 ==> DigitLed(d[0])) && (m > 1 ==> DigitLed(d[1]))
  {
    if !DigitLed(d[0]) then 0 else if !DigitLed(d[1]) then 1 else 2
  }

  lemma SameInFront(p: seq<string>, d: seq<string>, m: nat, i: nat)
    requires i <= m < |p| && m < |d| && p[..m + 1] == d[..m + 1]
    ensures p[i] == d[i]
  {
    assert p[i] == p[..m + 1][i] && d[i] == d[..m + 1][i];
  }

  /** Such a piece is below every numeral, so whatever follows decides nothing. */
  lemma MarkedIsBelow(p: seq<string>, d: seq<string>, u: seq<string>, m: nat)
    requires NumbersFirst(d) && !DigitsFirst(d) && m == FirstMarked(d)
    requires m < |p| && p[..m + 1] == d[..m + 1] && |u| >= 3
    requires DigitLed(u[0]) && DigitLed(u[1]) && DigitLed(u[2])
    requires Num(u[0]) == PieceNumber(d, 0) && Num(u[1]) == PieceNumber(d, 1)
    ensures PartsLess(p, u) && !PartsLess(u, p)
  {
    MarkedIsLow(d[m]);
    SameInFront(p, d, m, m);
    if m > 0 {
      SameInFront(p, d, m, 0);
    }
    if m > 1 {
      SameInFront(p, d, m, 1);
    }
    LowerAt(p, u, m);
  }

  lemma MarkedIsAbove(version: string, u: seq<string>, s: string)
    requires NumbersFirst(Pieces(version)) && !DigitsFirst(Pieces(version)) && Parts(s) == u && |u| >= 3
    requires DigitLed(u[0]) && DigitLed(u[1]) && DigitLed(u[2])
    requires Num(u[0]) == PieceNumber(Pieces(version), 0) && Num(u[1]) == PieceNumber(Pieces(version), 1)
    ensures SemLess(version, s) && !SemLess(s, version)
  {
    var d := Pieces(version);
    var m := FirstMarked(d);
    PartsUpTo(version, m);
    MarkedIsBelow(Parts(version), d, u, m);
    SemLessByParts(version, Parts(version), s, u);
  }

  lemma NumeralsLead(t: Triple, rest: seq<string>)
    ensures var u := Numerals(t) + rest;
            && DigitLed(u[0]) && Num(u[0]) == t.major
            && DigitLed(u[1]) && Num(u[1]) == t.minor
            && DigitLed(u[2]) && Num(u[2]) == t.patch
  {
    NumOfDec(t.major);
    NumOfDec(t.minor);
    NumOfDec(t.patch);
  }

  lemma MarkedBump(version: string, t: Triple, s: string)
    requires NumbersFirst(Pieces(version)) && !DigitsFirst(Pieces(version)) && t == NumbersRead(Pieces(version))
    requires LabelPart(version) == "" ==> s == Rel(t.(patch := t.patch + 1))
    requires LabelPart(version) != "" ==> s == Labelled(Rel(t), LabelPart(version))
    ensures SemLess(version, s) && !SemLess(s, version)
  {
    if LabelPart(version) == "" {
      var next := t.(patch := t.patch + 1);
      PartsOfRel(next);
      NumeralsLead(next, []);
      assert Numerals(next) + [] == Numerals(next);
      MarkedIsAbove(version, Numerals(next), s);
    } else {
      PartsOfLabelled(t, LabelPart(version));
      NumeralsLead(t, Grown(LabelPart(version)));
      MarkedIsAbove(version, Numerals(t) + Grown(LabelPart(version)), s);
    }
  }

  /** What `incrementVersion` makes of any version is above it exactly when the version is bumpable;
      otherwise it is below, but for one family of ties. */
  lemma BumpIsAboveExactly(version: string, s: string)
    requires Bump(version) == Returns(Some(s))
    ensures SemLess(version, s) <==> Bumpable(version)
    ensures SemLess(s, version) <==> !Bumpable(version) && !Stalling(version)
  {
    var t := NumbersRead(Pieces(version));
    BumpText(version, s);
    if !DigitsFirst(Pieces(version)) {
      MarkedBump(version, t, s);
    } else if LabelPart(version) == "" {
      NextPatchIsAboveExactly(version, t, s);
    } else {
      LabelledIsAboveExactly(version, t, s);
    }
  }

  // ----- Versions that fall

  lemma PiecesOfOneA()
    ensures Pieces("1-a") == ["1"] && LabelPart("1-a") == "a"
  {
    FindIs("1-a", {'-'}, 1);
    assert NumberPart("1-a") == "1";
    OneField("1", DOT);
  }

  lemma LetterIsNotBelow()
    ensures Parts("a") == ["a"] && !LeavesBelow(["a"], ["0", "0"])
  {
    OnePart("a");
    assert !PartTies("0", "a");
    FirstOffIs(["0", "0"], ["a"], 0);
  }

  lemma TextOfOneA()
    ensures BumpedText(Triple(1, 0, 0), "a") == "1.0.0-a.0"
  {
    assert Dec(1) == "1" && Dec(0) == "0";
  }

  /** For example, `1-a` becomes `1.0.0-a.0`, which is below it. */
  lemma BumpMayFall()
    ensures Bump("1-a") == Returns(Some("1.0.0-a.0")) && SemLess("1.0.0-a.0", "1-a")
  {
    PiecesOfOneA();
    ReadDigit("1");
    TextOfOneA();
    BumpOutcome("1-a");
    LetterIsNotBelow();
    BumpOfPartialPreRelease("1-a", "1.0.0-a.0");
  }

  lemma ReadDigit(p: string)
    requires |p| == 1 && IsDigit(p[0])
    ensures DigitLed(p) && Num(p) == DigitValue(p[0])
  {
    NumOfDigits(p);
    assert p[..0] == "";
  }

  function FourNumbers(t: Triple, n: nat, p: nat): string {
    Rel(t) + ("." + Dec(n)) + ("-" + Dec(p))
  }

  lemma CutAtDash(front: string, preRelease: string)
    requires '-' !in front
    ensures NumberPart(front + ("-" + preRelease)) == front && LabelPart(front + ("-" + preRelease)) == preRelease
  {
    CutAt(front + ("-" + preRelease), '-', front, preRelease);
  }

  lemma DotPartsOfFour(t: Triple, n: nat)
    ensures DotParts(Rel(t) + ("." + Dec(n))) == Numerals(t) + [Dec(n)]
  {
    FieldsJoin(Rel(t), '.', Dec(n), DOT);
    DotPartsOfRel(t);
    OneField(Dec(n), DOT);
  }

  lemma PiecesOfFour(t: Triple, n: nat, p: nat)
    ensures Pieces(FourNumbers(t, n, p)) == Numerals(t) + [Dec(n)] && LabelPart(FourNumbers(t, n, p)) == Dec(p)
  {
    NoDashInRel(t);
    NoDotInDigits(Dec(n));
    CutAtDash(Rel(t) + ("." + Dec(n)), Dec(p));
    DotPartsOfFour(t, n);
  }

  lemma NumbersOfNumerals(t: Triple, rest: seq<string>)
    ensures DigitsFirst(Numerals(t) + rest) && NumbersRead(Numerals(t) + rest) == t
    ensures (Numerals(t) + rest)[3..] == rest
  {
    NumOfDec(t.major);
    NumOfDec(t.minor);
    NumOfDec(t.patch);
  }

  lemma LeavesNumber(n: nat, p: nat)
    ensures LeavesAbove([Dec(p), "0"], [Dec(n)]) <==> n < p
    ensures Repeats([Dec(n)], [Dec(p), "0"], 2) <==> n == p == 0
  {
    var parts := [Dec(p), "0"];
    assert Dec(0) == "0";
    NumOfDec(n);
    NumOfDec(p);
    NumOfDec(0);
    OneCycle([Dec(n)], 0);
    OneCycle([Dec(n)], 1);
    FirstOffIs([Dec(n)], parts, if n != p then 0 else if n != 0 then 1 else 2);
  }

  lemma GrownNumber(p: nat)
    ensures Grown(Dec(p)) == [Dec(p), "0"] && |Parts(Dec(p))| == 1
  {
    OneField(Dec(p), SEPARATORS);
  }

  lemma FourNumbersClimb(version: string, t: Triple, n: nat, p: nat)
    requires Pieces(version) == Numerals(t) + [Dec(n)] && LabelPart(version) == Dec(p)
    ensures DigitsFirst(Pieces(version)) && NumbersRead(Pieces(version)) == t
    ensures Bumpable(version) <==> n < p
    ensures Stalling(version) <==> n == p == 0
  {
    NumbersOfNumerals(t, [Dec(n)]);
    GrownNumber(p);
    LeavesNumber(n, p);
  }

  lemma FourNumbersBump(version: string, t: Triple, preRelease: string)
    requires DigitsFirst(Pieces(version)) && NumbersRead(Pieces(version)) == t && Below(t, INT_MAX + 1)
    requires LabelPart(version) == preRelease != ""
    ensures Bump(version) == Returns(Some(Labelled(Rel(t), preRelease)))
  {
    BumpOutcome(version);
  }

  /** A fourth number `n` before a pre-release number `p` is lost, so the version goes up only for
      `n < p`: `1.2.3.4-4` becomes `1.2.3-4.0`, which is below it. */
  lemma BumpOfFourNumbers(t: Triple, n: nat, p: nat, version: string, s: string)
    requires Below(t, INT_MAX + 1) && version == FourNumbers(t, n, p) && s == Labelled(Rel(t), Dec(p))
    ensures Bump(version) == Returns(Some(s))
    ensures SemLess(version, s) <==> n < p
    ensures SemLess(s, version) <==> p < n || n == p > 0
  {
    PiecesOfFour(t, n, p);
    FourNumbersClimb(version, t, n, p);
    FourNumbersBump(version, t, Dec(p));
    LabelledIsAboveExactly(version, t, s);
  }

  /** On a release, it is the next one: no other release lies in between. */
  lemma BumpOfRelease(t: Triple, u: Triple)
    requires t.major <= INT_MAX && t.minor <= INT_MAX && t.patch < INT_MAX
    ensures Bump(Rel(t)) == Returns(Some(Rel(t.(patch := t.patch + 1))))
    ensures SemLess(Rel(t), Rel(u)) ==> !SemLess(Rel(u), Rel(t.(patch := t.patch + 1)))
  {
    SemLessOnReleases(t, u);
    SemLessOnReleases(u, t.(patch := t.patch + 1));
    NoDashInRel(t);
    AllOf(Rel(t), '-', Rel(t));
    DotPartsOfRel(t);
    StoiOfDec(t.major);
    StoiOfDec(t.minor);
    StoiOfDec(t.patch);
  }

  lemma NoDashInRel(t: Triple)
    ensures '-' !in Rel(t)
  {
  }
}
