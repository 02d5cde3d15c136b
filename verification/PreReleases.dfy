/** Pre-releases made of identifiers: what `compareSemVer` and `<=>` make of them, and where each of
    the two keeps item 11 of Semantic Versioning 2.0.0. */
module PreReleases {
  import opened Text
  import opened Decimal
  import opened Versions
  import opened Precedence
  import opened Releases
  import opened Item11
  import opened FieldSplitting
  import opened PartOrder
  import opened Agreement

  /** A number without leading zeros, or an identifier that starts with a letter; no hyphens. */
  predicate Ordinary(id: string) {
    Plain(id) && (DigitLed(id) ==> AllDigits(id))
  }

  predicate AllOrdinary(ids: seq<string>) {
    forall i | 0 <= i < |ids| :: Ordinary(ids[i])
  }

  // ----- The parts of a pre-release are its identifiers, cut at hyphens

  /** The pieces between hyphens of all identifiers. */
  function HyphenPieces(ids: seq<string>): (pieces: seq<string>)
    ensures ids != [] ==> pieces != []
  {
    if ids == [] then [] else Fields(ids[0], SEPARATORS) + HyphenPieces(ids[1..])
  }

  lemma JoinMore(ids: seq<string>)
    requires |ids| > 1
    ensures Join(ids) == ids[0] + ("." + Join(ids[1..]))
  {
  }

  /** Splitting undoes joining, and cuts at hyphens. */
  lemma {:induction false} FieldsOfJoin(ids: seq<string>)
    requires ids != []
    ensures Fields(Join(ids), SEPARATORS) == HyphenPieces(ids)
  {
    if |ids| == 1 {
      assert Join(ids) == ids[0] && HyphenPieces(ids[1..]) == [];
    } else {
      JoinMore(ids);
      FieldsJoin(ids[0], '.', Join(ids[1..]), SEPARATORS);
      FieldsOfJoin(ids[1..]);
    }
  }

  lemma {:induction false} PiecesOfPlain(ids: seq<string>)
    requires AllPlain(ids)
    ensures HyphenPieces(ids) == ids
  {
    if ids != [] {
      assert Plain(ids[0]);
      OneField(ids[0], SEPARATORS);
      PiecesOfPlain(ids[1..]);
    }
  }

  lemma LastIsPlain(ids: seq<string>)
    requires ids != [] && AllPlain(ids)
    ensures ids[|ids| - 1] != ""
  {
    assert Plain(ids[|ids| - 1]);
  }

  /** Without hyphens, splitting gives back the identifiers. */
  lemma PartsOfJoin(ids: seq<string>)
    requires ids != [] && AllPlain(ids)
    ensures Parts(Join(ids)) == ids
  {
    FieldsOfJoin(ids);
    PiecesOfPlain(ids);
    LastIsPlain(ids);
  }

  // ----- The order of two lists of parts

  function ByParts(a: seq<string>, b: seq<string>): Ordering {
    if PartsLess(a, b) then Less else if PartsLess(b, a) then Greater else Equal
  }

  function ByPart(p: string, q: string): Ordering {
    if PartLess(p, q) then Less else Greater
  }

  lemma ByPartsIs(a: seq<string>, b: seq<string>)
    ensures PartsLess(a, b) <==> ByParts(a, b) == Less
    ensures PartsLess(b, a) <==> ByParts(a, b) == Greater
  {
    PartsLessOneWay(a, b);
  }

  lemma ByPartsBehind(front: seq<string>, a: seq<string>, b: seq<string>)
    ensures ByParts(front + a, front + b) == ByParts(a, b)
  {
    SameFront(front, a, b);
    SameFront(front, b, a);
  }

  lemma TiesReversed(a: seq<string>, b: seq<string>, k: nat)
    requires k <= |a| && k <= |b| && TiesUpTo(a, b, k)
    ensures TiesUpTo(b, a, k)
  {
    forall i | 0 <= i < k ensures PartTies(b[i], a[i]) {
      PartLaws(a[i], b[i], "");
    }
  }

  lemma ByPartsAt(a: seq<string>, b: seq<string>, k: nat)
    requires k <= |a| && k <= |b| && TiesUpTo(a, b, k)
    ensures ByParts(a, b) == ByParts(a[k..], b[k..])
  {
    TiesReversed(a, b, k);
    DecidedAt(a, b, k);
    DecidedAt(b, a, k);
  }

  lemma ByHeads(a: seq<string>, b: seq<string>)
    requires a != [] && b != [] && !PartTies(a[0], b[0])
    ensures ByParts(a, b) == ByPart(a[0], b[0])
  {
    PartLaws(a[0], b[0], "");
    HeadsDecide(a, b);
    HeadsDecide(b, a);
  }

  lemma EndIsLess(b: seq<string>)
    ensures ByParts([], b) == if b == [] then Equal else Less
    ensures ByParts(b, []) == if b == [] then Equal else Greater
  {
  }

  /** What is left of two lists of fields, without empty last ones, is decided where the fields are. */
  lemma TrimmedDecided(f: seq<string>, g: seq<string>, k: nat)
    requires k < |f| && k < |g| && TiesUpTo(f, g, k) && !PartTies(f[k], g[k])
    ensures ByParts(WithoutEmptyEnd(f), WithoutEmptyEnd(g)) == ByPart(f[k], g[k])
  {
    var a, b := WithoutEmptyEnd(f), WithoutEmptyEnd(g);
    TrimmedFront(f, k);
    TrimmedFront(g, k);
    TrimmedTies(f, g, k);
    ByPartsAt(a, b, k);
    EmptyIsLess(f[k], g[k]);
    if k == |a| {
      EndIsLess(b[k..]);
    } else if k == |b| {
      EndIsLess(a[k..]);
    } else {
      ByHeads(a[k..], b[k..]);
    }
  }

  lemma TrimmedFront(f: seq<string>, k: nat)
    requires k < |f|
    ensures var a := WithoutEmptyEnd(f);
            && k <= |a| && a[..k] == f[..k]
            && (if k < |a| then a[k] == f[k] else f[k] == "" && k + 1 == |f|)
  {
  }

  lemma TrimmedTies(f: seq<string>, g: seq<string>, k: nat)
    requires k < |f| && k < |g| && TiesUpTo(f, g, k)
    requires k <= |WithoutEmptyEnd(f)| && k <= |WithoutEmptyEnd(g)|
    ensures TiesUpTo(WithoutEmptyEnd(f), WithoutEmptyEnd(g), k)
  {
  }

  lemma EmptyIsLess(p: string, q: string)
    requires !PartTies(p, q)
    ensures p == "" ==> q != "" && ByPart(p, q) == Less
    ensures q == "" ==> p != "" && ByPart(p, q) == Greater
  {
  }

  /** On joined identifiers, `compareSemVer` compares their pieces, but for an empty last one. */
  function TrimmedPieces(ids: seq<string>): seq<string>
    requires ids != []
  {
    WithoutEmptyEnd(HyphenPieces(ids))
  }

  function BySem(ps: seq<string>, qs: seq<string>): Ordering
    requires ps != [] && qs != []
  {
    ByParts(TrimmedPieces(ps), TrimmedPieces(qs))
  }

  lemma SemLessByPieces(ps: seq<string>, qs: seq<string>)
    requires ps != [] && qs != []
    ensures SemLess(Join(ps), Join(qs)) <==> BySem(ps, qs) == Less
    ensures SemLess(Join(qs), Join(ps)) <==> BySem(ps, qs) == Greater
  {
    FieldsOfJoin(ps);
    FieldsOfJoin(qs);
    ByPartsIs(TrimmedPieces(ps), TrimmedPieces(qs));
  }

  // ----- Equal identifiers in front do not matter

  lemma {:induction false} PiecesCut(ids: seq<string>, k: nat)
    requires k <= |ids|
    ensures HyphenPieces(ids) == HyphenPieces(ids[..k]) + HyphenPieces(ids[k..])
  {
    if k == 0 {
      assert ids[0..] == ids && ids[..0] == [];
    } else {
      PiecesCut(ids[1..], k - 1);
      assert ids[1..][..k - 1] == ids[..k][1..] && ids[1..][k - 1..] == ids[k..];
      AssociateThree(Fields(ids[0], SEPARATORS), HyphenPieces(ids[..k][1..]), HyphenPieces(ids[k..]));
    }
  }

  lemma AssociateThree(a: seq<string>, b: seq<string>, c: seq<string>)
    ensures a + (b + c) == (a + b) + c
  {
  }

  lemma {:induction false} SharedFront(ps: seq<string>, qs: seq<string>)
    ensures ps[..Shared(ps, qs)] == qs[..Shared(ps, qs)]
  {
    if ps != [] && qs != [] && ps[0] == qs[0] {
      SharedFront(ps[1..], qs[1..]);
      var k := Shared(ps[1..], qs[1..]);
      assert ps[..k + 1] == [ps[0]] + ps[1..][..k] && qs[..k + 1] == [qs[0]] + qs[1..][..k];
    }
  }

  lemma TrimmedCut(ids: seq<string>, k: nat)
    requires k < |ids|
    ensures TrimmedPieces(ids) == HyphenPieces(ids[..k]) + TrimmedPieces(ids[k..])
  {
    PiecesCut(ids, k);
    KeepFront(HyphenPieces(ids[..k]), HyphenPieces(ids[k..]));
  }

  lemma PiecesGoOn(ids: seq<string>)
    requires ids != [] && ids[0] != ""
    ensures TrimmedPieces(ids) != []
  {
    if HyphenPieces(ids) == [""] {
      assert Fields(ids[0], SEPARATORS) == [""];
      NotOneEmptyField(ids[0], SEPARATORS);
    }
  }

  /** One list goes on where the other ends. */
  lemma LongerIsGreater(f: seq<string>, more: seq<string>)
    requires f != [] && more != []
    ensures ByParts(WithoutEmptyEnd(f), f + more) == Less && ByParts(f + more, WithoutEmptyEnd(f)) == Greater
  {
    var a := WithoutEmptyEnd(f);
    assert f + more == a + (f[|a|..] + more);
    FrontIsLess(a, f[|a|..] + more);
    ByPartsIs(a, f + more);
    ByPartsIs(f + more, a);
  }

  /** The first identifiers that differ, and what follows them, decide. */
  lemma BySemFromShared(ps: seq<string>, qs: seq<string>)
    requires ps != [] && qs != [] && AllStandard(ps) && AllStandard(qs)
    ensures var k := Shared(ps, qs);
            BySem(ps, qs) == if k < |ps| && k < |qs| then BySem(ps[k..], qs[k..]) else ByValue(|ps|, |qs|)
  {
    var k := Shared(ps, qs);
    SharedFront(ps, qs);
    if k < |ps| && k < |qs| {
      TrimmedCut(ps, k);
      TrimmedCut(qs, k);
      ByPartsBehind(HyphenPieces(ps[..k]), TrimmedPieces(ps[k..]), TrimmedPieces(qs[k..]));
    } else if |ps| < |qs| {
      assert ps[..k] == ps;
      TrimmedCut(qs, k);
      PiecesGoOn(qs[k..]);
      LongerIsGreater(HyphenPieces(ps), TrimmedPieces(qs[k..]));
    } else if |ps| > |qs| {
      assert qs[..k] == qs;
      TrimmedCut(ps, k);
      PiecesGoOn(ps[k..]);
      LongerIsGreater(HyphenPieces(qs), TrimmedPieces(ps[k..]));
    } else {
      assert ps == ps[..k] == qs[..k] == qs;
      PartsLessOneWay(TrimmedPieces(ps), TrimmedPieces(ps));
    }
  }

  // ----- Where the first identifiers that differ decide as they should

  function TiesBetween(a: seq<string>, b: seq<string>): (ties: seq<bool>)
    ensures |ties| <= |a| && |ties| <= |b| && (|ties| == |a| || |ties| == |b|)
    ensures forall i | 0 <= i < |ties| :: ties[i] == PartTies(a[i], b[i])
  {
    seq(if |a| <= |b| then |a| else |b|, i requires 0 <= i < |a| && i < |b| => PartTies(a[i], b[i]))
  }

  /** How many parts tie at the front. */
  function Tied(a: seq<string>, b: seq<string>): (k: nat)
    ensures k <= |a| && k <= |b|
  {
    FirstFalse(TiesBetween(a, b))
  }

  lemma TiedTie(a: seq<string>, b: seq<string>, i: nat)
    requires i <= Tied(a, b) && i < |a| && i < |b|
    ensures PartTies(a[i], b[i]) <==> i < Tied(a, b)
  {
    assert TiesBetween(a, b)[i] == PartTies(a[i], b[i]);
  }

  lemma TiesInFront(p: seq<string>, q: seq<string>, f: seq<string>, g: seq<string>)
    ensures TiesUpTo(p + f, q + g, Tied(p, q))
  {
    forall i | 0 <= i < Tied(p, q) ensures PartTies((p + f)[i], (q + g)[i]) {
      TiedTie(p, q, i);
    }
  }

  /** Among the pieces of the first two identifiers, the first that do not tie order them as `due`;
      only when all tie that both have does what follows have a say. */
  predicate PiecesDecide(ps: seq<string>, qs: seq<string>, due: Ordering)
    requires ps != [] && qs != []
  {
    var p, q := Fields(ps[0], SEPARATORS), Fields(qs[0], SEPARATORS);
    var k := Tied(p, q);
    if k < |p| && k < |q| then due == ByPart(p[k], q[k])
    else due == BySem(ps, qs)
  }

  lemma PiecesDecideExactly(ps: seq<string>, qs: seq<string>, due: Ordering)
    requires ps != [] && qs != []
    ensures PiecesDecide(ps, qs, due) <==> BySem(ps, qs) == due
  {
    var p, q := Fields(ps[0], SEPARATORS), Fields(qs[0], SEPARATORS);
    var k := Tied(p, q);
    if k < |p| && k < |q| {
      TiesInFront(p, q, HyphenPieces(ps[1..]), HyphenPieces(qs[1..]));
      TiedTie(p, q, k);
      TrimmedDecided(p + HyphenPieces(ps[1..]), q + HyphenPieces(qs[1..]), k);
    }
  }

  /** `compareSemVer` keeps item 11.4 unless the pieces of the first identifiers that differ decide
      otherwise. */
  predicate PartsKeepItem11(ps: seq<string>, qs: seq<string>) {
    var k := Shared(ps, qs);
    k < |ps| && k < |qs| ==> PiecesDecide(ps[k..], qs[k..], ByIdentifier(ps[k], qs[k]))
  }

  lemma KeepsItem11Exactly(ps: seq<string>, qs: seq<string>)
    requires ps != [] && qs != [] && AllStandard(ps) && AllStandard(qs)
    ensures PartsKeepItem11(ps, qs) <==> BySem(ps, qs) == ByIdentifiers(ps, qs)
  {
    var k := Shared(ps, qs);
    ByIdentifiersAtFirstDifference(ps, qs);
    BySemFromShared(ps, qs);
    if k < |ps| && k < |qs| {
      PiecesDecideExactly(ps[k..], qs[k..], ByIdentifier(ps[k], qs[k]));
    }
  }

  /** On all identifiers of item 9, exactly there. */
  lemma SemLessKeepsItem11Exactly(ps: seq<string>, qs: seq<string>)
    requires ps != [] && qs != [] && AllStandard(ps) && AllStandard(qs)
    ensures PartsKeepItem11(ps, qs) <==>
            && (SemLess(Join(ps), Join(qs)) <==> ByIdentifiers(ps, qs) == Less)
            && (SemLess(Join(qs), Join(ps)) <==> ByIdentifiers(ps, qs) == Greater)
  {
    SemLessByPieces(ps, qs);
    KeepsItem11Exactly(ps, qs);
  }

  // ----- Without hyphens

  /** Numbers in front decide by value, and only when they are equal what follows; all others by bytes. */
  function ByLeading(ps: seq<string>, qs: seq<string>): Ordering
    requires ps != [] && qs != []
  {
    if DigitLed(ps[0]) && DigitLed(qs[0]) then ByValue(Num(ps[0]), Num(qs[0])).Then(ByParts(ps[1..], qs[1..]))
    else ByBytes(ps[0], qs[0])
  }

  lemma PlainField(id: string)
    requires Plain(id)
    ensures Fields(id, SEPARATORS) == [id]
  {
    OneField(id, SEPARATORS);
  }

  lemma TiedOnes(p: string, q: string)
    ensures Tied([p], [q]) == if PartTies(p, q) then 1 else 0
  {
    TiedTie([p], [q], 0);
  }

  lemma PlainBySem(ps: seq<string>, qs: seq<string>)
    requires ps != [] && qs != [] && AllPlain(ps) && AllPlain(qs)
    ensures BySem(ps, qs) == ByParts(ps, qs)
  {
    PiecesOfPlain(ps);
    PiecesOfPlain(qs);
    LastIsPlain(ps);
    LastIsPlain(qs);
  }

  lemma ByPartsNext(a: seq<string>, b: seq<string>)
    requires a != [] && b != [] && PartTies(a[0], b[0])
    ensures ByParts(a, b) == ByParts(a[1..], b[1..])
  {
    ByPartsAt(a, b, 1);
  }

  lemma PlainPieces(ps: seq<string>, qs: seq<string>, due: Ordering)
    requires ps != [] && qs != [] && AllPlain(ps) && AllPlain(qs) && ps[0] != qs[0]
    ensures PiecesDecide(ps, qs, due) <==> due == ByLeading(ps, qs)
  {
    var p, q := ps[0], qs[0];
    assert Plain(p) && Plain(q);
    PlainField(p);
    PlainField(q);
    TiedOnes(p, q);
    PlainBySem(ps, qs);
    StrLessTotal(p, q);
    if PartTies(p, q) {
      ByPartsNext(ps, qs);
    }
  }

  lemma DifferentPlain(p: string, q: string)
    requires Plain(p) && Plain(q) && p != q
    ensures !(DigitLed(p) && DigitLed(q)) ==> ByIdentifier(p, q) == ByBytes(p, q)
    ensures AllDigits(p) && AllDigits(q) ==> ByIdentifier(p, q) == ByValue(Num(p), Num(q)) != Equal
  {
    StrLessTotal(p, q);
    if AllDigits(p) && AllDigits(q) {
      NumOfDigits(p);
      NumOfDigits(q);
      DecOfVal(p);
      DecOfVal(q);
    }
  }

  lemma PlainFrom(ids: seq<string>, k: nat)
    requires AllPlain(ids) && k < |ids|
    ensures AllPlain(ids[k..]) && Plain(ids[k])
  {
  }

  /** Without hyphens, `compareSemVer` can fail item 11.4 only where both identifiers start with
      digits and not both are numbers, such as `1a` and `1b`. */
  predicate PlainKeepItem11(ps: seq<string>, qs: seq<string>) {
    var k := Shared(ps, qs);
    k < |ps| && k < |qs| && DigitLed(ps[k]) && DigitLed(qs[k]) && !(AllDigits(ps[k]) && AllDigits(qs[k])) ==>
      ByIdentifier(ps[k], qs[k]) == ByValue(Num(ps[k]), Num(qs[k])).Then(ByParts(ps[k + 1..], qs[k + 1..]))
  }

  lemma PlainKeepItem11Exactly(ps: seq<string>, qs: seq<string>)
    requires ps != [] && qs != [] && AllPlain(ps) && AllPlain(qs)
    ensures PlainKeepItem11(ps, qs) <==>
            && (SemLess(Join(ps), Join(qs)) <==> ByIdentifiers(ps, qs) == Less)
            && (SemLess(Join(qs), Join(ps)) <==> ByIdentifiers(ps, qs) == Greater)
  {
    var k := Shared(ps, qs);
    SemLessKeepsItem11Exactly(ps, qs);
    if k < |ps| && k < |qs| {
      PlainFrom(ps, k);
      PlainFrom(qs, k);
      DifferentPlain(ps[k], qs[k]);
      PlainPieces(ps[k..], qs[k..], ByIdentifier(ps[k], qs[k]));
      assert ps[k..][1..] == ps[k + 1..] && qs[k..][1..] == qs[k + 1..];
    }
  }

  /** On numbers without leading zeros and identifiers that start with a letter it never fails. */
  lemma SemLessIsItem11(ps: seq<string>, qs: seq<string>)
    requires ps != [] && qs != [] && AllOrdinary(ps) && AllOrdinary(qs)
    ensures SemLess(Join(ps), Join(qs)) <==> ByIdentifiers(ps, qs) == Less
    ensures SemLess(Join(qs), Join(ps)) <==> ByIdentifiers(ps, qs) == Greater
  {
    var k := Shared(ps, qs);
    assert k < |ps| ==> Ordinary(ps[k]);
    assert k < |qs| ==> Ordinary(qs[k]);
    PlainKeepItem11Exactly(ps, qs);
  }

  /** An identifier that starts with a number but goes on with a letter counts as the number:
      `1a` and `1b` tie. */
  lemma NumberWithLetterTies()
    ensures ByIdentifiers(["1a"], ["1b"]) == Less
    ensures !SemLess("1a", "1b") && !SemLess("1b", "1a")
  {
    OnePart("1a");
    OnePart("1b");
    LeadIs("1a", "1", "a");
    LeadIs("1b", "1", "b");
    assert !AllDigits("1a") by { assert "1a"[1] == 'a'; }
    assert !AllDigits("1b") by { assert "1b"[1] == 'b'; }
    StrLessAt("1a", "1b", 1);
  }

  /** A hyphen at the end of the last identifier does not count: it ties with the identifier without it. */
  lemma HyphenAtEndTies(id: string)
    requires Plain(id)
    ensures ByIdentifiers([id], [id + "-"]) == Less
    ensures !SemLess(id, id + "-") && !SemLess(id + "-", id)
  {
    PlainField(id);
    assert id + "-" == id + ("-" + "");
    FieldsJoin(id, '-', "", SEPARATORS);
    DropEmptyEnd([id], "");
    assert Parts(id) == [id] == Parts(id + "-");
    SemLessIsStrictWeak(id, id, id);
    assert (id + "-")[|id|] == '-';
    PrefixIsLess(id, id + "-");
    StrLessTotal(id, id + "-");
  }

  // ----- The two orders

  /** Two numbers alone agree. A number alone agrees with anything else only if that starts with a
      smaller piece. Otherwise the pieces of the first identifiers that differ decide as the flat
      comparison does. */
  predicate OrdersAgreeOn(ps: seq<string>, qs: seq<string>)
    requires ps != [] && qs != []
  {
    if OneNumber(ps) && OneNumber(qs) then true
    else if OneNumber(ps) then PartLess(Fields(qs[0], SEPARATORS)[0], ps[0])
    else if OneNumber(qs) then PartLess(Fields(ps[0], SEPARATORS)[0], qs[0])
    else
      var k := Shared(ps, qs);
      k < |ps| && k < |qs| ==>
        PiecesDecide(ps[k..], qs[k..], ByFlatIdentifier(ps[k], k + 1 < |ps|, qs[k], k + 1 < |qs|))
  }

  lemma OnePiece(id: string)
    requires NoneOf(id, SEPARATORS) && id != ""
    ensures HyphenPieces([id]) == [id] == TrimmedPieces([id])
  {
    OneField(id, SEPARATORS);
    assert [id][1..] == [] && [id] + [] == [id];
  }

  lemma NumberAlone(p: string, g: seq<string>)
    requires DigitLed(p) && g != []
    ensures ByParts([p], WithoutEmptyEnd(g)) == Greater <==> PartLess(g[0], p)
    ensures ByParts(WithoutEmptyEnd(g), [p]) == Less <==> PartLess(g[0], p)
  {
    var a := WithoutEmptyEnd(g);
    PartLaws(p, g[0], "");
    if a == [] {
      EndIsLess([p]);
      EmptyIsLess(g[0], p);
    } else {
      assert a[0] == g[0];
      HeadDecides(p, [], a[0], a[1..]);
      HeadDecides(a[0], a[1..], p, []);
      assert [p] + [] == [p] && [a[0]] + a[1..] == a;
      ByPartsIs([p], a);
      ByPartsIs(a, [p]);
    }
  }

  lemma NumberAgainst(ps: seq<string>, qs: seq<string>)
    requires ps != [] && qs != [] && AllStandard(ps) && OneNumber(ps)
    ensures BySem(ps, qs) == Greater <==>
            PartLess(Fields(qs[0], SEPARATORS)[0], ps[0])
    ensures BySem(qs, ps) == Less <==>
            PartLess(Fields(qs[0], SEPARATORS)[0], ps[0])
  {
    assert Standard(ps[0]) && ps == [ps[0]];
    OnePiece(ps[0]);
    NumberAlone(ps[0], HyphenPieces(qs));
  }

  lemma NumbersAgree(ps: seq<string>, qs: seq<string>)
    requires ps != [] && qs != [] && AllStandard(ps) && AllStandard(qs) && OneNumber(ps) && OneNumber(qs)
    ensures BySem(ps, qs) == ByFlat(ps, qs)
  {
    var p, q := ps[0], qs[0];
    assert Standard(p) && Standard(q) && ps == [p] && qs == [q];
    OnePiece(p);
    OnePiece(q);
    NumOfDigits(p);
    NumOfDigits(q);
    HeadDecides(p, [], q, []);
    HeadDecides(q, [], p, []);
  }

  lemma OrdersAgreeAt(ps: seq<string>, qs: seq<string>)
    requires ps != [] && qs != [] && AllStandard(ps) && AllStandard(qs)
    ensures OrdersAgreeOn(ps, qs) <==> BySem(ps, qs) == ByFlat(ps, qs)
  {
    if OneNumber(ps) && OneNumber(qs) {
      NumbersAgree(ps, qs);
    } else if OneNumber(ps) {
      NumberAgainst(ps, qs);
    } else if OneNumber(qs) {
      NumberAgainst(qs, ps);
    } else {
      var k := Shared(ps, qs);
      BySemFromShared(ps, qs);
      if k < |ps| && k < |qs| {
        PiecesDecideExactly(ps[k..], qs[k..], ByFlatIdentifier(ps[k], k + 1 < |ps|, qs[k], k + 1 < |qs|));
      }
    }
  }

  /** On pre-releases of any identifiers of item 9, the two orders agree exactly there. */
  lemma OrdersAgreeOnIdentifiers(ps: seq<string>, qs: seq<string>)
    requires ps != [] && qs != [] && AllStandard(ps) && AllStandard(qs)
    ensures OrdersAgreeOn(ps, qs) <==>
            var flat := ByPreRelease(Some(Join(ps)), Some(Join(qs)));
            && (SemLess(Join(ps), Join(qs)) <==> flat == Less)
            && (SemLess(Join(qs), Join(ps)) <==> flat == Greater)
  {
    SemLessByPieces(ps, qs);
    OrdersAgreeAt(ps, qs);
    FlatByIdentifiers(ps, qs);
  }

  /** Without hyphens: two numbers agree, a number alone against anything else if that starts with a
      smaller number; otherwise they can differ only where both identifiers start with digits. */
  predicate PlainOrdersAgree(ps: seq<string>, qs: seq<string>)
    requires ps != [] && qs != []
  {
    if OneNumber(ps) && OneNumber(qs) then true
    else if OneNumber(ps) then DigitLed(qs[0]) && Num(qs[0]) < Val(ps[0])
    else if OneNumber(qs) then DigitLed(ps[0]) && Num(ps[0]) < Val(qs[0])
    else
      var k := Shared(ps, qs);
      k < |ps| && k < |qs| && DigitLed(ps[k]) && DigitLed(qs[k]) ==>
        ByBytes(ps[k], qs[k]) == ByValue(Num(ps[k]), Num(qs[k])).Then(ByParts(ps[k + 1..], qs[k + 1..]))
  }

  lemma SmallerNumber(id: string, n: string)
    requires Plain(id) && AllDigits(n) && n != ""
    ensures PartLess(Fields(id, SEPARATORS)[0], n) <==> DigitLed(id) && Num(id) < Val(n)
  {
    PlainField(id);
    NumOfDigits(n);
  }

  lemma PlainFlat(a: string, more: bool, b: string, otherMore: bool)
    requires Plain(a) && Plain(b)
    ensures ByFlatIdentifier(a, more, b, otherMore) == ByBytes(a, b)
  {
  }

  lemma PlainOrdersAgreeExactly(ps: seq<string>, qs: seq<string>)
    requires ps != [] && qs != [] && AllPlain(ps) && AllPlain(qs)
    ensures PlainOrdersAgree(ps, qs) <==> OrdersAgreeOn(ps, qs)
  {
    var k := Shared(ps, qs);
    PlainFrom(ps, 0);
    PlainFrom(qs, 0);
    if OneNumber(ps) && !OneNumber(qs) {
      SmallerNumber(qs[0], ps[0]);
    } else if !OneNumber(ps) && OneNumber(qs) {
      SmallerNumber(ps[0], qs[0]);
    } else if !OneNumber(ps) && k < |ps| && k < |qs| {
      PlainFrom(ps, k);
      PlainFrom(qs, k);
      PlainFlat(ps[k], k + 1 < |ps|, qs[k], k + 1 < |qs|);
      PlainPieces(ps[k..], qs[k..], ByBytes(ps[k], qs[k]));
      assert ps[k..][1..] == ps[k + 1..] && qs[k..][1..] == qs[k + 1..];
    }
  }

  /** On numbers without leading zeros and identifiers that start with a letter, that is exactly
      where `<=>` keeps item 11.4. */
  lemma OrdinaryAgreeExactly(ps: seq<string>, qs: seq<string>)
    requires ps != [] && qs != [] && AllOrdinary(ps) && AllOrdinary(qs)
    ensures OrdersAgreeOn(ps, qs) <==> FlatKeepsItem11(ps, qs)
  {
    SemLessIsItem11(ps, qs);
    OrdersAgreeOnIdentifiers(ps, qs);
    FlatKeepsItem11Exactly(ps, qs);
  }

  // ----- Whole versions

  /** A version without a build whose pre-release, if any, is made of identifiers. */
  ghost predicate Has(v: Version, ids: Option<seq<string>>) {
    && Numbered(v) && v.build == None
    && (ids.Some? ==> ids.value != [] && AllStandard(ids.value))
    && v.preRelease == Dotted(ids)
  }

  lemma StandardLabelsOk(v: Version, ids: Option<seq<string>>)
    requires Has(v, ids)
    ensures LabelsOk(v)
  {
    if ids.Some? {
      JoinChars(ids.value);
    }
  }

  lemma SemLessOfVersions(v: Version, ps: Option<seq<string>>, w: Version, qs: Option<seq<string>>)
    requires Has(v, ps) && Has(w, qs)
    ensures SemLess(Print(v), Print(w)) <==>
            || Before(Core(v), Core(w))
            || (Core(v) == Core(w) && qs.Some? && (ps == None || SemLess(Join(ps.value), Join(qs.value))))
    ensures SemLess(Print(w), Print(v)) <==>
            || Before(Core(w), Core(v))
            || (Core(v) == Core(w) && ps.Some? && (qs == None || SemLess(Join(qs.value), Join(ps.value))))
  {
    StandardLabelsOk(v, ps);
    StandardLabelsOk(w, qs);
    SemLessByFields(v, w);
    SemLessByFields(w, v);
  }

  /** `compareSemVer` is item 11 on two such versions exactly when the cores differ, neither is a
      pre-release, or both are and it keeps item 11.4 on their identifiers. */
  lemma VersionsKeepItem11Exactly(v: Version, ps: Option<seq<string>>, w: Version, qs: Option<seq<string>>)
    requires Has(v, ps) && Has(w, qs)
    ensures (|| Core(v) != Core(w)
             || (ps == None && qs == None)
             || (ps.Some? && qs.Some? && PartsKeepItem11(ps.value, qs.value))) <==>
            && (SemLess(Print(v), Print(w)) <==> ByItem11(Core(v), ps, Core(w), qs) == Less)
            && (SemLess(Print(w), Print(v)) <==> ByItem11(Core(v), ps, Core(w), qs) == Greater)
  {
    SemLessOfVersions(v, ps, w, qs);
    if ps.Some? && qs.Some? {
      SemLessKeepsItem11Exactly(ps.value, qs.value);
    }
  }

  /** The two orders agree on two such versions exactly when the cores differ, neither is a
      pre-release, or both are and the orders agree on their identifiers. */
  lemma OrdersAgreeExactly(v: Version, ps: Option<seq<string>>, w: Version, qs: Option<seq<string>>)
    requires Has(v, ps) && Has(w, qs)
    ensures (|| Core(v) != Core(w)
             || (ps == None && qs == None)
             || (ps.Some? && qs.Some? && OrdersAgreeOn(ps.value, qs.value))) <==>
            && (SemLess(Print(v), Print(w)) <==> Compare(v, w) == Less)
            && (SemLess(Print(w), Print(v)) <==> Compare(v, w) == Greater)
  {
    SemLessOfVersions(v, ps, w, qs);
    CompareByCore(v, w);
    if ps.Some? && qs.Some? {
      OrdersAgreeOnIdentifiers(ps.value, qs.value);
    }
  }
}
