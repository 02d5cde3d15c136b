/** Semantic Versioning 2.0.0 as a reference: the identifiers of items 9 and 10, the precedence
    of item 11, and where the library's flat comparison of pre-releases agrees with it. */
module Item11 {
  import opened Text
  import opened Decimal
  import opened Versions
  import opened Precedence
  import opened Releases
  import opened Parser

  predicate IsAlphanumeric(c: char) {
    IsDigit(c) || 'A' <= c <= 'Z' || 'a' <= c <= 'z'
  }

  predicate Alphanumeric(id: string) {
    id != "" && forall i | 0 <= i < |id| :: IsAlphanumeric(id[i])
  }

  /** Items 9 and 10: non-empty, of alphanumerics and hyphens. */
  predicate IsIdentifier(id: string) {
    id != "" && forall i | 0 <= i < |id| :: IsAlphanumeric(id[i]) || id[i] == '-'
  }

  /** Item 9 in full: a numeric identifier has no leading zeros. */
  predicate Standard(id: string) {
    IsIdentifier(id) && (AllDigits(id) ==> Canonical(id))
  }

  /** A standard identifier without hyphens. */
  predicate Plain(id: string) {
    Alphanumeric(id) && (AllDigits(id) ==> Canonical(id))
  }

  /** A plain identifier with a letter in it. */
  predicate Lettered(id: string) {
    Alphanumeric(id) && !AllDigits(id)
  }

  /** Identifiers after the first one, each behind its dot. */
  function JoinRest(ids: seq<string>): string {
    if ids == [] then "" else "." + (ids[0] + JoinRest(ids[1..]))
  }

  function Join(ids: seq<string>): string
    requires ids != []
  {
    ids[0] + JoinRest(ids[1..])
  }

  // ----- Item 11.4

  /** 11.4.1 to 11.4.3: numbers by value, others by bytes, numbers below the others. */
  function ByIdentifier(a: string, b: string): Ordering {
    if AllDigits(a) && AllDigits(b) then ByValue(Val(a), Val(b))
    else if AllDigits(a) then Less
    else if AllDigits(b) then Greater
    else ByBytes(a, b)
  }

  /** 11.4 with 11.4.4: identifier by identifier, and a longer list wins a tie. */
  function ByIdentifiers(ps: seq<string>, qs: seq<string>): Ordering {
    if ps == [] && qs == [] then Equal
    else if ps == [] then Less
    else if qs == [] then Greater
    else ByIdentifier(ps[0], qs[0]).Then(ByIdentifiers(ps[1..], qs[1..]))
  }

  /** How many identifiers two lists share at the front. */
  function Shared(ps: seq<string>, qs: seq<string>): (k: nat)
    ensures k <= |ps| && k <= |qs|
    ensures k < |ps| && k < |qs| ==> ps[k] != qs[k]
  {
    if ps == [] || qs == [] || ps[0] != qs[0] then 0 else 1 + Shared(ps[1..], qs[1..])
  }

  predicate AllStandard(ids: seq<string>) {
    forall i | 0 <= i < |ids| :: Standard(ids[i])
  }

  predicate AllPlain(ids: seq<string>) {
    forall i | 0 <= i < |ids| :: Plain(ids[i])
  }

  lemma ByIdentifierTies(a: string, b: string)
    requires Standard(a) && Standard(b)
    ensures ByIdentifier(a, b) == Equal <==> a == b
    ensures ByIdentifier(b, a) == ByIdentifier(a, b).Flip()
  {
    ByBytesIsTotal(a, b, "");
    if AllDigits(a) && AllDigits(b) {
      DecOfVal(a);
      DecOfVal(b);
    }
  }

  /** Item 11.4 is decided at the first identifiers that differ. */
  lemma {:induction false} ByIdentifiersAtFirstDifference(ps: seq<string>, qs: seq<string>)
    requires AllStandard(ps) && AllStandard(qs)
    ensures var k := Shared(ps, qs);
            ByIdentifiers(ps, qs) ==
            if k < |ps| && k < |qs| then ByIdentifier(ps[k], qs[k]) else ByValue(|ps|, |qs|)
  {
    if ps != [] && qs != [] {
      ByIdentifierTies(ps[0], qs[0]);
      if ps[0] == qs[0] {
        ByIdentifiersAtFirstDifference(ps[1..], qs[1..]);
      }
    }
  }

  // ----- The flat comparison

  predicate DotOrNothing(s: string) {
    s == "" || s[0] == '.'
  }

  predicate IsIdentifierChar(c: char) {
    IsAlphanumeric(c) || c == '-'
  }

  /** Two different identifiers, and whether more identifiers follow each. Bytes decide, except that
      a hyphen is below the dot that ends a shorter one. */
  function ByFlatIdentifier(a: string, more: bool, b: string, otherMore: bool): Ordering {
    if a < b && more && b[|a|] == '-' then Greater
    else if b < a && otherMore && a[|b|] == '-' then Less
    else ByBytes(a, b)
  }

  lemma ShorterIdentifier(b: string, x: string, y: string)
    requires b != "" && IsIdentifierChar(b[0]) && DotOrNothing(x)
    ensures StrLess(x, b + y) <==> !(x != "" && b[0] == '-')
    ensures StrLess(b + y, x) <==> x != "" && b[0] == '-'
  {
  }

  /** The first identifiers that differ decide. */
  lemma {:induction false} FirstIdentifierDecides(a: string, b: string, x: string, y: string)
    requires forall i | 0 <= i < |a| :: IsIdentifierChar(a[i])
    requires forall i | 0 <= i < |b| :: IsIdentifierChar(b[i])
    requires DotOrNothing(x) && DotOrNothing(y)
    ensures a == b ==> StrLess(a + x, b + y) == StrLess(x, y)
    ensures a < b ==> (StrLess(a + x, b + y) <==> !(x != "" && b[|a|] == '-'))
    ensures b < a ==> (StrLess(a + x, b + y) <==> y != "" && a[|b|] == '-')
    ensures !(a <= b) && !(b <= a) ==> StrLess(a + x, b + y) == StrLess(a, b)
  {
    if a == "" {
      assert a + x == x;
      if b == "" {
        assert b + y == y;
      } else {
        ShorterIdentifier(b, x, y);
      }
    } else if b == "" {
      assert b + y == y;
      ShorterIdentifier(a, y, x);
    } else {
      assert (a + x)[1..] == a[1..] + x && (b + y)[1..] == b[1..] + y;
      FirstIdentifierDecides(a[1..], b[1..], x, y);
      PrefixByHead(a, b);
      PrefixByHead(b, a);
    }
  }

  lemma PrefixByHead(a: string, b: string)
    requires a != "" && b != ""
    ensures a <= b <==> a[0] == b[0] && a[1..] <= b[1..]
    ensures a == b <==> a[0] == b[0] && a[1..] == b[1..]
  {
    assert a == [a[0]] + a[1..] && b == [b[0]] + b[1..];
    if a[0] == b[0] && a[1..] <= b[1..] {
      assert b[1..] == a[1..] + b[1..][|a| - 1..];
      assert b == a + b[1..][|a| - 1..];
    }
  }

  lemma {:induction false} PrefixIsLess(a: string, b: string)
    requires a < b
    ensures StrLess(a, b)
  {
    StrLessAt(a, b, |a|);
  }

  lemma ByFlatIdentifierIs(a: string, b: string, x: string, y: string)
    requires IsIdentifier(a) && IsIdentifier(b) && a != b && DotOrNothing(x) && DotOrNothing(y)
    ensures ByBytes(a + x, b + y) == ByFlatIdentifier(a, x != "", b, y != "")
  {
    FirstIdentifierDecides(a, b, x, y);
    FirstIdentifierDecides(b, a, y, x);
    StrLessTotal(a, b);
    StrLessTotal(a + x, b + y);
    if a < b {
      PrefixIsLess(a, b);
    } else if b < a {
      PrefixIsLess(b, a);
    }
  }

  lemma BytesBehind(a: string, x: string, y: string)
    ensures ByBytes(a + x, a + y) == ByBytes(x, y)
  {
    StrLessCommonFront(a, x, y);
    StrLessCommonFront(a, y, x);
    StrLessTotal(x, y);
    StrLessTotal(a + x, a + y);
  }

  /** What the flat comparison answers, from the first identifiers that differ. */
  function ByFlatIdentifiers(ps: seq<string>, qs: seq<string>): Ordering {
    var k := Shared(ps, qs);
    if k < |ps| && k < |qs| then ByFlatIdentifier(ps[k], k + 1 < |ps|, qs[k], k + 1 < |qs|)
    else ByValue(|ps|, |qs|)
  }

  lemma {:induction false} JoinRestByBytes(ps: seq<string>, qs: seq<string>)
    requires AllStandard(ps) && AllStandard(qs)
    ensures ByBytes(JoinRest(ps), JoinRest(qs)) == ByFlatIdentifiers(ps, qs)
  {
    if ps != [] && qs != [] {
      var a, b, x, y := ps[0], qs[0], JoinRest(ps[1..]), JoinRest(qs[1..]);
      BytesBehind(".", a + x, b + y);
      if a == b {
        BytesBehind(a, x, y);
        JoinRestByBytes(ps[1..], qs[1..]);
        assert forall i | 0 <= i < |ps| - 1 :: ps[1..][i] == ps[i + 1];
        assert forall i | 0 <= i < |qs| - 1 :: qs[1..][i] == qs[i + 1];
      } else {
        ByFlatIdentifierIs(a, b, x, y);
      }
    }
  }

  lemma JoinByBytes(ps: seq<string>, qs: seq<string>)
    requires ps != [] && qs != [] && AllStandard(ps) && AllStandard(qs)
    ensures ByBytes(Join(ps), Join(qs)) == ByFlatIdentifiers(ps, qs)
  {
    JoinRestByBytes(ps, qs);
    BytesBehind(".", Join(ps), Join(qs));
  }

  lemma JoinIsNumber(ids: seq<string>)
    requires ids != []
    ensures AllDigits(Join(ids)) <==> |ids| == 1 && AllDigits(ids[0])
  {
    var s := Join(ids);
    if |ids| > 1 {
      assert s[|ids[0]|] == '.';
    } else {
      assert s == ids[0];
    }
  }

  predicate OneNumber(ids: seq<string>) {
    |ids| == 1 && AllDigits(ids[0])
  }

  /** What `<=>` answers, from the identifiers: numbers alone above everything else, and otherwise
      the first identifiers that differ. */
  function ByFlat(ps: seq<string>, qs: seq<string>): Ordering
    requires ps != [] && qs != []
  {
    if OneNumber(ps) && OneNumber(qs) then ByValue(Val(ps[0]), Val(qs[0]))
    else if OneNumber(ps) then Greater
    else if OneNumber(qs) then Less
    else ByFlatIdentifiers(ps, qs)
  }

  lemma FlatByIdentifiers(ps: seq<string>, qs: seq<string>)
    requires ps != [] && qs != [] && AllStandard(ps) && AllStandard(qs)
    ensures ByPreRelease(Some(Join(ps)), Some(Join(qs))) == ByFlat(ps, qs)
  {
    JoinIsNumber(ps);
    JoinIsNumber(qs);
    assert |ps| == 1 ==> Join(ps) == ps[0];
    assert |qs| == 1 ==> Join(qs) == qs[0];
    if OneNumber(ps) && OneNumber(qs) {
      ByNumberIsNumeric(ps[0], qs[0]);
    } else if !OneNumber(ps) && !OneNumber(qs) {
      JoinByBytes(ps, qs);
    }
  }

  /** Where the flat comparison keeps item 11.4. Two numbers always do. A number against anything
      else does only if the other starts with a smaller number. Two other lists do unless bytes,
      with a hyphen below the dot, and item 11.4 order the first differing identifiers differently. */
  predicate FlatKeepsItem11(ps: seq<string>, qs: seq<string>)
    requires ps != [] && qs != []
  {
    if OneNumber(ps) && OneNumber(qs) then true
    else if OneNumber(ps) then AllDigits(qs[0]) && Val(qs[0]) < Val(ps[0])
    else if OneNumber(qs) then AllDigits(ps[0]) && Val(ps[0]) < Val(qs[0])
    else
      var k := Shared(ps, qs);
      k < |ps| && k < |qs| ==>
        ByFlatIdentifier(ps[k], k + 1 < |ps|, qs[k], k + 1 < |qs|) == ByIdentifier(ps[k], qs[k])
  }

  /** For pre-releases of any identifiers of item 9, `<=>` follows item 11.4 exactly there. */
  lemma FlatKeepsItem11Exactly(ps: seq<string>, qs: seq<string>)
    requires ps != [] && qs != [] && AllStandard(ps) && AllStandard(qs)
    ensures ByPreRelease(Some(Join(ps)), Some(Join(qs))) == ByIdentifiers(ps, qs) <==> FlatKeepsItem11(ps, qs)
  {
    FlatByIdentifiers(ps, qs);
    if OneNumber(ps) && !OneNumber(qs) {
      assert qs[1..] == [] ==> qs == [qs[0]];
    } else if !OneNumber(ps) && OneNumber(qs) {
      assert ps[1..] == [] ==> ps == [ps[0]];
    } else {
      ByIdentifiersAtFirstDifference(ps, qs);
    }
  }

  /** Item 11.4 is not kept in general: two numeric identifiers behind the same word. */
  lemma FlatBreaksItem11()
    ensures ByIdentifiers(["beta", "2"], ["beta", "11"]) == Less
    ensures ByPreRelease(Some("beta.2"), Some("beta.11")) == Greater
  {
    assert Val("2") == 2 by { assert "2"[..0] == ""; }
    assert Val("11") == 11 by {
      assert "11"[..1] == "1" && "1"[..0] == "";
    }
    assert !AllDigits("beta") by { assert "beta"[0] == 'b'; }
    assert ByIdentifiers(["beta", "2"][1..], ["beta", "11"][1..]) == Less by {
      assert ["beta", "2"][1..] == ["2"] && ["beta", "11"][1..] == ["11"];
    }
    assert !AllDigits("beta.2") by { assert "beta.2"[0] == 'b'; }
    assert !AllDigits("beta.11") by { assert "beta.11"[0] == 'b'; }
    StrLessAt("beta.11", "beta.2", 5);
    StrLessTotal("beta.11", "beta.2");
  }

  /** Nor for hyphens: `a.b` ranks above `a-`, because a hyphen is below the dot. */
  lemma HyphenBreaksItem11(a: string, b: string)
    requires Lettered(a) && Standard(b)
    ensures ByIdentifiers([a, b], [a + "-"]) == Less
    ensures ByPreRelease(Some(Join([a, b])), Some(Join([a + "-"]))) == Greater
  {
    var c := a + "-";
    assert c[|a|] == '-' && c[..|a|] == a;
    assert AllStandard([a, b]) && AllStandard([c]) && Shared([a, b], [c]) == 0;
    FlatByIdentifiers([a, b], [c]);
    PrefixIsLess(a, c);
    StrLessTotal(a, c);
  }

  // ----- Whole versions

  predicate AllLettered(ids: seq<string>) {
    ids != [] && forall i | 0 <= i < |ids| :: Lettered(ids[i])
  }

  function Dotted(ids: Option<seq<string>>): Option<string>
    requires ids.Some? ==> ids.value != []
  {
    if ids == None then None else Some(Join(ids.value))
  }

  /** Items 11.2 to 11.4: numbers, then a pre-release below its release, then identifiers. */
  function ByItem11(t: Triple, ps: Option<seq<string>>, u: Triple, qs: Option<seq<string>>): Ordering {
    ByTriple(t, u).Then(
      if ps == None && qs == None then Equal
      else if ps == None then Greater
      else if qs == None then Less
      else ByIdentifiers(ps.value, qs.value))
  }

  /** `<=>` is item 11 on two versions exactly when the cores differ, one is no pre-release, or the
      flat comparison keeps item 11.4 on their identifiers. */
  lemma CompareIsItem11Exactly(v: Version, ps: Option<seq<string>>, w: Version, qs: Option<seq<string>>)
    requires Numbered(v) && Numbered(w)
    requires ps.Some? ==> ps.value != [] && AllStandard(ps.value)
    requires qs.Some? ==> qs.value != [] && AllStandard(qs.value)
    requires v.preRelease == Dotted(ps) && w.preRelease == Dotted(qs)
    ensures Compare(v, w) == ByItem11(Core(v), ps, Core(w), qs) <==>
            Core(v) != Core(w) || ps == None || qs == None || FlatKeepsItem11(ps.value, qs.value)
  {
    CompareByCore(v, w);
    if ps.Some? && qs.Some? {
      FlatKeepsItem11Exactly(ps.value, qs.value);
    }
  }

  lemma LetteredKeepItem11(ps: seq<string>, qs: seq<string>)
    requires AllLettered(ps) && AllLettered(qs)
    ensures AllStandard(ps) && AllStandard(qs) && FlatKeepsItem11(ps, qs)
  {
  }

  /** So it is on versions whose pre-release identifiers all contain a letter and no hyphen. */
  lemma CompareIsItem11(v: Version, ps: Option<seq<string>>, w: Version, qs: Option<seq<string>>)
    requires Numbered(v) && Numbered(w)
    requires (ps.Some? ==> AllLettered(ps.value)) && (qs.Some? ==> AllLettered(qs.value))
    requires v.preRelease == Dotted(ps) && w.preRelease == Dotted(qs)
    ensures Compare(v, w) == ByItem11(Core(v), ps, Core(w), qs)
  {
    if ps.Some? {
      LetteredKeepItem11(ps.value, ps.value);
    }
    if qs.Some? {
      LetteredKeepItem11(qs.value, qs.value);
    }
    if ps.Some? && qs.Some? {
      LetteredKeepItem11(ps.value, qs.value);
    }
    CompareIsItem11Exactly(v, ps, w, qs);
  }

  // ----- Items 2, 9 and 10: the versions of the standard are accepted

  predicate AllIdentifiers(ids: seq<string>) {
    ids != [] && forall i | 0 <= i < |ids| :: IsIdentifier(ids[i])
  }

  /** A character of dot-separated identifiers. */
  predicate IsLabelChar(c: char) {
    IsAlphanumeric(c) || c == '-' || c == '.'
  }

  lemma {:induction false} JoinRestChars(ids: seq<string>)
    requires forall i | 0 <= i < |ids| :: IsIdentifier(ids[i])
    ensures forall i | 0 <= i < |JoinRest(ids)| :: IsLabelChar(JoinRest(ids)[i])
  {
    if ids != [] {
      JoinRestChars(ids[1..]);
    }
  }

  lemma JoinChars(ids: seq<string>)
    requires AllIdentifiers(ids)
    ensures Join(ids) != "" && forall i | 0 <= i < |Join(ids)| :: IsLabelChar(Join(ids)[i])
  {
    JoinRestChars(ids[1..]);
  }

  /** Every version of the standard with a non-zero major, within the length limit, is accepted
      with its own fields. */
  lemma StandardVersionsParse(t: Triple, ps: Option<seq<string>>, bs: Option<seq<string>>)
    requires t.major > 0
    requires (ps.Some? ==> AllIdentifiers(ps.value)) && (bs.Some? ==> AllIdentifiers(bs.value))
    ensures var v := Release(t).(preRelease := Dotted(ps), build := Dotted(bs));
            |Print(v)| <= MAX_VERSION_LENGTH ==> Parsed(Print(v)) == Ok(v)
  {
    var v := Release(t).(preRelease := Dotted(ps), build := Dotted(bs));
    ReleaseFacts(t);
    if ps.Some? {
      JoinChars(ps.value);
    }
    if bs.Some? {
      JoinChars(bs.value);
    }
    LastOfPrint(v);
    ParsedOfPrint(v);
  }
}
