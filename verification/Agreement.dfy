/** The two orders, `operator<=>` on versions and `compareSemVer` on their texts, side by side. */
module Agreement {
  import opened Text
  import opened Decimal
  import opened FieldSplitting
  import opened Versions
  import opened Precedence
  import opened Releases
  import opened PartOrder

  lemma PartsOfCore(a: string, b: string, rest: string)
    requires AllDigits(a) && AllDigits(b)
    ensures Parts(a + ("." + (b + ("." + rest)))) == [a, b] + Parts(rest)
  {
    PartsAt(a, '.', b + ("." + rest));
    PartsAt(b, '.', rest);
  }

  lemma PartsOfRel(t: Triple)
    ensures Parts(Rel(t)) == [Dec(t.major), Dec(t.minor), Dec(t.patch)]
  {
    PartsOfCore(Dec(t.major), Dec(t.minor), Dec(t.patch));
    OnePart(Dec(t.patch));
  }

  /** Parts that start with three numbers, and those numbers. */
  ghost predicate StartsWith(parts: seq<string>, t: Triple) {
    && |parts| >= 3 && DigitLed(parts[0]) && DigitLed(parts[1]) && DigitLed(parts[2])
    && Num(parts[0]) == t.major && Num(parts[1]) == t.minor && Num(parts[2]) == t.patch
  }

  lemma NumberDecides(a: seq<string>, b: seq<string>)
    requires a != [] && b != [] && DigitLed(a[0]) && DigitLed(b[0])
    ensures PartsLess(a, b) <==> Num(a[0]) < Num(b[0]) || (Num(a[0]) == Num(b[0]) && PartsLess(a[1..], b[1..]))
  {
  }

  lemma DropTwice(a: seq<string>, k: nat)
    requires k < |a|
    ensures a[k..][1..] == a[k + 1..] && a[k..][0] == a[k]
  {
  }

  lemma CoreDecides(a: seq<string>, t: Triple, b: seq<string>, u: Triple)
    requires StartsWith(a, t) && StartsWith(b, u)
    ensures PartsLess(a, b) <==> Before(t, u) || (t == u && PartsLess(a[3..], b[3..]))
  {
    NumberDecides(a, b);
    DropTwice(a, 1);
    DropTwice(b, 1);
    NumberDecides(a[1..], b[1..]);
    DropTwice(a, 2);
    DropTwice(b, 2);
    NumberDecides(a[2..], b[2..]);
  }

  /** On releases, `compareSemVer` is the order of the numbers. */
  lemma SemLessOnReleases(t: Triple, u: Triple)
    ensures SemLess(Rel(t), Rel(u)) == Before(t, u)
  {
    PartsOfRel(t);
    PartsOfRel(u);
    NumOfDec(t.major);
    NumOfDec(t.minor);
    NumOfDec(t.patch);
    NumOfDec(u.major);
    NumOfDec(u.minor);
    NumOfDec(u.patch);
    CoreDecides(Parts(Rel(t)), t, Parts(Rel(u)), u);
  }

  lemma RelFits(t: Triple)
    ensures Fits(Rel(t)) <==> Below(t, INT_MAX + 1)
  {
    PartsOfRel(t);
    NumOfDec(t.major);
    NumOfDec(t.minor);
    NumOfDec(t.patch);
    var p := Parts(Rel(t));
    assert FitsInt(p[0]) && FitsInt(p[1]) && FitsInt(p[2]) ==> AllFit(p);
  }

  /** The third part of a printed version starts with its patch number. */
  lemma PartsFromPatch(patch: string, labels: string)
    requires Canonical(patch)
    requires labels != "" ==> labels[0] == '-' || labels[0] == '+'
    ensures var p := Parts(patch + labels);
            p != [] && DigitLed(p[0]) && Num(p[0]) == Val(patch)
  {
    var first := Fields(labels, SEPARATORS)[0];
    NoDotInDigits(patch);
    FieldsAfter(patch, labels, SEPARATORS);
    FirstIsKept(Fields(patch + labels, SEPARATORS));
    assert first != "" ==> first[0] == '+';
    LeadIs(patch + first, patch, first);
  }

  lemma TwoFirst(a: string, b: string, rest: seq<string>)
    ensures rest != [] ==> ([a, b] + rest)[3..] == rest[1..] && ([a, b] + rest)[2] == rest[0]
  {
  }

  lemma PartsOfPrint(v: Version)
    requires Numbered(v)
    ensures StartsWith(Parts(Print(v)), Core(v))
    ensures Parts(Print(v))[3..] == Parts(FromPatch(v))[1..]
  {
    PartsOfCore(v.major, v.minor, FromPatch(v));
    TwoFirst(v.major, v.minor, Parts(FromPatch(v)));
    LabelsStart(v);
    PartsFromPatch(v.patch, Labels(v));
    NumOfDigits(v.major);
    NumOfDigits(v.minor);
  }

  lemma SemLessByCore(v: Version, w: Version)
    requires Numbered(v) && Numbered(w)
    ensures var a, b := Parts(Print(v)), Parts(Print(w));
            && |a| >= 3 && |b| >= 3
            && (SemLess(Print(v), Print(w)) <==>
                Before(Core(v), Core(w)) || (Core(v) == Core(w) && PartsLess(a[3..], b[3..])))
  {
    PartsOfPrint(v);
    PartsOfPrint(w);
    CoreDecides(Parts(Print(v)), Core(v), Parts(Print(w)), Core(w));
  }

  /** The orders agree on any two versions with different cores, whatever their labels. */
  lemma OrdersAgreeOnCores(v: Version, w: Version)
    requires Numbered(v) && Numbered(w) && Core(v) != Core(w)
    ensures SemLess(Print(v), Print(w)) <==> Compare(v, w) == Less
  {
    SemLessByCore(v, w);
    CompareByCore(v, w);
  }

  /** On releases the orders agree, and with numbers up to the greatest `int` neither throws. */
  lemma OrdersAgreeOnReleases(v: Version, w: Version)
    requires Numbered(v) && Numbered(w) && Labels(v) == "" && Labels(w) == ""
    ensures SemLess(Print(v), Print(w)) <==> Compare(v, w) == Less
    ensures Below(Core(v), INT_MAX + 1) && Below(Core(w), INT_MAX + 1) ==> Fits(Print(v)) && Fits(Print(w))
  {
    NoLabels(v);
    NoLabels(w);
    ReleaseOfCore(v);
    ReleaseOfCore(w);
    ReleaseFacts(Core(v));
    ReleaseFacts(Core(w));
    RelFits(Core(v));
    RelFits(Core(w));
    SemLessOnReleases(Core(v), Core(w));
    CompareByCore(v, w);
  }

  /** The parts after the core. */
  ghost function LabelParts(v: Version): seq<string>
    requires Numbered(v)
  {
    PartsOfPrint(v);
    Parts(Print(v))[3..]
  }

  lemma PartsAfterPatch(patch: string, preRelease: Option<string>)
    requires Canonical(patch)
    ensures Parts(patch + Suffix('-', preRelease)) ==
            [patch] + if preRelease == None then [] else Parts(preRelease.value)
  {
    NoDotInDigits(patch);
    if preRelease == None {
      assert patch + "" == patch;
      OnePart(patch);
    } else {
      PartsAt(patch, '-', preRelease.value);
    }
  }

  lemma PartsOfPreRelease(v: Version)
    requires Numbered(v) && LabelsOk(v) && v.build == None
    ensures v.preRelease == None ==> LabelParts(v) == []
    ensures v.preRelease.Some? ==> LabelParts(v) == Parts(v.preRelease.value) != []
  {
    PartsOfPrint(v);
    PartsAfterPatch(v.patch, v.preRelease);
    assert Labels(v) == Suffix('-', v.preRelease);
    if v.preRelease.Some? {
      FirstPart(v.preRelease.value);
    }
  }

  /** For versions without a build: the cores decide, then a release is below its pre-releases, and
      two pre-releases compare by their own parts. */
  lemma SemLessByFields(v: Version, w: Version)
    requires Numbered(v) && Numbered(w) && LabelsOk(v) && LabelsOk(w) && v.build == None && w.build == None
    ensures SemLess(Print(v), Print(w)) <==>
            || Before(Core(v), Core(w))
            || (Core(v) == Core(w) && w.preRelease.Some?
                && (v.preRelease == None || SemLess(v.preRelease.value, w.preRelease.value)))
  {
    SemLessByCore(v, w);
    PartsOfPreRelease(v);
    PartsOfPreRelease(w);
  }

  /** A release is above its pre-releases for `<=>`, and below them for `compareSemVer`. */
  lemma ReleaseAgainstPreRelease(v: Version, w: Version)
    requires Numbered(v) && Numbered(w) && LabelsOk(v) && LabelsOk(w) && v.build == None && w.build == None
    requires Core(v) == Core(w) && v.preRelease == None && w.preRelease.Some?
    ensures Compare(v, w) == Greater && SemLess(Print(v), Print(w))
  {
    CompareByCore(v, w);
    SemLessByFields(v, w);
  }

  // ----- `compareSemVer`, part by part and character by character

  /** The number that a part starts with is that of its digits in front. */
  lemma NumSpelled(p: string, digits: string, rest: string)
    requires p == digits + rest && digits != "" && AllDigits(digits) && (rest != "" ==> !('0' <= rest[0] <= '9'))
    ensures DigitLed(p) && Num(p) == Val(digits)
  {
    LeadIs(p, digits, rest);
  }

  /** Parts that both start with a digit compare by those numbers, all others by bytes. */
  lemma PartsSpelled(p: string, q: string)
    ensures var numbers := p != "" && q != "" && '0' <= p[0] <= '9' && '0' <= q[0] <= '9';
            && (PartLess(p, q) <==> if numbers then Num(p) < Num(q) else BelowByBytes(p, q))
            && (PartTies(p, q) <==> if numbers then Num(p) == Num(q) else p == q)
  {
    StrLessExactly(p, q);
  }

  /** Parts tie up to `k`, where one text has ended before the other or its part is less. */
  ghost predicate BelowAt(a: seq<string>, b: seq<string>, k: nat) {
    && k <= |a| && k < |b| && (forall i | 0 <= i < k :: PartTies(a[i], b[i]))
    && (k == |a| || PartLess(a[k], b[k]))
  }

  lemma BelowAtGrows(a: seq<string>, b: seq<string>, k: nat)
    requires a != [] && b != [] && PartTies(a[0], b[0]) && BelowAt(a[1..], b[1..], k)
    ensures BelowAt(a, b, k + 1)
  {
    var s, t := a[1..], b[1..];
    forall i | 0 <= i < k + 1 ensures PartTies(a[i], b[i]) {
      if i > 0 {
        assert PartTies(s[i - 1], t[i - 1]);
      }
    }
    assert k < |s| ==> PartLess(s[k], t[k]);
  }

  lemma BelowAtFront(a: seq<string>, b: seq<string>)
    requires b != [] && (a == [] || PartLess(a[0], b[0]))
    ensures BelowAt(a, b, 0)
  {
  }

  lemma {:induction false} PartsLessFinds(a: seq<string>, b: seq<string>) returns (k: nat)
    requires PartsLess(a, b)
    ensures BelowAt(a, b, k)
  {
    if a == [] || PartLess(a[0], b[0]) {
      BelowAtFront(a, b);
      k := 0;
    } else {
      assert PartTies(a[0], b[0]) && PartsLess(a[1..], b[1..]);
      var m := PartsLessFinds(a[1..], b[1..]);
      BelowAtGrows(a, b, m);
      k := m + 1;
    }
  }

  lemma BelowAtIsLess(a: seq<string>, b: seq<string>, k: nat)
    requires BelowAt(a, b, k)
    ensures PartsLess(a, b)
  {
    assert TiesUpTo(a, b, k);
    DecidedAt(a, b, k);
  }

  /** The first parts that do not tie decide, and then which text has more. */
  lemma SemLessSpelled(a: string, b: string)
    ensures SemLess(a, b) <==> exists k :: BelowAt(Parts(a), Parts(b), k)
  {
    if SemLess(a, b) {
      var k := PartsLessFinds(Parts(a), Parts(b));
    }
    if k :| BelowAt(Parts(a), Parts(b), k) {
      BelowAtIsLess(Parts(a), Parts(b), k);
    }
  }
}
