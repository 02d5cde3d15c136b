/** `operator<=>` on versions: what it computes, and that it is a total order. */
module Precedence {
  import opened Text
  import opened Decimal
  import opened Versions

  /** `std::strong_ordering`. */
  datatype Ordering = Less | Equal | Greater {
    function Flip(): Ordering {
      match this
      case Less => Greater
      case Equal => Equal
      case Greater => Less
    }

    /** The first comparison that is not a tie decides. */
    function Then(next: Ordering): Ordering {
      if this == Equal then next else this
    }
  }

  function ByBytes(a: string, b: string): Ordering {
    if a == b then Equal else if StrLess(a, b) then Less else Greater
  }

  function ByLength(a: string, b: string): Ordering {
    if |a| < |b| then Less else if |a| > |b| then Greater else Equal
  }

  /** Length first, then bytes. */
  function ByNumber(a: string, b: string): Ordering {
    ByLength(a, b).Then(ByBytes(a, b))
  }

  /** All-digit pre-releases rank above the others, and below having none. */
  function PreReleaseRank(p: Option<string>): nat {
    if p == None then 2 else if AllDigits(p.value) then 1 else 0
  }

  function ByPreRelease(p: Option<string>, q: Option<string>): Ordering {
    var m, n := PreReleaseRank(p), PreReleaseRank(q);
    if m < n then Less
    else if m > n then Greater
    else if m == 2 then Equal
    else if m == 1 then ByNumber(p.value, q.value)
    else ByBytes(p.value, q.value)
  }

  /** Major, minor, patch, pre-release; never the build. */
  function Compare(v: Version, w: Version): Ordering {
    ByNumber(v.major, w.major)
    .Then(ByNumber(v.minor, w.minor))
    .Then(ByNumber(v.patch, w.patch))
    .Then(ByPreRelease(v.preRelease, w.preRelease))
  }

  // ----- The operator itself

  method NumberStringCompare(first: string, second: string) returns (r: Ordering)
    ensures r == ByNumber(first, second)
  {
    if |first| > |second| {
      return Greater;
    } else if |first| < |second| {
      return Less;
    }
    for i := 0 to |first|
      invariant first[..i] == second[..i]
    {
      if first[i] > second[i] {
        StrLessAt(second, first, i);
        StrLessTotal(first, second);
        return Greater;
      } else if first[i] < second[i] {
        StrLessAt(first, second, i);
        StrLessTotal(first, second);
        return Less;
      }
    }
    assert first == first[..|first|] == second[..|second|] == second;
    return Equal;
  }

  method OnlyDigits(text: string) returns (r: bool)
    ensures r == AllDigits(text)
  {
    for i := 0 to |text|
      invariant AllDigits(text[..i])
    {
      if text[i] < '0' || text[i] > '9' {
        return false;
      }
    }
    assert text == text[..|text|];
    return true;
  }

  method Spaceship(first: Version, second: Version) returns (r: Ordering)
    ensures r == Compare(first, second)
  {
    if first.major != second.major {
      r := NumberStringCompare(first.major, second.major);
      ByNumberIsTotal(first.major, second.major, "");
      return;
    }
    if first.minor != second.minor {
      r := NumberStringCompare(first.minor, second.minor);
      ByNumberIsTotal(first.minor, second.minor, "");
      return;
    }
    if first.patch != second.patch {
      r := NumberStringCompare(first.patch, second.patch);
      ByNumberIsTotal(first.patch, second.patch, "");
      return;
    }
    if second.preRelease.Some? && first.preRelease.None? {
      return Greater;
    }
    if first.preRelease.Some? && second.preRelease.None? {
      return Less;
    }
    if first.preRelease.None? && second.preRelease.None? {
      return Equal;
    }
    var p, q := first.preRelease.value, second.preRelease.value;
    if p == q {
      return Equal;
    }
    var firstNumeric := OnlyDigits(p);
    var secondNumeric := OnlyDigits(q);
    if firstNumeric && !secondNumeric {
      return Greater;
    }
    if !firstNumeric && secondNumeric {
      return Less;
    }
    if firstNumeric && secondNumeric {
      r := NumberStringCompare(p, q);
      return;
    }
    var minSize := if |p| < |q| then |p| else |q|;
    for i := 0 to minSize
      invariant p[..i] == q[..i]
    {
      if p[i] > q[i] {
        StrLessAt(q, p, i);
        StrLessTotal(p, q);
        return Greater;
      } else if p[i] < q[i] {
        StrLessAt(p, q, i);
        StrLessTotal(p, q);
        return Less;
      }
    }
    StrLessTotal(p, q);
    if |p| < |q| {
      StrLessAt(p, q, |p|);
    } else if |p| > |q| {
      StrLessAt(q, p, |q|);
    }
    return ByLength(p, q);
  }

  // ----- Order laws

  /** What a comparison of `a`, `b` and `c` must answer to be a total order. */
  ghost predicate Lawful(ab: Ordering, ba: Ordering, bc: Ordering, ac: Ordering, same: bool) {
    && ba == ab.Flip()
    && (ab == Equal <==> same)
    && (ab == bc ==> ac == ab)
    && (ab == Equal ==> ac == bc)
    && (bc == Equal ==> ac == ab)
  }

  lemma ByBytesIsTotal(a: string, b: string, c: string)
    ensures Lawful(ByBytes(a, b), ByBytes(b, a), ByBytes(b, c), ByBytes(a, c), a == b)
  {
    StrLessTotal(a, b);
    StrLessTotal(b, c);
    StrLessTotal(a, c);
    if StrLess(a, b) && StrLess(b, c) {
      StrLessTransitive(a, b, c);
    }
    if StrLess(c, b) && StrLess(b, a) {
      StrLessTransitive(c, b, a);
    }
  }

  lemma ByNumberIsTotal(a: string, b: string, c: string)
    ensures Lawful(ByNumber(a, b), ByNumber(b, a), ByNumber(b, c), ByNumber(a, c), a == b)
  {
    ByBytesIsTotal(a, b, c);
  }

  lemma ByPreReleaseIsTotal(p: Option<string>, q: Option<string>, r: Option<string>)
    ensures Lawful(ByPreRelease(p, q), ByPreRelease(q, p), ByPreRelease(q, r), ByPreRelease(p, r), p == q)
  {
    if p.Some? && q.Some? {
      var c := if r.Some? then r.value else "";
      ByBytesIsTotal(p.value, q.value, c);
      ByNumberIsTotal(p.value, q.value, c);
    }
  }

  /** The fields that decide precedence: all but the build. */
  predicate SamePrecedence(v: Version, w: Version) {
    v.major == w.major && v.minor == w.minor && v.patch == w.patch && v.preRelease == w.preRelease
  }

  /** `<=>` is a total order on versions with any fields whatever: swapping the arguments reverses
      it, it is transitive, and it ties exactly the versions that agree in all but the build. */
  lemma CompareIsTotal(u: Version, v: Version, w: Version)
    ensures Lawful(Compare(u, v), Compare(v, u), Compare(v, w), Compare(u, w), SamePrecedence(u, v))
  {
    ByNumberIsTotal(u.major, v.major, w.major);
    ByNumberIsTotal(u.minor, v.minor, w.minor);
    ByNumberIsTotal(u.patch, v.patch, w.patch);
    ByPreReleaseIsTotal(u.preRelease, v.preRelease, w.preRelease);
  }

  /** The build never matters. */
  lemma BuildIsIgnored(v: Version, w: Version, b: Option<string>, c: Option<string>)
    ensures Compare(v.(build := b), w.(build := c)) == Compare(v, w)
  {
  }

  // ----- Numbers

  function ByValue(m: nat, n: nat): Ordering {
    if m < n then Less else if m > n then Greater else Equal
  }

  /** Length-then-bytes is numeric order on canonical numerals of any size. */
  lemma ByNumberIsNumeric(a: string, b: string)
    requires Canonical(a) && Canonical(b)
    ensures ByNumber(a, b) == ByValue(Val(a), Val(b))
  {
    if |a| < |b| {
      ShorterIsLess(a, b);
    } else if |a| > |b| {
      ShorterIsLess(b, a);
    } else {
      SameLengthByBytes(a, b);
      SameLengthByBytes(b, a);
      StrLessTotal(a, b);
    }
  }

  // ----- Any fields whatever

  /** `a` is below `b` at the first byte where they differ, or ends where they do. */
  ghost predicate BelowByBytes(a: string, b: string) {
    exists k | 0 <= k <= |a| && k < |b| :: a[..k] == b[..k] && (k == |a| || a[k] < b[k])
  }

  lemma {:induction false} StrLessFinds(a: string, b: string) returns (k: nat)
    requires StrLess(a, b)
    ensures k <= |a| && k < |b| && a[..k] == b[..k] && (k == |a| || a[k] < b[k])
  {
    if a == "" || a[0] < b[0] {
      k := 0;
    } else {
      var m := StrLessFinds(a[1..], b[1..]);
      k := m + 1;
      assert a[..k] == [a[0]] + a[1..][..m] && b[..k] == [b[0]] + b[1..][..m];
    }
  }

  lemma StrLessExactly(a: string, b: string)
    ensures StrLess(a, b) <==> BelowByBytes(a, b)
  {
    if StrLess(a, b) {
      var k := StrLessFinds(a, b);
    }
    if k :| 0 <= k <= |a| && k < |b| && a[..k] == b[..k] && (k == |a| || a[k] < b[k]) {
      StrLessAt(a, b, k);
    }
  }

  /** Shorter, or as long and below by bytes: how `<=>` compares number fields, canonical or not. */
  ghost predicate BelowAsNumber(a: string, b: string) {
    |a| < |b| || (|a| == |b| && BelowByBytes(a, b))
  }

  /** How `<=>` compares two pre-releases: digits alone above everything else and among themselves
      as number fields, all others by bytes. */
  ghost predicate BelowAsPreRelease(p: string, q: string) {
    if AllDigits(p) then AllDigits(q) && BelowAsNumber(p, q) else AllDigits(q) || BelowByBytes(p, q)
  }

  ghost predicate BelowAsLabel(p: Option<string>, q: Option<string>) {
    p.Some? && (q == None || BelowAsPreRelease(p.value, q.value))
  }

  lemma ByNumberExactly(a: string, b: string)
    ensures ByNumber(a, b) == Less <==> BelowAsNumber(a, b)
    ensures ByNumber(a, b) == Equal <==> a == b
  {
    StrLessExactly(a, b);
    StrLessTotal(a, b);
  }

  lemma ByPreReleaseExactly(p: Option<string>, q: Option<string>)
    ensures ByPreRelease(p, q) == Less <==> BelowAsLabel(p, q)
    ensures ByPreRelease(p, q) == Equal <==> p == q
  {
    if p.Some? && q.Some? {
      ByNumberExactly(p.value, q.value);
      StrLessExactly(p.value, q.value);
      StrLessTotal(p.value, q.value);
    }
  }

  /** `<=>` on versions with any fields: the first of major, minor, patch and pre-release that
      differs decides. */
  lemma CompareExactly(v: Version, w: Version)
    ensures Compare(v, w) == Less <==>
            if v.major != w.major then BelowAsNumber(v.major, w.major)
            else if v.minor != w.minor then BelowAsNumber(v.minor, w.minor)
            else if v.patch != w.patch then BelowAsNumber(v.patch, w.patch)
            else BelowAsLabel(v.preRelease, w.preRelease)
  {
    ByNumberExactly(v.major, w.major);
    ByNumberExactly(v.minor, w.minor);
    ByNumberExactly(v.patch, w.patch);
    ByPreReleaseExactly(v.preRelease, w.preRelease);
  }

  /** Two pre-releases of digits only, with leading zeros or not: the longer one is above, whatever
      their values, and those of one length compare by value. */
  lemma DigitPreReleases(v: Version, w: Version, p: string, q: string)
    requires v.major == w.major && v.minor == w.minor && v.patch == w.patch
    requires AllDigits(p) && AllDigits(q) && v.preRelease == Some(p) && w.preRelease == Some(q)
    ensures |p| < |q| ==> Compare(v, w) == Less
    ensures |p| > |q| ==> Compare(v, w) == Greater
    ensures |p| == |q| ==> Compare(v, w) == if Val(p) < Val(q) then Less else if Val(p) > Val(q) then Greater else Equal
  {
    if |p| == |q| {
      SameLengthByBytes(p, q);
      SameLengthByBytes(q, p);
      StrLessTotal(p, q);
    }
  }

  /** So numeric order is kept exactly when the longer one, if there is one, has the greater value. */
  lemma DigitPreReleasesKeepValue(v: Version, w: Version, p: string, q: string)
    requires v.major == w.major && v.minor == w.minor && v.patch == w.patch
    requires AllDigits(p) && AllDigits(q) && v.preRelease == Some(p) && w.preRelease == Some(q)
    ensures Compare(v, w) == ByValue(Val(p), Val(q)) <==>
            (|p| < |q| ==> Val(p) < Val(q)) && (|p| > |q| ==> Val(p) > Val(q))
  {
    DigitPreReleases(v, w, p, q);
  }

  /** `1.0.0-001` is above `1.0.0-2`. */
  lemma LeadingZerosCount()
    ensures Compare(Version("1", "0", "0", Some("001")), Version("1", "0", "0", Some("2"))) == Greater
    ensures Val("001") < Val("2")
  {
    DigitPreReleases(Version("1", "0", "0", Some("001")), Version("1", "0", "0", Some("2")), "001", "2");
    assert "001"[..2] == "00" && "00"[..1] == "0" && "0"[..0] == "" && "2"[..0] == "";
  }
}
