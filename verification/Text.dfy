/** Characters, searches, trimming and byte order: the parts of the standard library's
    string views that the version engine is written with. */
module Text {

  datatype Option<+T> = None | Some(value: T) {
    function GetOr(default: T): T {
      match this
      case Some(v) => v
      case None => default
    }
  }

  /** What ends a C++ call without a result: an exception of `std::stoi` / `std::stoll`,
      or an operation the language leaves undefined. */
  datatype Fault = InvalidArgument | OutOfRange | Undefined

  /** A call either returns or faults; faults propagate with `:-`. */
  datatype Outcome<+T> = Returns(value: T) | Faults(fault: Fault) {
    predicate IsFailure() {
      Faults?
    }

    function PropagateFailure<U>(): Outcome<U>
      requires Faults?
    {
      Faults(fault)
    }

    function Extract(): T
      requires Returns?
    {
      value
    }

    function Failure(): Option<Fault> {
      if Faults? then Some(fault) else None
    }
  }

  predicate IsDigit(c: char) {
    '0' <= c <= '9'
  }

  /** `std::isspace` in the "C" locale: blank, tab, line feed, vertical tab, form feed, return. */
  predicate IsSpace(c: char) {
    c == ' ' || '\t' <= c <= '\r'
  }

  predicate AllDigits(s: string) {
    forall i | 0 <= i < |s| :: IsDigit(s[i])
  }

  predicate AllSpaces(s: string) {
    forall i | 0 <= i < |s| :: IsSpace(s[i])
  }

  /** `find` / `find_first_of` from a position, with the end of the text for `npos`. */
  function Find(s: string, targets: set<char>, from: nat): (r: nat)
    requires from <= |s|
    ensures from <= r <= |s|
    ensures forall i | from <= i < r :: s[i] !in targets
    ensures r < |s| ==> s[r] in targets
    decreases |s| - from
  {
    if from == |s| || s[from] in targets then from else Find(s, targets, from + 1)
  }

  /** A search result is determined by what it skipped and where it stopped. */
  lemma FindIs(s: string, targets: set<char>, k: nat)
    requires k <= |s|
    requires forall i | 0 <= i < k :: s[i] !in targets
    requires k == |s| || s[k] in targets
    ensures Find(s, targets, 0) == k
  {
  }

  lemma Rejoin(t: string, k: nat)
    requires k < |t|
    ensures t == t[..k] + ([t[k]] + t[k + 1..])
  {
  }

  lemma FieldEnds(t: string, separator: char, field: string, rest: string)
    requires t == field + ([separator] + rest) && separator !in field
    ensures var k := |field|;
            Find(t, {separator}, 0) == k < |t| && t[..k] == field && t[k + 1..] == rest
  {
    assert forall i | 0 <= i < |field| :: t[i] == field[i];
    FindIs(t, {separator}, |field|);
  }

  /** A text cut at its first separator is the field before it, the separator and the rest. */
  lemma CutAt(t: string, separator: char, field: string, rest: string)
    ensures var k := Find(t, {separator}, 0);
            t == field + ([separator] + rest) && separator !in field
            <==> k < |t| && field == t[..k] && rest == t[k + 1..]
  {
    var k := Find(t, {separator}, 0);
    if k < |t| {
      Rejoin(t, k);
    }
    if t == field + ([separator] + rest) && separator !in field {
      FieldEnds(t, separator, field, rest);
    }
  }

  /** A text cut where the first of several targets stands. */
  lemma CutBefore(t: string, targets: set<char>, field: string, rest: string)
    requires rest != "" ==> rest[0] in targets
    requires forall i | 0 <= i < |field| :: field[i] !in targets
    ensures var k := Find(t, targets, 0);
            t == field + rest <==> field == t[..k] && rest == t[k..]
  {
    var k := Find(t, targets, 0);
    assert t == t[..k] + t[k..];
    if t == field + rest {
      assert forall i | 0 <= i < |field| :: t[i] == field[i];
      FindIs(t, targets, |field|);
    }
  }

  /** A text without the separator is one field. */
  lemma AllOf(t: string, separator: char, field: string)
    ensures var k := Find(t, {separator}, 0);
            t == field && separator !in field <==> k == |t| && field == t[..k]
  {
  }

  /** Where a list of answers first says no, or its end. */
  function FirstFalse(holds: seq<bool>): (i: nat)
    ensures i <= |holds|
    ensures forall k | 0 <= k < i :: holds[k]
    ensures i < |holds| ==> !holds[i]
  {
    if holds == [] || !holds[0] then 0 else 1 + FirstFalse(holds[1..])
  }

  lemma AppendOne(done: seq<string>, next: string, rest: seq<string>)
    ensures done + ([next] + rest) == (done + [next]) + rest
  {
  }

  /** The longest digit prefix. */
  function Lead(s: string): (r: string)
    ensures AllDigits(r) && |r| <= |s| && s[..|r|] == r
    ensures |r| < |s| ==> !IsDigit(s[|r|])
  {
    if s == "" || !IsDigit(s[0]) then "" else [s[0]] + Lead(s[1..])
  }

  lemma LeadIs(s: string, d: string, rest: string)
    requires AllDigits(d) && s == d + rest
    requires rest == "" || !IsDigit(rest[0])
    ensures Lead(s) == d
  {
    var r := Lead(s);
    assert forall i | 0 <= i < |r| :: s[i] == r[i];
    assert forall i | 0 <= i < |d| :: s[i] == d[i];
    assert s[..|d|] == d;
  }

  // ----- Trimming

  function TrimFront(s: string): string {
    if s != "" && IsSpace(s[0]) then TrimFront(s[1..]) else s
  }

  function TrimBack(s: string): string {
    if s != "" && IsSpace(s[|s| - 1]) then TrimBack(s[..|s| - 1]) else s
  }

  function Trim(s: string): string {
    TrimBack(TrimFront(s))
  }

  /** Neither end is white space. */
  predicate Tight(s: string) {
    s != "" ==> !IsSpace(s[0]) && !IsSpace(s[|s| - 1])
  }

  lemma {:induction false} TrimFrontExact(l: string, t: string)
    requires AllSpaces(l)
    requires t != "" ==> !IsSpace(t[0])
    ensures TrimFront(l + t) == t
  {
    if l == "" {
      assert l + t == t;
    } else {
      assert (l + t)[1..] == l[1..] + t;
      assert forall i | 0 <= i < |l[1..]| :: l[1..][i] == l[i + 1];
      TrimFrontExact(l[1..], t);
    }
  }

  lemma {:induction false} TrimBackExact(t: string, r: string)
    requires AllSpaces(r)
    requires t != "" ==> !IsSpace(t[|t| - 1])
    ensures TrimBack(t + r) == t
  {
    if r == "" {
      assert t + r == t;
    } else {
      var n := |r| - 1;
      assert (t + r)[..|t + r| - 1] == t + r[..n];
      TrimBackExact(t, r[..n]);
    }
  }

  lemma OneMore(c: char, l: string, t: string)
    requires IsSpace(c) && AllSpaces(l)
    ensures AllSpaces([c] + l) && [c] + (l + t) == ([c] + l) + t
  {
  }

  lemma {:induction false} TrimFrontParts(s: string) returns (l: string)
    ensures AllSpaces(l) && s == l + TrimFront(s)
    ensures TrimFront(s) != "" ==> !IsSpace(TrimFront(s)[0])
  {
    if s != "" && IsSpace(s[0]) {
      var rest := TrimFrontParts(s[1..]);
      l := [s[0]] + rest;
      OneMore(s[0], rest, TrimFront(s[1..]));
      assert s == [s[0]] + s[1..];
    } else {
      l := "";
    }
  }

  lemma {:induction false} TrimBackParts(s: string) returns (r: string)
    ensures AllSpaces(r) && s == TrimBack(s) + r
    ensures TrimBack(s) != "" ==> !IsSpace(TrimBack(s)[|TrimBack(s)| - 1])
  {
    if s != "" && IsSpace(s[|s| - 1]) {
      var n := |s| - 1;
      var r' := TrimBackParts(s[..n]);
      r := r' + [s[n]];
      assert s == s[..n] + [s[n]];
    } else {
      r := "";
    }
  }

  /** `t` is `s` without its surrounding white space. */
  ghost predicate IsTrimOf(t: string, l: string, r: string, s: string) {
    AllSpaces(l) && AllSpaces(r) && Tight(t) && s == l + t + r
  }

  /** Trimming leaves a tight text, and what it removed is white space. */
  lemma TrimParts(s: string) returns (l: string, r: string)
    ensures IsTrimOf(Trim(s), l, r, s)
  {
    l := TrimFrontParts(s);
    r := TrimBackParts(TrimFront(s));
    assert s == l + (Trim(s) + r);
    assert Trim(s) != "" ==> TrimFront(s)[0] == Trim(s)[0];
  }

  /** Trimming is determined by its result: any tight text between white space is the trimmed one. */
  lemma TrimIs(t: string, l: string, r: string, s: string)
    requires IsTrimOf(t, l, r, s)
    ensures Trim(s) == t
  {
    if t == "" {
      assert AllSpaces(l + r) && s == (l + r) + "";
      TrimFrontExact(l + r, "");
    } else {
      assert s == l + (t + r);
      TrimFrontExact(l, t + r);
      TrimBackExact(t, r);
    }
  }

  lemma TrimTight(s: string)
    requires Tight(s)
    ensures Trim(s) == s
  {
    TrimIs(s, "", "", "" + s + "");
    assert "" + s + "" == s;
  }

  lemma TrimFacts(s: string)
    ensures Tight(Trim(s)) && |Trim(s)| <= |s|
    ensures Trim(Trim(s)) == Trim(s)
  {
    var l, r := TrimParts(s);
    TrimTight(Trim(s));
  }

  // ----- The six characters of white space

  predicate IsWhite(c: char) {
    c == ' ' || c == '\t' || c == '\n' || c == '\U{0B}' || c == '\U{0C}' || c == '\r'
  }

  /** Only blanks, tabs, line feeds, vertical tabs, form feeds and returns. */
  predicate OnlyWhite(s: string) {
    forall i | 0 <= i < |s| :: IsWhite(s[i])
  }

  lemma WhiteIsSpace(s: string)
    ensures OnlyWhite(s) <==> AllSpaces(s)
  {
  }

  /** A string view: the part of a text still in sight. */
  class View {
    var text: string

    constructor (s: string)
      ensures text == s
    {
      text := s;
    }

    method RemovePrefix(n: nat)
      requires n <= |text|
      modifies this
      ensures text == old(text)[n..]
    {
      text := text[n..];
    }

    method RemoveSuffix(n: nat)
      requires n <= |text|
      modifies this
      ensures text == old(text)[..|old(text)| - n]
    {
      text := text[..|text| - n];
    }
  }

  /** Shrinks the view to its trimmed text. */
  method TrimWhitespace(input: View)
    modifies input
    ensures input.text == Trim(old(input.text))
  {
    while input.text != "" && IsSpace(input.text[0])
      invariant TrimFront(input.text) == TrimFront(old(input.text))
      decreases |input.text|
    {
      input.RemovePrefix(1);
    }
    while input.text != "" && IsSpace(input.text[|input.text| - 1])
      invariant TrimBack(input.text) == Trim(old(input.text))
      decreases |input.text|
    {
      input.RemoveSuffix(1);
    }
  }

  // ----- Byte order

  /** `operator<` on strings: bytes first, then length. */
  predicate StrLess(a: string, b: string) {
    b != "" && (a == "" || a[0] < b[0] || (a[0] == b[0] && StrLess(a[1..], b[1..])))
  }

  /** The position at which two texts first differ decides. */
  lemma {:induction false} StrLessAt(a: string, b: string, k: nat)
    requires k <= |a| && k <= |b| && a[..k] == b[..k]
    requires k < |b| && (k == |a| || a[k] < b[k])
    ensures StrLess(a, b)
  {
    if k > 0 {
      assert a[0] == a[..k][0] == b[..k][0] == b[0];
      assert a[1..][..k - 1] == a[..k][1..] == b[..k][1..] == b[1..][..k - 1];
      StrLessAt(a[1..], b[1..], k - 1);
    }
  }

  lemma {:induction false} StrLessTransitive(a: string, b: string, c: string)
    requires StrLess(a, b) && StrLess(b, c)
    ensures StrLess(a, c)
  {
    if a != "" && a[0] == b[0] == c[0] {
      StrLessTransitive(a[1..], b[1..], c[1..]);
    }
  }

  lemma {:induction false} StrLessTotal(a: string, b: string)
    ensures a == b || StrLess(a, b) || StrLess(b, a)
    ensures !(StrLess(a, b) && (StrLess(b, a) || a == b))
  {
    if a != "" && b != "" && a[0] == b[0] {
      StrLessTotal(a[1..], b[1..]);
      assert a == [a[0]] + a[1..] && b == [b[0]] + b[1..];
    }
  }

  /** A common front does not matter. */
  lemma {:induction false} StrLessCommonFront(p: string, a: string, b: string)
    ensures StrLess(p + a, p + b) == StrLess(a, b)
  {
    if p == "" {
      assert p + a == a && p + b == b;
    } else {
      assert (p + a)[1..] == p[1..] + a && (p + b)[1..] == p[1..] + b;
      StrLessCommonFront(p[1..], a, b);
    }
  }

  /** For texts of one length, the last byte is decisive only when the rest agrees. */
  lemma {:induction false} StrLessByLast(a: string, b: string)
    requires |a| == |b| > 0
    ensures var n := |a| - 1;
            StrLess(a, b) <==> StrLess(a[..n], b[..n]) || (a[..n] == b[..n] && a[n] < b[n])
  {
    var n := |a| - 1;
    if n > 0 {
      StrLessByLast(a[1..], b[1..]);
      assert a[1..][..n - 1] == a[..n][1..] && b[1..][..n - 1] == b[..n][1..];
      assert a[..n] == [a[0]] + a[..n][1..] && b[..n] == [b[0]] + b[..n][1..];
    }
  }
}
