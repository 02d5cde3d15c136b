/** Decimal numerals: their value, their printing, and the integers that C++ reads from text. */
module Decimal {
  import opened Text

  const INT_MAX := 2147483647
  const INT_MIN := -2147483648
  const LLONG_MAX := 9223372036854775807

  function DigitValue(c: char): nat
    requires IsDigit(c)
  {
    c as int - '0' as int
  }

  /** The number a digit string denotes, leading zeros and all. */
  function Val(s: string): nat
    requires AllDigits(s)
  {
    if s == "" then 0 else 10 * Val(s[..|s| - 1]) + DigitValue(s[|s| - 1])
  }

  /** `std::to_string` on a non-negative number. */
  function Dec(n: nat): (s: string)
    ensures AllDigits(s) && s != ""
  {
    if n < 10 then [('0' as int + n) as char] else Dec(n / 10) + [('0' as int + n % 10) as char]
  }

  /** `std::to_string` on any number. */
  function DecInt(n: int): string {
    if n < 0 then "-" + Dec(-n) else Dec(n)
  }

  /** A numeral without needless zeros. */
  predicate Canonical(s: string) {
    s != "" && AllDigits(s) && (s[0] == '0' ==> |s| == 1)
  }

  function Pow10(n: nat): (p: nat)
    ensures p > 0
  {
    if n == 0 then 1 else 10 * Pow10(n - 1)
  }

  lemma {:induction false} DecCanonical(n: nat)
    ensures Canonical(Dec(n)) && Val(Dec(n)) == n
    ensures Dec(n)[0] == '0' <==> n == 0
  {
    if n >= 10 {
      DecCanonical(n / 10);
      var s := Dec(n);
      assert s[..|s| - 1] == Dec(n / 10);
      assert s[0] == Dec(n / 10)[0];
    } else {
      assert Dec(n)[..0] == "";
    }
  }

  lemma {:induction false} DecOfVal(s: string)
    requires Canonical(s)
    ensures Dec(Val(s)) == s
  {
    var n := |s| - 1;
    if n > 0 {
      var front := s[..n];
      assert Canonical(front) && front[0] == s[0];
      DecOfVal(front);
      ValPositive(front);
      assert s == front + [s[n]];
      assert Val(s) / 10 == Val(front) && Val(s) % 10 == DigitValue(s[n]);
    } else {
      assert s[..0] == "" && Val(s) == DigitValue(s[0]);
      assert s == [s[0]];
    }
  }

  lemma {:induction false} ValPositive(s: string)
    requires s != "" && AllDigits(s) && s[0] != '0'
    ensures Val(s) >= Pow10(|s| - 1)
  {
    var n := |s| - 1;
    if n > 0 {
      ValPositive(s[..n]);
    }
  }

  lemma {:induction false} ValBound(s: string)
    requires AllDigits(s)
    ensures Val(s) < Pow10(|s|)
  {
    if s != "" {
      ValBound(s[..|s| - 1]);
    }
  }

  lemma {:induction false} Pow10Monotone(m: nat, n: nat)
    requires m <= n
    ensures Pow10(m) <= Pow10(n)
  {
    if m < n {
      Pow10Monotone(m, n - 1);
    }
  }

  lemma DecLength(n: nat, k: nat)
    requires k > 0 && n < Pow10(k)
    ensures |Dec(n)| <= k
  {
    DecCanonical(n);
    if |Dec(n)| > 1 {
      ValPositive(Dec(n));
      if |Dec(n)| > k {
        Pow10Monotone(k, |Dec(n)| - 1);
      }
    }
  }

  /** A longer canonical numeral is a greater number. */
  lemma ShorterIsLess(a: string, b: string)
    requires Canonical(a) && Canonical(b) && |a| < |b|
    ensures Val(a) < Val(b)
  {
    ValBound(a);
    ValPositive(b);
    Pow10Monotone(|a|, |b| - 1);
  }

  /** Numerals of one length are ordered by their bytes. */
  lemma {:induction false} SameLengthByBytes(a: string, b: string)
    requires AllDigits(a) && AllDigits(b) && |a| == |b|
    ensures StrLess(a, b) <==> Val(a) < Val(b)
    ensures a == b <==> Val(a) == Val(b)
  {
    if a != "" {
      var n := |a| - 1;
      SameLengthByBytes(a[..n], b[..n]);
      StrLessByLast(a, b);
      assert a == a[..n] + [a[n]] && b == b[..n] + [b[n]];
    }
  }

  // ----- Reading integers

  predicate DigitLed(p: string) {
    p != "" && IsDigit(p[0])
  }

  /** The number at the front of a text. */
  function Num(p: string): nat {
    Val(Lead(p))
  }

  predicate InInt(n: int) {
    INT_MIN <= n <= INT_MAX
  }

  /** `std::stoi`: white space, an optional sign, then the longest digit run. */
  function Stoi(s: string): Outcome<int> {
    var body := TrimFront(s);
    var signed := body != "" && (body[0] == '-' || body[0] == '+');
    var digits := Lead(if signed then body[1..] else body);
    var magnitude: int := Val(digits);
    var n := if signed && body[0] == '-' then -magnitude else magnitude;
    if digits == "" then Faults(InvalidArgument)
    else if InInt(n) then Returns(n)
    else Faults(OutOfRange)
  }

  /** A text without white space and one plus sign in front. */
  function Unmarked(p: string): (u: string)
    ensures DigitLed(p) ==> u == p
  {
    var body := TrimFront(p);
    if body != "" && body[0] == '+' then body[1..] else body
  }

  /** The integer that a text starts with, behind white space and a sign. */
  function Reading(p: string): Option<int> {
    var body := TrimFront(p);
    if DigitLed(Unmarked(p)) then Some(Num(Unmarked(p)))
    else if body != "" && body[0] == '-' && DigitLed(body[1..]) then
      var n: int := Num(body[1..]);
      Some(-n)
    else None
  }

  lemma LeadOfDigits(p: string)
    ensures Lead(p) == "" <==> !DigitLed(p)
  {
  }

  /** `std::stoi` returns that integer when it is an `int`. */
  lemma StoiReads(p: string)
    ensures Stoi(p) ==
            if Reading(p) == None then Faults(InvalidArgument)
            else if InInt(Reading(p).value) then Returns(Reading(p).value)
            else Faults(OutOfRange)
  {
    var body := TrimFront(p);
    LeadOfDigits(body);
    if body != "" {
      LeadOfDigits(body[1..]);
    }
  }

  /** `std::from_chars` into an `int`: like `Stoi`, but neither white space nor `+` is accepted. */
  function FromChars(s: string): Option<int> {
    var negative := s != "" && s[0] == '-';
    var digits := Lead(if negative then s[1..] else s);
    var magnitude: int := Val(digits);
    var n := if negative then -magnitude else magnitude;
    if digits == "" || !InInt(n) then None else Some(n)
  }

  lemma ReadDigitLed(p: string)
    requires DigitLed(p)
    ensures Stoi(p) == if Num(p) <= INT_MAX then Returns(Num(p)) else Faults(OutOfRange)
    ensures FromChars(p) == if Num(p) <= INT_MAX then Some(Num(p)) else None
  {
    assert Lead(p) != "";
  }

  lemma NumOfDigits(s: string)
    requires AllDigits(s)
    ensures Lead(s) == s && Num(s) == Val(s)
  {
    assert s == s + "";
    LeadIs(s, s, "");
  }

  lemma NumOfDec(n: nat)
    ensures DigitLed(Dec(n)) && Num(Dec(n)) == n
  {
    DecCanonical(n);
    NumOfDigits(Dec(n));
  }

  lemma ReadingOfDec(n: nat)
    ensures Reading(Dec(n)) == Some(n)
  {
    NumOfDec(n);
  }

  // ----- What is read, character by character

  /** White space, a sign if any, digits, and something else or nothing. */
  ghost predicate IsNumeralIn(s: string, front: string, sign: string, digits: string, rest: string) {
    && OnlyWhite(front) && (sign == "" || sign == "+" || sign == "-")
    && digits != "" && (forall i | 0 <= i < |digits| :: '0' <= digits[i] <= '9')
    && (rest != "" ==> !('0' <= rest[0] <= '9'))
    && s == front + (sign + (digits + rest))
  }

  function Signed(sign: string, digits: string): int
    requires AllDigits(digits)
  {
    var n: int := Val(digits);
    if sign == "-" then -n else n
  }

  lemma BodyIs(s: string, front: string, sign: string, digits: string, rest: string)
    requires IsNumeralIn(s, front, sign, digits, rest)
    ensures TrimFront(s) == sign + (digits + rest)
  {
    WhiteIsSpace(front);
    TrimFrontExact(front, sign + (digits + rest));
  }

  lemma SignedBody(sign: string, digits: string, rest: string)
    requires sign == "" || sign == "+" || sign == "-"
    ensures (sign + (digits + rest))[|sign|..] == digits + rest
    ensures sign != "" ==> (sign + (digits + rest))[0] == sign[0]
    ensures sign == "" && digits != "" ==> (sign + (digits + rest))[0] == digits[0]
  {
  }

  /** What `std::stoi` makes of its text behind white space. */
  lemma StoiOfBody(s: string, sign: string, digits: string, rest: string)
    requires TrimFront(s) == sign + (digits + rest) && (sign == "" || sign == "+" || sign == "-")
    requires digits != "" && AllDigits(digits) && (rest != "" ==> !IsDigit(rest[0]))
    ensures var n := Signed(sign, digits); Stoi(s) == if InInt(n) then Returns(n) else Faults(OutOfRange)
  {
    SignedBody(sign, digits, rest);
    LeadIs(digits + rest, digits, rest);
  }

  /** `std::stoi` reads exactly such texts, to the number of the digits with its sign, and that must
      be from -2147483648 to 2147483647. */
  lemma StoiOfNumeral(s: string, front: string, sign: string, digits: string, rest: string)
    requires IsNumeralIn(s, front, sign, digits, rest)
    ensures var n := Signed(sign, digits);
            Stoi(s) == if -2147483648 <= n <= 2147483647 then Returns(n) else Faults(OutOfRange)
  {
    BodyIs(s, front, sign, digits, rest);
    StoiOfBody(s, sign, digits, rest);
  }

  lemma StoiHasDigits(s: string)
    requires Stoi(s) != Faults(InvalidArgument)
    ensures var body := TrimFront(s);
            body != "" && DigitLed(if body[0] == '-' || body[0] == '+' then body[1..] else body)
  {
    StoiReads(s);
  }

  lemma LeadSplits(s: string)
    requires DigitLed(s)
    ensures var d := Lead(s); var rest := s[|d|..];
            s == d + rest && d != "" && (rest != "" ==> !IsDigit(rest[0]))
  {
  }

  lemma BodyParts(body: string) returns (sign: string, digits: string, rest: string)
    requires body != "" && DigitLed(if body[0] == '-' || body[0] == '+' then body[1..] else body)
    ensures (sign == "" || sign == "+" || sign == "-") && digits != "" && AllDigits(digits)
    ensures (rest != "" ==> !IsDigit(rest[0])) && body == sign + (digits + rest)
  {
    sign := if body[0] == '-' then "-" else if body[0] == '+' then "+" else "";
    var tail := if sign == "" then body else body[1..];
    LeadSplits(tail);
    digits := Lead(tail);
    rest := tail[|digits|..];
    assert body == sign + tail;
  }

  lemma StoiFinds(s: string) returns (front: string, sign: string, digits: string, rest: string)
    requires Stoi(s) != Faults(InvalidArgument)
    ensures IsNumeralIn(s, front, sign, digits, rest)
  {
    StoiHasDigits(s);
    front := TrimFrontParts(s);
    WhiteIsSpace(front);
    sign, digits, rest := BodyParts(TrimFront(s));
  }

  lemma FromCharsOfBody(s: string, sign: string, digits: string, rest: string)
    requires s == sign + (digits + rest) && (sign == "" || sign == "-")
    requires digits != "" && AllDigits(digits) && (rest != "" ==> !IsDigit(rest[0]))
    ensures var n := Signed(sign, digits); FromChars(s) == if InInt(n) then Some(n) else None
  {
    SignedBody(sign, digits, rest);
    LeadIs(digits + rest, digits, rest);
  }

  /** `std::from_chars` does the same without white space and plus sign. */
  lemma FromCharsOfNumeral(s: string, sign: string, digits: string, rest: string)
    requires IsNumeralIn(s, "", sign, digits, rest) && sign != "+"
    ensures FromChars(s) ==
            if -2147483648 <= Signed(sign, digits) <= 2147483647 then Some(Signed(sign, digits)) else None
  {
    assert s == sign + (digits + rest);
    FromCharsOfBody(s, sign, digits, rest);
  }

  lemma FromCharsFinds(s: string) returns (sign: string, digits: string, rest: string)
    requires FromChars(s).Some?
    ensures IsNumeralIn(s, "", sign, digits, rest) && sign != "+"
  {
    sign := if s[0] == '-' then "-" else "";
    var tail := s[|sign|..];
    digits := Lead(tail);
    rest := tail[|digits|..];
    assert tail == digits + rest && s == "" + (sign + tail);
  }

  /** What is printed is read back. */
  lemma ReadsBack(n: int)
    requires -2147483648 <= n <= 2147483647
    ensures Stoi(DecInt(n)) == Returns(n) && FromChars(DecInt(n)) == Some(n)
  {
    var sign, digits := if n < 0 then "-" else "", Dec(if n < 0 then -n else n);
    DecCanonical(if n < 0 then -n else n);
    assert digits + "" == digits && "" + (sign + digits) == sign + digits == DecInt(n);
    assert IsNumeralIn(DecInt(n), "", sign, digits, "");
    StoiOfNumeral(DecInt(n), "", sign, digits, "");
    FromCharsOfNumeral(DecInt(n), sign, digits, "");
  }

  /** Leading zeros count for nothing. */
  lemma {:induction false} LeadingZeros(zeros: string, digits: string)
    requires AllDigits(zeros + digits) && forall i | 0 <= i < |zeros| :: zeros[i] == '0'
    ensures AllDigits(digits) && Val(zeros + digits) == Val(digits)
    decreases |digits|, |zeros|
  {
    assert forall i | 0 <= i < |digits| :: digits[i] == (zeros + digits)[|zeros| + i];
    if digits != "" {
      var n := |digits| - 1;
      assert (zeros + digits)[..|zeros| + n] == zeros + digits[..n];
      LeadingZeros(zeros, digits[..n]);
    } else if zeros != "" {
      var n := |zeros| - 1;
      assert zeros + "" == zeros && zeros[..n] + "" == zeros[..n];
      LeadingZeros(zeros[..n], "");
    }
  }
}
