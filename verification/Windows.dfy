/** What the caret and tilde bounds mean: which texts have one, and which releases lie below it. */
module Windows {
  import opened Text
  import opened Decimal
  import opened FieldSplitting
  import opened Releases
  import opened PartOrder
  import opened Agreement
  import opened Coercion
  import opened Bounds
  import opened Bumps

  // ----- Caret and tilde windows

  /** `w` agrees with `t` up to and including the leftmost non-zero number of `t`. */
  predicate SameLeading(t: Triple, w: Triple) {
    && w.major == t.major
    && (t.major > 0 || (w.minor == t.minor && (t.minor > 0 || w.patch == t.patch)))
  }

  predicate SameMinor(t: Triple, w: Triple) {
    w.major == t.major && w.minor == t.minor
  }

  /** The caret bound is empty without a digit, and else depends on the numbers scanned only. */
  lemma CaretOutcome(version: string)
    ensures CaretBound(version) == Returns("") <==> NoDigit(version)
    ensures Scan(version).Some? ==>
              CaretBound(version) == CaretOfNumbers(Scan(version).value)
  {
    CoerceFindsDigits(version);
    if Scan(version).Some? {
      assert Rel(CaretEnd(Scan(version).value)) != "";
    }
  }

  /** The numbers are `int`s, and adding 1 to the leftmost that is not 0 is defined. */
  predicate CaretCounts(t: Triple) {
    Below(t, INT_MAX + 1) && CaretCounter(t) < INT_MAX
  }

  lemma CaretTextIs(version: string, t: Triple)
    requires Scan(version) == Some(t)
    ensures CaretBound(version).Returns? <==> CaretCounts(t)
    ensures CaretCounts(t) ==> CaretBound(version) == Returns(Rel(CaretEnd(t)))
  {
    CaretOutcome(version);
  }

  lemma NextLeading(t: Triple, w: Triple)
    requires !Before(w, t)
    ensures SemLess(Rel(w), Rel(CaretEnd(t))) <==> SameLeading(t, w)
  {
    SemLessOnReleases(w, CaretEnd(t));
  }

  /** A text with numbers has a caret bound exactly when those can count on, and then below the
      bound are, from its numbers on, the releases that keep its leading numbers. */
  lemma CaretOfText(version: string, t: Triple, w: Triple)
    requires Scan(version) == Some(t)
    ensures CaretBound(version).Returns? <==> CaretCounts(t)
    ensures CaretCounts(t) && !Before(w, t) ==>
              (SemLess(Rel(w), CaretBound(version).value) <==> SameLeading(t, w))
  {
    CaretTextIs(version, t);
    if !Before(w, t) {
      NextLeading(t, w);
    }
  }

  lemma CaretOfRelease(t: Triple)
    requires Below(t, INT_MAX)
    ensures CaretBound(Rel(t)) == Returns(Rel(CaretEnd(t)))
  {
    ScanOfRel(t);
    CaretTextIs(Rel(t), t);
  }

  lemma NextMinor(x: nat, y: nat, w: Triple)
    requires !Before(w, Triple(x, y, 0))
    ensures SemLess(Rel(w), Rel(Triple(x, y + 1, 0))) <==> w.major == x && w.minor == y
  {
    SemLessOnReleases(w, Triple(x, y + 1, 0));
  }

  lemma NextMinorText(x: nat, y: nat)
    requires y < INT_MAX
    ensures TildeOfNumbers(x, y) == Returns(Rel(Triple(x, y + 1, 0)))
  {
    NumbersOfTriple(Triple(x, y + 1, 0));
  }

  predicate IsIntPiece(p: string) {
    Reading(p).Some? && InInt(Reading(p).value)
  }

  /** Both pieces start with `int`s, signed or not, and adding 1 to the second is defined. */
  predicate TildeReadable(parts: seq<string>) {
    && |parts| >= 2 && IsIntPiece(parts[0]) && IsIntPiece(parts[1])
    && Reading(parts[1]).value < INT_MAX
  }

  lemma TildeText(parts: seq<string>)
    requires |parts| >= 2 && IsIntPiece(parts[0]) && IsIntPiece(parts[1])
    ensures TildeOfPieces(parts) == TildeOfNumbers(Reading(parts[0]).value, Reading(parts[1]).value)
  {
    StoiReads(parts[0]);
    StoiReads(parts[1]);
  }

  lemma TildeReturns(parts: seq<string>)
    ensures TildeOfPieces(parts).Returns? <==> TildeReadable(parts)
  {
    if |parts| > 0 {
      StoiReads(parts[0]);
    }
    if |parts| > 1 {
      StoiReads(parts[1]);
    }
  }

  lemma TildeOfPieceNumbers(parts: seq<string>, x: nat, y: nat)
    requires |parts| >= 2 && Reading(parts[0]) == Some(x) && Reading(parts[1]) == Some(y)
    requires x <= INT_MAX && y < INT_MAX
    ensures TildeOfPieces(parts) == Returns(Rel(Triple(x, y + 1, 0)))
  {
    TildeText(parts);
    NextMinorText(x, y);
  }

  /** The tilde bound from the pieces alone: without two readable numbers in front there is none,
      and otherwise the releases below it, from `x.y.0` on, are the releases `x.y.z`. */
  lemma TildeOutcome(parts: seq<string>, x: nat, y: nat, w: Triple)
    ensures TildeOfPieces(parts).Returns? <==> TildeReadable(parts)
    ensures TildeReadable(parts) && Reading(parts[0]) == Some(x) && Reading(parts[1]) == Some(y)
            && !Before(w, Triple(x, y, 0)) ==>
              (SemLess(Rel(w), TildeOfPieces(parts).value) <==> w.major == x && w.minor == y)
  {
    TildeReturns(parts);
    if TildeReadable(parts) && Reading(parts[0]) == Some(x) && Reading(parts[1]) == Some(y) {
      TildeOfPieceNumbers(parts, x, y);
      if !Before(w, Triple(x, y, 0)) {
        NextMinor(x, y, w);
      }
    }
  }

  lemma PiecesOfRelease(t: Triple)
    ensures WithoutEmptyEnd(DotParts(Rel(t))) == Numerals(t)
  {
    DotPartsOfRel(t);
  }

  lemma TildeOfNumerals(t: Triple)
    requires Below(t, INT_MAX)
    ensures TildeOfPieces(Numerals(t)) == Returns(Rel(Triple(t.major, t.minor + 1, 0)))
  {
    ReadingOfDec(t.major);
    ReadingOfDec(t.minor);
    TildeOfPieceNumbers(Numerals(t), t.major, t.minor);
  }

  lemma TildeOfRelease(t: Triple)
    requires Below(t, INT_MAX)
    ensures TildeBound(Rel(t)) == Returns(Rel(Triple(t.major, t.minor + 1, 0)))
  {
    ScanOfRel(t);
    PiecesOfRelease(t);
    TildeOfNumerals(t);
  }

  /** The caret window of a release holds the releases from it on that keep its leading numbers. */
  lemma CaretWindow(t: Triple, w: Triple)
    requires Below(t, INT_MAX)
    ensures CaretBound(Rel(t)).Returns?
    ensures Satisfies(Rel(w), Ge, Rel(t)) && Satisfies(Rel(w), Lt, CaretBound(Rel(t)).value)
            <==> !Before(w, t) && SameLeading(t, w)
  {
    CaretOfRelease(t);
    SemLessOnReleases(w, t);
    SemLessOnReleases(w, CaretEnd(t));
  }

  /** The tilde window of a release holds the releases from it on that keep its major and minor. */
  lemma TildeWindow(t: Triple, w: Triple)
    requires Below(t, INT_MAX)
    ensures TildeBound(Rel(t)).Returns?
    ensures Satisfies(Rel(w), Ge, Rel(t)) && Satisfies(Rel(w), Lt, TildeBound(Rel(t)).value)
            <==> !Before(w, t) && SameMinor(t, w)
  {
    TildeOfRelease(t);
    SemLessOnReleases(w, t);
    SemLessOnReleases(w, Triple(t.major, t.minor + 1, 0));
  }

  lemma PiecesOfTwo(a: string, b: string, rest: string)
    requires '.' !in a && '.' !in b && b != "" && (rest != "" ==> rest[0] == '.')
    ensures var parts := WithoutEmptyEnd(DotParts(a + "." + b + rest));
            |parts| >= 2 && parts[0] == a && parts[1] == b
  {
    assert a + "." + b + rest == a + ("." + (b + rest));
    FieldsAt(a, '.', b + rest, DOT);
    FieldsAfter(b, rest, DOT);
    if rest == "" {
      assert b + rest == b;
      OneField(b, DOT);
    } else {
      assert rest == "" + ("." + rest[1..]);
      FieldsAt("", '.', rest[1..], DOT);
    }
  }

  lemma TildeBoundOfPieces(version: string, parts: seq<string>)
    requires Scan(version).Some? && Below(Scan(version).value, LLONG_MAX + 1)
    requires parts == WithoutEmptyEnd(DotParts(version))
    ensures TildeBound(version) == TildeOfPieces(parts)
  {
  }

  lemma NextMinorSpelled(x: nat, y: nat)
    ensures Rel(Triple(x, y + 1, 0)) == Dec(x) + "." + Dec(y + 1) + ".0"
  {
    assert Dec(0) == "0";
    RelText(Triple(x, y + 1, 0));
    assert Dec(x) + "." + Dec(y + 1) + "." + "0" == Dec(x) + "." + Dec(y + 1) + ".0";
  }

  /** The tilde bound of a text up to its second dot, hyphens and all: the numbers `x` and `y` that
      start the two pieces before give `x.(y+1).0`. */
  lemma TildeOfText(version: string, a: string, b: string, rest: string, x: nat, y: nat)
    requires version == a + "." + b + rest
    requires '.' !in a && '.' !in b && b != "" && (rest != "" ==> rest[0] == '.')
    requires Reading(a) == Some(x) && Reading(b) == Some(y) && x <= 2147483647 && y < 2147483647
    requires Scan(version).Some? && Below(Scan(version).value, 9223372036854775808)
    ensures TildeBound(version) == Returns(Dec(x) + "." + Dec(y + 1) + ".0")
  {
    var parts := WithoutEmptyEnd(DotParts(version));
    PiecesOfTwo(a, b, rest);
    TildeBoundOfPieces(version, parts);
    TildeOfPieceNumbers(parts, x, y);
    NextMinorSpelled(x, y);
  }
}
