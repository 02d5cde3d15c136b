/** Build metadata: `<=>` ignores it, `compareSemVer` does not. */
module Builds {
  import opened Text
  import opened Decimal
  import opened FieldSplitting
  import opened Versions
  import opened Precedence
  import opened Releases
  import opened PartOrder

  function Last(fields: seq<string>): string
    requires fields != []
  {
    fields[|fields| - 1]
  }

  /** The last of one list and the first of the other become one. */
  function Merged(f: seq<string>, g: seq<string>): (fields: seq<string>)
    requires f != [] && g != []
    ensures fields != []
  {
    f[..|f| - 1] + ([Last(f) + g[0]] + g[1..])
  }

  lemma MergedBehind(f: seq<string>, g: seq<string>)
    requires f != [] && g != []
    ensures [""] + Merged(f, g) == Merged([""] + f, g)
  {
  }

  lemma MergedExtended(c: char, f: seq<string>, g: seq<string>)
    requires f != [] && g != []
    ensures [[c] + Merged(f, g)[0]] + Merged(f, g)[1..] == Merged([[c] + f[0]] + f[1..], g)
  {
    if |f| == 1 {
      assert [c] + (f[0] + g[0]) == ([c] + f[0]) + g[0];
    }
  }

  lemma MergedEmpty(g: seq<string>)
    requires g != []
    ensures Merged([""], g) == g
  {
    assert "" + g[0] == g[0];
  }

  /** Appending a text extends the last field and adds the others. */
  lemma {:induction false} FieldsAppend(s: string, t: string, separators: set<char>)
    ensures Fields(s + t, separators) == Merged(Fields(s, separators), Fields(t, separators))
  {
    var g := Fields(t, separators);
    if s == "" {
      assert s + t == t;
      MergedEmpty(g);
    } else {
      assert (s + t)[1..] == s[1..] + t;
      FieldsAppend(s[1..], t, separators);
      var rest := Fields(s[1..], separators);
      if s[0] in separators {
        MergedBehind(rest, g);
      } else {
        MergedExtended(s[0], rest, g);
      }
    }
  }

  /** A build up to its first dot or hyphen, and what follows that. */
  function FrontOf(build: string): string {
    build[..Find(build, SEPARATORS, 0)]
  }

  function After(build: string): string {
    var k := Find(build, SEPARATORS, 0);
    if k == |build| then "" else build[k + 1..]
  }

  lemma FieldsOfBuild(build: string) returns (rest: seq<string>)
    ensures Fields("+" + build, SEPARATORS) == ["+" + FrontOf(build)] + rest
    ensures Parts(After(build)) == if rest == [] then [] else WithoutEmptyEnd(rest)
  {
    rest := Fields(build, SEPARATORS)[1..];
    assert ("+" + build)[1..] == build;
    var k := Find(build, SEPARATORS, 0);
    if k == |build| {
      OneField(build, SEPARATORS);
      assert build[..k] == build && Parts("") == [];
    } else {
      Rejoin(build, k);
      FieldsAt(build[..k], build[k], build[k + 1..], SEPARATORS);
      assert rest == Fields(After(build), SEPARATORS);
    }
  }

  lemma KeptFront(front: seq<string>, part: string, rest: seq<string>)
    requires part != ""
    ensures WithoutEmptyEnd(front + ([part] + rest)) ==
            front + ([part] + if rest == [] then [] else WithoutEmptyEnd(rest))
  {
    var all := front + ([part] + rest);
    if rest == [] {
      assert all == front + [part] && all[|all| - 1] == part;
    } else {
      assert all == (front + [part]) + rest;
      KeepFront(front + [part], rest);
      assert (front + [part]) + WithoutEmptyEnd(rest) == front + ([part] + WithoutEmptyEnd(rest));
    }
  }

  lemma PlusExtends(p: string, more: string)
    requires p != ""
    ensures var q := p + ("+" + more);
            if DigitLed(p) then PartTies(p, q) && PartTies(q, p)
            else PartLess(p, q) && !PartLess(q, p) && !PartTies(q, p)
  {
    var q := p + ("+" + more);
    if DigitLed(p) {
      var d := Lead(p);
      assert p == d + p[|d|..];
      assert q == d + (p[|d|..] + ("+" + more));
      LeadIs(q, d, p[|d|..] + ("+" + more));
    } else {
      StrLessAt(p, q, |p|);
      StrLessTotal(p, q);
    }
  }

  /** The last part against itself with a build behind it. */
  lemma LastAgainstBuilt(p: string, more: string, rest: seq<string>)
    ensures var a, b := OneUnlessEmpty(p), [p + ("+" + more)] + rest;
            && (PartsLess(a, b) <==> !DigitLed(p) || rest != [])
            && !PartsLess(b, a)
  {
    if p != "" {
      PlusExtends(p, more);
    }
  }

  function Front(text: string): seq<string> {
    var f := Fields(text, SEPARATORS);
    f[..|f| - 1]
  }

  function OneUnlessEmpty(p: string): seq<string> {
    if p == "" then [] else [p]
  }

  lemma PartsOfText(text: string)
    ensures Parts(text) == Front(text) + OneUnlessEmpty(LastField(text))
  {
    var f := Fields(text, SEPARATORS);
    assert f == Front(text) + [Last(f)];
    DropEmptyEnd(Front(text), Last(f));
    assert Front(text) + [] == Front(text);
  }

  lemma PartsOfBuilt(text: string, build: string)
    ensures Parts(text + ("+" + build)) ==
            Front(text) + ([LastField(text) + ("+" + FrontOf(build))] + Parts(After(build)))
  {
    var more := FieldsOfBuild(build);
    FieldsAppend(text, "+" + build, SEPARATORS);
    assert (["+" + FrontOf(build)] + more)[1..] == more;
    KeptFront(Front(text), LastField(text) + ("+" + FrontOf(build)), more);
  }

  lemma SomeParts(text: string)
    ensures Parts(text) == [] <==> text == ""
  {
    if text != "" {
      FirstPart(text);
    }
  }

  lemma TextAgainstBuilt(text: string, build: string)
    ensures SemLess(text, text + ("+" + build)) <==> !DigitLed(LastField(text)) || After(build) != ""
    ensures !SemLess(text + ("+" + build), text)
  {
    PartsOfBuilt(text, build);
    PartsOfText(text);
    SomeParts(After(build));
    var p := LastField(text);
    var a, b := OneUnlessEmpty(p), [p + ("+" + FrontOf(build))] + Parts(After(build));
    SameFront(Front(text), a, b);
    SameFront(Front(text), b, a);
    LastAgainstBuilt(p, FrontOf(build), Parts(After(build)));
  }

  lemma BuiltNumber(p: string, more: string)
    requires DigitLed(p)
    ensures DigitLed(p + ("+" + more)) && Num(p + ("+" + more)) == Num(p)
  {
    PlusExtends(p, more);
  }

  lemma BuiltParts(p: string, f: string, g: string)
    ensures DigitLed(p) ==> PartTies(p + ("+" + f), p + ("+" + g))
    ensures !DigitLed(p) ==>
              && (PartLess(p + ("+" + f), p + ("+" + g)) <==> StrLess(f, g))
              && (PartTies(p + ("+" + f), p + ("+" + g)) <==> f == g)
  {
    if DigitLed(p) {
      BuiltNumber(p, f);
      BuiltNumber(p, g);
    } else {
      StrLessCommonFront(p, "+" + f, "+" + g);
      StrLessCommonFront("+", f, g);
      var a, b := p + ("+" + f), p + ("+" + g);
      assert f == a[|p| + 1..] && g == b[|p| + 1..];
      assert a[0] == if p == "" then '+' else p[0];
      assert b[0] == if p == "" then '+' else p[0];
    }
  }

  /** Two builds behind one text: after a number only what follows their first dot or hyphen counts,
      after anything else what comes before it counts first. */
  lemma BuiltAgainstBuilt(text: string, b: string, c: string)
    ensures SemLess(text + ("+" + b), text + ("+" + c)) <==>
            if DigitLed(LastField(text)) then SemLess(After(b), After(c))
            else StrLess(FrontOf(b), FrontOf(c)) || (FrontOf(b) == FrontOf(c) && SemLess(After(b), After(c)))
  {
    var p := LastField(text);
    var f, g := p + ("+" + FrontOf(b)), p + ("+" + FrontOf(c));
    PartsOfBuilt(text, b);
    PartsOfBuilt(text, c);
    SameFront(Front(text), [f] + Parts(After(b)), [g] + Parts(After(c)));
    HeadDecides(f, Parts(After(b)), g, Parts(After(c)));
    BuiltParts(p, FrontOf(b), FrontOf(c));
    PartLaws(f, g, "");
  }

  /** The printed version ends in a number, as every release does. */
  predicate EndsInNumber(v: Version) {
    v.preRelease == None || DigitLed(LastField(v.preRelease.value))
  }

  lemma LastOfPrinted(v: Version)
    requires Numbered(v) && v.build == None
    ensures DigitLed(LastField(Print(v))) <==> EndsInNumber(v)
  {
    FieldsAt(v.major, '.', FromMinor(v), SEPARATORS);
    FieldsAt(v.minor, '.', FromPatch(v), SEPARATORS);
    if v.preRelease == None {
      assert FromPatch(v) == v.patch;
      OneField(v.patch, SEPARATORS);
    } else {
      assert FromPatch(v) == v.patch + ("-" + v.preRelease.value);
      FieldsAt(v.patch, '-', v.preRelease.value, SEPARATORS);
    }
  }

  lemma BuildTies(v: Version, build: Option<string>)
    ensures Compare(v, v.(build := build)) == Equal
  {
    CompareIsTotal(v, v.(build := build), v);
  }

  lemma PrintWithBuild(v: Version, build: string)
    requires v.build == None
    ensures Print(v.(build := Some(build))) == Print(v) + ("+" + build)
  {
  }

  /** A build never lowers a version for `compareSemVer`, and raises it unless the version ends in
      a number and nothing follows the first dot or hyphen of the build; `<=>` sees no difference. */
  lemma BuildRaisesExactly(v: Version, build: string)
    requires Numbered(v) && v.build == None
    ensures var w := v.(build := Some(build));
            && Compare(v, w) == Equal && !SemLess(Print(w), Print(v))
            && (SemLess(Print(v), Print(w)) <==> !EndsInNumber(v) || After(build) != "")
  {
    BuildTies(v, Some(build));
    PrintWithBuild(v, build);
    LastOfPrinted(v);
    TextAgainstBuilt(Print(v), build);
  }

  /** Two versions that differ only in the build: `<=>` sees no difference, and `compareSemVer`
      orders them by what follows the first dot or hyphen of the builds, after first comparing what
      comes before it when the version does not end in a number. */
  lemma BuildsCompareExactly(v: Version, b: string, c: string)
    requires Numbered(v) && v.build == None
    ensures var first, second := v.(build := Some(b)), v.(build := Some(c));
            && Compare(first, second) == Equal
            && (SemLess(Print(first), Print(second)) <==>
                if EndsInNumber(v) then SemLess(After(b), After(c))
                else StrLess(FrontOf(b), FrontOf(c)) || (FrontOf(b) == FrontOf(c) && SemLess(After(b), After(c))))
  {
    BuildTies(v.(build := Some(b)), Some(c));
    PrintWithBuild(v, b);
    PrintWithBuild(v, c);
    LastOfPrinted(v);
    BuiltAgainstBuilt(Print(v), b, c);
  }

  /** So the builds do not matter exactly when what follows ties, and what comes before is the same
      unless the version ends in a number. */
  lemma BuildsTieExactly(v: Version, b: string, c: string)
    requires Numbered(v) && v.build == None
    ensures var x, y := Print(v.(build := Some(b))), Print(v.(build := Some(c)));
            !SemLess(x, y) && !SemLess(y, x) <==>
            PartsTie(Parts(After(b)), Parts(After(c))) && (EndsInNumber(v) || FrontOf(b) == FrontOf(c))
  {
    BuildsCompareExactly(v, b, c);
    BuildsCompareExactly(v, c, b);
    StrLessTotal(FrontOf(b), FrontOf(c));
    SemLessIsStrictWeak(After(b), After(c), "");
  }
}
