/** `parse`, `validate` and `clean`. */
module Parser {
  import opened Text
  import opened Decimal
  import opened Versions

  /** What `parse` must answer: the well-formed version that the trimmed input is the print of. */
  ghost function Parsed(input: string): Result<Version> {
    if |input| > MAX_VERSION_LENGTH then
      Err(VersionLargerThanMaxLength)
    else if exists v :: Denotes(Trim(input), v) then
      var v :| Denotes(Trim(input), v);
      Ok(v)
    else
      Err(InvalidInput)
  }

  lemma ParsedIs(input: string, v: Version)
    requires |input| <= MAX_VERSION_LENGTH && Denotes(Trim(input), v)
    ensures Parsed(input) == Ok(v)
  {
    PrintInjective(Trim(input), v, Parsed(input).value);
  }

  lemma EmptyPreRelease(rest: string)
    requires Find(rest, {'+'}, 0) == 0
    ensures forall v :: !DenotesLabels("-" + rest, v)
  {
    forall v ensures !DenotesLabels("-" + rest, v) {
      PreReleaseEndsAtPlus(rest, v);
    }
  }

  lemma EmptyBuildAfterPreRelease(rest: string)
    requires Find(rest, {'+'}, 0) == |rest| - 1
    ensures forall v :: !DenotesLabels("-" + rest, v)
  {
    forall v ensures !DenotesLabels("-" + rest, v) {
      PreReleaseEndsAtPlus(rest, v);
    }
  }

  lemma EmptyBuild()
    ensures forall v :: !DenotesLabels("+" + "", v)
  {
    forall v ensures !DenotesLabels("+" + "", v) {
      BuildIsTheRest("", v);
    }
  }

  // `parse` reads field after field off one shrinking view. Each stage below fills in the fields
  // from its own on, and rejects only a text that no well-formed fields print as.

  method ParseLabels(version: Version, rest: View) returns (r: Result<Version>)
    requires rest.text != "" && (rest.text[0] == '-' || rest.text[0] == '+')
    modifies rest
    ensures r.Ok? ==>
              && r.value == version.(preRelease := r.value.preRelease, build := r.value.build)
              && DenotesLabels(old(rest.text), r.value)
    ensures r.Err? ==> r.error == InvalidInput && forall v :: !DenotesLabels(old(rest.text), v)
  {
    var labelled := version.(preRelease := None, build := None);
    var isPreRelease := rest.text[0] == '-';
    rest.RemovePrefix(1);
    ghost var tail := rest.text;
    assert old(rest.text) == (if isPreRelease then "-" else "+") + tail;
    if isPreRelease {
      var plus := Find(rest.text, {'+'}, 0);
      var preRelease := rest.text[..plus];
      if preRelease == "" {
        EmptyPreRelease(tail);
        return Err(InvalidInput);
      }
      labelled := labelled.(preRelease := Some(preRelease));
      if plus == |rest.text| {
        PreReleaseEndsAtPlus(tail, labelled);
        return Ok(labelled);
      }
      rest.RemovePrefix(plus + 1);
    }
    if rest.text == "" {
      if isPreRelease {
        EmptyBuildAfterPreRelease(tail);
      } else {
        EmptyBuild();
      }
      return Err(InvalidInput);
    }
    labelled := labelled.(build := Some(rest.text));
    if isPreRelease {
      PreReleaseEndsAtPlus(tail, labelled);
    } else {
      BuildIsTheRest(tail, labelled);
    }
    return Ok(labelled);
  }

  method ParseFromPatch(version: Version, rest: View) returns (r: Result<Version>)
    modifies rest
    ensures r.Ok? ==>
              && r.value.major == version.major && r.value.minor == version.minor
              && DenotesFromPatch(old(rest.text), r.value)
    ensures r.Err? ==> r.error == InvalidInput && forall v :: !DenotesFromPatch(old(rest.text), v)
  {
    forall v {
      PatchEndsAtLabel(rest.text, v);
    }
    var end := Find(rest.text, {'-', '+'}, 0);
    var patch := rest.text[..end];
    if patch == "" || (patch[0] == '0' && |patch| > 1) {
      return Err(InvalidInput);
    }
    if !AllDigits(patch) {
      return Err(InvalidInput);
    }
    var patched := version.(patch := patch, preRelease := None, build := None);
    if end == |rest.text| {
      NoLabels(patched);
      return Ok(patched);
    }
    rest.RemovePrefix(end);
    r := ParseLabels(patched, rest);
  }

  method ParseFromMinor(version: Version, rest: View) returns (r: Result<Version>)
    modifies rest
    ensures r.Ok? ==> r.value.major == version.major && DenotesFromMinor(old(rest.text), r.value)
    ensures r.Err? ==> r.error == InvalidInput && forall v :: !DenotesFromMinor(old(rest.text), v)
  {
    forall v {
      MinorEndsAtDot(rest.text, v);
    }
    var dot := Find(rest.text, {'.'}, 0);
    if dot == |rest.text| {
      return Err(InvalidInput);
    }
    var minor := rest.text[..dot];
    if minor == "" || (minor[0] == '0' && |minor| > 1) {
      return Err(InvalidInput);
    }
    if !AllDigits(minor) {
      return Err(InvalidInput);
    }
    rest.RemovePrefix(dot + 1);
    r := ParseFromPatch(version.(minor := minor), rest);
  }

  method Parse(input: string) returns (r: Result<Version>)
    ensures r == Parsed(input)
  {
    if |input| > MAX_VERSION_LENGTH {
      return Err(VersionLargerThanMaxLength);
    }
    var rest := new View(input);
    TrimWhitespace(rest);
    ghost var text := rest.text;
    forall v {
      MajorEndsAtDot(text, v);
    }
    var dot := Find(rest.text, {'.'}, 0);
    if dot == |rest.text| {
      return Err(InvalidInput);
    }
    var major := rest.text[..dot];
    if major == "" || major[0] == '0' {
      return Err(InvalidInput);
    }
    if !AllDigits(major) {
      return Err(InvalidInput);
    }
    rest.RemovePrefix(dot + 1);
    r := ParseFromMinor(Version(major, "", ""), rest);
    if r.Ok? {
      ParsedIs(input, r.value);
    }
  }

  method Validate(input: string) returns (valid: bool)
    ensures valid <==> |input| <= MAX_VERSION_LENGTH && exists v :: Denotes(Trim(input), v)
    ensures valid <==> Parsed(input).Ok?
  {
    var r := Parse(input);
    valid := r.Ok?;
  }

  // ----- Parsing and printing are inverse

  /** The versions that parsing yields. */
  predicate Parsable(v: Version) {
    WellFormed(v) && |Print(v)| <= MAX_VERSION_LENGTH && Tight(Print(v))
  }

  lemma PrintOfParsed(input: string, v: Version)
    requires Parsed(input) == Ok(v)
    ensures Print(v) == Trim(input) && Parsable(v)
  {
    TrimFacts(input);
  }

  lemma ParsedOfPrint(v: Version)
    ensures Parsed(Print(v)) == Ok(v) <==> Parsable(v)
  {
    if Parsable(v) {
      TrimTight(Print(v));
      ParsedIs(Print(v), v);
    } else if Parsed(Print(v)) == Ok(v) {
      PrintOfParsed(Print(v), v);
    }
  }

  lemma PrintStartsWithDigit(v: Version)
    requires WellFormed(v)
    ensures Print(v) != "" && IsDigit(Print(v)[0]) && Print(v)[0] != '0'
  {
    assert Print(v)[0] == v.major[0];
  }

  lemma LastOfPrint(v: Version)
    requires Canonical(v.major) && Canonical(v.patch)
    requires Labels(v) != "" ==> !IsSpace(Labels(v)[|Labels(v)| - 1])
    ensures Tight(Print(v))
  {
    var t := Print(v);
    assert t[0] == v.major[0];
    assert t[|t| - 1] == FromPatch(v)[|FromPatch(v)| - 1];
    if Labels(v) == "" {
      assert FromPatch(v) == v.patch;
    }
  }

  // ----- The characters that may stand around a version

  /** The print of a well-formed version that does not end in white space, with white space around it. */
  ghost predicate IsPadded(input: string, front: string, v: Version, back: string) {
    && OnlyWhite(front) && OnlyWhite(back) && WellFormed(v) && !IsWhite(Print(v)[|Print(v)| - 1])
    && input == front + Print(v) + back
  }

  lemma PaddedParses(input: string, front: string, v: Version, back: string)
    requires |input| <= 256 && IsPadded(input, front, v, back)
    ensures Parsed(input) == Ok(v)
  {
    WhiteIsSpace(front);
    WhiteIsSpace(back);
    PrintStartsWithDigit(v);
    assert Tight(Print(v));
    TrimIs(Print(v), front, back, input);
    ParsedIs(input, v);
  }

  /** `parse` returns `v` on exactly the inputs of at most 256 characters that are its print with
      white space around it. */
  lemma ParsedExact(input: string, v: Version)
    ensures Parsed(input) == Ok(v) <==>
            |input| <= 256 && exists front, back :: IsPadded(input, front, v, back)
  {
    if Parsed(input) == Ok(v) {
      PrintOfParsed(input, v);
      PrintStartsWithDigit(v);
      var front, back := TrimParts(input);
      WhiteIsSpace(front);
      WhiteIsSpace(back);
      assert IsPadded(input, front, v, back);
    }
    if front, back :| |input| <= 256 && IsPadded(input, front, v, back) {
      PaddedParses(input, front, v, back);
    }
  }

  /** Any other input has one of two errors, by its length. */
  lemma ParsedError(input: string)
    requires forall v: Version, front, back :: !IsPadded(input, front, v, back)
    ensures Parsed(input) == Err(if |input| > 256 then VersionLargerThanMaxLength else InvalidInput)
  {
    if Parsed(input).Ok? {
      ParsedExact(input, Parsed(input).value);
    }
  }

  /** So nothing parses that starts with anything else than white space or a digit from 1 to 9. */
  lemma ParsedStart(input: string)
    requires Parsed(input).Ok?
    ensures input != "" && (IsWhite(input[0]) || '1' <= input[0] <= '9')
  {
    var v := Parsed(input).value;
    ParsedExact(input, v);
    var front, back :| IsPadded(input, front, v, back);
    PrintStartsWithDigit(v);
    assert input[0] == if front == "" then Print(v)[0] else front[0];
  }

  // ----- clean

  predicate IsMark(c: char) {
    c == '=' || c == 'v'
  }

  predicate AllMarks(s: string) {
    forall i | 0 <= i < |s| :: IsMark(s[i])
  }

  function StripMarks(s: string): string {
    if s != "" && IsMark(s[0]) then StripMarks(s[1..]) else s
  }

  /** What `clean` must answer: the version left of the trimmed input without its leading marks. */
  ghost function Cleaned(input: string): Result<Version> {
    var core := StripMarks(Trim(input));
    if core != "" && !IsDigit(core[0]) then Err(InvalidInput) else Parsed(core)
  }

  method Clean(input: string) returns (r: Result<Version>)
    ensures r == Cleaned(input)
  {
    var range := new View(input);
    TrimWhitespace(range);
    if range.text == "" {
      MajorOfNothing();
      return Err(InvalidInput);
    }
    while range.text != "" && (range.text[0] == '=' || range.text[0] == 'v')
      invariant StripMarks(range.text) == StripMarks(Trim(input))
      decreases |range.text|
    {
      range.RemovePrefix(1);
    }
    if range.text != "" && !IsDigit(range.text[0]) {
      return Err(InvalidInput);
    }
    r := Parse(range.text);
  }

  lemma MajorOfNothing()
    ensures Parsed("") == Err(InvalidInput)
  {
    forall v ensures !Denotes(Trim(""), v) {
      MajorEndsAtDot(Trim(""), v);
    }
  }

  /** The texts that denote `v` for `clean`: its print, behind marks, between white space. */
  ghost predicate CleansTo(input: string, front: string, marks: string, v: Version, back: string) {
    && AllSpaces(front) && AllMarks(marks) && AllSpaces(back) && Parsable(v)
    && input == front + (marks + Print(v)) + back
  }

  lemma {:induction false} StripMarksExact(marks: string, rest: string)
    requires AllMarks(marks) && (rest == "" || !IsMark(rest[0]))
    ensures StripMarks(marks + rest) == rest
  {
    if marks == "" {
      assert marks + rest == rest;
    } else {
      assert (marks + rest)[1..] == marks[1..] + rest;
      StripMarksExact(marks[1..], rest);
    }
  }

  lemma {:induction false} StripMarksParts(s: string) returns (marks: string)
    ensures AllMarks(marks) && s == marks + StripMarks(s)
  {
    if s != "" && IsMark(s[0]) {
      var marks' := StripMarksParts(s[1..]);
      marks := [s[0]] + marks';
      assert s == [s[0]] + s[1..];
    } else {
      marks := "";
    }
  }

  lemma CleanedParts(input: string, v: Version) returns (front: string, marks: string, back: string)
    requires Cleaned(input) == Ok(v)
    ensures CleansTo(input, front, marks, v, back)
  {
    front, back := TrimParts(input);
    var text := Trim(input);
    marks := StripMarksParts(text);
    var core := StripMarks(text);
    PrintOfParsed(core, v);
    PrintStartsWithDigit(v);
    SuffixIsTight(marks, core);
    TrimTight(core);
  }

  lemma SuffixIsTight(front: string, rest: string)
    requires Tight(front + rest) && (rest != "" ==> !IsSpace(rest[0]))
    ensures Tight(rest)
  {
    var text := front + rest;
    assert rest != "" ==> rest[|rest| - 1] == text[|text| - 1];
  }

  lemma MarkedIsTight(marks: string, rest: string)
    requires AllMarks(marks) && rest != "" && Tight(rest)
    ensures Tight(marks + rest)
  {
    var text := marks + rest;
    assert text[|text| - 1] == rest[|rest| - 1];
    assert text[0] == if marks == "" then rest[0] else marks[0];
  }

  lemma CleanedIs(input: string, front: string, marks: string, v: Version, back: string)
    requires CleansTo(input, front, marks, v, back)
    ensures Cleaned(input) == Ok(v)
  {
    PrintStartsWithDigit(v);
    MarkedIsTight(marks, Print(v));
    TrimIs(marks + Print(v), front, back, input);
    StripMarksExact(marks, Print(v));
    ParsedOfPrint(v);
  }

  /** `clean` returns `v` on exactly the texts that denote `v` behind marks and between white space. */
  lemma CleanedExact(input: string, v: Version)
    ensures Cleaned(input) == Ok(v) <==> exists front, marks, back :: CleansTo(input, front, marks, v, back)
  {
    if Cleaned(input) == Ok(v) {
      var front, marks, back := CleanedParts(input, v);
    }
    if front, marks, back :| CleansTo(input, front, marks, v, back) {
      CleanedIs(input, front, marks, v, back);
    }
  }

  /** `clean` agrees with `parse` wherever `parse` succeeds. */
  lemma CleanedAgreesWithParsed(input: string, v: Version)
    requires Parsed(input) == Ok(v)
    ensures Cleaned(input) == Ok(v)
  {
    PrintOfParsed(input, v);
    var front, back := TrimParts(input);
    assert CleansTo(input, front, "", v, back) by {
      assert "" + Print(v) == Print(v);
    }
    CleanedExact(input, v);
  }

  /** Printing a cleaned version and cleaning it again changes nothing. */
  lemma CleanedIdempotent(input: string, v: Version)
    requires Cleaned(input) == Ok(v)
    ensures Cleaned(Print(v)) == Ok(v)
  {
    PrintOfParsed(StripMarks(Trim(input)), v);
    ParsedOfPrint(v);
    CleanedAgreesWithParsed(Print(v), v);
  }

  /** Only `=` and `v`, in any order. */
  predicate OnlyEqualsAndV(s: string) {
    forall i | 0 <= i < |s| :: s[i] == '=' || s[i] == 'v'
  }

  lemma MarksNamed(s: string)
    ensures OnlyEqualsAndV(s) <==> AllMarks(s)
  {
  }

  /** The print of a well-formed version behind `=` and `v`, with white space around it. */
  ghost predicate IsMarked(input: string, front: string, marks: string, v: Version, back: string) {
    && OnlyWhite(front) && OnlyEqualsAndV(marks) && OnlyWhite(back)
    && WellFormed(v) && |Print(v)| <= 256 && !IsWhite(Print(v)[|Print(v)| - 1])
    && input == front + (marks + Print(v)) + back
  }

  lemma MarkedIs(input: string, front: string, marks: string, v: Version, back: string)
    ensures IsMarked(input, front, marks, v, back) <==> CleansTo(input, front, marks, v, back)
  {
    WhiteIsSpace(front);
    WhiteIsSpace(back);
    MarksNamed(marks);
    if WellFormed(v) {
      PrintStartsWithDigit(v);
    }
  }

  /** `clean` returns `v` on exactly those texts. */
  lemma CleanedNamed(input: string, v: Version)
    ensures Cleaned(input) == Ok(v) <==> exists front, marks, back :: IsMarked(input, front, marks, v, back)
  {
    CleanedExact(input, v);
    if front, marks, back :| CleansTo(input, front, marks, v, back) {
      MarkedIs(input, front, marks, v, back);
    }
    if front, marks, back :| IsMarked(input, front, marks, v, back) {
      MarkedIs(input, front, marks, v, back);
    }
  }

  /** Any `=` and `v` in front of a version are stripped. */
  lemma CleanedOfMarked(marks: string, v: Version)
    requires OnlyEqualsAndV(marks) && Parsable(v)
    ensures Cleaned(marks + Print(v)) == Ok(v)
  {
    MarksNamed(marks);
    assert "" + (marks + Print(v)) + "" == marks + Print(v);
    CleanedIs(marks + Print(v), "", marks, v, "");
  }

  lemma StartOfPadded(front: string, inner: string, back: string)
    requires inner != ""
    ensures var input := front + inner + back;
            input != "" && input[0] == if front == "" then inner[0] else front[0]
  {
  }

  /** Nothing else than white space, `=`, `v` and a digit from 1 to 9 may start a text that cleans. */
  lemma CleanedStart(input: string)
    requires Cleaned(input).Ok?
    ensures input != "" && (IsWhite(input[0]) || input[0] == '=' || input[0] == 'v' || '1' <= input[0] <= '9')
  {
    var v := Cleaned(input).value;
    CleanedNamed(input, v);
    var front, marks, back :| IsMarked(input, front, marks, v, back);
    PrintStartsWithDigit(v);
    StartOfPadded(front, marks + Print(v), back);
  }

  /** The errors of `clean`: a text that is none of these, unless what is left of it behind `=` and
      `v` starts with a digit and is too long. */
  lemma CleanedError(marks: string, rest: string)
    requires OnlyEqualsAndV(marks) && (rest != "" ==> rest[0] != '=' && rest[0] != 'v')
    requires Tight(marks + rest) && Cleaned(marks + rest).Err?
    ensures Cleaned(marks + rest).error ==
            if rest != "" && IsDigit(rest[0]) && |rest| > 256 then VersionLargerThanMaxLength else InvalidInput
  {
    MarksNamed(marks);
    TrimTight(marks + rest);
    StripMarksExact(marks, rest);
    MajorOfNothing();
  }

  /** In particular, anything but a digit behind them is an invalid input. */
  lemma CleanedRejects(marks: string, rest: string)
    requires OnlyEqualsAndV(marks) && rest != "" && !('0' <= rest[0] <= '9') && rest[0] != '=' && rest[0] != 'v'
    requires Tight(marks + rest)
    ensures Cleaned(marks + rest) == Err(InvalidInput)
  {
    MarksNamed(marks);
    TrimTight(marks + rest);
    StripMarksExact(marks, rest);
  }
}
