# Semantic versions: a verified model of version_weaver

The library parses, prints, orders, increments, coerces and cleans version strings, and finds the
minimum version of a range. This project models `src/version_weaver.cpp` and
`include/version_weaver.h` in Dafny and proves what those operations mean, over every input.

Strings are sequences of characters. The loops of the source are methods with loops, `string_view`
is a class whose methods shrink it, and the `version` struct is a value. Each method is tied to a
function or a declarative predicate, and the theorems are about those. An exception of `stoi` or
`stoll`, and every operation that C++ leaves undefined (adding 1 to `INT_MAX`, reading past a
vector), is a value of `Outcome`, so no operation of the library has a precondition.

How the files follow the program:

- `Text`, `Decimal`, `FieldSplitting`: string views, searches, byte order, numerals, fields between separators.
- `Versions`, `Parser`: the struct and its printed form; `parse`, `validate`, `clean`. `parse` is specified by "the well-formed version that the trimmed input is the print of", and is split into one method per field so that each has its own contract.
- `Precedence`, `Releases`, `Item11`: `operator<=>`, its meaning on numbers, and Semantic Versioning 2.0.0 as a reference.
- `Increment`: `inc` and `increment`.
- `PartOrder`, `Agreement`, `PreReleases`, `Builds`: `split` and `compareSemVer`, how that order relates to `<=>` and to item 11, and what a build does to it.
- `Coercion`, `Bounds`, `Bumps`, `Windows`: `coerce`, `incrementVersion`, caret and tilde bounds, `satisfies_constraint`, and what the bounds mean.
- `Ranges`, `RangeLaws`, `LeastTexts`, `SmallRanges`, `RangeFaults`, `ReleaseRanges`, `Minimum`: tokenised ranges, what each operator asks of a text, the laws of `minimum` on arbitrary texts, when its answer is the least text of the range, the answers of single constraints and ties, its faults, its exact meaning on releases, and the method itself.

What the definitions rest on is also stated without them: the white space and marks by character, the order of texts by the byte where they differ, the limits of `int` and `long long` by their digits, and each range operator by what it asks of a text.

Where the code departs from its documentation, the model follows the code:

- `parse` rejects every major number that starts with 0, although the standard (item 2) allows 0.
- `parse` does not check the characters of pre-release and build identifiers.
- The grammar comment in the header (`include/version_weaver.h:16-24`) gives minor and patch numbers no leading zero digit at all; `parse` accepts 0.
- `<=>` compares a pre-release as one text and ranks an all-digit one above the others. `Item11.FlatKeepsItem11Exactly` says exactly when that still is item 11.4, hyphens included (`Item11.HyphenBreaksItem11`).
- Since pre-releases are not checked, digits with leading zeros reach `<=>`, which goes by length: 001 is above 2 (`Precedence.LeadingZerosCount`; numeric order is kept exactly when: `Precedence.DigitPreReleasesKeepValue`).
- `compareSemVer` puts a release below its own pre-releases (`Agreement.ReleaseAgainstPreRelease`); among pre-releases it keeps item 11.4 even for numbers, where `<=>` does not (`PreReleases.SemLessIsItem11`), but not for identifiers such as `1a` and `1b` (`PreReleases.NumberWithLetterTies`) or `a` and `a-` (`PreReleases.HyphenAtEndTies`); exactly when: `PreReleases.SemLessKeepsItem11Exactly`.
- `compareSemVer` does not ignore the build, although item 10 asks for that; exactly when it matters: `Builds.BuildRaisesExactly`, `Builds.BuildsTieExactly`.
- A `*` alternative met when the best candidate is already 0.0.0 becomes the text `*` (`ReleaseRanges.BestOnReleases`, `ReleaseRanges.TwoStars`).
- The rewriting of 0.0.0 for `<0.0.0-beta` can answer with a version that violates an earlier constraint, or reject one that meets all (`RangeLaws.RewriteBreaksSoundness`, `RangeLaws.RewriteBreaksCompleteness`; exactly when: `RangeLaws.RewriteIsSoundExactly`, `RangeLaws.RewriteIsCompleteExactly`).
- `incrementVersion` can go down: on a pre-release behind fewer than three numbers (`Bumps.BumpMayFall`) and behind more (`Bumps.BumpOfFourNumbers`). `Bumps.BumpIsAboveExactly` says when it goes up. `minimum` then answers a `>` operand with a version that does not meet it (`RangeLaws.FallingOperandIsAnswered`), and it keeps an operand whose numbers it cannot read (`RangeLaws.UnreadableOperandIsKept`); exactly when: `RangeLaws.StrictOperandExactly`, `RangeLaws.AcceptedMeetsAll`. A `>` can also lose texts (`LeastTexts.StrictIsIncomplete`); exactly when: `LeastTexts.RejectedWronglyExactly`, `LeastTexts.BestIsLeastTextExactly`.

## Model

| member | source | states |
|---|---|---|
| Text.TrimWhitespace | src/version_weaver.cpp:244-251 | shrinks the view in place to its trimmed text |
| Text.TrimParts | src/version_weaver.cpp:244-251 | the trimmed text has no white space at either end and only white space was removed |
| Text.TrimIs | src/version_weaver.cpp:244-251 | any text without white space at its ends, between white space, is the trimmed one |
| Text.WhiteIsSpace | src/version_weaver.cpp:244-251 | what is trimmed is blank, tab, line feed, vertical tab, form feed and return, and nothing else |
| Decimal.StoiOfNumeral | src/version_weaver.cpp:65-70 | stoi reads white space, a sign, digits and anything behind them as the signed number of the digits, and throws outside -2147483648 to 2147483647 |
| Decimal.StoiFinds | src/version_weaver.cpp:65-70 | and no other text: wherever it does not call the text invalid, the text has that shape |
| Decimal.FromCharsOfNumeral | src/version_weaver.cpp:374-380 | from_chars reads a minus sign and digits in front, and gives nothing outside that range |
| Decimal.FromCharsFinds | src/version_weaver.cpp:374-380 | and no other text |
| Decimal.ReadsBack | src/version_weaver.cpp:118-126 | every int that is printed is read back by both |
| Decimal.LeadingZeros | src/version_weaver.cpp:65-70 | leading zeros do not change the number that is read |
| Versions.PrintInjective | include/version_weaver.h:67-77 | a text is the printed form of at most one well-formed version |
| Parser.Parse | src/version_weaver.cpp:441-518 | length error above 256 characters; otherwise the well-formed version whose print is the trimmed input, and an input error exactly when there is none |
| Parser.ParseFromMinor | src/version_weaver.cpp:465-481 | reads the minor number and the rest, and rejects only texts that no well-formed fields print as |
| Parser.ParseFromPatch | src/version_weaver.cpp:482-498 | the same from the patch number on |
| Parser.ParseLabels | src/version_weaver.cpp:497-517 | the same for pre-release and build |
| Parser.ParsedIs | src/version_weaver.cpp:441-518 | every input of at most 256 characters whose trimmed form denotes a version parses to that version |
| Parser.PrintOfParsed | src/version_weaver.cpp:441-518 | printing a successful parse gives back the trimmed input |
| Parser.ParsedOfPrint | src/version_weaver.cpp:441-518 | a print parses back to the same five fields exactly when the version is well-formed, at most 256 characters long and does not end in white space |
| Parser.ParsedExact | src/version_weaver.cpp:441-518 | a version is the result on exactly the inputs of at most 256 characters that are its print between texts of the six white characters, named one by one |
| Parser.ParsedStart | src/version_weaver.cpp:446-460 | what parses starts with one of those or a digit from 1 to 9 |
| Parser.ParsedError | src/version_weaver.cpp:441-518 | any other input has the length error above 256 characters and else the input error |
| Parser.Validate | src/version_weaver.cpp:10 | accepts exactly the texts that parse, by the declarative grammar |
| Parser.Clean | src/version_weaver.cpp:423-439 | trims, strips marks, rejects a non-digit front and parses the rest |
| Parser.CleanedExact | src/version_weaver.cpp:423-439 | returns a version on exactly the texts made of white space, marks, its print and white space |
| Parser.CleanedNamed | src/version_weaver.cpp:423-439 | the same with the white characters named, and the marks named as = and v, in any number and order |
| Parser.CleanedOfMarked | src/version_weaver.cpp:429-431 | any marks of = and v in front of the print of a version are stripped |
| Parser.CleanedStart | src/version_weaver.cpp:425-435 | what cleans starts with white space, =, v or a digit from 1 to 9 |
| Parser.CleanedError | src/version_weaver.cpp:433-438 | the error of every rejected text: the length error only when a digit starts what is left and that is too long, else the input error |
| Parser.CleanedRejects | src/version_weaver.cpp:433-437 | anything but a digit behind the marks is an input error |
| Parser.CleanedAgreesWithParsed | src/version_weaver.cpp:423-439 | agrees with parse wherever parse succeeds |
| Parser.CleanedIdempotent | src/version_weaver.cpp:423-439 | printing a cleaned version and cleaning again changes nothing |
| Item11.StandardVersionsParse | src/version_weaver.cpp:441-518 | every version of the standard (items 2, 9, 10) with a non-zero major and at most 256 characters is accepted with its own fields |
| Releases.ZeroMajorsAreRejected | src/version_weaver.cpp:457-460 | no version with major 0 is accepted |
| Releases.ParsesExactly | src/version_weaver.cpp:441-518 | an input gives three numbers and two labels if and only if it is within 256 characters, the major is positive, the pre-release is not empty and has no +, the build is not empty, and between white space it is that text, character by character |
| Releases.ParsedIsSuch | src/version_weaver.cpp:441-518 | and every version that parses has three such numbers |
| Precedence.NumberStringCompare | include/version_weaver.h:136-151 | the loop computes length-then-bytes order |
| Precedence.OnlyDigits | include/version_weaver.h:173-180 | the loop decides whether all characters are digits |
| Precedence.Spaceship | include/version_weaver.h:134-203 | the operator, with its early exits, is the lexicographic comparison of the four deciding fields |
| Precedence.CompareIsTotal | include/version_weaver.h:134-203 | on arbitrary fields: swapping reverses, transitive, and a tie exactly when all but the build agree |
| Precedence.CompareExactly | include/version_weaver.h:134-203 | on any fields: the first of major, minor, patch and pre-release that differs decides; fields by length and then the first differing byte, pre-releases with digits above others and none above all |
| Precedence.DigitPreReleases | include/version_weaver.h:173-192 | two pre-releases of digits, leading zeros or not: the longer is above whatever the values, and at one length the values decide |
| Precedence.DigitPreReleasesKeepValue | include/version_weaver.h:173-192 | so they compare by value if and only if the longer one, if any, has the greater value |
| Precedence.LeadingZerosCount | include/version_weaver.h:173-192 | 1.0.0-001 is above 1.0.0-2, although the number is smaller |
| Precedence.BuildIsIgnored | include/version_weaver.h:59-61 | replacing builds never changes the comparison |
| Precedence.ByNumberIsNumeric | include/version_weaver.h:136-151 | on canonical numerals of any size, length-then-bytes is numeric order |
| Releases.CompareByCore | include/version_weaver.h:152-169 | on cores, the operator is lexicographic order of the numbers, then of the pre-releases |
| Item11.FlatKeepsItem11Exactly | include/version_weaver.h:173-202 | for pre-releases of any identifiers of item 9, hyphens included, the flat comparison equals item 11.4 if and only if a stated condition on the first differing identifiers holds |
| Item11.CompareIsItem11Exactly | include/version_weaver.h:133-203 | the operator is item 11 on two versions if and only if the cores differ, one is no pre-release, or that condition holds for their identifiers |
| Item11.CompareIsItem11 | include/version_weaver.h:133-203 | on versions whose identifiers contain a letter and no hyphen, the operator is item 11 |
| Item11.FlatBreaksItem11 | include/version_weaver.h:193-202 | beta.2 ranks above beta.11, against item 11.4 |
| Item11.HyphenBreaksItem11 | include/version_weaver.h:193-202 | a.b ranks above a-, against item 11.4 |
| Increment.IncrementText | include/version_weaver.h:112-129 | a parse error is passed on; on a parsed version it prints the least release of its kind, strictly above the version, when the number to add 1 to is below INT_MAX; at INT_MAX it is undefined, beyond it and for an unknown kind an error |
| Increment.IncOutcome | src/version_weaver.cpp:370-416 | which numbers make inc succeed, report which error, or overflow, each exactly, and what it prints |
| Increment.IncOfAnyFields | src/version_weaver.cpp:370-416 | on a version with any fields, such as a major that is no number: each kind reads only its own number, reports its own error and keeps the fields before it |
| Increment.IncIsSuccessor | src/version_weaver.cpp:370-416 | a successful inc prints the least release of its kind, strictly above the version |
| Increment.NextIsLeast | src/version_weaver.cpp:370-416 | that release is least among all releases of its kind |
| Increment.IncIsMonotone | src/version_weaver.cpp:370-416 | inc never reverses the order of two versions, pre-releases included |
| Increment.IncParses | src/version_weaver.cpp:370-416 | the result is at most one character longer, and parses again exactly when it is within 256 characters |
| Increment.IncMayOutgrowTheLimit | src/version_weaver.cpp:398-412 | a parsed version of 256 characters whose increment is rejected for its length |
| PartOrder.Split | src/version_weaver.cpp:40-54 | the loop yields the fields between dots and hyphens without an empty last one |
| PartOrder.SplitGlues | src/version_weaver.cpp:40-54 | parts hold no '.' and no '-', and with one of these between them rebuild the text |
| PartOrder.CompareSemVer | src/version_weaver.cpp:56-79 | computes the part order, and throws exactly when it reads a number beyond int |
| PartOrder.CompareLimit | src/version_weaver.cpp:65-70 | two numbers alone are compared by value up to 2147483647, and throw beyond it |
| PartOrder.PartLaws | src/version_weaver.cpp:60-76 | parts are weakly ordered although numbers and bytes are mixed |
| PartOrder.SemLessIsStrictWeak | src/version_weaver.cpp:56-79 | a strict weak order on all strings, with ties being part-by-part ties |
| Agreement.NumSpelled | src/version_weaver.cpp:65-70 | the number a part starts with is that of the digits in front of anything else |
| Agreement.PartsSpelled | src/version_weaver.cpp:60-76 | two parts that start with a digit compare by those numbers, all others by the first differing byte |
| Agreement.SemLessSpelled | src/version_weaver.cpp:56-79 | a text is below another if and only if their parts tie up to a place where it has ended or its part is below |
| Agreement.SemLessOnReleases | src/version_weaver.cpp:56-79 | on releases it is the order of the number triples |
| Agreement.OrdersAgreeOnReleases | src/version_weaver.cpp:56-79 | agrees with the operator on versions without labels, and does not throw up to INT_MAX |
| Agreement.OrdersAgreeOnCores | src/version_weaver.cpp:56-79 | agrees with the operator whenever the cores differ, whatever the labels |
| Agreement.SemLessByFields | src/version_weaver.cpp:56-79 | without builds: the cores decide, then a release is below its pre-releases, and two pre-releases compare by their own parts |
| Agreement.ReleaseAgainstPreRelease | src/version_weaver.cpp:78 | a release and its pre-release are ordered oppositely |
| PreReleases.PartsOfJoin | src/version_weaver.cpp:40-54 | splitting a pre-release of hyphen-free identifiers gives back the identifiers |
| PreReleases.SemLessIsItem11 | src/version_weaver.cpp:56-79 | on identifiers that are numbers without leading zeros or start with a letter, it is item 11.4 in both directions |
| PreReleases.SemLessKeepsItem11Exactly | src/version_weaver.cpp:40-79 | on any identifiers of item 9 it keeps item 11.4 if and only if the pieces between hyphens of the first identifiers that differ decide so, and what follows only when all tie that both have |
| PreReleases.PlainKeepItem11Exactly | src/version_weaver.cpp:60-76 | without hyphens it can fail only where both first differing identifiers start with digits and are not both numbers, and fails there unless their numbers, or when equal what follows, order as item 11.4 does |
| PreReleases.NumberWithLetterTies | src/version_weaver.cpp:64-69 | 1a and 1b tie, although item 11.4 orders them |
| PreReleases.HyphenAtEndTies | src/version_weaver.cpp:40-54 | an identifier ties with itself behind a hyphen, although item 11.4 orders them |
| PreReleases.OrdersAgreeOnIdentifiers | include/version_weaver.h:173-202 | on pre-releases of any identifiers of item 9 the two orders agree in both directions if and only if a stated condition on single numbers and the first differing identifiers holds |
| PreReleases.PlainOrdersAgreeExactly | include/version_weaver.h:173-202 | without hyphens that condition is: two numbers agree, a number alone only with something that starts with a smaller one, and otherwise they differ only where both identifiers start with digits and bytes and numbers disagree |
| PreReleases.OrdinaryAgreeExactly | include/version_weaver.h:173-202 | on numbers without leading zeros and identifiers that start with a letter, it is that the operator keeps item 11.4 |
| PreReleases.VersionsKeepItem11Exactly | src/version_weaver.cpp:56-79 | on whole versions without builds it is item 11 if and only if the cores differ, neither is a pre-release, or both are and it keeps item 11.4 on their identifiers |
| PreReleases.OrdersAgreeExactly | src/version_weaver.cpp:56-79 | the two orders agree on two versions without builds if and only if the cores differ, neither is a pre-release, or both are and the condition on their identifiers holds |
| Builds.BuildRaisesExactly | src/version_weaver.cpp:56-79 | a build never lowers a version, and raises it if and only if the version ends in no number or something follows the first dot or hyphen of the build, while the operator sees a tie |
| Builds.BuildsCompareExactly | src/version_weaver.cpp:56-79 | two versions that differ only in the build are ordered by what follows the first dot or hyphen of the builds, after what comes before it when the version ends in no number |
| Builds.BuildsTieExactly | include/version_weaver.h:59-61 | so two builds do not matter, as promised, if and only if what follows ties and, unless the version ends in a number, what comes before is the same |
| Coercion.ScanExact | src/version_weaver.cpp:17-30 | the captured numbers are those of the leftmost greedy match, declaratively |
| Coercion.CoerceFindsDigits | src/version_weaver.cpp:12-36 | nothing comes back exactly when the text has no digit |
| Coercion.CoerceNormalises | src/version_weaver.cpp:12-36 | the result is a release, coercing it again changes nothing, and it parses exactly when its first number is not 0 |
| Coercion.CoerceOfParsed | src/version_weaver.cpp:12-36 | a text that parses is coerced to its major.minor.patch, or throws beyond long long |
| Coercion.CoerceLimit | src/version_weaver.cpp:22-33 | a number alone is coerced up to 9223372036854775807 and throws beyond it |
| Bounds.IncrementVersion | src/version_weaver.cpp:81-127 | the method, with its splitting loop and caught exceptions, computes the bump |
| Bounds.SplitNumbers | src/version_weaver.cpp:93-104 | the loop yields all pieces between dots |
| Bumps.BumpOutcome | src/version_weaver.cpp:107-126 | from any text: nothing comes back exactly when a number is missing or beyond int, adding 1 overflows exactly at patch INT_MAX without a pre-release, and otherwise the next text |
| Bumps.BumpedTextIs | src/version_weaver.cpp:117-126 | that text, character by character: the next patch, or the pre-release with .0 behind it |
| Bumps.BumpIsAboveExactly | src/version_weaver.cpp:81-127 | for any text that has one, the result is above it if and only if a stated condition on its pieces and pre-release parts holds, and below otherwise but for one stated family of ties |
| Bumps.BumpOfRelease | src/version_weaver.cpp:124-126 | on a release it is the next one, with no release in between |
| Bumps.BumpOfPartialPreRelease | src/version_weaver.cpp:117-122 | behind fewer than three numbers it goes up exactly when the first non-zero part of the pre-release, if any, is below zero, and down otherwise |
| Bumps.BumpMayFall | src/version_weaver.cpp:117-122 | 1-a becomes 1.0.0-a.0, which is below it |
| Bumps.BumpOfFourNumbers | src/version_weaver.cpp:117-122 | X.Y.Z.n-p becomes X.Y.Z-p.0, which is above it if and only if n < p, so 1.2.3.4-4 goes down |
| Bounds.ComputeCaretUpperBound | src/version_weaver.cpp:180-214 | the tokenising loop and its branches give the end of the caret window of the coerced numbers |
| Bounds.SplitCoerced | src/version_weaver.cpp:186-197 | the character loop yields the pieces between dots |
| Bounds.ComputeTildeUpperBound | src/version_weaver.cpp:216-242 | the method computes X.(Y+1).0 from the first two pieces |
| Bounds.SplitTilde | src/version_weaver.cpp:221-233 | the loop yields the pieces between dots without an empty last one |
| Windows.CaretOfText | src/version_weaver.cpp:180-214 | a text with numbers has a bound if and only if those are ints and the one to add 1 to can grow, and then below the bound are, from its numbers on, exactly the releases that keep its leading numbers |
| Windows.TildeOutcome | src/version_weaver.cpp:221-241 | a bound comes back if and only if the two pieces read start with ints, signed or not, and the second can grow; the releases below it, from x.y.0 on, are exactly the x.y.z |
| Windows.TildeOfText | src/version_weaver.cpp:216-242 | the numbers x and y that start the first two pieces between dots, hyphens and all, give the text x.(y+1).0 |
| Windows.CaretWindow | src/version_weaver.cpp:180-214 | a release lies in the caret window exactly when it is not below and agrees up to the leftmost non-zero number |
| Windows.TildeWindow | src/version_weaver.cpp:216-242 | a release lies in the tilde window exactly when it is not below and shares major and minor |
| Bounds.SatisfiesConstraint | src/version_weaver.cpp:164-178 | the four comparisons in terms of the part order, and exactly when one throws; equal texts never do under >= and <= |
| Bounds.ConstraintLaws | src/version_weaver.cpp:164-178 | complements, and closure of lower constraints upwards and upper ones downwards |
| Minimum.Collect | src/version_weaver.cpp:305-326 | the loop sorts constraints into lower and upper ones, caret and tilde into both, and ends with the fault of the first bound that has one |
| Minimum.HighestLower | src/version_weaver.cpp:335-343 | the loop folds the lower constraints to their candidate, and ends with the fault of the first step that has one |
| Minimum.CheckUppers | src/version_weaver.cpp:348-359 | the loop filters by the upper constraints, with the special rewriting, and throws exactly when a check that is reached does |
| Minimum.Consider | src/version_weaver.cpp:296-360 | the candidate that one alternative accepts, or the first fault on the way to it |
| Minimum.MinimumOfUnion | src/version_weaver.cpp:279-367 | the loop over alternatives, stars included, yields the least accepted candidate, or the first fault |
| Minimum.Minimum | src/version_weaver.cpp:253-368 | the answer of every tokenised range, or exactly the first fault; no fault when all numbers fit; on ranges over releases, the empty range, * and the low end of a dash range among them, the least release unless a star comes too late |
| RangeFaults.SafeRangesReturn | src/version_weaver.cpp:253-368 | no step faults when every number in the range is an int and every number the code adds 1 to is below INT_MAX |
| RangeFaults.OperandFaultsExactly | src/version_weaver.cpp:81-242 | for every operand: whether its bump, caret or tilde bound faults, exactly, by the numbers in its text |
| RangeLaws.HighestIsGreatest | src/version_weaver.cpp:335-343 | the candidate is one of the lowest texts and below none |
| RangeLaws.HighestIsFirst | src/version_weaver.cpp:341-342 | of the lowest texts that tie at the top it is the first |
| RangeLaws.CollectedMeans | src/version_weaver.cpp:305-326 | a text meets the lower and upper constraints that are collected if and only if it meets each constraint as given: >= not below the operand, > above it, < below it, <= not above it, ^ and ~ not below it and below the bound, where without a digit ^ admits nothing and ~ has no bound |
| LeastTexts.JustAboveIsNext | src/version_weaver.cpp:56-79 | every text has a least text above it, namely one more empty part |
| LeastTexts.MeetsFromLeast | src/version_weaver.cpp:335-343 | the texts that meet lower constraints, > included, are those from the greatest threshold on |
| LeastTexts.CandidateIsLeastExactly | src/version_weaver.cpp:335-343 | a candidate is the least text that meets its constraints from below if and only if it ties with the greatest threshold |
| LeastTexts.LeastIsOnTopExactly | src/version_weaver.cpp:335-343 | which the candidate of the fold does if and only if the operand of a >=, ^ or ~ is below no threshold and no lowest text |
| LeastTexts.FeasibleExactly | src/version_weaver.cpp:305-359 | some text meets all constraints of an alternative if and only if the greatest threshold meets the upper ones |
| LeastTexts.RejectedWronglyExactly | src/version_weaver.cpp:345-359 | a candidate is rejected although some text meets everything if and only if the greatest threshold meets the upper constraints and the candidate does not |
| LeastTexts.RewrittenWronglyExactly | src/version_weaver.cpp:345-359 | the same with the special rewriting, by 0.0.0 before it and 0.0.0-0 from it on |
| LeastTexts.AcceptsLeastExactly | src/version_weaver.cpp:296-360 | an alternative accepts its least text, and nothing when there is none, if and only if its candidate ties with the greatest threshold, or fails the upper constraints when that does |
| LeastTexts.BestIsLeastTextExactly | src/version_weaver.cpp:279-367 | the answer of a range of constraints is the least of all strings meeting some alternative, and nothing exactly when there is none, if and only if every accepted candidate is at or above some feasible threshold and every feasible threshold at or above some accepted candidate |
| LeastTexts.CandidateIsLeast | src/version_weaver.cpp:335-343 | with >=, ^ and ~ only, the candidate is the least of all strings that all constraints admit from below |
| LeastTexts.RejectedExactly | src/version_weaver.cpp:348-359 | and it is rejected exactly when no string at all meets every constraint as given |
| LeastTexts.NotStrictIsExact | src/version_weaver.cpp:305-359 | an alternative with lower bounds from >=, ^ and ~ only is always exact |
| LeastTexts.BestIsLeastText | src/version_weaver.cpp:279-367 | which holds when every alternative is exact |
| LeastTexts.StrictIsIncomplete | src/version_weaver.cpp:339-359 | for example >X.Y.Z <X.Y.(Z+1) is answered with nothing although X.Y.Z-0 meets both |
| RangeLaws.StrictOperandExactly | src/version_weaver.cpp:339-341 | the text that stands for >v meets it if and only if the numbers of v are ints and v is one of the versions that bump upwards |
| RangeLaws.HighestMeetsLowersExactly | src/version_weaver.cpp:335-343 | the candidate meets every constraint as given from below if and only if every > operand does so or another candidate text is above it |
| RangeLaws.AcceptedMeetsAll | src/version_weaver.cpp:335-364 | an accepted candidate meets every constraint as given from above, and all of them if and only if the > operands are covered, pre-releases included |
| RangeLaws.BestIsLeastAccepted | src/version_weaver.cpp:360-364 | the answer is accepted by some alternative and not above any accepted candidate |
| RangeLaws.BestMeetsItsAlternative | src/version_weaver.cpp:279-367 | without stars, the answer comes from an alternative; it meets that one as given, if it has operators and is not rewritten, if and only if its > operands are covered, and is not above any accepted candidate |
| RangeLaws.UnreadableOperandIsKept | src/version_weaver.cpp:339-342 | a > operand with a number missing or beyond int becomes a candidate that does not meet it |
| RangeLaws.FallingOperandIsAnswered | src/version_weaver.cpp:339-342 | >X.Y.Z.n-p is answered with X.Y.Z-p.0, which does not meet it whenever n is at least p |
| RangeLaws.RewriteOutcome | src/version_weaver.cpp:350-358 | with the special rewriting, earlier constraints are checked on 0.0.0 and the rest on 0.0.0-0 |
| RangeLaws.RewriteIsSoundExactly | src/version_weaver.cpp:350-358 | the rewritten candidate meets all upper constraints exactly when it meets the earlier ones |
| RangeLaws.RewriteIsCompleteExactly | src/version_weaver.cpp:350-358 | when 0.0.0 meets all upper constraints, it is rejected if and only if 0.0.0-0 fails one from the special constraint on |
| RangeLaws.RewrittenMeetsAll | src/version_weaver.cpp:335-364 | a rewritten answer keeps meeting the constraints from below, and meets all as given exactly when it meets the upper ones before the rewriting |
| RangeLaws.RewriteBreaksSoundness | src/version_weaver.cpp:350-358 | two upper constraints that are answered with a version violating the first |
| RangeLaws.RewriteBreaksCompleteness | src/version_weaver.cpp:350-358 | the same two in the other order are answered with nothing, although 0.0.0 meets both |
| SmallRanges.LoneLower | src/version_weaver.cpp:305-364 | >=v, ^v and ~v are answered with the text v itself, pre-release included, if and only if it is below their bound, and else with nothing |
| SmallRanges.LoneStrict | src/version_weaver.cpp:339-342 | the answer of >v as a text: v when a number cannot be read, else its numbers with .0 behind the pre-release, or with the next patch |
| SmallRanges.LoneUpper | src/version_weaver.cpp:345-359 | the answers of <v and <=v: 0.0.0 if and only if that meets them, nothing otherwise, and 0.0.0-0 for <0.0.0-beta |
| SmallRanges.BareAnswers | src/version_weaver.cpp:332-334 | a text without operators is answered with the numbers it is coerced to, and without a digit with itself |
| SmallRanges.NoConstraints | src/version_weaver.cpp:345-347 | operators without operands are answered with 0.0.0 |
| SmallRanges.BestIsFirstLeast | src/version_weaver.cpp:279-367 | on any range the answer is the first of the least texts that its alternatives bring: each what it accepts, and a star 0.0.0 if all texts before it are above that, or else the text * |
| SmallRanges.BestIsNothing | src/version_weaver.cpp:279-367 | and nothing exactly when no alternative brings a text |
| ReleaseRanges.AlternativeAnswers | src/version_weaver.cpp:296-360 | an alternative on releases accepts its least release, and nothing exactly when it admits none |
| ReleaseRanges.BestOnReleases | src/version_weaver.cpp:279-367 | the answer is the least admitted release, or nothing when there is none, if and only if no star comes after an alternative that admits 0.0.0; otherwise it is the text * |
| ReleaseRanges.LeastOfIsLeastRelease | src/version_weaver.cpp:253-368 | the same for every kind of range: nothing for the empty one, 0.0.0 for *, the coerced low end of a dash range, and the alternatives |
| ReleaseRanges.TwoStars | src/version_weaver.cpp:287-294 | two stars are answered with the text * |
| ReleaseRanges.ReleasesAreSafe | src/version_weaver.cpp:279-367 | no fault on releases with numbers below INT_MAX |

## Left out

- Regular expressions and tokenising of range strings: `minimum` starts from a tokenised range; only the pattern of `coerce` is modelled, as a scanner.
- ReleaseRanges.BestOnReleases: release operands have numbers below INT_MAX, because the code adds 1 to them; at INT_MAX the model reports undefined behaviour instead.
- RangeLaws.AcceptedMeetsAll: adding 1 to the patch number of a `>` operand is defined; the special rewriting is in RangeLaws.RewrittenMeetsAll instead.
- LeastTexts.BestIsLeastTextExactly: every alternative has operators, because a text without any is coerced, and a `*` stands for releases; what those answer is in ReleaseRanges.BestOnReleases.
- PreReleases.OrdersAgreeExactly: versions have no builds; with builds, only versions that differ in nothing else are compared (Builds.BuildRaisesExactly, Builds.BuildsCompareExactly).
- PartOrder.CompareSemVer: characters are compared by code point, so bytes above 127 and other locales are outside the model.
- `decrementVersion` is not modelled; its branches without a pre-release add 1, so there is no decrement to state.
- `satisfies` is declared in the header, but its definition is not part of this model: the repository has none.
- Lifetimes of string views, allocation failure and the width of size_t.
- Benchmarks, build files and tools: no logic of the version engine.
