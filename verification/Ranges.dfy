/** Tokenised ranges and what `minimum` computes from them. */
module Ranges {
  import opened Text
  import opened PartOrder
  import opened Coercion
  import opened Bounds

  datatype Constraint = Constraint(op: Op, version: string)

  /** One alternative of `||`: a lone `*`, a text without operators, or a list of constraints. */
  datatype Alternative = Star | Bare(text: string) | Ops(constraints: seq<Constraint>)

  /** A range: empty, a lone `*`, `low - high`, or alternatives. */
  datatype Range = Empty | Anything | Between(low: string) | Union(alternatives: seq<Alternative>)

  const ZERO := "0.0.0"
  const FIRST_BETA := "0.0.0-beta"
  const ZERO_PRE := "0.0.0-0"

  // ----- The constraints of one alternative

  /** The computed bound; a fault has none, and ends `minimum` before it is used. */
  function BoundText(bound: Outcome<string>): string {
    if bound.Returns? then bound.value else ""
  }

  function LowerOf(c: Constraint): Option<Constraint> {
    match c.op
    case Caret => Some(Constraint(Ge, c.version))
    case Tilde => Some(Constraint(Ge, c.version))
    case Gt => Some(c)
    case Ge => Some(c)
    case _ => None
  }

  /** An empty tilde bound adds no constraint. */
  function UpperOf(c: Constraint): Option<Constraint> {
    match c.op
    case Caret => Some(Constraint(Lt, BoundText(CaretBound(c.version))))
    case Tilde =>
      var bound := BoundText(TildeBound(c.version));
      if bound == "" then None else Some(Constraint(Lt, bound))
    case Lt => Some(c)
    case Le => Some(c)
    case _ => None
  }

  function With(bounds: seq<Constraint>, next: Option<Constraint>): seq<Constraint> {
    if next == None then bounds else bounds + [next.value]
  }

  function Lowers(cs: seq<Constraint>): seq<Constraint> {
    if cs == [] then [] else With(Lowers(cs[..|cs| - 1]), LowerOf(cs[|cs| - 1]))
  }

  function Uppers(cs: seq<Constraint>): seq<Constraint> {
    if cs == [] then [] else With(Uppers(cs[..|cs| - 1]), UpperOf(cs[|cs| - 1]))
  }

  // ----- The candidate of one alternative

  /** The lowest text that a lower constraint is taken to allow. */
  function Lowest(lower: Constraint): string {
    if lower.op != Gt then lower.version
    else
      var bumped := Bump(lower.version);
      if bumped.Returns? then bumped.value.GetOr(lower.version) else lower.version
  }

  /** `next` replaces an empty or smaller `best`. */
  function Higher(best: string, next: string): string {
    if best == "" || SemLess(best, next) then next else best
  }

  /** The fold of the loop over the lower constraints. */
  function HighestText(texts: seq<string>): string {
    if texts == [] then "" else Higher(HighestText(texts[..|texts| - 1]), texts[|texts| - 1])
  }

  function LowestTexts(lowers: seq<Constraint>): (texts: seq<string>)
    ensures |texts| == |lowers|
    ensures forall i | 0 <= i < |lowers| :: texts[i] == Lowest(lowers[i])
  {
    seq(|lowers|, i requires 0 <= i < |lowers| => Lowest(lowers[i]))
  }

  function Highest(lowers: seq<Constraint>): string {
    HighestText(LowestTexts(lowers))
  }

  /** The special case of `<0.0.0-beta`: it makes 0.0.0 the pre-release 0.0.0-0. */
  predicate Rewrites(candidate: string, upper: Constraint) {
    upper == Constraint(Lt, FIRST_BETA) && candidate == ZERO
  }

  /** The candidate that the upper constraints leave, if any. */
  function Admitted(candidate: string, uppers: seq<Constraint>): Option<string>
    decreases |uppers|
  {
    if uppers == [] then Some(candidate)
    else
      var c := if Rewrites(candidate, uppers[0]) then ZERO_PRE else candidate;
      if Satisfies(c, uppers[0].op, uppers[0].version) then Admitted(c, uppers[1..]) else None
  }

  function FirstCandidate(a: Alternative): string {
    match a
    case Star => "*"
    case Bare(text) =>
      var c := Coerce(text);
      if c.Returns? then c.value.GetOr(text) else text
    case Ops(cs) => if Lowers(cs) == [] then ZERO else Highest(Lowers(cs))
  }

  function UpperConstraints(a: Alternative): seq<Constraint> {
    if a.Ops? then Uppers(a.constraints) else []
  }

  function Accepted(a: Alternative): Option<string> {
    var c := Admitted(FirstCandidate(a), UpperConstraints(a));
    if c == Some("") then None else c
  }

  // ----- The least over the alternatives

  function Better(best: Option<string>, next: Option<string>): Option<string> {
    if next == None then best
    else if best == None || SemLess(next.value, best.value) then next
    else best
  }

  /** A `*` gives 0.0.0 when that improves on what there is, and otherwise falls through to be
      treated as a text without operators. */
  function Next(best: Option<string>, a: Alternative): Option<string> {
    if a.Star? && (best == None || SemLess(ZERO, best.value)) then Some(ZERO) else Better(best, Accepted(a))
  }

  function Best(alternatives: seq<Alternative>): Option<string> {
    if alternatives == [] then None
    else Next(Best(alternatives[..|alternatives| - 1]), alternatives[|alternatives| - 1])
  }

  function LeastOf(range: Range): Option<string> {
    match range
    case Empty => None
    case Anything => Some(ZERO)
    case Between(low) => var c := Coerce(low); if c.Returns? then c.value else None
    case Union(alternatives) => Best(alternatives)
  }
}
