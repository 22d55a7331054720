/**
 * The tests the three row parsers apply to a cell, and the first-match
 * rule for the type and description slots that the capital-call and
 * distribution parsers share.
 */
module CellTests {
  import opened Wrappers
  import opened Selection
  import opened DateParser
  import opened AmountParser

  /** Type and category texts must be shorter than this. */
  const ShortLimit := 50

  predicate IsShort(s: string) { |s| < ShortLimit }

  /** `parsed_amount and parsed_amount > 0`: `Decimal(0)` and `None` are both false. */
  predicate PositiveAmount(a: Option<real>) {
    a.Some? && a.value > 0.0
  }

  predicate IsDateText(fuzzy: DateOracle, s: string) { ParseDate(fuzzy, s).Some? }

  function DateTest(fuzzy: DateOracle): string -> bool {
    s => IsDateText(fuzzy, s)
  }

  predicate HasPositiveAmount(s: string) { PositiveAmount(ParseAmount(s)) }

  function FirstOf(xs: seq<string>): Option<string> {
    if xs == [] then None else Some(xs[0])
  }

  /** The type is the first short text; the description is the first text that did not become the type. */
  function TypeAndDescription(texts: seq<string>): (Option<string>, Option<string>) {
    var (first, others) := TakeFirst(texts, IsShort);
    (first, FirstOf(others))
  }

  lemma TypeAndDescriptionAppend(texts: seq<string>, s: string)
    ensures TypeAndDescription(texts + [s]) ==
      (var (t, d) := TypeAndDescription(texts);
       if t.None? && IsShort(s) then (Some(s), d) else if d.None? then (t, Some(s)) else (t, d))
  {
    TakeFirstAppend(texts, s, IsShort);
  }
}
