/**
 * `TableParser._parse_date`. The actual recognition is dateutil's fuzzy
 * parser, a foreign library; the model takes it as a parameter `fuzzy`,
 * applied to the stripped text. The parser's own logic is the guard in
 * front of it: an empty text is never a date.
 */
module DateParser {
  import opened Wrappers
  import opened Strings
  import opened Transactions

  /** dateutil's `parse(text, fuzzy=True).date()`, or `None` where it raises. */
  type DateOracle = string -> Option<Date>

  /** `_parse_date(date_str)` */
  function ParseDate(fuzzy: DateOracle, s: string): (r: Option<Date>)
    ensures s == "" ==> r == None
  {
    if s == "" then None else fuzzy(Strip(s))
  }

  /** Surrounding whitespace of a non-blank text does not matter to the date parser. */
  lemma ParseDateIgnoresPadding(fuzzy: DateOracle, s: string)
    requires Strip(s) != ""
    ensures ParseDate(fuzzy, Strip(s)) == ParseDate(fuzzy, s)
  {
    StripIdempotent(s);
  }

  /** With an oracle that finds no date in empty text, a blank cell is never a date. */
  lemma ParseDateBlank(fuzzy: DateOracle, s: string)
    requires fuzzy("") == None && AllSpace(s)
    ensures ParseDate(fuzzy, s) == None
  {
    StripEmptyIffAllSpace(s);
  }
}
