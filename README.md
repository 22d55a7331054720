# Fund document parsing and query prompts — a Dafny model

This project models the text-processing core of a fund-analysis backend. The
backend reads fund documents (capital call notices, distribution statements,
adjustment schedules). It turns their tables into transaction records, cuts
their text into chunks for retrieval, and answers questions by building a
prompt from the retrieved chunks, the fund's metrics and the recent
conversation.

Three services are modelled:

- **Table parser** (`backend/app/services/table_parser.py`). It decides what
  kind of table it has been given: capital calls, distributions, adjustments
  or unknown. It uses keywords in the header and, failing those, in the first
  data rows. Each data row is read cell by cell into a transaction record,
  with a date, a money amount, and type, category and description texts.
  The money-amount reader `_parse_amount` is modelled exactly. It handles
  currency symbols, thousands separators, accounting parentheses and minus
  signs, rejects letters, and rejects small bare numbers.
  Date reading beyond the blank check is a call into `dateutil`. It is a
  parameter of the model: the `DateOracle` function `fuzzy`.
- **Document processor** (`backend/app/services/document_processor.py`).
  - `_clean_text` collapses whitespace runs, removes "Page N of M" markers
    (ignoring case), performs the replacements of lines 247-248 and strips
    the result.
  - `_split_into_sentences` cuts after `.`, `!` or `?` followed by
    whitespace, strips the pieces and drops the blank ones.
  - `_chunk_text` skips pages whose stripped text is shorter than 50
    characters. On the other pages it gathers sentences greedily. A chunk is
    closed when it is not empty and the next sentence would take its length
    past the chunk size. Each new chunk starts with the sentences of the last
    `overlap` characters of the chunk just closed, followed by the sentence
    that closed it. The running length counts that carried text whole, spaces
    included, plus the lengths of the sentences added since, without the
    spaces that join them. A sentence longer than the chunk size is never
    split or dropped: it closes the open chunk and goes into the next one,
    after the carried sentences, so a chunk can exceed the chunk size.
- **Query engine** (`backend/app/services/query_engine.py`). `_classify_intent`
  sorts a question into calculation, definition, retrieval or general, by
  keyword lists tried in that order. The prompt has three fragments: the top
  three sources, numbered; the header plus one line per metric that has a
  value; and the last three messages.

The row loops, the page and sentence loops, and the metrics and history
fragments of the prompt are `method`s with `for` loops. Each one is proved
equal to a specification function (`ensures r == Spec(...)`). The context
fragment is a join over a list comprehension, with no loop statement, and is
the function `ContextString`. The properties are proved as lemmas about those
functions. Each cell loop is also proved equal to an independent
"first match" description of the row: `CallSelection`, `DistributionSelection`
and `AdjustmentSelection`.

## Model

| member | source | states |
|---|---|---|
| TableParser.TableResult | backend/app/services/table_parser.py:17-40 | A table with fewer than two rows gives "Table too small". With two or more rows the type is the classifier's. An error is reported exactly when the type is unknown, and then no records are returned. The records of a capital call, distribution or adjustment table are exactly what that kind's row parser makes of the table. There is at most one record per data row; each has the table's kind and the given fund id. |
| TableParser.ParseTable | backend/app/services/table_parser.py:17-40 | The dispatching method, which calls the row-parser methods, returns exactly `TableResult`. |
| TableParser.CallHeaderGivesCalls | backend/app/services/table_parser.py:33-34 | A header naming capital calls yields the capital-call records of the data rows, in row order, with no error. |
| TableParser.DataIgnoresHeaderText | backend/app/services/table_parser.py:28-40 | Beyond choosing the kind, the header has no effect: same kind and same data rows give the same result. |
| TableClassifier.ClassifyTable | backend/app/services/table_parser.py:42-87 | An empty table or empty header is unknown. The header is searched for call, then distribution, then adjustment keywords. Only a header can make a distribution table. Without header keywords, a kind comes only from the first three data rows. |
| TableClassifier.FallbackPrefersAdjustment | backend/app/services/table_parser.py:72-87 | Without header keywords, adjustment data keywords win over call data keywords. With neither, the table is unknown. |
| TableClassifier.ClassifyIgnoresLaterRows | backend/app/services/table_parser.py:72-77 | Rows after the third data row never change the classification. |
| TableClassifier.ClassifyHeaderDecides | backend/app/services/table_parser.py:52-69 | When the header holds a keyword, the data rows do not matter. |
| TableClassifier.ClassifyHeaderOnly | backend/app/services/table_parser.py:52-87 | A lone header without keywords is unknown. |
| TableClassifier.ClassifySameLowered | backend/app/services/table_parser.py:52-77 | Tables that are equal once lower-cased classify alike. |
| TableClassifier.ClassifyCaseInsensitive | backend/app/services/table_parser.py:52-77 | Upper- or lower-casing every cell does not change the classification. |
| CapitalCallParser.CallOfRow | backend/app/services/table_parser.py:89-146 | A record needs at least two cells; it has the fund id, a positive amount, and a non-empty call type shorter than 50 characters. |
| CapitalCallParser.FillCallText | backend/app/services/table_parser.py:125-130 | A text cell never changes the date or amount already found. |
| CapitalCallParser.ParseCapitalCalls | backend/app/services/table_parser.py:94-146 | The row loop returns exactly the records `CapitalCalls` describes. |
| CapitalCallParser.ScanCallRow | backend/app/services/table_parser.py:106-130 | The cell loop fills the four slots exactly as `CallScan` does. |
| CapitalCallParser.CallScanIsSelection | backend/app/services/table_parser.py:106-130 | The cell loop fills its slots as `SelectCall` describes them. The date is the first filled cell that reads as a date. The amount is the first other cell with a positive amount, even one before the date cell. The remaining cells' stripped texts that are not labels can come from anywhere in the row. Of these, the type is the first shorter than 50 characters, and the description is the first other one, which may come before the type. |
| CapitalCallParser.CallNeedsDate | backend/app/services/table_parser.py:133 | A row with no cell that parses as a date yields no capital call. |
| CapitalCallParser.CallNeedsAmount | backend/app/services/table_parser.py:133 | A row with no positive amount yields no capital call. |
| CapitalCallParser.CapitalCallsValid | backend/app/services/table_parser.py:94-146 | At most one call per data row; every call has the fund id, a positive amount and a call type. |
| CapitalCallParser.CapitalCallsByRows | backend/app/services/table_parser.py:106-140 | Rows are parsed independently: appending rows appends their records. |
| DistributionParser.DistributionOfRow | backend/app/services/table_parser.py:148-212 | A record needs two cells; it has the fund id, a positive amount and a short non-empty distribution type. |
| DistributionParser.ParseDistributions | backend/app/services/table_parser.py:153-212 | The row loop returns exactly `Distributions`. |
| DistributionParser.ScanDistributionRow | backend/app/services/table_parser.py:166-195 | The cell loop fills the slots exactly as `DistributionScan` does. |
| DistributionParser.DistributionScanIsSelection | backend/app/services/table_parser.py:166-195 | The cell loop equals the first-match description over the stripped filled cells. |
| DistributionParser.DistributionRecallableIff | backend/app/services/table_parser.py:186-188 | A distribution is recallable if and only if some filled cell other than the date cell and the amount cell reads "yes", "true" or "recallable", ignoring case. A flag cell that comes before the date cell counts. |
| DistributionParser.DistributionNotRecallable | backend/app/services/table_parser.py:186-188 | Without such a cell, the distribution is not recallable. |
| DistributionParser.DistributionIgnoresNo | backend/app/services/table_parser.py:186-195 | A "no" or "false" cell sets nothing. |
| DistributionParser.RecallableFlagCaseInsensitive | backend/app/services/table_parser.py:186 | The recallable flag ignores case. |
| DistributionParser.DistributionsValid | backend/app/services/table_parser.py:153-212 | At most one distribution per data row, each with the fund id, a positive amount and a type. |
| DistributionParser.DistributionsByRows | backend/app/services/table_parser.py:166-206 | Appending rows appends their records. |
| AdjustmentParser.AdjustmentOfRow | backend/app/services/table_parser.py:214-281 | A record needs two cells; it has the fund id, a non-zero amount, a short non-empty type, and a short non-empty category if there is one. |
| AdjustmentParser.FillAdjustmentText | backend/app/services/table_parser.py:253-263 | A text cell keeps date and amount, and fills the type or category only with a short non-empty text. |
| AdjustmentParser.ParseAdjustments | backend/app/services/table_parser.py:219-281 | The row loop returns exactly `Adjustments`. |
| AdjustmentParser.ScanAdjustmentRow | backend/app/services/table_parser.py:236-263 | The cell loop fills the slots exactly as `AdjustmentScan` does. |
| AdjustmentParser.AdjustmentScanIsSelection | backend/app/services/table_parser.py:236-263 | The cell loop equals the first-match description over the stripped filled cells. |
| AdjustmentParser.AdjustmentSkipsUnparsed | backend/app/services/table_parser.py:246-250 | Before an amount is found, a cell that is neither a date in the date slot nor an amount changes nothing. |
| AdjustmentParser.ContributionIsNoAmount | backend/app/services/table_parser.py:246-254 | A cell mentioning "contribution" or "capital call" (any case) never reads as an amount. |
| AdjustmentParser.AdjustmentContributionIff | backend/app/services/table_parser.py:253-254 | The contribution flag is set if and only if a filled cell after the amount cell, other than the date cell, mentions "contribution" or "capital call", in any case. Such a cell counts even when it comes before the date cell. |
| AdjustmentParser.ContributionStillFillsType | backend/app/services/table_parser.py:253-260 | A short cell that sets the contribution flag also becomes the type when none is set yet. |
| AdjustmentParser.AdjustmentsValid | backend/app/services/table_parser.py:219-281 | At most one adjustment per data row, each with the fund id, a non-zero amount and a type. |
| AdjustmentParser.AdjustmentsByRows | backend/app/services/table_parser.py:236-275 | Appending rows appends their records. |
| DateParser.ParseDate | backend/app/services/table_parser.py:283-304 | Empty text reads as no date. |
| DateParser.ParseDateIgnoresPadding | backend/app/services/table_parser.py:293 | Surrounding whitespace does not matter. |
| DateParser.ParseDateBlank | backend/app/services/table_parser.py:289-304 | All-blank text is no date when the date library rejects empty text. |
| Tables.FilledTexts | backend/app/services/table_parser.py:106-108 | The texts of the filled cells, none of them empty, at most one per cell. |
| Tables.FilledTextOf | backend/app/services/table_parser.py:106-108 | Every filled text comes from a filled cell of the row. |
| Tables.DataRows | backend/app/services/table_parser.py:103 | The data rows are the table without its header, in order. |
| AmountParser.ParseAmount | backend/app/services/table_parser.py:306-369 | Empty text and text with an ASCII letter read as nothing. Any value read is at least 100 in size, or the text carries a currency symbol, a separator or a two-digit cents suffix. |
| AmountParser.ParseStripped | backend/app/services/table_parser.py:321-369 | The same bounds, on the stripped text. |
| AmountParser.KeepNumeric | backend/app/services/table_parser.py:350 | Only digits and points remain, and the text does not grow. |
| AmountParser.SplitAtDot | backend/app/services/table_parser.py:352-356 | Splits at the first point: digits before it, and the rest after it. |
| AmountParser.DecimalOf | backend/app/services/table_parser.py:352-356 | A decimal read is never negative. |
| AmountParser.DecimalOfTwoDots | backend/app/services/table_parser.py:352-353 | Two points make the number unreadable. |
| AmountParser.DecimalOfNoDigit | backend/app/services/table_parser.py:352-356 | Without a digit there is no number. |
| AmountParser.ParseAmountIgnoresPadding | backend/app/services/table_parser.py:321 | Surrounding whitespace does not matter. |
| AmountParser.ParseAmountRejectsLetters | backend/app/services/table_parser.py:325-326 | An ASCII letter anywhere rejects the text. |
| AmountParser.ParseAmountNeedsDigit | backend/app/services/table_parser.py:350-356 | Text without a digit reads as nothing. |
| AmountParser.ParseAmountRejectsTwoDots | backend/app/services/table_parser.py:350-356 | Text with two points reads as nothing. |
| AmountParser.PlainNumeralReads | backend/app/services/table_parser.py:340-369 | A bare signed numeral is its signed value when at least 100, else nothing. |
| AmountParser.HintedNumeralReads | backend/app/services/table_parser.py:333-369 | A numeral with a two-digit cents suffix is read whatever its size. |
| AmountParser.ParseUnsigned | backend/app/services/table_parser.py:360-369 | Digits read as their value when at least 100. |
| AmountParser.ParseMinus | backend/app/services/table_parser.py:345-347 | A leading minus negates. |
| AmountParser.ParseParenthesised | backend/app/services/table_parser.py:340-342 | Accounting parentheses negate. |
| AmountParser.DecimalOfWhole | backend/app/services/table_parser.py:352-356 | The decimal rendering of a natural number reads back as that number. |
| AmountParser.ParseWholeNumber | backend/app/services/table_parser.py:360-369 | A natural number written out reads as itself from 100 up, and as nothing below. |
| AmountParser.DecimalOfDigits | backend/app/services/table_parser.py:352-356 | Digits read as their value. |
| AmountParser.DecimalOfCents | backend/app/services/table_parser.py:352-356 | Whole digits, a point and two digits read as whole plus cents/100. |
| AmountParser.ParseCents | backend/app/services/table_parser.py:333-369 | "w.cc" reads as w + cc/100, even below 100. |
| AmountParser.CentsReads | backend/app/services/table_parser.py:333-369 | The same, given the decimal's value. |
| AmountParser.CentsHintSeesParentheses | backend/app/services/table_parser.py:333-335 | The cents hint looks at the text with its closing parenthesis, so a small amount in parentheses such as "(50.00)" reads as nothing. |
| AmountParser.DecoratedReads | backend/app/services/table_parser.py:333-369 | Text with a currency symbol or a separator is read whatever its size: the value of its kept digits, with the sign applied. |
| AmountParser.ParseCurrency | backend/app/services/table_parser.py:333-369 | "$d" reads as d, and "($d)" as -d, whatever its size. |
| AmountParser.ParseGrouped | backend/app/services/table_parser.py:333-369 | "w,g" reads as the digits wg: the comma is dropped and group widths are not checked. |
| DocumentProcessor.CollapseSpaces | backend/app/services/document_processor.py:241 | No two spaces are adjacent. Nothing is added, the empty text stays empty, and a leading space stays a leading space. |
| DocumentProcessor.CollapseIdempotent | backend/app/services/document_processor.py:241 | Collapsing twice is collapsing once. |
| DocumentProcessor.RemovePageMarkers | backend/app/services/document_processor.py:244 | Removal never lengthens the text. |
| DocumentProcessor.MarkerLengthOfMarker | backend/app/services/document_processor.py:244 | A "Page N of M" marker (any case, any whitespace, whole words) is recognised over its exact length. |
| DocumentProcessor.MarkerRemoved | backend/app/services/document_processor.py:244 | A "Page N of M" marker, in any case and with any whitespace gaps, that stands between non-word characters (or the ends of the text) is removed. The text before it and the text after it are then processed independently, as if each stood alone. |
| DocumentProcessor.CleanTextDropsMarker | backend/app/services/document_processor.py:238-250 | When the collapsed text holds such a marker, cleaning gives the stripped, quote-normalised concatenation of the marker-free text before and after it. That is the stripped text around the marker when neither part contains a 'p'. |
| DocumentProcessor.NoMarkerWithoutP | backend/app/services/document_processor.py:244 | Text without a 'p' or 'P' is left untouched. |
| Strings.ReplaceAbsent | backend/app/services/document_processor.py:248 | `str.replace` leaves text in which the pattern does not occur unchanged. |
| Strings.ReplaceFirst | backend/app/services/document_processor.py:248 | `str.replace` replaces an occurrence after text that cannot start one, then goes on scanning after it. |
| DocumentProcessor.QuotesKeepBlanks | backend/app/services/document_processor.py:248 | The replacement on line 248 puts in an apostrophe, never whitespace. |
| DocumentProcessor.QuotesWithoutP | backend/app/services/document_processor.py:248 | The replaced literal contains a 'p', so text without one is unchanged. |
| DocumentProcessor.QuoteLiteralReplaced | backend/app/services/document_processor.py:248 | The literal `, "'").replace(` becomes a single apostrophe when the text before it has no comma, and the rest is scanned on. |
| DocumentProcessor.CleanText | backend/app/services/document_processor.py:238-250 | The result is no longer than the input; empty gives empty. It is stripped and has only plain spaces as whitespace. |
| DocumentProcessor.CleanTextWithoutMarker | backend/app/services/document_processor.py:238-250 | With no marker possible, cleaning is collapse then strip. The result is single-spaced and keeps every non-space character in order. |
| DocumentProcessor.SplitIntoSentences | backend/app/services/document_processor.py:252-260 | Every sentence is non-empty and stripped. |
| DocumentProcessor.SentencesOfEmpty | backend/app/services/document_processor.py:252-260 | Empty text has no sentences. |
| DocumentProcessor.SentencesWithoutCut | backend/app/services/document_processor.py:255-258 | Text with no sentence end before whitespace is one sentence, its stripped self, or none when blank. |
| DocumentProcessor.SentencesRoundTrip | backend/app/services/document_processor.py:255-258 | For cleaned text, joining the sentences with single spaces gives the text back. |
| DocumentProcessor.SentencesOfJoin | backend/app/services/document_processor.py:255-258 | The reverse direction: stripped sentences ending in `.`, `!` or `?`, with no break inside, joined by spaces, split back into themselves ("A. B. C." gives three). |
| DocumentChunking.OverlapText | backend/app/services/document_processor.py:216-217 | The carried text is a suffix of the chunk: the last `overlap` characters, or the whole chunk when it is not longer. |
| DocumentChunking.ZeroOverlapCarriesAll | backend/app/services/document_processor.py:216-217 | An overlap of 0 slices `[-0:]` and carries the whole chunk. |
| DocumentChunking.Label | backend/app/services/document_processor.py:206-213 | Chunks keep their page's metadata and are numbered 0, 1, … in order. |
| DocumentChunking.PageChunks | backend/app/services/document_processor.py:179-234 | A skipped page has no chunks; every chunk of a page carries that page's metadata and its position as its index. |
| DocumentChunking.ChunkText | backend/app/services/document_processor.py:160-236 | The page loop returns exactly `Chunks`. |
| DocumentChunking.ChunkSentences | backend/app/services/document_processor.py:190-234 | The sentence loop returns exactly the labelled `ChunkTexts`. |
| DocumentChunking.ChunksFromPages | backend/app/services/document_processor.py:179-234 | Every chunk carries the metadata of a page that was long enough to be chunked. |
| DocumentChunking.StepCloses | backend/app/services/document_processor.py:200-223 | A chunk is closed exactly when the next sentence would overflow a non-empty chunk. Closed chunks never change, and the sentence always joins the open chunk. |
| DocumentChunking.StepRestarts | backend/app/services/document_processor.py:200-223 | A close saves the joined open chunk. The open chunk then restarts from the sentences of its last `overlap` characters, followed by the sentence, and the length resets to that carried text's length plus the sentence's. Without a close, the sentence is appended and its length added. |
| DocumentChunking.ChunksCarryOverlap | backend/app/services/document_processor.py:215-219 | Context overlap: every chunk of a page after the first starts with the space-joined sentences of the last `overlap` characters of the previous chunk, followed by a space. |
| DocumentChunking.ChunkCount | backend/app/services/document_processor.py:190-234 | There are at most as many chunks as sentences, and none exactly when there are no sentences. |
| DocumentChunking.OneChunkWhenFits | backend/app/services/document_processor.py:200-234 | Sentences that fit in the chunk size make one chunk, the sentences joined by spaces. |
| DocumentChunking.ChunksNonEmpty | backend/app/services/document_processor.py:200-234 | Non-empty sentences give non-empty chunks. |
| DocumentChunking.SentenceInSomeChunk | backend/app/services/document_processor.py:200-234 | Every sentence appears in some chunk. |
| QueryEngine.ClassifyIntent | backend/app/services/query_engine.py:155-188 | Calculation if and only if a calculation keyword occurs (ignoring case). Otherwise definition if and only if a definition keyword occurs, then retrieval likewise. General if and only if none occurs. |
| QueryEngine.KeywordFound | backend/app/services/query_engine.py:162 | A lower-case keyword inside any text is found in its lower-cased form. |
| QueryEngine.IntentIgnoresCase | backend/app/services/query_engine.py:162 | Upper-casing the question does not change its intent. |
| QueryEngine.CalculationKeywordWins | backend/app/services/query_engine.py:165-170 | Any question containing a calculation keyword is a calculation. |
| QueryEngine.DefinitionKeyword | backend/app/services/query_engine.py:173-178 | A definition keyword without a calculation keyword gives definition. |
| QueryEngine.RetrievalKeyword | backend/app/services/query_engine.py:181-186 | A retrieval keyword alone gives retrieval. |
| QueryEngine.ExtendingKeepsIntent | backend/app/services/query_engine.py:162-188 | Adding text around a calculation question keeps it a calculation, and a non-general question never becomes general. |
| QueryEngine.TopSources | backend/app/services/query_engine.py:202 | The first three retrieved documents, or all of them when fewer. |
| QueryEngine.SourceBlocks | backend/app/services/query_engine.py:200-203 | Source i is labelled "[Source i+1]" above its content. |
| QueryEngine.ContextEmptyIff | backend/app/services/query_engine.py:200-203 | The context is empty exactly when nothing was retrieved. |
| QueryEngine.LaterSourcesIgnored | backend/app/services/query_engine.py:202 | Documents after the third never reach the prompt. |
| QueryEngine.SourceNumbered | backend/app/services/query_engine.py:200-203 | Each of the top three documents appears, labelled. |
| QueryEngine.ContextOfThree | backend/app/services/query_engine.py:200-203 | Three or more documents give exactly the three labelled blocks separated by blank lines. |
| QueryEngine.MetricsText | backend/app/services/query_engine.py:206-211 | Empty exactly when there are no metrics or none at all; otherwise it starts with the "Available Metrics" header. |
| QueryEngine.MetricsFragment | backend/app/services/query_engine.py:206-211 | The loop builds exactly `MetricsText`. |
| QueryEngine.ValuedMetricListed | backend/app/services/query_engine.py:209-211 | Every metric with a value has its upper-cased line. |
| QueryEngine.NoneMetricSilent | backend/app/services/query_engine.py:210 | A metric without a value adds nothing. |
| QueryEngine.Recent | backend/app/services/query_engine.py:217 | The last three messages, or all when fewer. |
| QueryEngine.HistoryText | backend/app/services/query_engine.py:214-218 | Empty exactly when there is no history; otherwise it starts with the "Previous Conversation" header. |
| QueryEngine.HistoryFragment | backend/app/services/query_engine.py:214-218 | The loop builds exactly `HistoryText`. |
| QueryEngine.OlderMessagesIgnored | backend/app/services/query_engine.py:217 | Messages before the last three do not matter. |
| QueryEngine.RecentOfAppend | backend/app/services/query_engine.py:217 | The last three of a longer history are the last three of its tail. |
| QueryEngine.HistoryOfLastThree | backend/app/services/query_engine.py:214-218 | The fragment is the header and the last three messages' "role: content" lines, in order. |

## Left out

- Quote normalisation in `_clean_text` (document_processor.py:247-248) is modelled as the file gives it. Line 247 replaces the ASCII `"` by itself, which changes nothing. On line 248, `'''` opens a triple-quoted string, so that line replaces the literal text `, "'").replace(` by an apostrophe (`NormaliseQuotes`). Curly quotes are not normalised by this code, and so not by the model.
- Case folding, `\w`, `\d` and `\b` are modelled for ASCII only; Python's Unicode case mapping and Unicode word and digit classes are not modelled. Whitespace is Python's whitespace set written out.
- `dateutil.parser.parse` is not modelled: dates come from the `fuzzy` parameter, an arbitrary function from text to an optional date. Only the blank check and stripping in `_parse_date` are modelled. The exception it catches becomes `None`.
- `Decimal` is modelled as `real`: only the value, not the exponent or trailing zeros. `Decimal`'s rejection of malformed numerals is modelled as the digits-and-one-point check.
- The chunk size and overlap (`settings.CHUNK_SIZE`, `settings.CHUNK_OVERLAP`) are parameters; the overlap is a natural number, so a negative overlap is not modelled.
- `process_document`, PDF extraction (pdfplumber), table extraction, the vector store, `_initialize_llm`, `process_query`, the LLM call, the prompt template and the metrics calculator are not part of this model. They are I/O or calls into libraries and services.
- Metric values are taken as their already-rendered text; Python's `str()` of numbers is not modelled. Dictionaries (metrics, transaction records, chunk records) are modelled as datatypes and ordered sequences.
- Logging and database sessions are not modelled. Neither are exceptions other than those the parsers catch and turn into `None`.
- CleanTextWithoutMarker: single spacing of the cleaned text is proved only for text without the letter p. Removing a marker can leave two spaces side by side ("a Page 1 of 2 b" becomes "a  b"); this is what the code does.
- ParseWholeNumber: covers the unsigned decimal rendering of a natural number; signed and decorated forms are covered by ParseMinus, ParseParenthesised, ParseCurrency and ParseGrouped.
- Concrete example inputs (such as "$1,000,000.50") are covered by the general lemmas over digit strings rather than stated one by one.
