# OFAC civil penalties scraper and search — a Dafny model

The system collects the civil penalty records that OFAC (the US Treasury's
Office of Foreign Assets Control) publishes as one HTML table per year. For
each row it downloads the linked PDF and stores both in two SQLite tables:

- `penalties`, keyed by an id `"{row index}-{year}"`;
- `penalties_pdfs`, keyed by the document URL. Its `linked_penalties` column
  is a comma-joined list of record ids.

A search page filters the records by date range and by a query. The query is
read as an exact phrase, as words that must all occur (AND), or as words any
of which may occur (OR). The page shows the results twenty at a time and cuts
excerpts around the matches out of each document's text. A maintenance script
renames the records of 2024 that were stored under 2025 ids, and can erase
both tables.

The model is organised as follows:

- **Common**: `Option` and `Result`.
- **Text**: the Python and SQLite string operations the code relies on: `find`,
  `split`, `join`, `replace`, `strip`, whitespace `split()`, `lower()` and
  decimal rendering.
- **Sql**: SQLite's `LIKE` with its `%` and `_` wildcards, ASCII
  case-insensitive.
- **Parsers**: `extract_dates`, `extract_number` and the `'%m/%d/%Y'` date
  parsing.
- **Store**: the two tables as a `PenaltyStore` class with two map fields.
  Its methods are `entry_exists`, `store_pdf`, `store_penalty` and the loops of
  `scrape_and_store`. Each method is proved equal to a function of the store
  before it, and the lemmas state what those functions keep.
- **Excerpts**: `extract_context`, and `find_excerpts` as imperative loops
  proved against a reference definition.
- **Search**: the `search_penalties` filter as a set comprehension, with a
  predicate for the ordered result list, and the pagination arithmetic.
- **Repair**: `repair_2024_ids` and `erase_database`, as methods on the store.

One property concerns the code as it is written. The link rewrite of
`repair_2024_ids` is a plain substring `REPLACE` guarded by
`LIKE '%old_id%'`. Renaming `1-2025` therefore also rewrites a link to another
record, `11-2025`, into `11-2024`, and no record has that id
(`Repair.RepairCanBreakLinks`).

## Model

| member | source | states |
|---|---|---|
| Text.Lower | webpage.py:74 | lower-casing keeps the length and maps each character on its own (ASCII letters only) |
| Text.Find | webpage.py:112 | `str.find`: -1 exactly when the word occurs at no position from `start` on; otherwise the least such position |
| Text.ContainsIff | webpage.py:129 | `w in s` holds exactly when `w` occurs at some position of `s` |
| Text.Split | scraper.py:305 | `str.split(sep)`: at least one part, no part contains the separator, and joining the parts gives back the text |
| Text.SplitJoin | scraper.py:175-178 | splitting a join of comma-free parts gives back exactly those parts |
| Text.SplitLeftmost | scraper.py:305 | `str.split` cuts at the leftmost occurrence: for each part but the last, the first separator in the text from that part on is the one right after it |
| Text.Replace | repair_db.py:39 | SQLite's `REPLACE`: the text cut at each leftmost non-overlapping occurrence of the target and joined with the replacement; `ReplaceInsideLongerId` shows it at work inside a longer id |
| Text.FindChar | scraper.py:175 | a single-character search finds its first occurrence |
| Text.RemoveChar | scraper.py:299 | `replace(c, '')` removes every `c` and never lengthens the text |
| Text.RemoveCharAll | scraper.py:299 | if nothing is left after removing `c`, the text held nothing but `c` |
| Text.SpaceEnd | scraper.py:306 | a position from `i` on that is the end of the text or holds a non-whitespace character |
| Text.SpaceStart | scraper.py:306 | a position up to `j` that is the start of the text or follows a non-whitespace character |
| Text.SpaceEndSkips | scraper.py:306 | no non-whitespace character lies before the position `SpaceEnd` stops at |
| Text.SpaceStartSkips | scraper.py:306 | no non-whitespace character lies after the position `SpaceStart` stops at |
| Text.SpaceStartStops | scraper.py:306 | `SpaceStart` stops after any non-whitespace character |
| Text.StripBounds | scraper.py:306 | `strip()` removes only whitespace: everything before its start and after its end is whitespace |
| Text.SpaceEndConcat | webpage.py:178 | proof step: skipping leading whitespace stops before a non-whitespace suffix |
| Text.SpaceStartConcat | webpage.py:178 | proof step: skipping trailing whitespace stops after a non-whitespace prefix |
| Text.StripKeepsOut | scraper.py:307 | `strip()` introduces no character that was absent |
| Text.SliceKeepsOccurrence | webpage.py:172 | proof step: an occurrence inside a slice's bounds is an occurrence in the slice |
| Text.StripKeeps | webpage.py:178 | `strip()` keeps any occurrence that neither begins nor ends with whitespace |
| Text.Strip | scraper.py:306 | `strip()`: the text between the leading and the trailing whitespace; `StripKeeps` and `StripKeepsOut` state what it keeps and what it cannot add |
| Text.TokenEnd | webpage.py:74 | the end of the run of non-whitespace starting at `i` |
| Text.Words | webpage.py:74 | `split()`: non-empty words without whitespace; `WordsSkipSpace` and `WordsWord` pin it down as the maximal non-whitespace runs in order |
| Text.WordsChars | webpage.py:74 | every character of a word of `split()` comes from the text |
| Text.WordsEmpty | webpage.py:80-85 | `split()` yields no words exactly when the text is all whitespace |
| Text.WordsSkipSpace | webpage.py:74 | leading whitespace yields no word |
| Text.WordsWord | webpage.py:74 | a non-whitespace run ending at whitespace or at the end of the text is the next word; with `WordsSkipSpace` this fixes `Words` on every text |
| Text.TokenEndAt | webpage.py:74 | proof step: the run ends at the first whitespace |
| Text.WordsJoin | webpage.py:74 | round trip: words joined by single spaces split back into the same words |
| Text.FreeChar | scraper.py:175 | proof step: a part free of the one-character separator does not contain it |
| Text.LowerIdempotent | webpage.py:74 | lower-casing twice is lower-casing once |
| Text.LowerKeepsSpace | webpage.py:74 | a character is whitespace after lower-casing exactly when it was before |
| Text.NatToString | scraper.py:121 | `str(n)`: non-empty decimal digits with no leading zero |
| Text.NatToStringValue | scraper.py:121 | the rendered digits read back as the number |
| Text.NatToStringInjective | scraper.py:121 | different numbers render differently |
| Sql.LowerCons | webpage.py:70 | proof step: lower-casing distributes over a first character |
| Sql.Like | webpage.py:70 | SQLite's `LIKE` with `%` and `_`, ignoring ASCII case; its meaning on the patterns the code builds is stated by `LikeContains`, `LikeEndsWith`, `LikeLiteral`, `LikePrefix` and `LikeLeadingPercent` |
| Sql.LikeLiteral | webpage.py:70 | a pattern without wildcards matches exactly the text that equals it, case-insensitively |
| Sql.LikePrefix | webpage.py:70 | a literal followed by `%` matches exactly the texts that start with it |
| Sql.LikeAnything | webpage.py:70 | `'%'` matches every text |
| Sql.LikeLeadingPercent | webpage.py:70 | `'%' + q` matches exactly when some suffix matches `q` |
| Sql.LikeContains | webpage.py:70-71 | `LIKE '%w%'` for a wildcard-free `w` holds exactly when `w` occurs in the lower-cased text |
| Sql.LikeEndsWith | repair_db.py:19 | `LIKE '%w'` for a wildcard-free `w` holds exactly when the text ends with `w` |
| Parsers.ExtractDates | scraper.py:302-308 | no revision exactly when `' (Revised '` is absent, and then the main date is the stripped text; a revision never contains `)` |
| Parsers.StripDateChars | scraper.py:306 | stripping a date string leaves it unchanged |
| Parsers.RemoveCharAbsent | scraper.py:307 | removing an absent character changes nothing |
| Parsers.NoParenNoMarker | scraper.py:305 | a text without `(` never holds the revision marker |
| Parsers.MarkerAfterDate | scraper.py:305 | the marker is found right after a date |
| Parsers.SplitAnnotated | scraper.py:305 | splitting `date (Revised tail` at the marker gives the date and the tail |
| Parsers.SplitAnnotatedDate | scraper.py:305 | the same when the tail is a date followed by `)` |
| Parsers.RevisionCleanup | scraper.py:307 | removing `)` and stripping recovers the revision date |
| Parsers.ExtractDatesOfParts | scraper.py:305-308 | a text that splits into two parts yields the stripped first part and the cleaned second |
| Parsers.ExtractDatesAnnotated | scraper.py:302-308 | round trip: `main (Revised rev)` yields exactly `main` and `rev` |
| Parsers.RemoveCharConcat | scraper.py:307 | proof step: removing a character distributes over concatenation |
| Parsers.ExtractDatesExample | scraper.py:302-308 | `"01/02/2024 (Revised 03/04/2024)"` yields both dates |
| Parsers.MismatchNoOccurrence | scraper.py:305 | proof step: a mismatching character rules out an occurrence |
| Parsers.ParseDate | scraper.py:100-101 | `strptime('%m/%d/%Y')` only yields calendar-valid dates; which texts it accepts is stated by `ParseDateSound` and `ParseDateFields` |
| Parsers.FormatDate | scraper.py:100 | the zero-padded `mm/dd/yyyy` rendering is ten date characters |
| Parsers.ParseFormatDate | scraper.py:100 | round trip: parsing a formatted valid date gives it back |
| Parsers.MonthDigits | scraper.py:100 | every two-digit month 01..12 parses |
| Parsers.DayDigits | scraper.py:100 | every two-digit day 01..31 parses |
| Parsers.YearDigits | scraper.py:100 | every four-digit year parses |
| Parsers.JoinThree | scraper.py:100 | proof step: the three fields joined with `/` |
| Parsers.ParseDateFields | scraper.py:100-104 | a month, day and year that parse give the date when it exists in the calendar, and `ValueError` otherwise |
| Parsers.ParseDateSound | scraper.py:100-104 | every accepted text has the `%m/%d/%Y` shape: three slash-free fields, joined by slashes, that read as the date's month, day and year; any other text raises `ValueError` |
| Parsers.Year2024 | scraper.py:100 | `"2024"` parses as 2024 |
| Parsers.ParseDateExample | scraper.py:100 | `"01/02/2024"` is 2 January 2024 |
| Parsers.ParseDateRejectsMissingDay | scraper.py:100-104 | `"02/30/2024"` is rejected |
| Parsers.ParseDateUnpadded | scraper.py:100 | `strptime` also accepts unpadded fields such as `"1/2/2024"` |
| Parsers.FirstNumChar | scraper.py:296 | the first digit or comma from `i` on, every character skipped being neither |
| Parsers.NumRunEnd | scraper.py:296 | the end of the maximal run of `[\d,]` |
| Parsers.DigitRunEnd | scraper.py:296 | the end of the maximal run of digits |
| Parsers.Pow10 | scraper.py:299 | powers of ten are positive |
| Parsers.FractionEnd | scraper.py:296 | the optional `(?:\.\d+)` part: present exactly when a dot is followed by a digit, and then the dot and the greedy run of digits after it |
| Parsers.ExtractNumber | scraper.py:293-300 | text with no digit or comma gives 0; a result has digit-only parts; a failing `float` reports a non-empty token of commas only |
| Parsers.RemoveCommasDigits | scraper.py:299 | removing the commas from a `[\d,]+` token leaves only digits |
| Parsers.ExtractNumberRendered | scraper.py:293-300 | round trip: a rendered whole number among non-number text is extracted as itself |
| Parsers.RenderedValue | scraper.py:299 | that extracted number has the value rendered |
| Parsers.ExtractNumberAmount | scraper.py:293-300 | `"$1,234.50"` gives whole part `1234` and fraction `50` |
| Parsers.AmountPieces | scraper.py:296-299 | the pieces of that amount and its comma removal |
| Parsers.AmountValue | scraper.py:299 | the value of that amount is 1234.5 |
| Parsers.ExtractNumberNone | scraper.py:300 | a text with no number gives 0 |
| Parsers.ExtractNumberCommaOnly | scraper.py:296-299 | a text whose first token is a lone comma makes `float('')` fail |
| Store.LinkListCommaFree | scraper.py:175 | the ids read from a link list hold no comma |
| Store.LinkedEntry | scraper.py:168-191 | the `penalties_pdfs` row `store_pdf` leaves behind, given the row before it; stated by `LinkedEntryLinks`, `LinkedEntryKeepsText` and `LinkedEntryIdempotent` |
| Store.StorePdfSpec | scraper.py:162-198 | `store_pdf` on the whole store: only the document's row changes; the method `StorePdf` is proved to compute it |
| Store.StorePenaltySpec | scraper.py:200-221 | `INSERT OR IGNORE` of the record, then `store_pdf`; stated by `StorePenaltyProperties` |
| Store.LinkedEntryLinks | scraper.py:162-194 | `store_pdf` on a new URL links just the id; on a stored one it appends the id unless it is already listed |
| Store.JoinNonEmpty | scraper.py:178 | proof step: a join ending in a non-empty part is non-empty |
| Store.LinkedEntryKeepsText | scraper.py:172-191 | `store_pdf` keeps the stored text of a known document and stores the new text only for a new one |
| Store.LinkedEntryIdempotent | scraper.py:176 | storing the same link twice is storing it once |
| Store.StorePenaltyProperties | scraper.py:200-221 | `INSERT OR IGNORE` and `store_pdf`: only `id` and `url` are added, stored records and texts never change, the document links the id, and links that pointed at records still do |
| Store.DataRows | scraper.py:87 | `[1:-1]` drops the header and totals rows and keeps the rest in order |
| Store.ResolveUrl | scraper.py:106-108 | a root-relative `href` is prefixed with the site, any other is kept |
| Store.MakeId | scraper.py:121 | an id is non-empty and has no comma, so a link list can hold it |
| Store.MakeIdInjective | scraper.py:121 | `"{index}-{year}"` determines both the index and the year |
| Store.AsciiOnly | scraper.py:95 | `encode('ascii','ignore')` leaves only ASCII, is the identity on ASCII text, and never lengthens |
| Store.RowDates | scraper.py:97-104 | the main date and the optional revision date of a row, or the `ValueError` that skips it; stated by `RowDatesPlain` and `RowDatesRevised` |
| Store.RowDatesPlain | scraper.py:97-104 | round trip: a date cell written as `mm/dd/yyyy` reads back as that date with no revision |
| Store.RowDatesRevised | scraper.py:97-104 | round trip: a date cell written as `mm/dd/yyyy (Revised mm/dd/yyyy)` reads back as both dates |
| Store.ParseRow | scraper.py:88-121 | a row is passed over exactly when it lacks four cells or a first-cell anchor; skipped exactly when its date or revision date does not parse; raises exactly when its dates parse but the `href` is missing or an amount fails `float`; otherwise it has the id of its index and year, the resolved URL, the parsed dates, the stripped name and the two extracted numbers |
| Store.ExtendsTransitive | scraper.py:61-146 | proof step: growth of the store composes |
| Store.StepRowProperties | scraper.py:123-137 | one row only adds its own id, changes no stored record or text, and keeps links resolving |
| Store.IngestRows | scraper.py:88-140 | the rows of one year from a position on, as a function of the store before them; stated by the `IngestRows*` lemmas |
| Store.IngestRowsStep | scraper.py:88-140 | one pass of the row loop: a row that raises ends the year, any other is stepped over |
| Store.IngestRowsExtends | scraper.py:88-137 | a year's rows never change or remove a stored record or document text |
| Store.IngestRowsLinks | scraper.py:88-137 | every link still names a stored record after a year's rows |
| Store.IngestRowsNewIds | scraper.py:88-137 | every record a year adds belongs to a row that parsed: it sits under that row's id `"{j}-{year}"` and holds the dates, name and amounts read from that row's cells |
| Store.CoveredGrows | scraper.py:123-124 | proof step: rows already stored stay stored when more ids arrive |
| Store.IngestRowsCovers | scraper.py:88-140 | after a year, every row before the first raising row that parsed has its id stored |
| Store.IngestRowsNoop | scraper.py:123-137 | rows whose ids are all stored change nothing (`entry_exists` skips them) |
| Store.ScrapeYearsProperties | scraper.py:61-146 | scraping a range of years only grows the store and keeps links resolving |
| Store.ScrapeYear | scraper.py:70-140 | one year: nothing when the page fails or has no table, else the row loop over its data rows |
| Store.ScrapeYears | scraper.py:61-146 | the years of the range in ascending order; stated by the `ScrapeYears*` lemmas and `ScrapeIdempotent` |
| Store.ScrapeYearsStep | scraper.py:70-140 | one pass of the year loop: the first year, then the rest of the range |
| Store.FirstYearCovered | scraper.py:70-140 | the first year of the range stays covered after the later years |
| Store.ScrapeYearsCovers | scraper.py:61-146 | after a scrape, every year of the range is covered |
| Store.ScrapeYearsNoop | scraper.py:61-146 | scraping years that are already covered changes nothing |
| Store.ScrapeIdempotent | scraper.py:61-146 | scraping the same pages again, with any download results, leaves the store as it is |
| Store.PenaltyStore.constructor | scraper.py:38-57 | a new database has both tables empty |
| Store.PenaltyStore.EntryExists | scraper.py:223-239 | true exactly when the id is a key of `penalties` |
| Store.PenaltyStore.StorePdf | scraper.py:162-198 | the new state is the `store_pdf` function of the old one |
| Store.PenaltyStore.StorePenalty | scraper.py:200-221 | the new state is the `store_penalty` function of the old one |
| Store.PenaltyStore.IngestYear | scraper.py:88-140 | the row loop leaves the state the row function defines, stopping at a row that raises |
| Store.PenaltyStore.ScrapeAndStore | scraper.py:61-146 | the year loop leaves the state the year function defines, a missing or zero year meaning the current one |
| Excerpts.ExtractContext | webpage.py:164-178 | empty for an empty text or term; never longer than the term, the context on both sides and two ellipses; its content is stated by `ExtractContextWindow` |
| Excerpts.ExtractContextWindow | webpage.py:169-178 | the excerpt is the clamped window `text[max(0,i-100):min(len,i+len(term)+100)]`, with `...` exactly on the sides where text was cut, and with only the whitespace at the uncut ends stripped |
| Excerpts.StripCutBoth | webpage.py:169-178 | cut on both sides: the excerpt is `...` + the window + `...`, nothing stripped |
| Excerpts.StripCutLeft | webpage.py:169-178 | cut on the left only: `...` + the window without its trailing whitespace |
| Excerpts.StripCutRight | webpage.py:169-178 | cut on the right only: the window without its leading whitespace + `...` |
| Excerpts.StripUncut | webpage.py:169-178 | cut on neither side: the stripped text |
| Excerpts.ExtractContextShowsMatch | webpage.py:164-178 | the excerpt contains the matched text whenever the match neither begins nor ends with whitespace |
| Excerpts.FramedStripKeepsMatch | webpage.py:172-178 | framing and stripping keep such a match |
| Excerpts.FramedKeepsMatch | webpage.py:172-176 | the match sits in the framed window, shifted by the leading ellipsis |
| Excerpts.MiddleKeepsOccurrence | webpage.py:174-176 | proof step: text added on either side keeps an occurrence, shifted |
| Excerpts.StripKeepsLeadingEllipsis | webpage.py:173-178 | stripping keeps a leading `...` |
| Excerpts.StripKeepsTrailingEllipsis | webpage.py:175-178 | stripping keeps a trailing `...` |
| Excerpts.ExtractContextEllipses | webpage.py:169-178 | an excerpt starts with `...` when text before the window was cut, and ends with `...` when text after it was cut |
| Excerpts.Occurrences | webpage.py:110-125 | the positions the `find` loop visits are occurrences from `start` on, each after the end of the previous one |
| Excerpts.OccurrencesApart | webpage.py:125 | any two of those positions are at least a match length apart |
| Excerpts.OccurrencesComplete | webpage.py:110-125 | every occurrence from `start` on overlaps a visited position: the loop skips only matches that overlap a previous one |
| Excerpts.ExcerptsOf | webpage.py:117-123 | one excerpt per visited position, on the page searched |
| Excerpts.ContextCut | webpage.py:117 | the excerpt `find_excerpts` cuts for a match: `extract_context` on the page as written with Python's clamped slice; its content is stated by `ContextCutWindow`, and `ExtractContextShowsMatch` and `ExtractContextEllipses` add that the match survives and the cut sides are marked |
| Excerpts.ContextCutWindow | webpage.py:117 | the excerpt for a match on a page is the window of 100 characters on each side, with `...` exactly where text was cut and only the uncut ends stripped |
| Excerpts.OccurrencesStep | webpage.py:112-125 | one pass of the loop: stop on -1, or record the position and resume after the match |
| Excerpts.ExcerptsFromContains | webpage.py:112-114 | a word yields excerpts only if it occurs in the lower-cased page |
| Excerpts.ExcerptsFromStep | webpage.py:112-125 | one pass in terms of excerpts: none on -1, or this excerpt then those after the match |
| Excerpts.WordsCands | webpage.py:130-160 | every candidate of the word loops is on the page and comes from a word that occurs in it |
| Excerpts.PageCands | webpage.py:108-160 | a page yields candidates only when it matches in the chosen mode: the phrase, all words, or some word |
| Excerpts.AllCandsFromMatchingPages | webpage.py:105-160 | every candidate is numbered with a page of the text that matches the query |
| Excerpts.AllCands | webpage.py:105-160 | the candidate excerpts of the pages from one on, in the order the loops find them; stated by `AllCandsFromMatchingPages` and `AllCandsSorted` |
| Excerpts.AddAll | webpage.py:119-123 | appending each candidate unless already kept; stated by `AddAllElems`, `AddAllSorted` and `AddAllFirstOrder` |
| Excerpts.FirstIndex | webpage.py:119-123 | the first position of an excerpt in a list, or the length when it is absent |
| Excerpts.FirstIndexSnoc | webpage.py:123 | proof step: appending moves no first position and gives a new element the last one |
| Excerpts.AddAllFirstOrder | webpage.py:100-123 | de-duplication keeps the excerpts in the order of their first discovery |
| Excerpts.ElemsSnoc | webpage.py:121-123 | proof step: appending adds exactly one element |
| Excerpts.KeepNew | webpage.py:121-123 | the `seen_excerpts` test: a new excerpt is appended and recorded, a seen one is dropped |
| Excerpts.AddAllCons | webpage.py:121-123 | proof step: one deduplicating step |
| Excerpts.AddAllConcat | webpage.py:105-160 | deduplicating a concatenation is deduplicating one part after the other |
| Excerpts.AddAllElems | webpage.py:100-123 | deduplication yields no repeats and exactly the elements of the list and the candidates |
| Excerpts.AddAllSorted | webpage.py:105-123 | deduplicating candidates from later pages keeps page order |
| Excerpts.AllCandsSorted | webpage.py:105 | the candidates come in page order |
| Excerpts.PagesSortedConcat | webpage.py:105 | proof step: one page's candidates followed by later pages' stay in page order |
| Excerpts.FindExcerptsProperties | webpage.py:93-162 | empty for an empty text or query; no excerpt twice; in page order; exactly the distinct candidates, each kept in the order it was first found; each from a page that matches the query |
| Excerpts.FindExcerptsSpec | webpage.py:93-162 | the reference definition of `find_excerpts`; its properties are `FindExcerptsProperties` |
| Excerpts.ScanStep | webpage.py:110-125 | one `find` pass of the loop keeps the result equal to deduplicating the remaining excerpts |
| Excerpts.Keep | webpage.py:120-123 | adding an excerpt only when unseen, keeping `seen` equal to the list's elements |
| Excerpts.ScanWord | webpage.py:131-143 | the `while True` loop for one word gives the deduplicated excerpts of all its visited matches |
| Excerpts.ScanWords | webpage.py:130-160 | the `for word in words` loop gives the deduplicated candidates of all words |
| Excerpts.ScanPage | webpage.py:106-160 | one page of the loop in every mode |
| Excerpts.ScanPages | webpage.py:99-162 | the page loop gives the deduplicated candidates of all pages |
| Excerpts.AddAllPage | webpage.py:105 | the candidates of page `n` come before those of later pages |
| Excerpts.FindExcerpts | webpage.py:93-162 | `find_excerpts` computes the reference definition whose properties are proved above |
| Search.JsonIds | webpage.py:58-61 | the ids `json_each` reads hold no comma and join back into the link list |
| Search.FieldLikeMeaning | webpage.py:70-71 | `LOWER(field) LIKE '%w%'` for a lower-case, wildcard-free word means the word occurs in the lower-cased field, never on NULL |
| Search.LowerNoWildcards | webpage.py:71 | lower-casing introduces no wildcard |
| Search.TextMatchesMeaning | webpage.py:68-85 | the SQL filter of each mode agrees with substring tests on the name and the text |
| Search.SearchFailsIff | webpage.py:79-85 | the statement fails exactly for an OR search whose non-empty query is all whitespace (`AND ()`) |
| Search.SearchRows | webpage.py:38-91 | `search_penalties` before its `ORDER BY`: the distinct rows of each record joined with each document that links it, filtered by date and text; its meaning is stated by `SearchRowsMeaning` and `SearchFailsIff` |
| Search.TextMatches | webpage.py:68-85 | the `LIKE` conditions added for each mode; their meaning is stated by `TextMatchesMeaning` |
| Search.WellFormed | webpage.py:79-85 | the statement is valid SQL unless an OR search has no words; see `SearchFailsIff` |
| Search.SearchRowsMeaning | webpage.py:48-85 | for a query without wildcards, a row is a result exactly when it comes from a record and a document linking it, dated within the range (both ends included), whose name or text contains the phrase, every word or some word, ignoring ASCII case |
| Search.LinkedMeaning | webpage.py:58-61 | for a non-empty id, the `json_each` join finds the id in a link list exactly when the scraper's `split(',')` does |
| Search.TotalPages | webpage.py:355 | ceiling division: the pages hold all results, with no empty last page |
| Search.PageRange | webpage.py:362-374 | at most seven buttons, none past the last page, the first and the last page shown |
| Search.PageRangeSmall | webpage.py:366-367 | up to seven pages, every page has its own button |
| Search.PageRangeIncreasing | webpage.py:366-374 | the page buttons increase, ignoring the `...` marks |
| Search.PageRangeShowsCurrent | webpage.py:366-374 | the current page and its neighbours are shown |
| Search.PageRangeGaps | webpage.py:370-374 | a `...` stands between pages that are not adjacent |
| Search.PageRangeAdjacent | webpage.py:366-374 | buttons with no `...` between them are consecutive pages |
| Search.PageSlice | webpage.py:389-392 | a page holds at most twenty results taken in order from the right offset; every page before the last is full; a page is non-empty exactly when it is in range |
| Search.PagesFromCover | webpage.py:389-392 | the pages from `p` on are the results from offset `(p-1)*20` on |
| Search.PagesCoverResults | webpage.py:353-392 | the pages together are exactly the results, in order |
| Repair.RelinkAll | repair_db.py:37-41 | the link rewrite keeps every document and its text |
| Repair.NewId | repair_db.py:26-27 | the part before the first dash, followed by `-2024`; stated by `NewIdOfScraperId` and `NewIdNotWrong` |
| Repair.RelinkEntry | repair_db.py:37-41 | the link rewrite on one document: `REPLACE` when the list is `LIKE '%old%'`; see `HazardRelink` |
| Repair.RenameStep | repair_db.py:30-41 | one pass of the loop, failing when the new id is taken; stated by `StepFacts` |
| Repair.RepairRun | repair_db.py:24-50 | the loop until the first failure; stated by `RepairSucceedsIff`, `RepairKeys`, `RepairMovesRecords` and `RepairKeepsDocuments` |
| Repair.NewIdNotWrong | repair_db.py:26-27 | a new id never ends in `-2025` |
| Repair.NewIdOfScraperId | repair_db.py:26-27 | `"{i}-2025"` becomes `"{i}-2024"` |
| Repair.SelectionPending | repair_db.py:14-21 | the selected ids are distinct stored records with a 2025 id |
| Repair.StepFacts | repair_db.py:30-41 | a rename to a free id moves the record and keeps every other record |
| Repair.RepairSucceedsIff | repair_db.py:24-50 | the repair commits exactly when the new ids are distinct and none was taken before |
| Repair.RunStep | repair_db.py:24-43 | a successful run is a successful first rename followed by the rest |
| Repair.RepairKeepsDocuments | repair_db.py:37-41 | the repair keeps every document and its text |
| Repair.RepairKeys | repair_db.py:24-45 | after a commit, the selected ids are replaced by their new ids and the other ids are kept |
| Repair.IdSetCons | repair_db.py:24 | proof step: the ids of a non-empty list |
| Repair.NewIdNotPending | repair_db.py:26-27 | a new id is none of the ids still to rename |
| Repair.RenameThenRest | repair_db.py:30-34 | proof step: renaming one id, then the rest, changes the keys like renaming all at once |
| Repair.RepairMovesRecords | repair_db.py:24-45 | after a commit, each selected record is unchanged under its new id and every other record is untouched |
| Repair.RepairIdempotent | repair_db.py:14-45 | after a commit nothing is selected, so running the repair again changes nothing |
| Repair.LowerDigitsDash | repair_db.py:19 | ids of digits and dashes are their own lower case |
| Repair.ReplaceInsideLongerId | repair_db.py:39 | `REPLACE('11-2025', '1-2025', '1-2024')` is `'11-2024'` |
| Repair.HazardSelection | repair_db.py:14-20 | the example selects only `1-2025` |
| Repair.SingleLink | scraper.py:175 | a link string without commas is one id |
| Repair.HazardLinksResolve | repair_db.py:37-41 | before the repair, the example's link resolves |
| Repair.HazardNewId | repair_db.py:26-27 | `1-2025` becomes `1-2024` |
| Repair.HazardLike | repair_db.py:40 | `'11-2025' LIKE '%1-2025%'` holds |
| Repair.HazardRelink | repair_db.py:37-41 | the rewrite turns the link `11-2025` into `11-2024` |
| Repair.HazardAfter | repair_db.py:30-41 | after the rename, the document links `11-2024`, which is not a record |
| Repair.RepairCanBreakLinks | repair_db.py:37-41 | a repair that commits can leave a link naming no record, even when every link resolved before |
| Repair.HazardBrokenLink | repair_db.py:37-41 | the rewritten link list is the single id `11-2024` |
| Repair.Repair2024Ids | repair_db.py:5-53 | commits the renames and reports their count when all succeed; on the first failure reports it and rolls back to the old state |
| Repair.EraseDatabase | repair_db.py:55-81 | reports both tables' row counts and leaves both tables empty |

## Left out

- HTTP requests, BeautifulSoup and PDF text extraction are not modelled. A year's page is a parameter `pageOf`: a failed fetch, a page without a table, or the table's rows. The PDF download is a parameter `fetch` that gives `None` on any failure.
- The Streamlit user interface is not modelled: widgets, session state, reruns, date pickers and result rendering. Only the pagination arithmetic and the page slice are.
- SQLite is modelled by what the statements do to two maps, not by its engine. `created_at` and `CURRENT_TIMESTAMP` are left out (the clock).
- `check_last_update`, `re_scrape_all_data` and `print_first_entries` are not modelled. They are I/O and console output.
- Amounts are kept as exact digit strings (`Decimal`). The conversion to a Python `float` and `REAL` column rounding are not modelled.
- Text.Lower: lower-cases ASCII letters only. That is exactly what SQLite's built-in `LOWER()` does (without the ICU extension). Python's `str.lower()`, used on the query and the pages, also lowers non-ASCII letters, and a few of them change length; the model does not capture that, so it cannot show where `len(search_text)` and the length of the lower-cased text differ.
- Search.SearchRows: `ORDER BY p.date DESC` is stated as a predicate on the result list (`IsSearchResult`). The order among rows with the same date is left open, as SQLite leaves it.
- Repair.Repair2024Ids: the order in which SQLite returns the selected rows is unspecified, so it is a parameter (`order`) constrained by the selection.
- Excerpts.ExtractContext: takes a non-negative index. `find_excerpts` only passes `find` results, and a negative index is never passed.
- Search.JsonIds: reads the ids by splitting the list at its commas. An id holding a double quote or a backslash would make the `json_each` argument malformed JSON, or decode to a different id. The scraper's ids (`"{index}-{year}"`) hold neither, so that case is not modelled.
- Search.InRange: SQLite compares the dates as ISO `YYYY-MM-DD` text. The model compares them in calendar order (`DateLe`), which agrees with that text order for the four-digit years `%Y` admits.
- Repair.Selected: the repair's `WHERE date >= '2024-01-01' AND date < '2025-01-01'` (repair_db.py:17-18) is likewise a text comparison of ISO dates, modelled in calendar order (`DateLe`); the two agree for four-digit years.
- Parsers.ExtractNumber: counts only the ASCII digits `0`-`9` as digits (`IsNumChar`, `IsDigit`). Python's `\d` and `float` also accept other Unicode decimal digits, and the amount cells are not filtered to ASCII, so a cell such as `"٣"` (Arabic-Indic three) reads as 3.0 in Python but as 0 in the model.
- Excerpts.ScanPages: the loops are stated for any cut function (`Cutter`). `FindExcerpts` instantiates them with the context cut that `find_excerpts` makes.
- Parsers.ExtractNumber: the contract does not spell out the exact token matched in general. The round trip is given by `ExtractNumberRendered` and `RenderedValue`, and the examples fix the behaviour on amounts, on text without numbers and on a lone comma.
- Concurrency and transactions other than the repair's single commit or rollback are not modelled.
