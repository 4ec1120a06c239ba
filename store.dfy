/**
 * The two SQLite tables of the scraper (scraper.py) and the operations that
 * write them: `entry_exists`, `store_penalty`, `store_pdf`, and the per-year,
 * per-row loop of `scrape_and_store`.
 */
module Store {
  import opened Common
  import opened Text
  import opened Parsers

  /** A row of `penalties` (its `created_at` timestamp is not modelled). */
  datatype Penalty = Penalty(
    date: Date,
    revision: Option<Date>,
    name: string,
    findings: Decimal,
    amountUsd: Decimal)

  /** A row of `penalties_pdfs`: the extracted text and the comma-joined ids it is linked to. */
  datatype PdfEntry = PdfEntry(text: Option<string>, links: Option<string>)

  /** Both tables at one moment: `penalties` keyed by id, `penalties_pdfs` keyed by url. */
  datatype Db = Db(penalties: map<string, Penalty>, pdfs: map<string, PdfEntry>)

  /** `linked_penalties.split(',') if linked_penalties else []`. */
  function LinkList(links: Option<string>): seq<string> {
    if links.None? || links.value == "" then [] else Split(links.value, ",")
  }

  /** The `penalties_pdfs` row `store_pdf(url, text, id)` leaves behind, given the row before it. */
  function LinkedEntry(prior: Option<PdfEntry>, text: Option<string>, id: string): PdfEntry {
    match prior
    case None => PdfEntry(text, Some(id))
    case Some(e) =>
      var ids := LinkList(e.links);
      if id in ids then e else PdfEntry(e.text, Some(Join(ids + [id], ",")))
  }

  function Lookup(pdfs: map<string, PdfEntry>, url: string): Option<PdfEntry> {
    if url in pdfs then Some(pdfs[url]) else None
  }

  /** A record id as the scraper writes it: no comma, so the link encoding can hold it. */
  predicate LinkableId(id: string) {
    id != "" && ',' !in id
  }

  /** The pieces of a split link string hold no comma. */
  lemma LinkListCommaFree(links: Option<string>)
    ensures forall i :: 0 <= i < |LinkList(links)| ==> ',' !in LinkList(links)[i]
  {
    if links.Some? && links.value != "" {
      var parts := Split(links.value, ",");
      forall i | 0 <= i < |parts| ensures ',' !in parts[i] {
        FreeChar(parts[i], ',');
      }
    }
  }

  /**
   * What `store_pdf` does to the link list: a new url gets exactly the id; an
   * existing one gets the id appended at the end when it is absent and is left
   * as it is otherwise.
   */
  lemma {:induction false} LinkedEntryLinks(prior: Option<PdfEntry>, text: Option<string>, id: string)
    requires LinkableId(id)
    ensures LinkList(LinkedEntry(prior, text, id).links) ==
      if prior.None? then [id]
      else if id in LinkList(prior.value.links) then LinkList(prior.value.links)
      else LinkList(prior.value.links) + [id]
  {
    if prior.None? {
      assert Split(id, ",") == [id] by {
        FindChar(id, ',', |id|);
      }
    } else {
      var ids := LinkList(prior.value.links);
      if id !in ids {
        LinkListCommaFree(prior.value.links);
        var joined := Join(ids + [id], ",");
        SplitJoin(ids + [id], ',');
        assert joined != "" by {
          JoinNonEmpty(ids + [id], ",");
        }
      }
    }
  }

  lemma {:induction false} JoinNonEmpty(parts: seq<string>, sep: string)
    requires |parts| >= 1 && parts[|parts| - 1] != ""
    ensures Join(parts, sep) != ""
  {
    if |parts| > 1 {
      JoinNonEmpty(parts[1..], sep);
    }
  }

  /** `store_pdf` never replaces text it already stored. */
  lemma LinkedEntryKeepsText(prior: Option<PdfEntry>, text: Option<string>, id: string)
    ensures prior.Some? ==> LinkedEntry(prior, text, id).text == prior.value.text
    ensures prior.None? ==> LinkedEntry(prior, text, id).text == text
  {
  }

  /** Linking the same id twice is the same as linking it once, whatever text the second call brings. */
  lemma LinkedEntryIdempotent(prior: Option<PdfEntry>, text: Option<string>, text2: Option<string>, id: string)
    requires LinkableId(id)
    ensures LinkedEntry(Some(LinkedEntry(prior, text, id)), text2, id) == LinkedEntry(prior, text, id)
  {
    LinkedEntryLinks(prior, text, id);
  }

  /** `store_pdf` as a change of the whole store. */
  function StorePdfSpec(db: Db, url: string, text: Option<string>, id: string): Db {
    db.(pdfs := db.pdfs[url := LinkedEntry(Lookup(db.pdfs, url), text, id)])
  }

  /** `store_penalty`: `INSERT OR IGNORE` the record, then `store_pdf` for its document. */
  function StorePenaltySpec(db: Db, id: string, p: Penalty, text: Option<string>, url: string): Db {
    var inserted := if id in db.penalties then db.penalties else db.penalties[id := p];
    StorePdfSpec(db.(penalties := inserted), url, text, id)
  }

  /** Every id a document lists names a stored record. */
  ghost predicate LinksResolve(db: Db) {
    forall url, id :: url in db.pdfs && id in LinkList(db.pdfs[url].links) ==> id in db.penalties
  }

  /**
   * `store_penalty` is first-write-wins, never overwrites document text, links
   * the id to its document, and keeps every document link pointing at a record.
   */
  lemma StorePenaltyProperties(db: Db, id: string, p: Penalty, text: Option<string>, url: string)
    requires LinkableId(id)
    ensures var r := StorePenaltySpec(db, id, p, text, url);
      && r.penalties.Keys == db.penalties.Keys + {id}
      && (forall k :: k in db.penalties ==> r.penalties[k] == db.penalties[k])
      && (id !in db.penalties ==> r.penalties[id] == p)
      && r.pdfs.Keys == db.pdfs.Keys + {url}
      && (forall u :: u in db.pdfs ==> r.pdfs[u].text == db.pdfs[u].text)
      && id in LinkList(r.pdfs[url].links)
      && (LinksResolve(db) ==> LinksResolve(r))
  {
    var r := StorePenaltySpec(db, id, p, text, url);
    LinkedEntryLinks(Lookup(db.pdfs, url), text, id);
    if LinksResolve(db) {
      forall u, k | u in r.pdfs && k in LinkList(r.pdfs[u].links) ensures k in r.penalties {
        if u != url {
          assert r.pdfs[u] == db.pdfs[u];
        }
      }
    }
  }

  // ---------------------------------------------------------------------
  // The scraped table, abstracted from the HTML

  /** An `<a>` element: its text and its `href` attribute, if it has one. */
  datatype Anchor = Anchor(text: string, href: Option<string>)

  /** A `<th>` or `<td>` cell: its text and the first anchor inside it. */
  datatype Cell = Cell(text: string, anchor: Option<Anchor>)

  /** A `<tr>` of the enforcement table. */
  datatype Row = Row(cells: seq<Cell>)

  /** What fetching one year's page yields. */
  datatype YearPage = FetchFailed | NoTable | Table(trs: seq<Row>)

  /** `table.find_all('tr')[1:-1]`: the header row and the totals row dropped. */
  function DataRows(trs: seq<Row>): (rows: seq<Row>)
    ensures |rows| == if |trs| <= 2 then 0 else |trs| - 2
    ensures forall i :: 0 <= i < |rows| ==> rows[i] == trs[i + 1]
  {
    if |trs| <= 2 then [] else trs[1..|trs| - 1]
  }

  const PenaltiesHost: string := "https://ofac.treasury.gov"

  /** A root-relative `href` is made absolute on the site's host. */
  function ResolveUrl(href: string): (url: string)
    ensures |href| > 0 && href[0] == '/' ==> url == PenaltiesHost + href
    ensures !(|href| > 0 && href[0] == '/') ==> url == href
  {
    if |href| > 0 && href[0] == '/' then PenaltiesHost + href else href
  }

  /** `f"{index}-{year}"`. */
  function MakeId(index: nat, year: nat): (id: string)
    ensures LinkableId(id)
  {
    NatToString(index) + "-" + NatToString(year)
  }

  /** `"{index}-{year}"` determines the position and the year it was made from. */
  lemma MakeIdInjective(i: nat, y: nat, j: nat, z: nat)
    requires MakeId(i, y) == MakeId(j, z)
    ensures i == j && y == z
  {
    var a, b := NatToString(i), NatToString(j);
    var s := MakeId(i, y);
    FindChar(s, '-', |a|);
    FindChar(MakeId(j, z), '-', |b|);
    assert s[..|a|] == a && MakeId(j, z)[..|b|] == b;
    NatToStringInjective(i, j);
    assert s[|a| + 1..] == NatToString(y);
    assert MakeId(j, z)[|b| + 1..] == NatToString(z);
    NatToStringInjective(y, z);
  }

  /** `date_str.encode('ascii', 'ignore').decode('ascii')`: the non-ASCII characters dropped. */
  function AsciiOnly(s: string): (r: string)
    ensures forall i :: 0 <= i < |r| ==> (r[i] as int) < 128
    ensures (forall i :: 0 <= i < |s| ==> (s[i] as int) < 128) ==> r == s
    ensures |r| <= |s|
  {
    if s == [] then []
    else (if (s[0] as int) < 128 then [s[0]] else []) + AsciiOnly(s[1..])
  }

  /** What one table row leads to in the loop of `scrape_and_store`. */
  datatype RowOutcome =
    | NotARow   // not four cells, or no anchor in the first: passed over
    | BadDate   // `strptime` raised `ValueError`: the row is skipped
    | Raises    // a missing `href` or a `float('')`: the rest of the year is abandoned
    | Parsed(id: string, penalty: Penalty, url: string)

  /** The date and the optional revision date of a row, or `None` when either does not parse. */
  function RowDates(dateText: string): Option<(Date, Option<Date>)> {
    var (mainText, revText) := ExtractDates(dateText);
    var date := ParseDate(mainText);
    var revision := if revText.Some? && revText.value != "" then ParseDate(revText.value) else None;
    if date.None? || (revText.Some? && revText.value != "" && revision.None?) then None
    else Some((date.value, revision))
  }

  /** The date text of the first cell's anchor: stripped, without its non-ASCII characters, stripped again. */
  function DateText(a: Anchor): string {
    Strip(AsciiOnly(Strip(a.text)))
  }

  /** A row of four cells whose first cell holds an anchor: the rows the loop looks at. */
  predicate TableRow(row: Row) {
    |row.cells| == 4 && row.cells[0].anchor.Some?
  }

  /** The cell texts of a row as numbers, both parsed. */
  predicate NumbersParse(row: Row)
    requires TableRow(row)
  {
    ExtractNumber(Strip(row.cells[2].text)).Ok? && ExtractNumber(Strip(row.cells[3].text)).Ok?
  }

  /** Reading back a date cell as the site writes it, without a revision date. */
  lemma RowDatesPlain(d: Date)
    requires ValidDate(d)
    ensures RowDates(FormatDate(d)) == Some((d, None))
  {
    var t := FormatDate(d);
    assert '(' !in t;
    NoParenNoMarker(t);
    StripDateChars(t);
    assert ExtractDates(t) == (t, None);
    ParseFormatDate(d);
  }

  /** Reading back a date cell as the site writes it, with a revision date. */
  lemma RowDatesRevised(d: Date, rev: Date)
    requires ValidDate(d) && ValidDate(rev)
    ensures RowDates(FormatDate(d) + RevisedMarker + FormatDate(rev) + ")") == Some((d, Some(rev)))
  {
    var m, v := FormatDate(d), FormatDate(rev);
    ExtractDatesAnnotated(m, v);
    assert ExtractDates(m + RevisedMarker + v + ")") == (m, Some(v));
    ParseFormatDate(d);
    ParseFormatDate(rev);
    assert v != "";
  }

  /**
   * The parsing the loop does for the row at `index` of `year`'s table: rows
   * that are not table rows are passed over, a date or revision date that does
   * not parse skips the row, a missing `href` or an amount that does not parse
   * raises, and otherwise the record is read from the four cells.
   */
  function ParseRow(row: Row, index: nat, year: nat): (r: RowOutcome)
    ensures r.NotARow? <==> !TableRow(row)
    ensures r.BadDate? <==> TableRow(row) && RowDates(DateText(row.cells[0].anchor.value)).None?
    ensures r.Raises? <==>
      && TableRow(row) && RowDates(DateText(row.cells[0].anchor.value)).Some?
      && (row.cells[0].anchor.value.href.None? || !NumbersParse(row))
    ensures r.Parsed? ==> r.id == MakeId(index, year) && ValidDate(r.penalty.date)
    ensures r.Parsed? ==>
      && TableRow(row) && row.cells[0].anchor.value.href.Some?
      && r.url == ResolveUrl(row.cells[0].anchor.value.href.value)
      && RowDates(DateText(row.cells[0].anchor.value)) == Some((r.penalty.date, r.penalty.revision))
      && r.penalty.name == Strip(row.cells[1].text)
      && ExtractNumber(Strip(row.cells[2].text)) == Ok(r.penalty.findings)
      && ExtractNumber(Strip(row.cells[3].text)) == Ok(r.penalty.amountUsd)
  {
    var cells := row.cells;
    if |cells| != 4 || cells[0].anchor.None? then NotARow
    else
      var a := cells[0].anchor.value;
      match RowDates(DateText(a))
      case None => BadDate
      case Some((date, revision)) =>
        if a.href.None? then Raises
        else
          var url := ResolveUrl(a.href.value);
          var name := Strip(cells[1].text);
          match (ExtractNumber(Strip(cells[2].text)), ExtractNumber(Strip(cells[3].text)))
          case (Ok(findings), Ok(amount)) =>
            Parsed(MakeId(index, year), Penalty(date, revision, name, findings, amount), url)
          case _ => Raises
  }

  // ---------------------------------------------------------------------
  // The loops of `scrape_and_store`, as functions of the store before them

  /**
   * What one row that did not raise does to the store: a parsed row whose id is
   * not stored yet is downloaded (`fetch` stands for the request and the PDF
   * text extraction, `None` on any failure) and stored; any other row is skipped.
   */
  function StepRow(db: Db, o: RowOutcome, fetch: string -> Option<string>): Db {
    if o.Parsed? && o.id !in db.penalties then StorePenaltySpec(db, o.id, o.penalty, fetch(o.url), o.url)
    else db
  }

  /** The rows of one year's table from position `i` on; a row that raises ends the year, keeping what earlier rows wrote. */
  function IngestRows(db: Db, rows: seq<Row>, year: nat, fetch: string -> Option<string>, i: nat): Db
    requires i <= |rows|
    decreases |rows| - i
  {
    if i == |rows| then db
    else
      var o := ParseRow(rows[i], i, year);
      if o.Raises? then db else IngestRows(StepRow(db, o, fetch), rows, year, fetch, i + 1)
  }

  /** One pass of the row loop: a row that raises ends the year, any other is stepped over and the loop goes on. */
  lemma IngestRowsStep(db: Db, rows: seq<Row>, year: nat, fetch: string -> Option<string>, i: nat)
    requires i < |rows|
    ensures var o := ParseRow(rows[i], i, year);
      IngestRows(db, rows, year, fetch, i)
      == if o.Raises? then db else IngestRows(StepRow(db, o, fetch), rows, year, fetch, i + 1)
  {
  }

  /** One year: nothing happens when its page cannot be fetched or has no table. */
  function ScrapeYear(db: Db, page: YearPage, year: nat, fetch: string -> Option<string>): Db {
    match page
    case Table(trs) => IngestRows(db, DataRows(trs), year, fetch, 0)
    case _ => db
  }

  /** The years `year..last` in ascending order. */
  function ScrapeYears(db: Db, pageOf: nat -> YearPage, fetch: string -> Option<string>, year: nat, last: int): Db
    decreases last - year + 1
  {
    if year > last then db
    else ScrapeYears(ScrapeYear(db, pageOf(year), year, fetch), pageOf, fetch, year + 1, last)
  }

  /** The store grows monotonically: keys, records and texts are kept. */
  ghost predicate Extends(db: Db, r: Db) {
    && db.penalties.Keys <= r.penalties.Keys
    && (forall k :: k in db.penalties ==> r.penalties[k] == db.penalties[k])
    && db.pdfs.Keys <= r.pdfs.Keys
    && (forall u :: u in db.pdfs ==> r.pdfs[u].text == db.pdfs[u].text)
  }

  lemma ExtendsTransitive(a: Db, b: Db, c: Db)
    requires Extends(a, b) && Extends(b, c)
    ensures Extends(a, c)
  {
  }

  /** One row keeps every stored record and text, adds at most its own id, and keeps links resolving. */
  lemma StepRowProperties(db: Db, o: RowOutcome, fetch: string -> Option<string>)
    requires o.Parsed? ==> LinkableId(o.id)
    ensures var r := StepRow(db, o, fetch);
      && Extends(db, r)
      && (forall k :: k in r.penalties && k !in db.penalties ==> o.Parsed? && k == o.id)
      && (o.Parsed? ==> o.id in r.penalties)
      && (LinksResolve(db) ==> LinksResolve(r))
  {
    if o.Parsed? && o.id !in db.penalties {
      StorePenaltyProperties(db, o.id, o.penalty, fetch(o.url), o.url);
    }
  }

  /** A year's ingestion keeps every stored record and document text. */
  lemma {:induction false} IngestRowsExtends(db: Db, rows: seq<Row>, year: nat, fetch: string -> Option<string>, i: nat)
    requires i <= |rows|
    ensures Extends(db, IngestRows(db, rows, year, fetch, i))
    decreases |rows| - i
  {
    if i < |rows| {
      var o := ParseRow(rows[i], i, year);
      if !o.Raises? {
        var next := StepRow(db, o, fetch);
        StepRowProperties(db, o, fetch);
        IngestRowsExtends(next, rows, year, fetch, i + 1);
        ExtendsTransitive(db, next, IngestRows(next, rows, year, fetch, i + 1));
      }
    }
  }

  /** A year's ingestion keeps every document link pointing at a stored record. */
  lemma {:induction false} IngestRowsLinks(db: Db, rows: seq<Row>, year: nat, fetch: string -> Option<string>, i: nat)
    requires i <= |rows| && LinksResolve(db)
    ensures LinksResolve(IngestRows(db, rows, year, fetch, i))
    decreases |rows| - i
  {
    if i < |rows| {
      var o := ParseRow(rows[i], i, year);
      if !o.Raises? {
        StepRowProperties(db, o, fetch);
        IngestRowsLinks(StepRow(db, o, fetch), rows, year, fetch, i + 1);
      }
    }
  }

  /** The row at `j` parsed, under the id `id`, into the record `p`. */
  predicate RowGives(rows: seq<Row>, year: nat, j: nat, id: string, p: Penalty)
    requires j < |rows|
  {
    var o := ParseRow(rows[j], j, year);
    o.Parsed? && o.id == id && o.penalty == p
  }

  /**
   * Every record a year's ingestion adds belongs to a row position `j` it
   * reached whose row parsed: it is stored under `"{j}-{year}"` and holds what
   * that row's cells say.
   */
  lemma {:induction false} IngestRowsNewIds(db: Db, rows: seq<Row>, year: nat, fetch: string -> Option<string>, i: nat)
    requires i <= |rows|
    ensures var r := IngestRows(db, rows, year, fetch, i);
      forall id :: id in r.penalties && id !in db.penalties ==>
        exists j :: i <= j < |rows| && RowGives(rows, year, j, id, r.penalties[id])
    decreases |rows| - i
  {
    if i < |rows| {
      var o := ParseRow(rows[i], i, year);
      if !o.Raises? {
        var next := StepRow(db, o, fetch);
        StepRowProperties(db, o, fetch);
        IngestRowsNewIds(next, rows, year, fetch, i + 1);
        IngestRowsExtends(next, rows, year, fetch, i + 1);
        var r := IngestRows(next, rows, year, fetch, i + 1);
        assert r == IngestRows(db, rows, year, fetch, i);
        forall k | k in r.penalties && k !in db.penalties
          ensures exists j :: i <= j < |rows| && RowGives(rows, year, j, k, r.penalties[k])
        {
          if k in next.penalties {
            assert o.Parsed? && k == o.id;
            StorePenaltyProperties(db, o.id, o.penalty, fetch(o.url), o.url);
            assert r.penalties[k] == next.penalties[k] == o.penalty;
            assert RowGives(rows, year, i, k, r.penalties[k]);
          } else {
            var j :| i + 1 <= j < |rows| && RowGives(rows, year, j, k, r.penalties[k]);
          }
        }
      }
    }
  }

  /** Every row from `i` up to the first one that raises has its id stored already. */
  ghost predicate Covered(keys: set<string>, rows: seq<Row>, year: nat, i: nat)
    requires i <= |rows|
    decreases |rows| - i
  {
    i == |rows| ||
    var o := ParseRow(rows[i], i, year);
    o.Raises? || ((o.Parsed? ==> o.id in keys) && Covered(keys, rows, year, i + 1))
  }

  lemma {:induction false} CoveredGrows(keys: set<string>, more: set<string>, rows: seq<Row>, year: nat, i: nat)
    requires i <= |rows| && keys <= more && Covered(keys, rows, year, i)
    ensures Covered(more, rows, year, i)
    decreases |rows| - i
  {
    if i < |rows| && !ParseRow(rows[i], i, year).Raises? {
      CoveredGrows(keys, more, rows, year, i + 1);
    }
  }

  /** After a pass, every row the pass reached has its id stored. */
  lemma {:induction false} IngestRowsCovers(db: Db, rows: seq<Row>, year: nat, fetch: string -> Option<string>, i: nat)
    requires i <= |rows|
    ensures Covered(IngestRows(db, rows, year, fetch, i).penalties.Keys, rows, year, i)
    decreases |rows| - i
  {
    if i < |rows| {
      var o := ParseRow(rows[i], i, year);
      if !o.Raises? {
        var next := StepRow(db, o, fetch);
        StepRowProperties(db, o, fetch);
        IngestRowsCovers(next, rows, year, fetch, i + 1);
        IngestRowsExtends(next, rows, year, fetch, i + 1);
      }
    }
  }

  /** A pass over rows whose ids are all stored writes nothing: no download, no store call. */
  lemma {:induction false} IngestRowsNoop(db: Db, rows: seq<Row>, year: nat, fetch: string -> Option<string>, i: nat)
    requires i <= |rows| && Covered(db.penalties.Keys, rows, year, i)
    ensures IngestRows(db, rows, year, fetch, i) == db
    decreases |rows| - i
  {
    if i < |rows| && !ParseRow(rows[i], i, year).Raises? {
      IngestRowsNoop(db, rows, year, fetch, i + 1);
    }
  }

  ghost predicate YearCovered(keys: set<string>, page: YearPage, year: nat) {
    page.Table? ==> Covered(keys, DataRows(page.trs), year, 0)
  }

  /** A scrape over a range of years keeps every stored record and text, and keeps links resolving. */
  lemma {:induction false} ScrapeYearsProperties(db: Db, pageOf: nat -> YearPage, fetch: string -> Option<string>, year: nat, last: int)
    ensures var r := ScrapeYears(db, pageOf, fetch, year, last);
      Extends(db, r) && (LinksResolve(db) ==> LinksResolve(r))
    decreases last - year + 1
  {
    if year <= last {
      var next := ScrapeYear(db, pageOf(year), year, fetch);
      if pageOf(year).Table? {
        IngestRowsExtends(db, DataRows(pageOf(year).trs), year, fetch, 0);
        if LinksResolve(db) {
          IngestRowsLinks(db, DataRows(pageOf(year).trs), year, fetch, 0);
        }
      }
      ScrapeYearsProperties(next, pageOf, fetch, year + 1, last);
      ExtendsTransitive(db, next, ScrapeYears(next, pageOf, fetch, year + 1, last));
    }
  }

  /** The year a scrape handles first stays covered by what the later years add. */
  lemma FirstYearCovered(db: Db, pageOf: nat -> YearPage, fetch: string -> Option<string>, year: nat, last: int)
    requires year <= last
    ensures YearCovered(ScrapeYears(db, pageOf, fetch, year, last).penalties.Keys, pageOf(year), year)
  {
    var next := ScrapeYear(db, pageOf(year), year, fetch);
    var r := ScrapeYears(next, pageOf, fetch, year + 1, last);
    assert r == ScrapeYears(db, pageOf, fetch, year, last);
    if pageOf(year).Table? {
      var rows := DataRows(pageOf(year).trs);
      ScrapeYearsProperties(next, pageOf, fetch, year + 1, last);
      IngestRowsCovers(db, rows, year, fetch, 0);
      CoveredGrows(next.penalties.Keys, r.penalties.Keys, rows, year, 0);
    }
  }

  /** After a scrape, every row of every year it reached has its id stored. */
  lemma {:induction false} ScrapeYearsCovers(db: Db, pageOf: nat -> YearPage, fetch: string -> Option<string>, year: nat, last: int)
    ensures forall y :: year <= y <= last ==>
      YearCovered(ScrapeYears(db, pageOf, fetch, year, last).penalties.Keys, pageOf(y), y)
    decreases last - year + 1
  {
    if year <= last {
      var next := ScrapeYear(db, pageOf(year), year, fetch);
      var r := ScrapeYears(db, pageOf, fetch, year, last);
      assert r == ScrapeYears(next, pageOf, fetch, year + 1, last);
      ScrapeYearsCovers(next, pageOf, fetch, year + 1, last);
      FirstYearCovered(db, pageOf, fetch, year, last);
      forall y | year <= y <= last
        ensures YearCovered(r.penalties.Keys, pageOf(y), y)
      {
        if y != year {
          assert year + 1 <= y;
        }
      }
    }
  }

  lemma {:induction false} ScrapeYearsNoop(db: Db, pageOf: nat -> YearPage, fetch: string -> Option<string>, year: nat, last: int)
    requires forall y :: year <= y <= last ==> YearCovered(db.penalties.Keys, pageOf(y), y)
    ensures ScrapeYears(db, pageOf, fetch, year, last) == db
    decreases last - year + 1
  {
    if year <= last {
      assert YearCovered(db.penalties.Keys, pageOf(year), year);
      if pageOf(year).Table? {
        IngestRowsNoop(db, DataRows(pageOf(year).trs), year, fetch, 0);
      }
      ScrapeYearsNoop(db, pageOf, fetch, year + 1, last);
    }
  }

  /**
   * Re-running the scrape over unchanged pages writes nothing, whatever the
   * downloads return the second time: every id the first run reached is stored.
   */
  lemma ScrapeIdempotent(db: Db, pageOf: nat -> YearPage, fetch: string -> Option<string>,
                         refetch: string -> Option<string>, year: nat, last: int)
    ensures var once := ScrapeYears(db, pageOf, fetch, year, last);
      ScrapeYears(once, pageOf, refetch, year, last) == once
  {
    ScrapeYearsCovers(db, pageOf, fetch, year, last);
    ScrapeYearsNoop(ScrapeYears(db, pageOf, fetch, year, last), pageOf, refetch, year, last);
  }

  /** One pass of the year loop: the first year of the range, then the rest. */
  lemma ScrapeYearsStep(db: Db, pageOf: nat -> YearPage, fetch: string -> Option<string>, year: nat, last: int)
    requires year <= last
    ensures ScrapeYears(db, pageOf, fetch, year, last)
            == ScrapeYears(ScrapeYear(db, pageOf(year), year, fetch), pageOf, fetch, year + 1, last)
  {
  }

  /** `start_year or current_year`: a missing or zero year means the current one. */
  function YearOrCurrent(y: Option<nat>, currentYear: nat): nat {
    if y.None? || y.value == 0 then currentYear else y.value
  }

  // ---------------------------------------------------------------------
  // The store itself

  /** The two tables, updated in place as the scraper's SQL statements do. */
  class PenaltyStore {
    var penalties: map<string, Penalty>
    var pdfs: map<string, PdfEntry>

    function Snapshot(): Db
      reads this
    {
      Db(penalties, pdfs)
    }

    /** `setup_database` on a fresh file: both tables empty. */
    constructor ()
      ensures penalties == map[] && pdfs == map[]
    {
      penalties := map[];
      pdfs := map[];
    }

    /** `entry_exists`: a point lookup of the id in `penalties`. */
    method EntryExists(id: string) returns (found: bool)
      ensures found <==> id in penalties
    {
      found := id in penalties;
    }

    /** `store_pdf`: insert a new document, or append the id to its link list when absent. */
    method StorePdf(url: string, text: Option<string>, id: string)
      modifies this
      ensures Snapshot() == StorePdfSpec(old(Snapshot()), url, text, id)
    {
      if url in pdfs {
        var links := pdfs[url].links;
        var ids := if links.Some? && links.value != "" then Split(links.value, ",") else [];
        if id !in ids {
          ids := ids + [id];
          pdfs := pdfs[url := pdfs[url].(links := Some(Join(ids, ",")))];
        }
      } else {
        pdfs := pdfs[url := PdfEntry(text, Some(id))];
      }
    }

    /** `store_penalty`: `INSERT OR IGNORE` the record, then `store_pdf`. */
    method StorePenalty(id: string, p: Penalty, text: Option<string>, url: string)
      modifies this
      ensures Snapshot() == StorePenaltySpec(old(Snapshot()), id, p, text, url)
    {
      if id !in penalties {
        penalties := penalties[id := p];
      }
      StorePdf(url, text, id);
    }

    /** The row loop of `scrape_and_store` for one year's data rows. */
    method IngestYear(rows: seq<Row>, year: nat, fetch: string -> Option<string>)
      modifies this
      ensures Snapshot() == IngestRows(old(Snapshot()), rows, year, fetch, 0)
    {
      var index := 0;
      while index < |rows|
        invariant 0 <= index <= |rows|
        invariant IngestRows(old(Snapshot()), rows, year, fetch, 0) == IngestRows(Snapshot(), rows, year, fetch, index)
      {
        var o := ParseRow(rows[index], index, year);
        IngestRowsStep(Snapshot(), rows, year, fetch, index);
        if o.Raises? {
          return;
        }
        if o.Parsed? {
          var found := EntryExists(o.id);
          if !found {
            var text := fetch(o.url);
            StorePenalty(o.id, o.penalty, text, o.url);
          }
        }
        index := index + 1;
      }
    }

    /** `scrape_and_store(start_year, end_year)`: every year of the range, in ascending order. */
    method ScrapeAndStore(startYear: Option<nat>, endYear: Option<nat>, currentYear: nat,
                          pageOf: nat -> YearPage, fetch: string -> Option<string>)
      modifies this
      ensures Snapshot() == ScrapeYears(old(Snapshot()), pageOf, fetch,
                                        YearOrCurrent(startYear, currentYear), YearOrCurrent(endYear, currentYear))
    {
      var first, last := YearOrCurrent(startYear, currentYear), YearOrCurrent(endYear, currentYear);
      var year := first;
      while year <= last
        invariant first <= year <= if first <= last then last + 1 else first
        invariant ScrapeYears(old(Snapshot()), pageOf, fetch, first, last) == ScrapeYears(Snapshot(), pageOf, fetch, year, last)
        decreases last as int + 1 - year
      {
        ScrapeYearsStep(Snapshot(), pageOf, fetch, year, last);
        if pageOf(year).Table? {
          IngestYear(DataRows(pageOf(year).trs), year, fetch);
        }
        year := year + 1;
      }
    }
  }
}
