/**
 * The search page's query over the two tables, and the arithmetic that
 * splits its result list into pages of twenty with a row of page buttons.
 */
module Search {
  import opened Common
  import opened Text
  import opened Sql
  import opened Parsers
  import opened Store
  import Excerpts

  /** The three search modes of the search page. */
  type Mode = Excerpts.Mode

  /** The statement SQLite refuses to prepare: an OR search whose query has no words yields `AND ()`. */
  datatype SqlError = SyntaxError

  /** One row of the `SELECT DISTINCT`: the record's columns with one document linked to it. */
  datatype ResultRow = ResultRow(
    date: Date,
    name: string,
    findings: Decimal,
    amountUsd: Decimal,
    revision: Option<Date>,
    url: string,
    text: Option<string>)

  /**
   * `json_each('["' || REPLACE(links, ',', '","') || '"]')`: the ids between
   * the commas; a NULL list makes the whole string NULL and joins nothing.
   */
  function JsonIds(links: Option<string>): (ids: seq<string>)
    ensures links.None? ==> ids == []
    ensures links.Some? ==> Join(ids, ",") == links.value
    ensures forall i :: 0 <= i < |ids| ==> ',' !in ids[i]
  {
    if links.None? then []
    else
      var ids := Split(links.value, ",");
      forall i | 0 <= i < |ids| ensures ',' !in ids[i] {
        FreeChar(ids[i], ',');
      }
      ids
  }

  /** `LOWER(field) LIKE '%w%'`; a NULL field never satisfies it. */
  predicate FieldLike(field: Option<string>, w: string) {
    field.Some? && Like(Lower(field.value), ['%'] + w + ['%'])
  }

  /** One `(LOWER(p.name) LIKE ? OR LOWER(pdf.pdf_text) LIKE ?)` condition. */
  predicate WordCondition(name: string, text: Option<string>, w: string) {
    FieldLike(Some(name), w) || FieldLike(text, w)
  }

  /** The text conditions of the `WHERE` clause; an empty query adds none. */
  predicate TextMatches(name: string, text: Option<string>, query: string, mode: Mode) {
    query == [] ||
    var ws := Words(Lower(query));
    match mode
    case Exact => WordCondition(name, text, Lower(query))
    case AllWords => forall i :: 0 <= i < |ws| ==> WordCondition(name, text, ws[i])
    case AnyWord => exists i :: 0 <= i < |ws| && WordCondition(name, text, ws[i])
  }

  /** Whether the statement built for the query is valid SQL. */
  predicate WellFormed(query: string, mode: Mode) {
    !(query != [] && mode.AnyWord? && Words(Lower(query)) == [])
  }

  /** `p.date >= ? AND p.date <= ?`: both ends included. */
  predicate InRange(d: Date, start: Date, end: Date) {
    DateLe(start, d) && DateLe(d, end)
  }

  /** `id` is among the ids the document's link list names. */
  predicate Linked(db: Db, id: string, url: string)
    requires url in db.pdfs
  {
    id in JsonIds(db.pdfs[url].links)
  }

  function RowOf(p: Penalty, url: string, doc: PdfEntry): ResultRow {
    ResultRow(p.date, p.name, p.findings, p.amountUsd, p.revision, url, doc.text)
  }

  /** `search_penalties` before its `ORDER BY`: the distinct rows of every record joined with every document linking it. */
  function SearchRows(db: Db, query: string, mode: Mode, start: Date, end: Date): Result<set<ResultRow>, SqlError> {
    if !WellFormed(query, mode) then Err(SyntaxError)
    else Ok(set id, url | id in db.penalties && url in db.pdfs && Linked(db, id, url)
                          && InRange(db.penalties[id].date, start, end)
                          && TextMatches(db.penalties[id].name, db.pdfs[url].text, query, mode)
                        :: RowOf(db.penalties[id], url, db.pdfs[url]))
  }

  /** What `fetchall()` may return: the rows above, each once, latest date first (ties in any order). */
  ghost predicate IsSearchResult(db: Db, query: string, mode: Mode, start: Date, end: Date, results: seq<ResultRow>) {
    var rows := SearchRows(db, query, mode, start, end);
    && rows.Ok?
    && (forall r :: r in results <==> r in rows.value)
    && (forall i, j :: 0 <= i < j < |results| ==> results[i] != results[j])
    && (forall i, j :: 0 <= i < j < |results| ==> DateLe(results[j].date, results[i].date))
  }

  // ---------------------------------------------------------------------
  // What the LIKE conditions mean

  /** Python's `w in field.lower()`, false for a missing field. */
  predicate Mentions(field: Option<string>, w: string) {
    field.Some? && Contains(Lower(field.value), w)
  }

  /** The filter stated as substring tests, the way the excerpt finder reads the same query. */
  predicate TextMatchesRef(name: string, text: Option<string>, query: string, mode: Mode) {
    query == [] ||
    var ws := Words(Lower(query));
    match mode
    case Exact => Mentions(Some(name), Lower(query)) || Mentions(text, Lower(query))
    case AllWords => forall i :: 0 <= i < |ws| ==> Mentions(Some(name), ws[i]) || Mentions(text, ws[i])
    case AnyWord => exists i :: 0 <= i < |ws| && (Mentions(Some(name), ws[i]) || Mentions(text, ws[i]))
  }

  /** `LOWER(f) LIKE '%w%'` for a lower-case `w` without wildcards is the case-insensitive test `w in f.lower()`. */
  lemma FieldLikeMeaning(field: Option<string>, w: string)
    requires NoWildcards(w) && Lower(w) == w
    ensures FieldLike(field, w) <==> Mentions(field, w)
  {
    if field.Some? {
      LikeContains(Lower(field.value), w);
      LowerIdempotent(field.value);
    }
  }

  /** Lower-casing keeps a string free of LIKE wildcards. */
  lemma LowerNoWildcards(s: string)
    requires NoWildcards(s)
    ensures NoWildcards(Lower(s))
  {
    forall c | c in Lower(s) ensures c != '%' && c != '_' {
      var i :| 0 <= i < |Lower(s)| && Lower(s)[i] == c;
      assert s[i] in s;
    }
  }

  /**
   * For a query without `%` or `_`, the SQL filter keeps exactly the records
   * whose name or document text contains (ignoring ASCII case) the phrase,
   * every word, or some word; in the AND mode each word may be found in a
   * different column.
   */
  lemma TextMatchesMeaning(name: string, text: Option<string>, query: string, mode: Mode)
    requires NoWildcards(query)
    ensures TextMatches(name, text, query, mode) <==> TextMatchesRef(name, text, query, mode)
  {
    if query != [] {
      var lq := Lower(query);
      var ws := Words(lq);
      LowerNoWildcards(query);
      LowerIdempotent(query);
      FieldLikeMeaning(Some(name), lq);
      FieldLikeMeaning(text, lq);
      WordsChars(lq);
      forall i | 0 <= i < |ws|
        ensures WordCondition(name, text, ws[i]) <==> Mentions(Some(name), ws[i]) || Mentions(text, ws[i])
      {
        assert NoWildcards(ws[i]) by {
          assert forall c :: c in ws[i] ==> c in lq;
        }
        assert Lower(ws[i]) == ws[i] by {
          forall k | 0 <= k < |ws[i]| ensures LowerChar(ws[i][k]) == ws[i][k] {
            assert ws[i] in ws && ws[i][k] in ws[i];
            assert ws[i][k] in lq;
            var m :| 0 <= m < |lq| && lq[m] == ws[i][k];
          }
        }
        FieldLikeMeaning(Some(name), ws[i]);
        FieldLikeMeaning(text, ws[i]);
      }
    }
  }

  /** The search fails exactly for a non-empty, all-whitespace query in the OR mode. */
  lemma SearchFailsIff(db: Db, query: string, mode: Mode, start: Date, end: Date)
    ensures SearchRows(db, query, mode, start, end).Err? <==>
      query != [] && mode.AnyWord? && forall i :: 0 <= i < |query| ==> IsSpace(query[i])
  {
    WordsEmpty(Lower(query));
    LowerKeepsSpace(query);
  }

  /**
   * For a query without `%` or `_`, a row is in the result exactly when it is
   * a record joined with a document that links it, the record's date lies
   * within the range, both ends included, and its name or the document text
   * contains (ignoring ASCII case) the phrase, every word, or some word.
   */
  lemma SearchRowsMeaning(db: Db, query: string, mode: Mode, start: Date, end: Date, r: ResultRow)
    requires NoWildcards(query) && WellFormed(query, mode)
    ensures r in SearchRows(db, query, mode, start, end).value <==>
      exists id, url ::
        && id in db.penalties && url in db.pdfs && Linked(db, id, url)
        && InRange(db.penalties[id].date, start, end)
        && TextMatchesRef(db.penalties[id].name, db.pdfs[url].text, query, mode)
        && r == RowOf(db.penalties[id], url, db.pdfs[url])
  {
    if r in SearchRows(db, query, mode, start, end).value {
      var id, url :| && id in db.penalties && url in db.pdfs && Linked(db, id, url)
                     && InRange(db.penalties[id].date, start, end)
                     && TextMatches(db.penalties[id].name, db.pdfs[url].text, query, mode)
                     && r == RowOf(db.penalties[id], url, db.pdfs[url]);
      TextMatchesMeaning(db.penalties[id].name, db.pdfs[url].text, query, mode);
    }
    if exists id, url ::
        && id in db.penalties && url in db.pdfs && Linked(db, id, url)
        && InRange(db.penalties[id].date, start, end)
        && TextMatchesRef(db.penalties[id].name, db.pdfs[url].text, query, mode)
        && r == RowOf(db.penalties[id], url, db.pdfs[url])
    {
      var id, url :| && id in db.penalties && url in db.pdfs && Linked(db, id, url)
                     && InRange(db.penalties[id].date, start, end)
                     && TextMatchesRef(db.penalties[id].name, db.pdfs[url].text, query, mode)
                     && r == RowOf(db.penalties[id], url, db.pdfs[url]);
      TextMatchesMeaning(db.penalties[id].name, db.pdfs[url].text, query, mode);
    }
  }

  /**
   * The join reads the link list as the scraper wrote it: for a non-empty id,
   * `json_each` over the list finds it exactly when `split(',')` does.
   */
  lemma LinkedMeaning(db: Db, id: string, url: string)
    requires url in db.pdfs && id != ""
    ensures Linked(db, id, url) <==> id in LinkList(db.pdfs[url].links)
  {
    var links := db.pdfs[url].links;
    if links.Some? && links.value == "" {
      assert Split("", ",") == [""];
    }
  }

  // ---------------------------------------------------------------------
  // Pagination

  const ResultsPerPage: nat := 20

  /** The most page buttons shown at once. */
  const MaxButtons: nat := 7

  /** `(total_results + 19) // 20`: the fewest pages of twenty that hold every result. */
  function TotalPages(n: nat): (r: nat)
    ensures n <= r * ResultsPerPage
    ensures r > 0 ==> (r - 1) * ResultsPerPage < n
  {
    (n + ResultsPerPage - 1) / ResultsPerPage
  }

  /**
   * The page buttons: every page when there are at most seven, otherwise seven
   * entries with `0` standing for an ellipsis, in one of three shapes by where
   * the current page lies.
   */
  function PageRange(total: nat, current: nat): (r: seq<nat>)
    ensures |r| == if total <= MaxButtons then total else MaxButtons
    ensures forall i :: 0 <= i < |r| ==> r[i] <= total
    ensures total > 0 ==> r[0] == 1 && r[|r| - 1] == total
  {
    if total <= MaxButtons then seq(total, i requires 0 <= i < total => i + 1)
    else if current <= 4 then [1, 2, 3, 4, 5, 0, total]
    else if current >= total - 3 then [1, 0, total - 4, total - 3, total - 2, total - 1, total]
    else [1, 0, current - 1, current, current + 1, 0, total]
  }

  /** With at most seven pages every page has its button and there is no ellipsis. */
  lemma PageRangeSmall(total: nat, current: nat)
    requires total <= MaxButtons
    ensures forall i :: 0 <= i < |PageRange(total, current)| ==> PageRange(total, current)[i] == i + 1
  {
  }

  /** The buttons, ellipses aside, go up strictly from left to right. */
  lemma PageRangeIncreasing(total: nat, current: nat)
    ensures var r := PageRange(total, current);
      forall i, j :: 0 <= i < j < |r| && r[i] != 0 && r[j] != 0 ==> r[i] < r[j]
  {
  }

  /** The current page and its neighbours always have buttons. */
  lemma PageRangeShowsCurrent(total: nat, current: nat)
    requires 1 <= current <= total
    ensures var r := PageRange(total, current);
      current in r && (current > 1 ==> current - 1 in r) && (current < total ==> current + 1 in r)
  {
    var r := PageRange(total, current);
    if total <= MaxButtons {
      assert r[current - 1] == current;
      if current > 1 {
        assert r[current - 2] == current - 1;
      }
      if current < total {
        assert r[current] == current + 1;
      }
    }
  }

  /** An ellipsis stands for at least one page that has no button. */
  lemma PageRangeGaps(total: nat, current: nat, i: nat)
    requires i + 2 < |PageRange(total, current)| && PageRange(total, current)[i + 1] == 0
    ensures PageRange(total, current)[i] + 1 < PageRange(total, current)[i + 2]
  {
  }

  /** Two buttons side by side are consecutive pages: no page is skipped without an ellipsis. */
  lemma PageRangeAdjacent(total: nat, current: nat, i: nat)
    requires i + 1 < |PageRange(total, current)|
    requires PageRange(total, current)[i] != 0 && PageRange(total, current)[i + 1] != 0
    ensures PageRange(total, current)[i + 1] == PageRange(total, current)[i] + 1
  {
  }

  /** `results[(p - 1) * 20 : (p - 1) * 20 + 20]`, Python's clamping included (page 0 slices `[-20:0]`, which is empty). */
  function PageSlice<T>(results: seq<T>, p: nat): (r: seq<T>)
    ensures |r| <= ResultsPerPage
    ensures p >= 1 && r != [] ==>
              && (p - 1) * ResultsPerPage + |r| <= |results|
              && forall i :: 0 <= i < |r| ==> r[i] == results[(p - 1) * ResultsPerPage + i]
    ensures 1 <= p < TotalPages(|results|) ==> |r| == ResultsPerPage
    ensures r != [] <==> 1 <= p <= TotalPages(|results|)
  {
    if p == 0 then []
    else
      var s := (p - 1) * ResultsPerPage;
      if s >= |results| then []
      else if s + ResultsPerPage <= |results| then results[s..s + ResultsPerPage]
      else results[s..]
  }

  /** The pages from `p` on, one after another. */
  function PagesFrom<T>(results: seq<T>, p: nat): seq<T>
    requires p >= 1
    decreases |results| - (p - 1) * ResultsPerPage
  {
    if (p - 1) * ResultsPerPage >= |results| then []
    else PageSlice(results, p) + PagesFrom(results, p + 1)
  }

  /** The pages, in order, give back every result exactly once. */
  lemma {:induction false} PagesFromCover<T>(results: seq<T>, p: nat)
    requires p >= 1
    ensures PagesFrom(results, p) == if (p - 1) * ResultsPerPage >= |results| then [] else results[(p - 1) * ResultsPerPage..]
    decreases |results| - (p - 1) * ResultsPerPage
  {
    var s := (p - 1) * ResultsPerPage;
    if s < |results| {
      assert (p + 1 - 1) * ResultsPerPage == s + ResultsPerPage;
      PagesFromCover(results, p + 1);
      var rest := PagesFrom(results, p + 1);
      assert PagesFrom(results, p) == PageSlice(results, p) + rest;
      if s + ResultsPerPage < |results| {
        assert PageSlice(results, p) == results[s..s + ResultsPerPage];
        assert rest == results[s + ResultsPerPage..];
        assert results[s..] == results[s..s + ResultsPerPage] + results[s + ResultsPerPage..];
      } else {
        assert PageSlice(results, p) == results[s..];
        assert rest == [];
      }
    }
  }

  lemma PagesCoverResults<T>(results: seq<T>)
    ensures PagesFrom(results, 1) == results
  {
    PagesFromCover(results, 1);
  }
}
