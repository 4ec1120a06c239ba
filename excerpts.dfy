/**
 * The excerpt finder of the search page: the passages of a document's text
 * that show where the query matched, with the page they are on.
 */
module Excerpts {
  import opened Text

  /** How the query is matched: as one phrase, as words that must all occur, or as words any of which may. */
  datatype Mode = Exact | AllWords | AnyWord

  /** One excerpt: the passage around a match and its 1-based page number. */
  datatype Excerpt = Excerpt(text: string, page: nat)

  /** How many characters of context an excerpt shows on each side of the match. */
  const ContextChars: nat := 100

  /** The ellipsis that marks text cut away at either end of an excerpt. */
  const Ellipsis := "..."

  /** The first position of the window around a match at `index`. */
  function WindowStart(index: nat, context: nat): nat {
    if index >= context then index - context else 0
  }

  /** One past the last position of the window around a match of length `len` at `index`. */
  function WindowEnd(text: string, index: nat, len: nat, context: nat): nat {
    if index + len + context <= |text| then index + len + context else |text|
  }

  /** The window `text[lo:hi]` with an ellipsis on each side where text was cut away. */
  function Framed(text: string, lo: nat, hi: nat): (e: string)
    requires hi <= |text|
    ensures |e| <= (if lo <= hi then hi - lo else 0) + 2 * |Ellipsis|
  {
    (if lo > 0 then Ellipsis else []) + (if lo <= hi then text[lo..hi] else []) + (if hi < |text| then Ellipsis else [])
  }

  /**
   * `extract_context`: the text around the match at `index`, up to `context`
   * characters on each side, marked with an ellipsis on each side where text was
   * cut away, with surrounding whitespace stripped. Nothing when either the text
   * or the matched term is empty.
   */
  function ExtractContext(text: string, term: string, index: nat, context: nat): (r: string)
    ensures text == [] || term == [] ==> r == []
    ensures |r| <= |term| + 2 * context + 2 * |Ellipsis|
  {
    if text == [] || term == [] then []
    else Strip(Framed(text, WindowStart(index, context), WindowEnd(text, index, |term|, context)))
  }

  /**
   * `text[a..b]` is what stripping leaves of the window `text[lo..hi]`: a side
   * that was cut keeps its end (the ellipsis there shields it), and an uncut
   * side loses exactly its run of whitespace.
   */
  predicate TrimmedWindow(text: string, lo: nat, hi: nat, a: nat, b: nat) {
    && lo <= a <= b <= hi <= |text|
    && (lo > 0 ==> a == lo) && (hi < |text| ==> b == hi)
    && (forall m :: lo <= m < a ==> IsSpace(text[m]))
    && (forall m :: b <= m < hi ==> IsSpace(text[m]))
    && (a < b && lo == 0 ==> !IsSpace(text[a]))
    && (a < b && hi == |text| ==> !IsSpace(text[b - 1]))
  }

  /** Cut on both sides: stripping leaves the framed window as it is. */
  lemma StripCutBoth(text: string, lo: nat, hi: nat)
    requires 0 < lo <= hi < |text|
    ensures TrimmedWindow(text, lo, hi, lo, hi)
    ensures Strip(Framed(text, lo, hi)) == Ellipsis + text[lo..hi] + Ellipsis
  {
    var f := Framed(text, lo, hi);
    assert f == Ellipsis + text[lo..hi] + Ellipsis;
    assert f[0] == '.' && f[|f| - 1] == '.';
    assert SpaceEnd(f, 0) == 0 && SpaceStart(f, |f|) == |f|;
    assert f[0..|f|] == f;
  }

  /** Cut on the left only: stripping removes the whitespace at the end of the text. */
  lemma StripCutLeft(text: string, lo: nat)
    requires 0 < lo <= |text|
    ensures exists b: nat ::
      && TrimmedWindow(text, lo, |text|, lo, b)
      && Strip(Framed(text, lo, |text|)) == Ellipsis + text[lo..b]
  {
    var y := text[lo..];
    var f := Ellipsis + y;
    assert text[lo..|text|] == y;
    assert Framed(text, lo, |text|) == f by {
      assert Framed(text, lo, |text|) == Ellipsis + y + [];
    }
    var e := SpaceStart(y, |y|);
    SpaceStartConcat(Ellipsis, y, |y|);
    assert f[0] == '.';
    assert SpaceEnd(f, 0) == 0;
    assert Strip(f) == f[0..3 + e];
    var b := lo + e;
    assert f[0..3 + e] == Ellipsis + text[lo..b];
    StripBounds(y);
    assert forall m :: b <= m < |text| ==> text[m] == y[m - lo];
    assert e > 0 ==> text[b - 1] == y[e - 1];
    assert TrimmedWindow(text, lo, |text|, lo, b);
  }

  /** Cut on the right only: stripping removes the whitespace at the start of the text. */
  lemma StripCutRight(text: string, hi: nat)
    requires hi < |text|
    ensures exists a: nat ::
      && TrimmedWindow(text, 0, hi, a, hi)
      && Strip(Framed(text, 0, hi)) == text[a..hi] + Ellipsis
  {
    var x := text[..hi];
    var f := x + Ellipsis;
    assert Framed(text, 0, hi) == f;
    var a := SpaceEnd(x, 0);
    SpaceEndConcat(x, Ellipsis, 0);
    assert f[|f| - 1] == '.';
    assert SpaceStart(f, |f|) == |f|;
    StripBounds(x);
    assert forall m :: 0 <= m < a ==> text[m] == x[m];
    assert a < hi ==> text[a] == x[a];
    assert f[a..|f|] == x[a..] + Ellipsis;
    assert x[a..] == text[a..hi];
    assert TrimmedWindow(text, 0, hi, a, hi);
  }

  /** Cut on neither side: the excerpt is the stripped text. */
  lemma StripUncut(text: string)
    ensures exists a: nat, b: nat ::
      && TrimmedWindow(text, 0, |text|, a, b)
      && Strip(Framed(text, 0, |text|)) == text[a..b]
  {
    assert text[0..|text|] == text;
    assert Framed(text, 0, |text|) == text;
    var a, b := SpaceEnd(text, 0), SpaceStart(text, |text|);
    StripBounds(text);
    if a < b {
      assert Strip(text) == text[a..b];
      assert TrimmedWindow(text, 0, |text|, a, b);
    } else {
      assert Strip(text) == text[a..a];
      assert TrimmedWindow(text, 0, |text|, a, a);
    }
  }

  /**
   * The excerpt is the clamped window `text[lo:hi]` around the match, with an
   * ellipsis exactly on each side where text was cut away, and with only the
   * whitespace at the window's uncut ends stripped off.
   */
  lemma ExtractContextWindow(text: string, term: string, index: nat, context: nat)
    requires text != [] && term != [] && index + |term| <= |text|
    ensures var lo, hi := WindowStart(index, context), WindowEnd(text, index, |term|, context);
      exists a: nat, b: nat :: TrimmedWindow(text, lo, hi, a, b)
        && ExtractContext(text, term, index, context)
             == (if lo > 0 then Ellipsis else []) + text[a..b] + (if hi < |text| then Ellipsis else [])
  {
    var lo, hi := WindowStart(index, context), WindowEnd(text, index, |term|, context);
    if lo > 0 && hi < |text| {
      StripCutBoth(text, lo, hi);
    } else if lo > 0 {
      StripCutLeft(text, lo);
      var b: nat :| TrimmedWindow(text, lo, |text|, lo, b) && Strip(Framed(text, lo, |text|)) == Ellipsis + text[lo..b];
      assert Ellipsis + text[lo..b] == Ellipsis + text[lo..b] + [];
    } else if hi < |text| {
      StripCutRight(text, hi);
      var a: nat :| TrimmedWindow(text, 0, hi, a, hi) && Strip(Framed(text, 0, hi)) == text[a..hi] + Ellipsis;
      assert text[a..hi] + Ellipsis == [] + text[a..hi] + Ellipsis;
    } else {
      StripUncut(text);
      var a: nat, b: nat :| TrimmedWindow(text, 0, |text|, a, b) && Strip(Framed(text, 0, |text|)) == text[a..b];
      assert text[a..b] == [] + text[a..b] + [];
    }
  }

  /**
   * An excerpt shows the text it was taken for: a match that neither begins
   * nor ends with whitespace survives the cut and the stripping.
   */
  lemma {:induction false} ExtractContextShowsMatch(text: string, index: nat, len: nat, context: nat)
    requires 0 < len && index + len <= |text|
    requires !IsSpace(text[index]) && !IsSpace(text[index + len - 1])
    ensures Contains(ExtractContext(text, text[index..index + len], index, context), text[index..index + len])
  {
    var w := text[index..index + len];
    var lo, hi := WindowStart(index, context), WindowEnd(text, index, len, context);
    assert w[0] == text[index] && w[len - 1] == text[index + len - 1];
    FramedStripKeepsMatch(text, w, index, lo, hi);
  }

  /** Framing a window and stripping it keeps a match inside the window that does not begin or end with whitespace. */
  lemma FramedStripKeepsMatch(text: string, w: string, index: nat, lo: nat, hi: nat)
    requires OccursAt(text, w, index) && lo <= index && index + |w| <= hi <= |text|
    requires w != [] && !IsSpace(w[0]) && !IsSpace(w[|w| - 1])
    ensures Contains(Strip(Framed(text, lo, hi)), w)
  {
    FramedKeepsMatch(text, w, index, lo, hi);
    StripKeeps(Framed(text, lo, hi), w, (if lo > 0 then |Ellipsis| else 0) + (index - lo));
  }

  /** The framed window holds every match that lies inside the window, shifted by the leading ellipsis. */
  lemma FramedKeepsMatch(text: string, w: string, index: nat, lo: nat, hi: nat)
    requires OccursAt(text, w, index) && lo <= index && index + |w| <= hi <= |text|
    ensures OccursAt(Framed(text, lo, hi), w, (if lo > 0 then |Ellipsis| else 0) + (index - lo))
  {
    var pre := if lo > 0 then Ellipsis else [];
    var suf := if hi < |text| then Ellipsis else [];
    var window := text[lo..hi];
    assert Framed(text, lo, hi) == pre + window + suf;
    SliceKeepsOccurrence(text, w, lo, hi, index);
    MiddleKeepsOccurrence(pre, window, suf, w, index - lo);
  }

  /** An occurrence in the middle part stays an occurrence once the three parts are joined. */
  lemma MiddleKeepsOccurrence(a: string, b: string, c: string, w: string, i: nat)
    requires OccursAt(b, w, i)
    ensures OccursAt(a + b + c, w, |a| + i)
  {
    var e := a + b + c;
    assert e[|a| + i..|a| + i + |w|] == b[i..i + |w|];
  }

  /** Stripping keeps a leading ellipsis. */
  lemma StripKeepsLeadingEllipsis(e: string)
    requires |e| >= 3 && e[..3] == Ellipsis
    ensures var r := Strip(e); |r| >= 3 && r[..3] == Ellipsis
  {
    assert !IsSpace(e[0]) && !IsSpace(e[2]);
    SpaceStartStops(e, |e|, 2);
    var r := Strip(e);
    assert r[..3] == e[..3];
  }

  /** Stripping keeps a trailing ellipsis. */
  lemma StripKeepsTrailingEllipsis(e: string)
    requires |e| >= 3 && e[|e| - 3..] == Ellipsis
    ensures var r := Strip(e); |r| >= 3 && r[|r| - 3..] == Ellipsis
  {
    assert !IsSpace(e[|e| - 3]) && !IsSpace(e[|e| - 1]);
    if |e| - 3 < SpaceEnd(e, 0) {
      SpaceEndSkips(e, 0, |e| - 3);
    }
    var r := Strip(e);
    assert r[|r| - 3..] == e[|e| - 3..];
  }

  /** An excerpt cut on the left begins with an ellipsis, and one cut on the right ends with one. */
  lemma ExtractContextEllipses(text: string, term: string, index: nat, context: nat)
    requires text != [] && term != []
    ensures var r := ExtractContext(text, term, index, context);
      && (WindowStart(index, context) > 0 ==> |r| >= 3 && r[..3] == Ellipsis)
      && (WindowEnd(text, index, |term|, context) < |text| ==> |r| >= 3 && r[|r| - 3..] == Ellipsis)
  {
    var lo, hi := WindowStart(index, context), WindowEnd(text, index, |term|, context);
    var window := if lo <= hi then text[lo..hi] else [];
    var pre := if lo > 0 then Ellipsis else [];
    var suf := if hi < |text| then Ellipsis else [];
    var e := pre + window + suf;
    if lo > 0 {
      assert e[..3] == pre;
      StripKeepsLeadingEllipsis(e);
    }
    if hi < |text| {
      assert e[|e| - 3..] == suf;
      StripKeepsTrailingEllipsis(e);
    }
  }

  // ---------------------------------------------------------------------
  // The `find` loop over one page

  /**
   * The positions the source's `while True: find(...)` loop visits in `s`
   * from `start` on: each match found, then the search resumes after it.
   */
  function Occurrences(s: string, w: string, start: nat): (ks: seq<nat>)
    requires w != [] && start <= |s|
    ensures forall j :: 0 <= j < |ks| ==> start <= ks[j] && OccursAt(s, w, ks[j])
    ensures forall j :: 0 < j < |ks| ==> ks[j - 1] + |w| <= ks[j]
    decreases |s| - start
  {
    var index := Find(s, w, start);
    if index == -1 then []
    else [index] + Occurrences(s, w, index + |w|)
  }

  /** The matches reported come in increasing order and never overlap. */
  lemma {:induction false} OccurrencesApart(s: string, w: string, start: nat, i: nat, j: nat)
    requires w != [] && start <= |s| && i < j < |Occurrences(s, w, start)|
    ensures Occurrences(s, w, start)[i] + |w| <= Occurrences(s, w, start)[j]
    decreases j - i
  {
    if i < j - 1 {
      OccurrencesApart(s, w, start, i, j - 1);
    }
  }

  /** No match is missed except one that overlaps a match already reported. */
  lemma {:induction false} OccurrencesComplete(s: string, w: string, start: nat, k: nat)
    requires w != [] && start <= |s| && start <= k && OccursAt(s, w, k)
    ensures exists m :: m in Occurrences(s, w, start) && Covers(m, |w|, k)
    decreases |s| - start
  {
    var index := Find(s, w, start);
    assert index != -1 && index <= k;
    var ks, rest := Occurrences(s, w, start), Occurrences(s, w, index + |w|);
    assert ks == [index] + rest;
    if k >= index + |w| {
      OccurrencesComplete(s, w, index + |w|, k);
      var m :| m in rest && Covers(m, |w|, k);
      assert m in ks;
    } else {
      assert index in ks && Covers(index, |w|, k);
    }
  }

  /** A match of length `len` at `m` covers position `k`. */
  predicate Covers(m: nat, len: nat, k: nat) {
    m <= k < m + len
  }

  // ---------------------------------------------------------------------
  // Candidate excerpts, in the order the source's loops produce them

  /** The page separator the PDF text extraction writes between pages. */
  const FormFeed: char := 12 as char

  /**
   * How the text of an excerpt is cut from a page for a match of length `len`
   * at `index`. The loops below are stated for any such cut; `find_excerpts`
   * itself uses `ContextCut`.
   */
  type Cutter = (string, nat, nat) -> string

  /**
   * The cut `find_excerpts` makes: `extract_context(page, page[index:index+len], index)`
   * on the page as written (not lower-cased), with Python's clamped slice.
   */
  function ContextCut(page: string, index: nat, len: nat): string {
    var lo := if index <= |page| then index else |page|;
    var hi := if index + len <= |page| then index + len else |page|;
    ExtractContext(page, page[lo..hi], index, ContextChars)
  }

  /**
   * The excerpt cut for a match on a non-empty page is its window of
   * `ContextChars` on each side, marked where cut and stripped at the uncut ends.
   */
  lemma ContextCutWindow(page: string, index: nat, len: nat)
    requires page != [] && 0 < len && index + len <= |page|
    ensures var lo, hi := WindowStart(index, ContextChars), WindowEnd(page, index, len, ContextChars);
      exists a: nat, b: nat :: TrimmedWindow(page, lo, hi, a, b)
        && ContextCut(page, index, len)
             == (if lo > 0 then Ellipsis else []) + page[a..b] + (if hi < |page| then Ellipsis else [])
  {
    ExtractContextWindow(page, page[index..index + len], index, ContextChars);
  }

  /** The excerpt for a match of length `len` at `index` on page `pageNum`. */
  function ExcerptAt(page: string, len: nat, index: nat, pageNum: nat, cut: Cutter): Excerpt {
    Excerpt(cut(page, index, len), pageNum)
  }

  /** The excerpts for the matches at `ks`, in order. */
  function ExcerptsOf(page: string, len: nat, ks: seq<nat>, pageNum: nat, cut: Cutter): (r: seq<Excerpt>)
    ensures |r| == |ks|
    ensures forall e :: e in r ==> e.page == pageNum
  {
    if ks == [] then []
    else [ExcerptAt(page, len, ks[0], pageNum, cut)] + ExcerptsOf(page, len, ks[1..], pageNum, cut)
  }

  /** One round of the `find` loop: the first match found, then the search resumes after it. */
  lemma OccurrencesStep(s: string, w: string, start: nat, index: int)
    requires w != [] && start <= |s| && index == Find(s, w, start)
    ensures index == -1 ==> Occurrences(s, w, start) == []
    ensures index != -1 ==> start <= index && index + |w| <= |s|
    ensures index != -1 ==> Occurrences(s, w, start) == [index] + Occurrences(s, w, index + |w|)
  {
  }

  /** The excerpts for the matches of `w` in the lower-cased page that the search loop visits from `start` on. */
  function ExcerptsFrom(page: string, pageLower: string, w: string, pageNum: nat, start: nat, cut: Cutter): seq<Excerpt>
    requires w != [] && |pageLower| == |page| && start <= |page|
  {
    ExcerptsOf(page, |w|, Occurrences(pageLower, w, start), pageNum, cut)
  }

  /** A search term yields an excerpt only if it occurs in the lower-cased page. */
  lemma ExcerptsFromContains(page: string, pageLower: string, w: string, pageNum: nat, start: nat, cut: Cutter)
    requires w != [] && |pageLower| == |page| && start <= |page|
    ensures ExcerptsFrom(page, pageLower, w, pageNum, start, cut) != [] ==> Contains(pageLower, w)
  {
    if Find(pageLower, w, start) != -1 {
      ContainsIff(pageLower, w);
    }
  }

  /** One step of the search loop in terms of excerpts: the first match's excerpt, then those after it. */
  lemma ExcerptsFromStep(page: string, pageLower: string, w: string, pageNum: nat, start: nat, index: int, cut: Cutter)
    requires w != [] && |pageLower| == |page| && start <= |page| && index == Find(pageLower, w, start)
    ensures index == -1 ==> ExcerptsFrom(page, pageLower, w, pageNum, start, cut) == []
    ensures index != -1 ==> start <= index && index + |w| <= |page|
    ensures index != -1 ==>
              ExcerptsFrom(page, pageLower, w, pageNum, start, cut)
              == [ExcerptAt(page, |w|, index, pageNum, cut)] + ExcerptsFrom(page, pageLower, w, pageNum, index + |w|, cut)
  {
    OccurrencesStep(pageLower, w, start, index);
    if index != -1 {
      var ks := Occurrences(pageLower, w, start);
      assert ks[1..] == Occurrences(pageLower, w, index + |w|);
    }
  }

  /** The candidates for each word in turn, as the `for word in words` loops produce them. */
  function WordsCands(page: string, pageLower: string, ws: seq<string>, pageNum: nat, cut: Cutter): (r: seq<Excerpt>)
    requires |pageLower| == |page|
    requires forall i :: 0 <= i < |ws| ==> ws[i] != []
    ensures forall e :: e in r ==> e.page == pageNum && exists i :: 0 <= i < |ws| && Contains(pageLower, ws[i])
  {
    if ws == [] then []
    else
      var rest := WordsCands(page, pageLower, ws[1..], pageNum, cut);
      assert forall e :: e in rest ==> exists i :: 0 <= i < |ws| && Contains(pageLower, ws[i]) by {
        forall e | e in rest ensures exists i :: 0 <= i < |ws| && Contains(pageLower, ws[i]) {
          var i :| 0 <= i < |ws[1..]| && Contains(pageLower, ws[1..][i]);
          assert ws[i + 1] == ws[1..][i];
        }
      }
      ExcerptsFromContains(page, pageLower, ws[0], pageNum, 0, cut);
      ExcerptsFrom(page, pageLower, ws[0], pageNum, 0, cut) + rest
  }

  /** Python's `all(word in page_lower for word in words)`. */
  predicate AllOccur(pageLower: string, ws: seq<string>) {
    forall i :: 0 <= i < |ws| ==> Contains(pageLower, ws[i])
  }

  /** What a page must hold for the search mode to take excerpts from it. */
  predicate PageMatches(page: string, query: string, mode: Mode) {
    var pageLower, ws := Lower(page), Words(Lower(query));
    match mode
    case Exact => Contains(pageLower, Lower(query))
    case AllWords => AllOccur(pageLower, ws)
    case AnyWord => exists i :: 0 <= i < |ws| && Contains(pageLower, ws[i])
  }

  /** The candidates of one page, numbered `pageNum`, for each search mode. */
  function PageCands(page: string, pageNum: nat, query: string, mode: Mode, cut: Cutter): (r: seq<Excerpt>)
    requires query != []
    ensures forall e :: e in r ==> e.page == pageNum && PageMatches(page, query, mode)
  {
    var ws := Words(Lower(query));
    match mode
    case Exact =>
      ExcerptsFromContains(page, Lower(page), Lower(query), pageNum, 0, cut);
      ExcerptsFrom(page, Lower(page), Lower(query), pageNum, 0, cut)
    case AllWords => if AllOccur(Lower(page), ws) then WordsCands(page, Lower(page), ws, pageNum, cut) else []
    case AnyWord => WordsCands(page, Lower(page), ws, pageNum, cut)
  }

  /** The candidates of the pages from index `n` on, pages numbered from 1. */
  function AllCands(pages: seq<string>, query: string, mode: Mode, n: nat, cut: Cutter): seq<Excerpt>
    requires query != [] && n <= |pages|
    decreases |pages| - n
  {
    if n == |pages| then []
    else PageCands(pages[n], n + 1, query, mode, cut) + AllCands(pages, query, mode, n + 1, cut)
  }

  /** Every candidate comes from a page from `n` on that matches the query. */
  lemma {:induction false} AllCandsFromMatchingPages(pages: seq<string>, query: string, mode: Mode, n: nat, cut: Cutter)
    requires query != [] && n <= |pages|
    ensures forall e :: e in AllCands(pages, query, mode, n, cut) ==>
      n + 1 <= e.page <= |pages| && PageMatches(pages[e.page - 1], query, mode)
    decreases |pages| - n
  {
    if n < |pages| {
      AllCandsFromMatchingPages(pages, query, mode, n + 1, cut);
      var p, rest := PageCands(pages[n], n + 1, query, mode, cut), AllCands(pages, query, mode, n + 1, cut);
      forall e: Excerpt | e in p + rest ensures n + 1 <= e.page <= |pages| && PageMatches(pages[e.page - 1], query, mode) {
        if e in p {
          assert e.page - 1 == n;
        } else {
          assert e in rest;
        }
      }
    }
  }

  // ---------------------------------------------------------------------
  // De-duplication by the `seen_excerpts` set

  function Elems(xs: seq<Excerpt>): set<Excerpt> {
    set x | x in xs
  }

  lemma ElemsSnoc(xs: seq<Excerpt>, x: Excerpt)
    ensures Elems(xs + [x]) == Elems(xs) + {x}
  {
  }

  /** Adding one candidate, as the loop body does, is the first step of `AddAll`. */
  lemma KeepNew(acc: seq<Excerpt>, seen: set<Excerpt>, x: Excerpt, rest: seq<Excerpt>)
    requires seen == Elems(acc)
    ensures x !in seen ==> Elems(acc + [x]) == seen + {x} && AddAll(acc + [x], rest) == AddAll(acc, [x] + rest)
    ensures x in seen ==> AddAll(acc, rest) == AddAll(acc, [x] + rest)
  {
    AddAllCons(acc, x, rest);
    ElemsSnoc(acc, x);
  }

  predicate NoDup(xs: seq<Excerpt>) {
    forall i, j :: 0 <= i < j < |xs| ==> xs[i] != xs[j]
  }

  /** Pages never go backwards along the list. */
  predicate PagesSorted(xs: seq<Excerpt>) {
    forall i, j :: 0 <= i < j < |xs| ==> xs[i].page <= xs[j].page
  }

  /** Appending each of `xs` in turn unless it is already in the list. */
  function AddAll(acc: seq<Excerpt>, xs: seq<Excerpt>): seq<Excerpt>
    decreases |xs|
  {
    if xs == [] then acc
    else AddAll(if xs[0] in acc then acc else acc + [xs[0]], xs[1..])
  }

  lemma AddAllCons(acc: seq<Excerpt>, x: Excerpt, rest: seq<Excerpt>)
    ensures AddAll(acc, [x] + rest) == AddAll(if x in acc then acc else acc + [x], rest)
  {
    assert ([x] + rest)[0] == x && ([x] + rest)[1..] == rest;
  }

  lemma {:induction false} AddAllConcat(acc: seq<Excerpt>, xs: seq<Excerpt>, ys: seq<Excerpt>)
    ensures AddAll(acc, xs + ys) == AddAll(AddAll(acc, xs), ys)
    decreases |xs|
  {
    if xs == [] {
      assert xs + ys == ys;
    } else {
      assert (xs + ys)[0] == xs[0];
      assert (xs + ys)[1..] == xs[1..] + ys;
      AddAllConcat(if xs[0] in acc then acc else acc + [xs[0]], xs[1..], ys);
    }
  }

  /** De-duplication keeps every excerpt once and loses none. */
  lemma {:induction false} AddAllElems(acc: seq<Excerpt>, xs: seq<Excerpt>)
    requires NoDup(acc)
    ensures var r := AddAll(acc, xs); NoDup(r) && Elems(r) == Elems(acc) + Elems(xs)
    decreases |xs|
  {
    if xs != [] {
      var acc' := if xs[0] in acc then acc else acc + [xs[0]];
      assert Elems(acc') == Elems(acc) + {xs[0]};
      assert Elems(xs) == {xs[0]} + Elems(xs[1..]) by {
        assert xs == [xs[0]] + xs[1..];
      }
      AddAllElems(acc', xs[1..]);
    }
  }

  /** The position of the first `x` in `xs`, or `|xs|` when there is none. */
  function FirstIndex(xs: seq<Excerpt>, x: Excerpt): (k: nat)
    ensures k <= |xs|
    ensures k < |xs| ==> xs[k] == x
    ensures forall m :: 0 <= m < k ==> xs[m] != x
    decreases |xs|
  {
    if xs == [] then 0 else if xs[0] == x then 0 else 1 + FirstIndex(xs[1..], x)
  }

  /** Appending to a list moves no first position, and gives a new element the last one. */
  lemma {:induction false} FirstIndexSnoc(s: seq<Excerpt>, x: Excerpt, y: Excerpt)
    ensures y in s ==> FirstIndex(s + [x], y) == FirstIndex(s, y) < |s|
    ensures y !in s && y == x ==> FirstIndex(s + [x], y) == |s|
    decreases |s|
  {
    if s != [] && s[0] != y {
      assert (s + [x])[1..] == s[1..] + [x];
      FirstIndexSnoc(s[1..], x, y);
    }
  }

  /** The elements of `r` come in the order of their first occurrence in `all`. */
  predicate FirstSeenOrder(r: seq<Excerpt>, all: seq<Excerpt>) {
    forall i, j :: 0 <= i < j < |r| ==> FirstIndex(all, r[i]) < FirstIndex(all, r[j])
  }

  /** De-duplication keeps the first occurrence of each candidate, in the order the candidates were found. */
  lemma {:induction false} AddAllFirstOrder(all: seq<Excerpt>)
    ensures FirstSeenOrder(AddAll([], all), all)
    decreases |all|
  {
    if all != [] {
      var s, x := all[..|all| - 1], all[|all| - 1];
      assert all == s + [x];
      AddAllConcat([], s, [x]);
      AddAllCons(AddAll([], s), x, []);
      assert [x] + [] == [x];
      var r := AddAll([], s);
      AddAllFirstOrder(s);
      AddAllElems([], s);
      forall i | 0 <= i < |r| ensures FirstIndex(all, r[i]) == FirstIndex(s, r[i]) < |s| {
        assert r[i] in Elems(r);
        FirstIndexSnoc(s, x, r[i]);
      }
      if x !in r {
        assert x !in Elems(s);
        FirstIndexSnoc(s, x, x);
        var r' := r + [x];
        forall i, j | 0 <= i < j < |r'| ensures FirstIndex(all, r'[i]) < FirstIndex(all, r'[j]) {
          assert r'[i] == r[i];
          if j < |r| {
            assert r'[j] == r[j];
          }
        }
      }
    }
  }

  /** De-duplicating a list sorted by page, onto one whose pages all come first, stays sorted. */
  lemma {:induction false} AddAllSorted(acc: seq<Excerpt>, xs: seq<Excerpt>)
    requires PagesSorted(acc) && PagesSorted(xs)
    requires forall a, x :: a in acc && x in xs ==> a.page <= x.page
    ensures PagesSorted(AddAll(acc, xs))
    decreases |xs|
  {
    if xs != [] {
      var acc' := if xs[0] in acc then acc else acc + [xs[0]];
      forall a, x | a in acc' && x in xs[1..] ensures a.page <= x.page {
        var j :| 0 <= j < |xs[1..]| && xs[1..][j] == x;
        assert xs[j + 1] == x;
      }
      AddAllSorted(acc', xs[1..]);
    }
  }

  lemma {:induction false} AllCandsSorted(pages: seq<string>, query: string, mode: Mode, n: nat, cut: Cutter)
    requires query != [] && n <= |pages|
    ensures PagesSorted(AllCands(pages, query, mode, n, cut))
    decreases |pages| - n
  {
    if n < |pages| {
      AllCandsSorted(pages, query, mode, n + 1, cut);
      AllCandsFromMatchingPages(pages, query, mode, n + 1, cut);
      var p, rest := PageCands(pages[n], n + 1, query, mode, cut), AllCands(pages, query, mode, n + 1, cut);
      PagesSortedConcat(p, rest, n + 1);
    }
  }

  /** One page's excerpts followed by excerpts of later pages, sorted among themselves, stay sorted. */
  lemma PagesSortedConcat(p: seq<Excerpt>, rest: seq<Excerpt>, k: nat)
    requires forall e :: e in p ==> e.page == k
    requires forall e :: e in rest ==> k < e.page
    requires PagesSorted(rest)
    ensures PagesSorted(p + rest)
  {
    var r := p + rest;
    forall i, j | 0 <= i < j < |r| ensures r[i].page <= r[j].page {
      if j < |p| {
        assert r[i] in p && r[j] in p;
      } else if i < |p| {
        assert r[i] in p && r[j] in rest;
      } else {
        assert r[i] == rest[i - |p|] && r[j] == rest[j - |p|];
      }
    }
  }

  /**
   * `find_excerpts`: nothing for an empty text or query; otherwise the excerpts
   * around the matches on each form-feed-separated page, each kept once.
   */
  function FindExcerptsSpec(text: string, query: string, mode: Mode): seq<Excerpt> {
    if text == [] || query == [] then []
    else AddAll([], AllCands(Split(text, [FormFeed]), query, mode, 0, ContextCut))
  }

  /**
   * The excerpts come without repeats, in page order, each from a page of the
   * text that matches the query in the chosen mode (the whole phrase, every
   * word, or some word); every candidate is among them, and each is kept where
   * it was first found.
   */
  lemma FindExcerptsProperties(text: string, query: string, mode: Mode)
    ensures var r := FindExcerptsSpec(text, query, mode);
      && (text == [] || query == [] ==> r == [])
      && NoDup(r)
      && PagesSorted(r)
      && (text != [] && query != [] ==>
           var pages := Split(text, [FormFeed]);
           && Elems(r) == Elems(AllCands(pages, query, mode, 0, ContextCut))
           && FirstSeenOrder(r, AllCands(pages, query, mode, 0, ContextCut))
           && forall e :: e in r ==> 1 <= e.page <= |pages| && PageMatches(pages[e.page - 1], query, mode))
  {
    if text != [] && query != [] {
      var all := AllCands(Split(text, [FormFeed]), query, mode, 0, ContextCut);
      AddAllElems([], all);
      AllCandsFromMatchingPages(Split(text, [FormFeed]), query, mode, 0, ContextCut);
      AllCandsSorted(Split(text, [FormFeed]), query, mode, 0, ContextCut);
      AddAllSorted([], all);
      AddAllFirstOrder(all);
      var r := FindExcerptsSpec(text, query, mode);
      assert forall e :: e in r ==> e in Elems(all);
    }
  }

  // ---------------------------------------------------------------------
  // The loops themselves

  /**
   * One pass of the `while True` loop: find the term from `start` on; on a
   * match, add its excerpt unless it is already there and say where the
   * search resumes; otherwise report that nothing was found.
   */
  method ScanStep(page: string, pageLower: string, w: string, pageNum: nat, start: nat,
                  excerpts0: seq<Excerpt>, seen0: set<Excerpt>, cut: Cutter)
    returns (found: bool, next: nat, excerpts: seq<Excerpt>, seen: set<Excerpt>)
    requires w != [] && |pageLower| == |page| && start <= |page| && seen0 == Elems(excerpts0)
    ensures seen == Elems(excerpts)
    ensures !found ==> excerpts == excerpts0 && ExcerptsFrom(page, pageLower, w, pageNum, start, cut) == []
    ensures found ==> start < next <= |page|
    ensures found ==>
      AddAll(excerpts, ExcerptsFrom(page, pageLower, w, pageNum, next, cut))
      == AddAll(excerpts0, ExcerptsFrom(page, pageLower, w, pageNum, start, cut))
  {
    excerpts, seen := excerpts0, seen0;
    var index := Find(pageLower, w, start);
    ExcerptsFromStep(page, pageLower, w, pageNum, start, index, cut);
    found, next := index != -1, start;
    if found {
      next := index + |w|;
      var excerpt := ExcerptAt(page, |w|, index, pageNum, cut);
      excerpts, seen := Keep(excerpts, seen, excerpt, ExcerptsFrom(page, pageLower, w, pageNum, next, cut),
                             ExcerptsFrom(page, pageLower, w, pageNum, start, cut));
    }
  }

  /** `if excerpt_key not in seen_excerpts: seen_excerpts.add(...); excerpts.append(...)` */
  method Keep(excerpts0: seq<Excerpt>, seen0: set<Excerpt>, excerpt: Excerpt, ghost rest: seq<Excerpt>, ghost all: seq<Excerpt>)
    returns (excerpts: seq<Excerpt>, seen: set<Excerpt>)
    requires seen0 == Elems(excerpts0) && all == [excerpt] + rest
    ensures seen == Elems(excerpts)
    ensures excerpts == if excerpt in excerpts0 then excerpts0 else excerpts0 + [excerpt]
    ensures AddAll(excerpts, rest) == AddAll(excerpts0, all)
  {
    excerpts, seen := excerpts0, seen0;
    KeepNew(excerpts, seen, excerpt, rest);
    if excerpt !in seen {
      seen := seen + {excerpt};
      excerpts := excerpts + [excerpt];
    }
  }

  /** The `while True: find(...)` loop for one search term on one page. */
  method ScanWord(page: string, pageLower: string, w: string, pageNum: nat, excerpts0: seq<Excerpt>, seen0: set<Excerpt>, cut: Cutter)
    returns (excerpts: seq<Excerpt>, seen: set<Excerpt>)
    requires w != [] && |pageLower| == |page| && seen0 == Elems(excerpts0)
    ensures seen == Elems(excerpts)
    ensures excerpts == AddAll(excerpts0, ExcerptsFrom(page, pageLower, w, pageNum, 0, cut))
  {
    excerpts, seen := excerpts0, seen0;
    var start := 0;
    while true
      invariant start <= |page|
      invariant seen == Elems(excerpts)
      invariant AddAll(excerpts, ExcerptsFrom(page, pageLower, w, pageNum, start, cut))
                == AddAll(excerpts0, ExcerptsFrom(page, pageLower, w, pageNum, 0, cut))
      decreases |page| - start
    {
      var found, next;
      found, next, excerpts, seen := ScanStep(page, pageLower, w, pageNum, start, excerpts, seen, cut);
      if !found {
        break;
      }
      start := next;
    }
  }

  /** The `for word in words` loop on one page. */
  method ScanWords(page: string, pageLower: string, ws: seq<string>, pageNum: nat,
                   excerpts0: seq<Excerpt>, seen0: set<Excerpt>, cut: Cutter)
    returns (excerpts: seq<Excerpt>, seen: set<Excerpt>)
    requires |pageLower| == |page|
    requires forall i :: 0 <= i < |ws| ==> ws[i] != []
    requires seen0 == Elems(excerpts0)
    ensures seen == Elems(excerpts)
    ensures excerpts == AddAll(excerpts0, WordsCands(page, pageLower, ws, pageNum, cut))
  {
    excerpts, seen := excerpts0, seen0;
    for k := 0 to |ws|
      invariant seen == Elems(excerpts)
      invariant AddAll(excerpts, WordsCands(page, pageLower, ws[k..], pageNum, cut))
                == AddAll(excerpts0, WordsCands(page, pageLower, ws, pageNum, cut))
    {
      assert ws[k..][0] == ws[k] && ws[k..][1..] == ws[k + 1..];
      AddAllConcat(excerpts, ExcerptsFrom(page, pageLower, ws[k], pageNum, 0, cut), WordsCands(page, pageLower, ws[k + 1..], pageNum, cut));
      excerpts, seen := ScanWord(page, pageLower, ws[k], pageNum, excerpts, seen, cut);
    }
    assert ws[|ws|..] == [];
  }

  /** The body of the loop over pages: the terms of the query searched on one page. */
  method ScanPage(page: string, pageNum: nat, query: string, words: seq<string>, mode: Mode,
                  excerpts0: seq<Excerpt>, seen0: set<Excerpt>, cut: Cutter)
    returns (excerpts: seq<Excerpt>, seen: set<Excerpt>)
    requires query != [] && words == Words(Lower(query)) && seen0 == Elems(excerpts0)
    ensures seen == Elems(excerpts)
    ensures excerpts == AddAll(excerpts0, PageCands(page, pageNum, query, mode, cut))
  {
    excerpts, seen := excerpts0, seen0;
    var pageLower := Lower(page);
    match mode {
      case Exact =>
        excerpts, seen := ScanWord(page, pageLower, Lower(query), pageNum, excerpts, seen, cut);
      case AllWords =>
        if AllOccur(pageLower, words) {
          excerpts, seen := ScanWords(page, pageLower, words, pageNum, excerpts, seen, cut);
        }
      case AnyWord =>
        excerpts, seen := ScanWords(page, pageLower, words, pageNum, excerpts, seen, cut);
    }
  }

  /** The loop over the pages of the text, numbered from 1. */
  method ScanPages(pages: seq<string>, query: string, mode: Mode, cut: Cutter) returns (excerpts: seq<Excerpt>)
    requires query != []
    ensures excerpts == AddAll([], AllCands(pages, query, mode, 0, cut))
  {
    excerpts := [];
    var seen: set<Excerpt> := {};
    assert seen == Elems(excerpts);
    var words := Words(Lower(query));
    for n := 0 to |pages|
      invariant seen == Elems(excerpts)
      invariant AddAll(excerpts, AllCands(pages, query, mode, n, cut)) == AddAll([], AllCands(pages, query, mode, 0, cut))
    {
      AddAllPage(excerpts, pages, query, mode, n, cut);
      excerpts, seen := ScanPage(pages[n], n + 1, query, words, mode, excerpts, seen, cut);
    }
    assert AllCands(pages, query, mode, |pages|, cut) == [];
  }

  /** De-duplicating the candidates from page `n` on is de-duplicating page `n`'s, then those of the later pages. */
  lemma AddAllPage(acc: seq<Excerpt>, pages: seq<string>, query: string, mode: Mode, n: nat, cut: Cutter)
    requires query != [] && n < |pages|
    ensures AddAll(acc, AllCands(pages, query, mode, n, cut))
            == AddAll(AddAll(acc, PageCands(pages[n], n + 1, query, mode, cut)), AllCands(pages, query, mode, n + 1, cut))
  {
    AddAllConcat(acc, PageCands(pages[n], n + 1, query, mode, cut), AllCands(pages, query, mode, n + 1, cut));
  }

  /** `find_excerpts(text, search_text, search_type)`: the text is cut into pages at its form feeds. */
  method FindExcerpts(text: string, query: string, mode: Mode) returns (excerpts: seq<Excerpt>)
    ensures excerpts == FindExcerptsSpec(text, query, mode)
  {
    if text == [] || query == [] {
      return [];
    }
    var pages := Split(text, [FormFeed]);
    excerpts := ScanPages(pages, query, mode, ContextCut);
  }
}
