/**
 * String operations the source takes from Python's `str` and SQLite's
 * string functions: find, split, join, replace, strip, whitespace split,
 * ASCII lower-casing and decimal rendering of a natural number.
 */
module Text {

  /** The characters Python's `str.isspace` accepts, so `split()` and `strip()` use them. */
  predicate IsSpace(c: char) {
    var n := c as int;
    n == 32 || 9 <= n <= 13 || 28 <= n <= 31 || n == 0x85 || n == 0xA0 || n == 0x1680
    || 0x2000 <= n <= 0x200A || n == 0x2028 || n == 0x2029 || n == 0x202F || n == 0x205F
    || n == 0x3000
  }

  predicate IsDigit(c: char) {
    '0' <= c <= '9'
  }

  predicate AllDigits(s: string) {
    forall i :: 0 <= i < |s| ==> IsDigit(s[i])
  }

  /** ASCII lower-casing of one character; every other character is left alone. */
  function LowerChar(c: char): char {
    if 'A' <= c <= 'Z' then (c as int + 32) as char else c
  }

  /** ASCII lower-casing, character by character, so positions are kept. */
  function Lower(s: string): (r: string)
    ensures |r| == |s|
    ensures forall i :: 0 <= i < |s| ==> r[i] == LowerChar(s[i])
  {
    seq(|s|, i requires 0 <= i < |s| => LowerChar(s[i]))
  }

  /** `w` occurs in `s` starting at position `k`. */
  predicate OccursAt(s: string, w: string, k: int) {
    0 <= k && k + |w| <= |s| && s[k..k + |w|] == w
  }

  /** Python's `s.find(w, start)`: the least position at or after `start` where `w` occurs, or -1. */
  function Find(s: string, w: string, start: nat): (r: int)
    ensures r == -1 || (start <= r && OccursAt(s, w, r))
    ensures r == -1 ==> forall k :: start <= k ==> !OccursAt(s, w, k)
    ensures r != -1 ==> forall k :: start <= k < r ==> !OccursAt(s, w, k)
    decreases |s| - start
  {
    if start + |w| > |s| then -1
    else if s[start..start + |w|] == w then start
    else Find(s, w, start + 1)
  }

  /** Python's `w in s`. */
  predicate Contains(s: string, w: string) {
    Find(s, w, 0) != -1
  }

  lemma ContainsIff(s: string, w: string)
    ensures Contains(s, w) <==> exists k :: OccursAt(s, w, k)
  {
    if exists k :: OccursAt(s, w, k) {
      var k :| OccursAt(s, w, k);
      assert 0 <= k;
    }
  }

  /** `sep` occurs nowhere in `s`. */
  ghost predicate Free(s: string, sep: string) {
    forall k :: !OccursAt(s, sep, k)
  }

  /** The parts joined back with the separator between consecutive ones: Python's `sep.join(parts)`. */
  function Join(parts: seq<string>, sep: string): string {
    if parts == [] then ""
    else if |parts| == 1 then parts[0]
    else parts[0] + sep + Join(parts[1..], sep)
  }

  /** Python's `s.split(sep)` for a non-empty separator: cut at each leftmost non-overlapping occurrence. */
  function Split(s: string, sep: string): (parts: seq<string>)
    requires sep != []
    ensures |parts| >= 1
    ensures forall i :: 0 <= i < |parts| ==> Free(parts[i], sep)
    ensures Join(parts, sep) == s
    decreases |s|
  {
    var i := Find(s, sep, 0);
    if i == -1 then [s]
    else
      var head, rest := s[..i], Split(s[i + |sep|..], sep);
      assert Free(head, sep) by {
        forall k ensures !OccursAt(head, sep, k) {
          if OccursAt(head, sep, k) {
            assert s[k..k + |sep|] == head[k..k + |sep|];
            assert OccursAt(s, sep, k);
          }
        }
      }
      assert s == head + sep + s[i + |sep|..];
      [head] + rest
  }

  /**
   * `Split` cuts at the leftmost occurrence: for every part but the last, the
   * first separator in the text from that part on is the one right after it.
   */
  lemma {:induction false} SplitLeftmost(s: string, sep: string, k: nat)
    requires sep != [] && k < |Split(s, sep)| - 1
    ensures Find(Join(Split(s, sep)[k..], sep), sep, 0) == |Split(s, sep)[k]|
    decreases |s|
  {
    var parts, i := Split(s, sep), Find(s, sep, 0);
    var rest := Split(s[i + |sep|..], sep);
    assert parts == [s[..i]] + rest;
    if k == 0 {
      assert parts[k..] == parts;
    } else {
      assert parts[k..] == rest[k - 1..];
      SplitLeftmost(s[i + |sep|..], sep, k - 1);
    }
  }

  /** Where `Find` stops for a one-character word: at the first position holding it. */
  lemma FindChar(s: string, c: char, p: nat)
    requires p <= |s|
    requires forall k :: 0 <= k < p ==> s[k] != c
    requires p == |s| || s[p] == c
    ensures Find(s, [c], 0) == if p == |s| then -1 else p
  {
    var r := Find(s, [c], 0);
    if r != -1 {
      assert s[r..r + 1] == [c];
      assert s[r] == c;
    }
    if p < |s| {
      assert s[p..p + 1] == [c];
      assert OccursAt(s, [c], p);
      assert r != -1 && r <= p;
    }
  }

  /** Splitting a joined list again gives the list back when the separator is one character no part holds. */
  lemma {:induction false} SplitJoin(parts: seq<string>, c: char)
    requires |parts| >= 1
    requires forall i :: 0 <= i < |parts| ==> c !in parts[i]
    ensures Split(Join(parts, [c]), [c]) == parts
  {
    var s := Join(parts, [c]);
    if |parts| == 1 {
      FindChar(s, c, |s|);
    } else {
      var p := |parts[0]|;
      var tail := Join(parts[1..], [c]);
      assert s == parts[0] + [c] + tail;
      FindChar(s, c, p);
      assert s[..p] == parts[0];
      assert s[p + 1..] == tail;
      SplitJoin(parts[1..], c);
    }
  }

  /** SQLite's `REPLACE(s, target, replacement)`: every leftmost non-overlapping occurrence of `target` becomes `replacement`. */
  function Replace(s: string, target: string, replacement: string): string {
    if target == [] then s else Join(Split(s, target), replacement)
  }

  /** Python's `s.replace(c, '')` for one character. */
  function RemoveChar(s: string, c: char): (r: string)
    ensures c !in r
    ensures |r| <= |s|
  {
    if s == [] then []
    else (if s[0] == c then [] else [s[0]]) + RemoveChar(s[1..], c)
  }

  /** Nothing is left after removing `c` only from a text made of `c` alone. */
  lemma {:induction false} RemoveCharAll(s: string, c: char)
    requires RemoveChar(s, c) == []
    ensures forall x :: x in s ==> x == c
  {
    if s != [] {
      RemoveCharAll(s[1..], c);
      assert s == [s[0]] + s[1..];
    }
  }

  /** The index of the first non-whitespace character at or after `i`. */
  function SpaceEnd(s: string, i: nat): (k: nat)
    requires i <= |s|
    ensures i <= k <= |s| && (k == |s| || !IsSpace(s[k]))
    decreases |s| - i
  {
    if i == |s| || !IsSpace(s[i]) then i else SpaceEnd(s, i + 1)
  }

  /** The index just past the last non-whitespace character before `j`. */
  function SpaceStart(s: string, j: nat): (k: nat)
    requires j <= |s|
    ensures k <= j && (k == 0 || !IsSpace(s[k - 1]))
  {
    if j == 0 || !IsSpace(s[j - 1]) then j else SpaceStart(s, j - 1)
  }

  /** `SpaceEnd` skips only whitespace. */
  lemma {:induction false} SpaceEndSkips(s: string, i: nat, j: nat)
    requires i <= |s| && i <= j < SpaceEnd(s, i)
    ensures IsSpace(s[j])
    decreases j - i
  {
    if i < j {
      SpaceEndSkips(s, i + 1, j);
    }
  }

  /** `SpaceStart` skips only whitespace. */
  lemma {:induction false} SpaceStartSkips(s: string, j: nat, i: nat)
    requires j <= |s| && SpaceStart(s, j) <= i < j
    ensures IsSpace(s[i])
  {
    if i < j - 1 {
      SpaceStartSkips(s, j - 1, i);
    }
  }

  /** `SpaceStart` stops at a non-whitespace character. */
  lemma {:induction false} SpaceStartStops(s: string, j: nat, k: nat)
    requires j <= |s| && k < j && !IsSpace(s[k])
    ensures k < SpaceStart(s, j)
  {
    if k < j - 1 {
      SpaceStartStops(s, j - 1, k);
    }
  }

  /** `strip()` cuts away only whitespace: everything before its start and after its end is whitespace. */
  lemma StripBounds(s: string)
    ensures forall m :: 0 <= m < SpaceEnd(s, 0) ==> IsSpace(s[m])
    ensures forall m :: SpaceStart(s, |s|) <= m < |s| ==> IsSpace(s[m])
  {
    forall m | 0 <= m < SpaceEnd(s, 0) ensures IsSpace(s[m]) {
      SpaceEndSkips(s, 0, m);
    }
    forall m | SpaceStart(s, |s|) <= m < |s| ensures IsSpace(s[m]) {
      SpaceStartSkips(s, |s|, m);
    }
  }

  /** Skipping leading whitespace stops inside `x` when `y` starts with a non-whitespace character. */
  lemma {:induction false} SpaceEndConcat(x: string, y: string, i: nat)
    requires i <= |x| && y != [] && !IsSpace(y[0])
    ensures SpaceEnd(x + y, i) == SpaceEnd(x, i)
    decreases |x| - i
  {
    var s := x + y;
    if i < |x| {
      assert s[i] == x[i];
      SpaceEndConcat(x, y, i + 1);
    } else {
      assert s[i] == y[0];
    }
  }

  /** Skipping trailing whitespace stops inside `y` when `x` ends with a non-whitespace character. */
  lemma {:induction false} SpaceStartConcat(x: string, y: string, j: nat)
    requires j <= |y| && x != [] && !IsSpace(x[|x| - 1])
    ensures SpaceStart(x + y, |x| + j) == |x| + SpaceStart(y, j)
  {
    var s := x + y;
    if j > 0 {
      assert s[|x| + j - 1] == y[j - 1];
      SpaceStartConcat(x, y, j - 1);
    } else {
      assert s[|x| - 1] == x[|x| - 1];
    }
  }

  /** Python's `strip()`: the text from the first to the last non-whitespace character. */
  function Strip(s: string): string {
    var a, b := SpaceEnd(s, 0), SpaceStart(s, |s|);
    if a < b then s[a..b] else []
  }

  /** Stripping never brings in a character the text does not hold. */
  lemma StripKeepsOut(s: string, c: char)
    requires c !in s
    ensures c !in Strip(s)
  {
    var a, b := SpaceEnd(s, 0), SpaceStart(s, |s|);
    if a < b {
      forall i | 0 <= i < b - a ensures s[a..b][i] != c {
        assert s[a..b][i] == s[a + i];
      }
    }
  }

  /** An occurrence inside the cut survives cutting the text to `s[lo..hi]`. */
  lemma SliceKeepsOccurrence(s: string, w: string, lo: nat, hi: nat, p: int)
    requires OccursAt(s, w, p) && lo <= p && p + |w| <= hi <= |s|
    ensures OccursAt(s[lo..hi], w, p - lo)
  {
    var d := s[lo..hi];
    forall k | 0 <= k < |w| ensures d[p - lo + k] == w[k] {
      assert s[p..p + |w|][k] == s[p + k];
    }
    assert d[p - lo..p - lo + |w|] == w;
  }

  /** Stripping keeps an occurrence of a word that neither begins nor ends with whitespace. */
  lemma StripKeeps(s: string, w: string, p: int)
    requires OccursAt(s, w, p) && w != []
    requires !IsSpace(w[0]) && !IsSpace(w[|w| - 1])
    ensures Contains(Strip(s), w)
  {
    var a, b := SpaceEnd(s, 0), SpaceStart(s, |s|);
    assert s[p] == w[0] && s[p + |w| - 1] == w[|w| - 1];
    if p < a {
      SpaceEndSkips(s, 0, p);
    }
    if b < p + |w| {
      SpaceStartSkips(s, |s|, p + |w| - 1);
    }
    SliceKeepsOccurrence(s, w, a, b, p);
    ContainsIff(Strip(s), w);
  }

  /** The end of the run of non-whitespace characters that starts at `i`. */
  function TokenEnd(s: string, i: nat): (k: nat)
    requires i <= |s|
    ensures i <= k <= |s|
    ensures forall j :: i <= j < k ==> !IsSpace(s[j])
    ensures k == |s| || IsSpace(s[k])
    decreases |s| - i
  {
    if i == |s| || IsSpace(s[i]) then i else TokenEnd(s, i + 1)
  }

  /** Python's `s.split()`: the maximal runs of non-whitespace characters, in order. */
  function Words(s: string): (ws: seq<string>)
    ensures forall i :: 0 <= i < |ws| ==> ws[i] != []
    ensures forall i, j :: 0 <= i < |ws| && 0 <= j < |ws[i]| ==> !IsSpace(ws[i][j])
    decreases |s|
  {
    if s == [] then []
    else if IsSpace(s[0]) then Words(s[1..])
    else
      var k := TokenEnd(s, 0);
      [s[..k]] + Words(s[k..])
  }

  /** Every character of a word comes from the string it was split from. */
  lemma {:induction false} WordsChars(s: string)
    ensures forall w, c :: w in Words(s) && c in w ==> c in s
    decreases |s|
  {
    if s != [] {
      if IsSpace(s[0]) {
        WordsChars(s[1..]);
        assert Words(s) == Words(s[1..]);
        assert forall c :: c in s[1..] ==> c in s;
      } else {
        var k := TokenEnd(s, 0);
        WordsChars(s[k..]);
        assert Words(s) == [s[..k]] + Words(s[k..]);
        assert forall c :: c in s[k..] ==> c in s;
        assert forall c :: c in s[..k] ==> c in s;
      }
    }
  }

  /** `s.split()` is empty exactly when `s` is all whitespace. */
  lemma {:induction false} WordsEmpty(s: string)
    ensures Words(s) == [] <==> forall i :: 0 <= i < |s| ==> IsSpace(s[i])
    decreases |s|
  {
    if s != [] {
      if IsSpace(s[0]) {
        WordsEmpty(s[1..]);
        assert Words(s) == Words(s[1..]);
        if forall i :: 0 <= i < |s[1..]| ==> IsSpace(s[1..][i]) {
          forall i | 0 <= i < |s| ensures IsSpace(s[i]) {
            if i > 0 {
              assert s[i] == s[1..][i - 1];
            }
          }
        }
        if forall i :: 0 <= i < |s| ==> IsSpace(s[i]) {
          forall i | 0 <= i < |s[1..]| ensures IsSpace(s[1..][i]) {
            assert s[1..][i] == s[i + 1];
          }
        }
      }
    }
  }

  /** Leading whitespace yields no word: `s.split()` skips it. */
  lemma {:induction false} WordsSkipSpace(sp: string, s: string)
    requires forall i :: 0 <= i < |sp| ==> IsSpace(sp[i])
    ensures Words(sp + s) == Words(s)
    decreases |sp|
  {
    if sp != [] {
      var t := sp + s;
      assert t[0] == sp[0] && t[1..] == sp[1..] + s;
      WordsSkipSpace(sp[1..], s);
      assert Words(t) == Words(t[1..]);
    } else {
      assert sp + s == s;
    }
  }

  /** A run of non-whitespace that ends at whitespace or at the end of the text is the next word. */
  lemma WordsWord(w: string, s: string)
    requires w != [] && forall i :: 0 <= i < |w| ==> !IsSpace(w[i])
    requires s == [] || IsSpace(s[0])
    ensures Words(w + s) == [w] + Words(s)
  {
    var t := w + s;
    assert forall i :: 0 <= i < |w| ==> t[i] == w[i];
    assert |w| < |t| ==> t[|w|] == s[0];
    TokenEndAt(t, 0, |w|);
    assert t[..|w|] == w && t[|w|..] == s;
  }

  /** `TokenEnd` stops at the first whitespace. */
  lemma {:induction false} TokenEndAt(s: string, i: nat, k: nat)
    requires i <= k <= |s|
    requires forall j :: i <= j < k ==> !IsSpace(s[j])
    requires k == |s| || IsSpace(s[k])
    ensures TokenEnd(s, i) == k
    decreases k - i
  {
    if i < k {
      TokenEndAt(s, i + 1, k);
    }
  }

  /** Words joined by single spaces split back into the same words. */
  lemma {:induction false} WordsJoin(ws: seq<string>)
    requires forall i :: 0 <= i < |ws| ==> ws[i] != []
    requires forall i, j :: 0 <= i < |ws| && 0 <= j < |ws[i]| ==> !IsSpace(ws[i][j])
    ensures Words(Join(ws, " ")) == ws
    decreases |ws|
  {
    if ws == [] {
    } else if |ws| == 1 {
      WordsWord(ws[0], []);
      assert ws[0] + [] == ws[0];
    } else {
      var rest := Join(ws[1..], " ");
      assert Join(ws, " ") == ws[0] + (" " + rest);
      WordsJoin(ws[1..]);
      assert Words(rest) == ws[1..];
      WordsSkipSpace(" ", rest);
      assert Words(" " + rest) == ws[1..];
      assert (" " + rest)[0] == ' ';
      WordsWord(ws[0], " " + rest);
      assert ws == [ws[0]] + ws[1..];
    }
  }

  /** A string free of the one character `c` does not contain it. */
  lemma FreeChar(p: string, c: char)
    requires Free(p, [c])
    ensures c !in p
  {
    forall k | 0 <= k < |p| ensures p[k] != c {
      assert p[k..k + 1] == [p[k]];
      assert !OccursAt(p, [c], k);
    }
  }

  /** Lower-casing twice is lower-casing once. */
  lemma LowerIdempotent(s: string)
    ensures Lower(Lower(s)) == Lower(s)
  {
  }

  /** Lower-casing neither makes nor removes whitespace. */
  lemma LowerKeepsSpace(s: string)
    ensures forall i :: 0 <= i < |s| ==> (IsSpace(Lower(s)[i]) <==> IsSpace(s[i]))
  {
  }

  function DigitChar(d: nat): char
    requires d < 10
  {
    ('0' as int + d) as char
  }

  /** The value of a string of decimal digits. */
  function DigitsValue(s: string): nat
    requires AllDigits(s)
  {
    if s == [] then 0 else DigitsValue(s[..|s| - 1]) * 10 + (s[|s| - 1] as int - '0' as int)
  }

  /** Python's `str(n)` for a natural number: its decimal digits without leading zeros. */
  function NatToString(n: nat): (s: string)
    ensures s != [] && AllDigits(s)
    ensures |s| > 1 ==> s[0] != '0'
  {
    if n < 10 then [DigitChar(n)] else NatToString(n / 10) + [DigitChar(n % 10)]
  }

  /** Reading the rendered digits gives the number back. */
  lemma {:induction false} NatToStringValue(n: nat)
    ensures DigitsValue(NatToString(n)) == n
  {
    if n >= 10 {
      var s := NatToString(n);
      assert s[..|s| - 1] == NatToString(n / 10);
      NatToStringValue(n / 10);
    }
  }

  lemma NatToStringInjective(a: nat, b: nat)
    requires NatToString(a) == NatToString(b)
    ensures a == b
  {
    NatToStringValue(a);
    NatToStringValue(b);
  }
}
