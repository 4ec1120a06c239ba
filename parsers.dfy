/**
 * The pure parsing steps of the scraper (scraper.py): splitting the date
 * cell at its revision annotation, reading `%m/%d/%Y` dates as
 * `datetime.strptime` does, and reading the leftmost number of a cell as
 * the regular expression `[\d,]+(?:\.\d+)?` does.
 */
module Parsers {
  import opened Common
  import opened Text

  /** The literal the date cell uses to introduce a revision date. */
  const RevisedMarker: string := " (Revised "

  /**
   * `extract_dates`: the text before the first marker, stripped, and, when the
   * marker occurs, the text up to the next marker with every `)` removed, stripped.
   */
  function ExtractDates(s: string): (r: (string, Option<string>))
    ensures r.1.None? <==> Find(s, RevisedMarker, 0) == -1
    ensures r.1.None? ==> r.0 == Strip(s)
    ensures r.1.Some? ==> ')' !in r.1.value
  {
    var parts := Split(s, RevisedMarker);
    if |parts| > 1 then
      var rev := RemoveChar(parts[1], ')');
      StripKeepsOut(rev, ')');
      (Strip(parts[0]), Some(Strip(rev)))
    else
      (Strip(parts[0]), None)
  }

  /** The characters a `%m/%d/%Y` date is written with. */
  predicate DateChars(s: string) {
    forall i :: 0 <= i < |s| ==> IsDigit(s[i]) || s[i] == '/'
  }

  /** An occurrence needs every character of the word in place. */
  lemma MismatchNoOccurrence(s: string, w: string, k: int, j: nat)
    requires 0 <= k && j < |w| && k + j < |s|
    ensures s[k + j] != w[j] ==> !OccursAt(s, w, k)
  {
    if OccursAt(s, w, k) {
      assert s[k..k + |w|][j] == w[j];
    }
  }

  /** A string made of digits and slashes has no whitespace to strip. */
  lemma StripDateChars(s: string)
    requires DateChars(s)
    ensures Strip(s) == s
  {
    if s != [] {
      assert !IsSpace(s[0]) && !IsSpace(s[|s| - 1]);
    }
  }

  lemma RemoveCharAbsent(s: string, c: char)
    requires c !in s
    ensures RemoveChar(s, c) == s
  {
    if s != [] {
      assert c !in s[1..];
      RemoveCharAbsent(s[1..], c);
    }
  }

  /** The marker holds a `(`, so a string without one does not contain it. */
  lemma NoParenNoMarker(t: string)
    requires '(' !in t
    ensures Find(t, RevisedMarker, 0) == -1
  {
    forall k | 0 <= k ensures !OccursAt(t, RevisedMarker, k) {
      if k + 1 < |t| {
        MismatchNoOccurrence(t, RevisedMarker, k, 1);
      }
    }
  }

  /** After a date the first marker is the one that follows it. */
  lemma MarkerAfterDate(main: string, tail: string)
    requires DateChars(main)
    ensures Find(main + RevisedMarker + tail, RevisedMarker, 0) == |main|
  {
    var m := RevisedMarker;
    var s := main + m + tail;
    assert m[0] == ' ' && m[1] == '(';
    forall k | 0 <= k < |main| ensures !OccursAt(s, m, k) {
      MismatchNoOccurrence(s, m, k, 1);
      assert s[k + 1] == if k + 1 < |main| then main[k + 1] else m[0];
    }
    assert s[|main|..|main| + |m|] == m;
    assert OccursAt(s, m, |main|);
  }

  lemma SplitAnnotated(main: string, tail: string)
    requires DateChars(main) && '(' !in tail
    ensures Split(main + RevisedMarker + tail, RevisedMarker) == [main, tail]
  {
    var m := RevisedMarker;
    var s := main + m + tail;
    MarkerAfterDate(main, tail);
    assert s[..|main|] == main;
    assert s[|main| + |m|..] == tail;
    NoParenNoMarker(tail);
  }

  /**
   * Reading back the annotation the site writes: `"<date> (Revised <date>)"`
   * gives the two dates back.
   */
  lemma SplitAnnotatedDate(main: string, rev: string)
    requires DateChars(main) && DateChars(rev)
    ensures Split(main + RevisedMarker + rev + ")", RevisedMarker) == [main, rev + ")"]
  {
    assert main + RevisedMarker + rev + ")" == main + RevisedMarker + (rev + ")");
    SplitAnnotated(main, rev + ")");
  }
  lemma RevisionCleanup(rev: string)
    requires DateChars(rev)
    ensures Strip(RemoveChar(rev + ")", ')')) == rev
  {
    RemoveCharConcat(rev, [')'], ')');
    RemoveCharAbsent(rev, ')');
    assert RemoveChar([')'], ')') == [];
    assert RemoveChar(rev + ")", ')') == rev + [];
    assert rev + [] == rev;
    StripDateChars(rev);
  }
  lemma ExtractDatesOfParts(s: string, main: string, tail: string)
    requires Split(s, RevisedMarker) == [main, tail]
    ensures ExtractDates(s) == (Strip(main), Some(Strip(RemoveChar(tail, ')'))))
  {
  }
  /**
   * Reading back the annotation the site writes: `"<date> (Revised <date>)"`
   * gives the two dates back.
   */
  lemma ExtractDatesAnnotated(main: string, rev: string)
    requires DateChars(main) && DateChars(rev)
    ensures ExtractDates(main + RevisedMarker + rev + ")") == (main, Some(rev))
  {
    SplitAnnotatedDate(main, rev);
    ExtractDatesOfParts(main + RevisedMarker + rev + ")", main, rev + ")");
    RevisionCleanup(rev);
    StripDateChars(main);
  }

  lemma {:induction false} RemoveCharConcat(a: string, b: string, c: char)
    ensures RemoveChar(a + b, c) == RemoveChar(a, c) + RemoveChar(b, c)
  {
    if a != [] {
      assert (a + b)[1..] == a[1..] + b;
      RemoveCharConcat(a[1..], b, c);
    } else {
      assert a + b == b;
    }
  }

  lemma ExtractDatesExample()
    ensures ExtractDates("01/02/2024 (Revised 03/04/2024)") == ("01/02/2024", Some("03/04/2024"))
  {
    assert "01/02/2024 (Revised 03/04/2024)" == "01/02/2024" + RevisedMarker + "03/04/2024" + ")";
    ExtractDatesAnnotated("01/02/2024", "03/04/2024");
  }

  // ---------------------------------------------------------------------
  // Dates as `datetime.strptime(text, '%m/%d/%Y').date()` reads them

  datatype Date = Date(year: int, month: int, day: int)

  predicate IsLeap(y: int) {
    y % 4 == 0 && (y % 100 != 0 || y % 400 == 0)
  }

  function DaysInMonth(y: int, m: int): int
    requires 1 <= m <= 12
  {
    if m == 2 then (if IsLeap(y) then 29 else 28)
    else if m == 4 || m == 6 || m == 9 || m == 11 then 30
    else 31
  }

  /** A date Python's `datetime.date` accepts. */
  predicate ValidDate(d: Date) {
    1 <= d.year <= 9999 && 1 <= d.month <= 12 && 1 <= d.day <= DaysInMonth(d.year, d.month)
  }

  /** Calendar order, the order of the ISO `YYYY-MM-DD` text SQLite compares. */
  predicate DateLe(a: Date, b: Date) {
    a.year < b.year || (a.year == b.year && (a.month < b.month || (a.month == b.month && a.day <= b.day)))
  }

  function DigitVal(c: char): int {
    c as int - '0' as int
  }

  predicate NonZeroDigit(c: char) {
    '1' <= c <= '9'
  }

  /** `%m`: `1[0-2]|0[1-9]|[1-9]`. */
  function MonthField(t: string): Option<int> {
    if |t| == 1 && NonZeroDigit(t[0]) then Some(DigitVal(t[0]))
    else if |t| == 2 && t[0] == '0' && NonZeroDigit(t[1]) then Some(DigitVal(t[1]))
    else if |t| == 2 && t[0] == '1' && '0' <= t[1] <= '2' then Some(10 + DigitVal(t[1]))
    else None
  }

  /** `%d`: `3[01]|[12]\d|0[1-9]|[1-9]| [1-9]`. */
  function DayField(t: string): Option<int> {
    if |t| == 1 && NonZeroDigit(t[0]) then Some(DigitVal(t[0]))
    else if |t| == 2 && (t[0] == '0' || t[0] == ' ') && NonZeroDigit(t[1]) then Some(DigitVal(t[1]))
    else if |t| == 2 && (t[0] == '1' || t[0] == '2') && IsDigit(t[1]) then Some(10 * DigitVal(t[0]) + DigitVal(t[1]))
    else if |t| == 2 && t[0] == '3' && (t[1] == '0' || t[1] == '1') then Some(30 + DigitVal(t[1]))
    else None
  }

  /** `%Y`: exactly four digits. */
  function YearField(t: string): Option<int> {
    if |t| == 4 && AllDigits(t) then
      Some(1000 * DigitVal(t[0]) + 100 * DigitVal(t[1]) + 10 * DigitVal(t[2]) + DigitVal(t[3]))
    else None
  }

  /**
   * `datetime.strptime(t, '%m/%d/%Y').date()`: the three fields must cover the
   * whole text, and the date they name must exist (no 30 February, no year 0);
   * `None` is the `ValueError` the scraper catches.
   */
  function ParseDate(t: string): (r: Option<Date>)
    ensures r.Some? ==> ValidDate(r.value)
  {
    var parts := Split(t, "/");
    if |parts| != 3 then None
    else
      match (MonthField(parts[0]), DayField(parts[1]), YearField(parts[2]))
      case (Some(m), Some(d), Some(y)) =>
        if ValidDate(Date(y, m, d)) then Some(Date(y, m, d)) else None
      case _ => None
  }

  /** Two digits, zero-padded. */
  function Pad2(n: int): string
    requires 0 <= n < 100
  {
    [DigitChar(n / 10), DigitChar(n % 10)]
  }

  /** `date.strftime('%m/%d/%Y')`: the form the site writes dates in. */
  function FormatDate(d: Date): (t: string)
    requires ValidDate(d)
    ensures DateChars(t) && |t| == 10
  {
    Pad2(d.month) + "/" + Pad2(d.day) + "/" + Pad2(d.year / 100) + Pad2(d.year % 100)
  }

  /** Every valid date written as `%m/%d/%Y` reads back as itself. */
  lemma ParseFormatDate(d: Date)
    requires ValidDate(d)
    ensures ParseDate(FormatDate(d)) == Some(d)
  {
    var m, dd, y := Pad2(d.month), Pad2(d.day), Pad2(d.year / 100) + Pad2(d.year % 100);
    MonthDigits(d.month);
    DayDigits(d.day);
    YearDigits(d.year);
    assert '/' !in m && '/' !in dd && '/' !in y;
    ParseDateFields(m, dd, y, d);
    assert FormatDate(d) == m + "/" + dd + "/" + y;
  }

  lemma MonthDigits(month: int)
    requires 1 <= month <= 12
    ensures MonthField(Pad2(month)) == Some(month)
  {
  }

  lemma DayDigits(day: int)
    requires 1 <= day <= 31
    ensures DayField(Pad2(day)) == Some(day)
  {
  }

  lemma YearDigits(year: int)
    requires 1 <= year <= 9999
    ensures YearField(Pad2(year / 100) + Pad2(year % 100)) == Some(year)
  {
    var a, b := year / 100, year % 100;
    var t := Pad2(a) + Pad2(b);
    assert DigitVal(t[0]) == a / 10 && DigitVal(t[1]) == a % 10;
    assert DigitVal(t[2]) == b / 10 && DigitVal(t[3]) == b % 10;
    assert 10 * (a / 10) + a % 10 == a;
    assert 10 * (b / 10) + b % 10 == b;
    assert 100 * a + b == year;
  }

  lemma JoinThree(a: string, b: string, c: string)
    ensures Join([a, b, c], "/") == a + "/" + b + "/" + c
  {
    assert [a, b, c][1..] == [b, c];
    assert [b, c][1..] == [c];
    assert Join([b, c], "/") == b + "/" + c;
    assert a + "/" + (b + "/" + c) == a + "/" + b + "/" + c;
  }

  /** A date text is read field by field, once it is cut at its slashes. */
  lemma ParseDateFields(m: string, d: string, y: string, date: Date)
    requires '/' !in m && '/' !in d && '/' !in y
    requires MonthField(m) == Some(date.month) && DayField(d) == Some(date.day) && YearField(y) == Some(date.year)
    ensures ParseDate(m + "/" + d + "/" + y) == if ValidDate(date) then Some(date) else None
  {
    JoinThree(m, d, y);
    SplitJoin([m, d, y], '/');
  }

  /**
   * Only the `%m/%d/%Y` shape is accepted: a text that parses is three
   * slash-free fields, joined by slashes, that read as the date's month, day
   * and year.
   */
  lemma ParseDateSound(t: string, date: Date)
    requires ParseDate(t) == Some(date)
    ensures exists m, d, y ::
      && '/' !in m && '/' !in d && '/' !in y
      && t == m + "/" + d + "/" + y
      && MonthField(m) == Some(date.month) && DayField(d) == Some(date.day) && YearField(y) == Some(date.year)
  {
    var parts := Split(t, "/");
    var m, d, y := parts[0], parts[1], parts[2];
    FreeChar(m, '/');
    FreeChar(d, '/');
    FreeChar(y, '/');
    assert parts == [m, d, y];
    JoinThree(m, d, y);
  }

  lemma Year2024()
    ensures YearField("2024") == Some(2024)
  {
    var t := "2024";
    assert IsDigit(t[0]) && IsDigit(t[1]) && IsDigit(t[2]) && IsDigit(t[3]);
    assert AllDigits(t);
  }

  lemma ParseDateExample()
    ensures ParseDate("01/02/2024") == Some(Date(2024, 1, 2))
  {
    Year2024();
    ParseDateFields("01", "02", "2024", Date(2024, 1, 2));
    assert "01/02/2024" == "01" + "/" + "02" + "/" + "2024";
  }

  /** `strptime` refuses a day the month does not have. */
  lemma ParseDateRejectsMissingDay()
    ensures ParseDate("02/30/2024") == None
  {
    Year2024();
    ParseDateFields("02", "30", "2024", Date(2024, 2, 30));
    assert "02/30/2024" == "02" + "/" + "30" + "/" + "2024";
  }

  /** `%m` and `%d` accept one digit without padding. */
  lemma ParseDateUnpadded()
    ensures ParseDate("1/2/2024") == Some(Date(2024, 1, 2))
  {
    Year2024();
    ParseDateFields("1", "2", "2024", Date(2024, 1, 2));
    assert "1/2/2024" == "1" + "/" + "2" + "/" + "2024";
  }

  // ---------------------------------------------------------------------
  // Numbers as `extract_number` reads them

  predicate IsNumChar(c: char) {
    IsDigit(c) || c == ','
  }

  /** The first position at or after `i` holding a digit or a comma. */
  function FirstNumChar(s: string, i: nat): (k: nat)
    requires i <= |s|
    ensures i <= k <= |s|
    ensures forall j :: i <= j < k ==> !IsNumChar(s[j])
    ensures k < |s| ==> IsNumChar(s[k])
    decreases |s| - i
  {
    if i == |s| || IsNumChar(s[i]) then i else FirstNumChar(s, i + 1)
  }

  /** The end of the run of digits and commas that starts at `i` (`[\d,]*`, greedy). */
  function NumRunEnd(s: string, i: nat): (k: nat)
    requires i <= |s|
    ensures i <= k <= |s|
    ensures forall j :: i <= j < k ==> IsNumChar(s[j])
    ensures k == |s| || !IsNumChar(s[k])
    decreases |s| - i
  {
    if i == |s| || !IsNumChar(s[i]) then i else NumRunEnd(s, i + 1)
  }

  /** The end of the run of digits that starts at `i` (`\d*`, greedy). */
  function DigitRunEnd(s: string, i: nat): (k: nat)
    requires i <= |s|
    ensures i <= k <= |s|
    ensures forall j :: i <= j < k ==> IsDigit(s[j])
    ensures k == |s| || !IsDigit(s[k])
    decreases |s| - i
  {
    if i == |s| || !IsDigit(s[i]) then i else DigitRunEnd(s, i + 1)
  }

  /** A number read from a cell: the digits before and after the decimal point. */
  datatype Decimal = Decimal(whole: string, fraction: string)

  /** `float('')` raises: the leftmost token was commas only. */
  datatype NumberError = CommasOnly(token: string)

  function Pow10(n: nat): (p: nat)
    ensures p >= 1
  {
    if n == 0 then 1 else 10 * Pow10(n - 1)
  }

  /** The value Python's `float` gives the comma-free token (up to rounding). */
  function Value(d: Decimal): real
    requires AllDigits(d.whole) && AllDigits(d.fraction)
  {
    DigitsValue(d.whole) as real + DigitsValue(d.fraction) as real / Pow10(|d.fraction|) as real
  }

  /** The decimal point and digits that follow the run ending at `j`, if any (`(?:\.\d+)?`). */
  function FractionEnd(s: string, j: nat): (k: nat)
    requires j <= |s|
    ensures k == j <==> !(j + 1 < |s| && s[j] == '.' && IsDigit(s[j + 1]))
    ensures k != j ==> j + 1 < k <= |s| && s[j] == '.'
    ensures forall m :: j < m < k ==> IsDigit(s[m])
    ensures k != j ==> k == |s| || !IsDigit(s[k])
  {
    if j + 1 < |s| && s[j] == '.' && IsDigit(s[j + 1]) then DigitRunEnd(s, j + 1) else j
  }

  /**
   * `extract_number`: the leftmost match of `[\d,]+(?:\.\d+)?` with its commas
   * removed, or 0 when the text holds no digit and no comma.
   */
  function ExtractNumber(s: string): (r: Result<Decimal, NumberError>)
    ensures (forall i :: 0 <= i < |s| ==> !IsNumChar(s[i])) ==> r == Ok(Decimal("0", ""))
    ensures r.Ok? ==> AllDigits(r.value.whole) && AllDigits(r.value.fraction)
    ensures r.Err? ==> r.error.token != [] && forall c :: c in r.error.token ==> c == ','
  {
    var i := FirstNumChar(s, 0);
    if i == |s| then Ok(Decimal("0", ""))
    else
      var j := NumRunEnd(s, i);
      var k := FractionEnd(s, j);
      var whole := RemoveChar(s[i..j], ',');
      var fraction := if k == j then "" else s[j + 1..k];
      assert AllDigits(whole) by { RemoveCommasDigits(s[i..j]); }
      if whole == [] && k == j then
        RemoveCharAll(s[i..j], ',');
        Err(CommasOnly(s[i..j]))
      else Ok(Decimal(whole, fraction))
  }

  /** Removing the commas from digits and commas leaves digits. */
  lemma {:induction false} RemoveCommasDigits(t: string)
    requires forall i :: 0 <= i < |t| ==> IsNumChar(t[i])
    ensures AllDigits(RemoveChar(t, ','))
  {
    if t != [] {
      RemoveCommasDigits(t[1..]);
    }
  }

  /** A number written by `str(n)` between non-numeric text is read back as `n`. */
  lemma {:induction false} ExtractNumberRendered(pre: string, n: nat, post: string)
    requires forall i :: 0 <= i < |pre| ==> !IsNumChar(pre[i])
    requires post == [] || (!IsNumChar(post[0]) && post[0] != '.')
    ensures ExtractNumber(pre + NatToString(n) + post) == Ok(Decimal(NatToString(n), ""))
  {
    var d := NatToString(n);
    var s := pre + d + post;
    assert s[|pre|] == d[0];
    assert forall i :: 0 <= i < |pre| ==> s[i] == pre[i];
    var i := FirstNumChar(s, 0);
    assert i == |pre|;
    assert forall k :: |pre| <= k < |pre| + |d| ==> s[k] == d[k - |pre|];
    assert |pre| + |d| < |s| ==> s[|pre| + |d|] == post[0];
    var j := NumRunEnd(s, i);
    assert j == |pre| + |d|;
    assert FractionEnd(s, j) == j;
    assert s[i..j] == d;
    assert ',' !in d;
    RemoveCharAbsent(d, ',');
  }

  /** The number read back from `str(n)` has the value `n`. */
  lemma RenderedValue(n: nat)
    ensures Value(Decimal(NatToString(n), "")) == n as real
  {
    NatToStringValue(n);
  }

  /** The thousands separators are dropped and the cents kept. */
  lemma ExtractNumberAmount()
    ensures ExtractNumber("$1,234.50") == Ok(Decimal("1234", "50"))
  {
    var s := "$1,234.50";
    assert IsNumChar(s[1]) && !IsNumChar(s[0]);
    assert FirstNumChar(s, 0) == 1;
    assert !IsNumChar(s[6]) && s[6] == '.' && IsDigit(s[7]);
    assert NumRunEnd(s, 1) == 6;
    assert DigitRunEnd(s, 7) == 9;
    assert FractionEnd(s, 6) == 9;
    AmountPieces();
  }

  /** The token and the cents of the amount example, cut out and cleaned. */
  lemma AmountPieces()
    ensures "$1,234.50"[1..6] == "1,234" && "$1,234.50"[7..9] == "50"
    ensures RemoveChar("1,234", ',') == "1234"
  {
    var s := "$1,234.50";
    assert s[7..9] == [s[7], s[8]];
    assert RemoveChar("1,234", ',') == "1" + RemoveChar(",234", ',');
  }

  lemma AmountValue()
    ensures Value(Decimal("1234", "50")) == 1234.5
  {
    assert DigitsValue("1") == 1 by { assert "1"[..0] == ""; }
    assert DigitsValue("12") == 12 by { assert "12"[..1] == "1"; }
    assert DigitsValue("123") == 123 by { assert "123"[..2] == "12"; }
    assert DigitsValue("1234") == 1234 by { assert "1234"[..3] == "123"; }
    assert DigitsValue("5") == 5 by { assert "5"[..0] == ""; }
    assert DigitsValue("50") == 50 by { assert "50"[..1] == "5"; }
    assert Pow10(2) == 100;
    assert 50 as real / 100 as real == 0.5;
  }

  /** Text without any digit or comma reads as 0. */
  lemma ExtractNumberNone()
    ensures ExtractNumber("no numbers here") == Ok(Decimal("0", ""))
  {
    var s := "no numbers here";
    assert forall i :: 0 <= i < |s| ==> !IsNumChar(s[i]);
  }

  /** A leftmost token of commas alone is what makes `float` raise. */
  lemma ExtractNumberCommaOnly()
    ensures ExtractNumber("a, 5").Err?
  {
    var s := "a, 5";
    assert FirstNumChar(s, 0) == 1;
    assert NumRunEnd(s, 1) == 2;
    assert FractionEnd(s, 2) == 2;
    assert s[1..2] == ",";
    assert RemoveChar(",", ',') == "";
  }
}
