/**
 * Date handling of the comic pages: picking the date token out of the page's date text,
 * parsing it the way `datetime.strptime` does with the formats "%d.%m.%Y" and "%d.%m.",
 * and rendering the canonical "%Y-%m-%d" string that the images table stores.
 */
module Dates {
  import opened Wrappers
  import opened Strings
  import opened Arithmetic

  /** A proleptic Gregorian calendar date, as Python's `datetime.date`. */
  datatype Date = Date(year: int, month: int, day: int)

  predicate IsLeap(y: int) {
    y % 4 == 0 && (y % 100 != 0 || y % 400 == 0)
  }

  function DaysInMonth(y: int, m: int): int
    requires 1 <= m <= 12
  {
    if m == 2 then (if IsLeap(y) then 29 else 28)
    else if m == 4 || m == 6 || m == 9 || m == 11 then 30
    else 31
  }

  /** The dates `datetime.date` accepts: MINYEAR 1 to MAXYEAR 9999. */
  predicate ValidDate(d: Date) {
    && 1 <= d.year <= 9999
    && 1 <= d.month <= 12
    && 1 <= d.day <= DaysInMonth(d.year, d.month)
  }

  /** 1900, the year strptime assumes when the text has none, is not a leap year. */
  lemma NotLeap1900()
    ensures !IsLeap(1900)
  {
    DivModUnique(1900, 100, 19, 0);
    DivModUnique(1900, 400, 4, 300);
  }

  /** Chronological order. */
  predicate Before(a: Date, b: Date) {
    || a.year < b.year
    || (a.year == b.year && a.month < b.month)
    || (a.year == b.year && a.month == b.month && a.day < b.day)
  }

  // ---------------------------------------------------------------------------------
  // The date token: `date_text_with_weekday.split(' ')[-1]`
  // ---------------------------------------------------------------------------------

  /**
   * The last element of `s.split(' ')`: the longest suffix of `s` without a space
   * (empty when `s` ends with a space).
   */
  function LastToken(s: string): (t: string)
    ensures ' ' !in t
    ensures |t| <= |s| && t == s[|s| - |t|..]
    ensures |t| < |s| ==> s[|s| - |t| - 1] == ' '
    decreases |s|
  {
    if s == [] || s[|s| - 1] == ' ' then []
    else
      var t := LastToken(s[..|s| - 1]);
      assert s[..|s| - 1][|s| - 1 - |t|..] == s[|s| - 1 - |t|..|s| - 1];
      t + [s[|s| - 1]]
  }

  /** Whatever precedes the last space is ignored. */
  lemma {:induction false} LastTokenAfterSpace(prefix: string, tok: string)
    requires ' ' !in tok
    ensures LastToken(prefix + " " + tok) == tok
    decreases |tok|
  {
    var s := prefix + " " + tok;
    if tok != [] {
      var init := tok[..|tok| - 1];
      assert s[..|s| - 1] == prefix + " " + init;
      assert s[|s| - 1] == tok[|tok| - 1];
      LastTokenAfterSpace(prefix, init);
      assert tok == init + [tok[|tok| - 1]];
    }
  }

  // ---------------------------------------------------------------------------------
  // strptime with "%d.%m.%Y" and "%d.%m."
  // ---------------------------------------------------------------------------------

  /** An ASCII digit. */
  predicate IsDigit(c: char) {
    '0' <= c <= '9'
  }

  function DigitValue(c: char): int
    requires IsDigit(c)
  {
    c as int - '0' as int
  }

  /** The first '.' splits `s` into the text before it and the text after it. */
  function SplitDot(s: string): (r: Option<(string, string)>)
    ensures r.None? <==> '.' !in s
    ensures r.Some? ==> '.' !in r.value.0 && s == r.value.0 + "." + r.value.1
    decreases |s|
  {
    if s == [] then None
    else if s[0] == '.' then
      assert s == [] + "." + s[1..];
      Some(([], s[1..]))
    else
      match SplitDot(s[1..])
      case None => None
      case Some((a, b)) =>
        assert s == [s[0]] + s[1..];
        Some(([s[0]] + a, b))
  }

  lemma {:induction false} SplitDotOf(a: string, b: string)
    requires '.' !in a
    ensures SplitDot(a + "." + b) == Some((a, b))
    decreases |a|
  {
    var s := a + "." + b;
    if a == [] {
      assert s[1..] == b;
    } else {
      assert s[0] == a[0];
      assert s[1..] == a[1..] + "." + b;
      SplitDotOf(a[1..], b);
      assert [a[0]] + a[1..] == a;
    }
  }

  /**
   * The `%d` directive: `3[01]|[12]\d|0[1-9]|[1-9]| [1-9]`. Because a literal '.' must
   * follow, the field is exactly the text before the first '.'.
   */
  function DayField(f: string): (r: Option<int>)
    ensures r.Some? ==> 1 <= r.value <= 31
  {
    if |f| == 1 && '1' <= f[0] <= '9' then Some(DigitValue(f[0]))
    else if |f| == 2 && (f[0] == '0' || f[0] == ' ') && '1' <= f[1] <= '9' then Some(DigitValue(f[1]))
    else if |f| == 2 && (f[0] == '1' || f[0] == '2') && IsDigit(f[1]) then
      Some(10 * DigitValue(f[0]) + DigitValue(f[1]))
    else if |f| == 2 && f[0] == '3' && (f[1] == '0' || f[1] == '1') then Some(30 + DigitValue(f[1]))
    else None
  }

  /** The `%m` directive: `1[0-2]|0[1-9]|[1-9]`. */
  function MonthField(f: string): (r: Option<int>)
    ensures r.Some? ==> 1 <= r.value <= 12
  {
    if |f| == 1 && '1' <= f[0] <= '9' then Some(DigitValue(f[0]))
    else if |f| == 2 && f[0] == '0' && '1' <= f[1] <= '9' then Some(DigitValue(f[1]))
    else if |f| == 2 && f[0] == '1' && '0' <= f[1] <= '2' then Some(10 + DigitValue(f[1]))
    else None
  }

  /** The value of two digits. */
  function TwoDigits(x: char, y: char): int
    requires IsDigit(x) && IsDigit(y)
  {
    10 * DigitValue(x) + DigitValue(y)
  }

  /** The `%Y` directive: exactly four digits, followed by nothing. */
  function YearField(f: string): (r: Option<int>)
    ensures r.Some? ==> 0 <= r.value <= 9999
  {
    if |f| == 4 && IsDigit(f[0]) && IsDigit(f[1]) && IsDigit(f[2]) && IsDigit(f[3]) then
      Some(100 * TwoDigits(f[0], f[1]) + TwoDigits(f[2], f[3]))
    else None
  }

  /** Day and month of "D.M." at the front of a token, and the text after it. */
  datatype Fields = Fields(day: int, month: int, rest: string)

  function DayMonth(t: string): (r: Option<Fields>)
    ensures r.Some? ==> 1 <= r.value.day <= 31 && 1 <= r.value.month <= 12
  {
    match SplitDot(t)
    case None => None
    case Some((f1, r1)) =>
      match DayField(f1)
      case None => None
      case Some(dd) =>
        match SplitDot(r1)
        case None => None
        case Some((f2, rest)) =>
          match MonthField(f2)
          case None => None
          case Some(mm) => Some(Fields(dd, mm, rest))
  }

  /**
   * `strptime(t, "%d.%m.%Y").date()`: `None` stands for the ValueError raised on a
   * mismatch, on trailing text, or on a day, month or year out of range.
   */
  function ParseFull(t: string): (r: Option<Date>)
    ensures r.Some? ==> ValidDate(r.value)
  {
    match DayMonth(t)
    case None => None
    case Some(f) =>
      match YearField(f.rest)
      case None => None
      case Some(y) =>
        var d := Date(y, f.month, f.day);
        if ValidDate(d) then Some(d) else None
  }

  /**
   * `strptime(t, "%d.%m.").date().replace(year=year)` AS WRITTEN: without a year in the
   * text, strptime builds its date in the default year 1900, which is not a leap year, so
   * "29.2." raises ValueError whatever the current year is.
   */
  function ParseShortAsWritten(t: string, year: int): (r: Option<Date>)
    ensures r.Some? ==> ValidDate(r.value) && r.value.year == year
    ensures r.Some? ==> !(r.value.month == 2 && r.value.day == 29)
  {
    match DayMonth(t)
    case None => None
    case Some(f) =>
      var d := Date(year, f.month, f.day);
      if f.rest == [] && f.day <= DaysInMonth(1900, f.month) && ValidDate(d) then Some(d) else None
  }

  /**
   * The year-less form as intended: day and month of the current year, validated against
   * that year, so that a leap day of a leap year is accepted.
   */
  function ParseShort(t: string, year: int): (r: Option<Date>)
    ensures r.Some? ==> ValidDate(r.value) && r.value.year == year
  {
    match DayMonth(t)
    case None => None
    case Some(f) =>
      var d := Date(year, f.month, f.day);
      if f.rest == [] && ValidDate(d) then Some(d) else None
  }

  /** The full form first; on its ValueError, the year-less form as written. */
  function ParseToken(t: string, year: int): (r: Option<Date>)
    ensures r.Some? ==> ValidDate(r.value)
  {
    var full := ParseFull(t);
    if full.Some? then full else ParseShortAsWritten(t, year)
  }

  /** The full form first; on its ValueError, the intended year-less form. */
  function ParseTokenCorrected(t: string, year: int): (r: Option<Date>)
    ensures r.Some? ==> ValidDate(r.value)
  {
    var full := ParseFull(t);
    if full.Some? then full else ParseShort(t, year)
  }

  /**
   * The date `download_comic` reads from a page's date text, given the current year;
   * `None` stands for the ValueError that aborts the download.
   */
  function Normalise(text: string, year: int): (r: Option<Date>)
    ensures r.Some? ==> ValidDate(r.value)
  {
    ParseToken(LastToken(text), year)
  }

  /** The date `download_comic` would read with the intended year-less parse. */
  function NormaliseCorrected(text: string, year: int): (r: Option<Date>)
    ensures r.Some? ==> ValidDate(r.value)
  {
    ParseTokenCorrected(LastToken(text), year)
  }

  // ---------------------------------------------------------------------------------
  // strftime("%Y-%m-%d")
  // ---------------------------------------------------------------------------------

  function Digit(n: int): (c: char)
    requires 0 <= n <= 9
    ensures IsDigit(c) && DigitValue(c) == n
  {
    ('0' as int + n) as char
  }

  /** Two zero-padded digits. */
  function Pad2(n: int): (s: string)
    requires 0 <= n < 100
  {
    [Digit(n / 10), Digit(n % 10)]
  }

  /** Four zero-padded digits. */
  function Pad4(n: int): (s: string)
    requires 0 <= n < 10000
  {
    Pad2(n / 100) + Pad2(n % 100)
  }

  /** `date.strftime("%Y-%m-%d")`. */
  function Format(d: Date): (s: string)
    requires ValidDate(d)
    ensures |s| == 10 && s[4] == '-' && s[7] == '-'
  {
    Pad4(d.year) + (("-" + Pad2(d.month)) + ("-" + Pad2(d.day)))
  }

  /** The canonical string is zero-padded: four digits, a dash, two digits, a dash, two digits. */
  lemma FormatShape(d: Date)
    requires ValidDate(d)
    ensures var s := Format(d);
      && |s| == 10 && s[4] == '-' && s[7] == '-'
      && forall i :: 0 <= i < 10 && i != 4 && i != 7 ==> IsDigit(s[i])
  {
  }

  lemma CharLess(x: char, y: char)
    ensures LexLess([x], [y]) <==> x < y
  {
    assert [x][1..] == [] && [y][1..] == [];
  }

  lemma Pad2Order(a: int, b: int)
    requires 0 <= a < 100 && 0 <= b < 100
    ensures LexLess(Pad2(a), Pad2(b)) <==> a < b
  {
    assert Pad2(a) == [Digit(a / 10)] + [Digit(a % 10)];
    assert Pad2(b) == [Digit(b / 10)] + [Digit(b % 10)];
    LexConcat([Digit(a / 10)], [Digit(a % 10)], [Digit(b / 10)], [Digit(b % 10)]);
    CharLess(Digit(a / 10), Digit(b / 10));
    CharLess(Digit(a % 10), Digit(b % 10));
  }

  lemma Pad2Injective(a: int, b: int)
    requires 0 <= a < 100 && 0 <= b < 100
    ensures Pad2(a) == Pad2(b) <==> a == b
  {
    if a < b {
      Pad2Order(a, b);
      LexAsymmetric(Pad2(a), Pad2(b));
    } else if b < a {
      Pad2Order(b, a);
      LexAsymmetric(Pad2(b), Pad2(a));
    }
  }

  lemma Pad4Order(a: int, b: int)
    requires 0 <= a < 10000 && 0 <= b < 10000
    ensures LexLess(Pad4(a), Pad4(b)) <==> a < b
    ensures Pad4(a) == Pad4(b) <==> a == b
  {
    LexConcat(Pad2(a / 100), Pad2(a % 100), Pad2(b / 100), Pad2(b % 100));
    Pad2Order(a / 100, b / 100);
    Pad2Order(a % 100, b % 100);
    Pad2Injective(a / 100, b / 100);
    Pad2Injective(a % 100, b % 100);
    if Pad4(a) == Pad4(b) {
      assert Pad2(a / 100) == Pad4(a)[..2] && Pad2(b / 100) == Pad4(b)[..2];
      assert Pad2(a % 100) == Pad4(a)[2..] && Pad2(b % 100) == Pad4(b)[2..];
    }
  }

  lemma DashPad2Order(a: int, b: int)
    requires 0 <= a < 100 && 0 <= b < 100
    ensures LexLess("-" + Pad2(a), "-" + Pad2(b)) <==> a < b
    ensures "-" + Pad2(a) == "-" + Pad2(b) <==> a == b
  {
    LexConcat("-", Pad2(a), "-", Pad2(b));
    LexIrreflexive("-");
    Pad2Order(a, b);
    Pad2Injective(a, b);
    if "-" + Pad2(a) == "-" + Pad2(b) {
      assert Pad2(a) == ("-" + Pad2(a))[1..];
    }
  }

  /**
   * For the dates Python can hold, the canonical strings sort as the dates do, which is
   * why the first row of `ORDER BY date DESC` is the most recent stored date.
   */
  lemma FormatOrder(d1: Date, d2: Date)
    requires ValidDate(d1) && ValidDate(d2)
    ensures LexLess(Format(d1), Format(d2)) <==> Before(d1, d2)
  {
    var m1, m2 := "-" + Pad2(d1.month), "-" + Pad2(d2.month);
    var t1, t2 := "-" + Pad2(d1.day), "-" + Pad2(d2.day);
    Pad4Order(d1.year, d2.year);
    LexConcat(Pad4(d1.year), m1 + t1, Pad4(d2.year), m2 + t2);
    LexConcat(m1, t1, m2, t2);
    DashPad2Order(d1.month, d2.month);
    DashPad2Order(d1.day, d2.day);
  }

  /** Distinct dates have distinct canonical strings. */
  lemma FormatInjective(d1: Date, d2: Date)
    requires ValidDate(d1) && ValidDate(d2)
    ensures Format(d1) == Format(d2) <==> d1 == d2
  {
    if d1 != d2 {
      if Before(d1, d2) {
        FormatOrder(d1, d2);
        LexAsymmetric(Format(d1), Format(d2));
      } else {
        assert Before(d2, d1);
        FormatOrder(d2, d1);
        LexAsymmetric(Format(d2), Format(d1));
      }
    }
  }

  // ---------------------------------------------------------------------------------
  // The texts the two formats accept
  // ---------------------------------------------------------------------------------

  /** How a one-digit day may be written: "5", "05" or " 5". */
  datatype Pad = Plain | Zero | Space

  function DayText(day: int, p: Pad): (s: string)
    requires 1 <= day <= 31
    ensures '.' !in s
  {
    if day >= 10 then Pad2(day)
    else match p
      case Plain => [Digit(day)]
      case Zero => ['0', Digit(day)]
      case Space => [' ', Digit(day)]
  }

  function MonthText(month: int, zero: bool): (s: string)
    requires 1 <= month <= 12
    ensures '.' !in s
  {
    if month >= 10 then Pad2(month)
    else if zero then ['0', Digit(month)]
    else [Digit(month)]
  }

  /** "D.M.YYYY" with the given spelling of day and month. */
  function RenderFull(d: Date, dp: Pad, zero: bool): string
    requires ValidDate(d)
  {
    DayText(d.day, dp) + "." + (MonthText(d.month, zero) + "." + Pad4(d.year))
  }

  /** "D.M." with the given spelling of day and month. */
  function RenderShort(day: int, month: int, dp: Pad, zero: bool): string
    requires 1 <= day <= 31 && 1 <= month <= 12
  {
    DayText(day, dp) + "." + (MonthText(month, zero) + "." + "")
  }

  lemma DayFieldExact(f: string, v: int)
    ensures DayField(f) == Some(v) <==> 1 <= v <= 31 && exists p :: f == DayText(v, p)
  {
    if DayField(f) == Some(v) {
      if |f| == 1 {
        assert f == DayText(v, Plain);
      } else if f[0] == '0' {
        assert f == DayText(v, Zero);
      } else if f[0] == ' ' {
        assert f == DayText(v, Space);
      } else {
        assert f == DayText(v, Plain);
      }
    }
    if 1 <= v <= 31 && exists p :: f == DayText(v, p) {
      var p :| f == DayText(v, p);
      assert DayField(f) == Some(v);
    }
  }

  lemma MonthFieldExact(f: string, v: int)
    ensures MonthField(f) == Some(v) <==> 1 <= v <= 12 && exists z :: f == MonthText(v, z)
  {
    if MonthField(f) == Some(v) {
      if |f| == 2 && f[0] == '0' {
        assert f == MonthText(v, true);
      } else {
        assert f == MonthText(v, false);
      }
    }
    if 1 <= v <= 12 && exists z :: f == MonthText(v, z) {
      var z :| f == MonthText(v, z);
      assert MonthField(f) == Some(v);
    }
  }

  lemma Pad2Digits(n: int)
    requires 0 <= n < 100
    ensures TwoDigits(Pad2(n)[0], Pad2(n)[1]) == n
  {
  }

  lemma Pad2OfDigits(x: char, y: char)
    requires IsDigit(x) && IsDigit(y)
    ensures Pad2(TwoDigits(x, y)) == [x, y]
  {
    var n := TwoDigits(x, y);
    DivModUnique(n, 10, DigitValue(x), DigitValue(y));
  }

  lemma YearFieldExact(f: string, y: int)
    ensures YearField(f) == Some(y) <==> 0 <= y <= 9999 && f == Pad4(y)
  {
    if 0 <= y <= 9999 && f == Pad4(y) {
      YearFieldOfPad4(y);
    }
    if YearField(f) == Some(y) {
      YearFieldSound(f);
    }
  }

  /** A zero-padded year reads back as itself. */
  lemma YearFieldOfPad4(y: int)
    requires 0 <= y <= 9999
    ensures YearField(Pad4(y)) == Some(y)
  {
    Pad2Digits(y / 100);
    Pad2Digits(y % 100);
  }

  /** Whatever `%Y` reads is written as the zero-padded rendering of the year read. */
  lemma YearFieldSound(f: string)
    requires YearField(f).Some?
    ensures f == Pad4(YearField(f).value)
  {
    var hi, lo := TwoDigits(f[0], f[1]), TwoDigits(f[2], f[3]);
    DivModUnique(YearField(f).value, 100, hi, lo);
    Pad2OfDigits(f[0], f[1]);
    Pad2OfDigits(f[2], f[3]);
    assert f == [f[0], f[1]] + [f[2], f[3]];
  }

  /** The day and month at the front of a rendered token are read back. */
  lemma DayMonthOf(day: int, month: int, dp: Pad, zero: bool, rest: string)
    requires 1 <= day <= 31 && 1 <= month <= 12
    ensures DayMonth(DayText(day, dp) + "." + (MonthText(month, zero) + "." + rest))
              == Some(Fields(day, month, rest))
  {
    SplitDotOf(DayText(day, dp), MonthText(month, zero) + "." + rest);
    SplitDotOf(MonthText(month, zero), rest);
    DayFieldExact(DayText(day, dp), day);
    MonthFieldExact(MonthText(month, zero), month);
  }

  /** Every token DayMonth reads is a rendering of what it read. */
  lemma DayMonthSound(t: string)
    requires DayMonth(t).Some?
    ensures var f := DayMonth(t).value;
      exists dp, zero :: t == DayText(f.day, dp) + "." + (MonthText(f.month, zero) + "." + f.rest)
  {
    var f := DayMonth(t).value;
    var (f1, r1) := SplitDot(t).value;
    var (f2, rest) := SplitDot(r1).value;
    DayFieldExact(f1, f.day);
    MonthFieldExact(f2, f.month);
    var dp :| f1 == DayText(f.day, dp);
    var zero :| f2 == MonthText(f.month, zero);
    assert t == DayText(f.day, dp) + "." + (MonthText(f.month, zero) + "." + f.rest);
  }

  /**
   * The full format accepts exactly the valid dates written "D.M.YYYY", with the day
   * spelt "5", "05" or " 5" and the month "3" or "03".
   */
  lemma ParseFullExact(t: string, d: Date)
    ensures ParseFull(t) == Some(d) <==>
              ValidDate(d) && exists dp, zero :: t == RenderFull(d, dp, zero)
  {
    if ParseFull(t) == Some(d) {
      ParseFullSound(t);
    }
    if ValidDate(d) && exists dp, zero :: t == RenderFull(d, dp, zero) {
      var dp, zero :| t == RenderFull(d, dp, zero);
      ParseFullOfRender(d, dp, zero);
    }
  }

  /** Whatever the full form reads is a rendering of the date read. */
  lemma ParseFullSound(t: string)
    requires ParseFull(t).Some?
    ensures exists dp, zero :: t == RenderFull(ParseFull(t).value, dp, zero)
  {
    DayMonthSound(t);
    var f := DayMonth(t).value;
    var dp, zero :| t == DayText(f.day, dp) + "." + (MonthText(f.month, zero) + "." + f.rest);
    YearFieldSound(f.rest);
    assert t == RenderFull(ParseFull(t).value, dp, zero);
  }

  /** Every rendering of a valid date in the full form reads back as that date. */
  lemma ParseFullOfRender(d: Date, dp: Pad, zero: bool)
    requires ValidDate(d)
    ensures ParseFull(RenderFull(d, dp, zero)) == Some(d)
  {
    DayMonthOf(d.day, d.month, dp, zero, Pad4(d.year));
    YearFieldOfPad4(d.year);
  }

  /**
   * The year-less format accepts exactly "D.M." for a day and month that exist in the
   * current year, and dates it in that year.
   */
  lemma ParseShortExact(t: string, year: int, d: Date)
    ensures ParseShort(t, year) == Some(d) <==>
              ValidDate(d) && d.year == year && exists dp, zero :: t == RenderShort(d.day, d.month, dp, zero)
  {
    if ParseShort(t, year) == Some(d) {
      DayMonthSound(t);
      var f := DayMonth(t).value;
      var dp, zero :| t == DayText(f.day, dp) + "." + (MonthText(f.month, zero) + "." + f.rest);
      assert t == RenderShort(d.day, d.month, dp, zero);
    }
    if ValidDate(d) && d.year == year && exists dp, zero :: t == RenderShort(d.day, d.month, dp, zero) {
      var dp, zero :| t == RenderShort(d.day, d.month, dp, zero);
      ParseShortOfRender(d.day, d.month, dp, zero, year);
    }
  }

  /** Every rendering of a day and month that exist in `year` reads back as that date. */
  lemma ParseShortOfRender(day: int, month: int, dp: Pad, zero: bool, year: int)
    requires ValidDate(Date(year, month, day))
    ensures ParseShort(RenderShort(day, month, dp, zero), year) == Some(Date(year, month, day))
  {
    DayMonthOf(day, month, dp, zero, "");
  }

  /** The code as written and the intended year-less parse differ on leap days only. */
  lemma ShortAsWrittenDiffersOnLeapDayOnly(t: string, year: int)
    ensures ParseShort(t, year) != ParseShortAsWritten(t, year) <==>
              ParseShort(t, year).Some? && ParseShort(t, year).value.month == 2 && ParseShort(t, year).value.day == 29
  {
  }

  /**
   * The leap day of a leap year, written without a year as the site does, is rejected
   * by the code as written (so the download raises) and accepted by the intended parse.
   */
  lemma {:induction false} LeapDayRejectedAsWritten(prefix: string, year: int)
    requires 1 <= year <= 9999 && IsLeap(year)
    ensures Normalise(prefix + " " + "29.2.", year) == None
    ensures NormaliseCorrected(prefix + " " + "29.2.", year) == Some(Date(year, 2, 29))
    ensures ParseShortAsWritten(LastToken(prefix + " " + "29.2."), year) == None
    ensures ParseFull(LastToken(prefix + " " + "29.2.")) == None
  {
    var t := "29.2.";
    LastTokenAfterSpace(prefix, t);
    assert LastToken(prefix + " " + "29.2.") == t;
    LeapDayToken();
    assert DaysInMonth(year, 2) == 29;
    assert ParseShort(t, year) == Some(Date(year, 2, 29));
    NotLeap1900();
    assert DaysInMonth(1900, 2) == 28;
    assert ParseShortAsWritten(t, year) == None;
  }

  /** The token "29.2." reads as day 29 of February with nothing after, and has no year. */
  lemma LeapDayToken()
    ensures DayMonth("29.2.") == Some(Fields(29, 2, ""))
    ensures ParseFull("29.2.") == None
  {
    assert DayText(29, Plain) == "29";
    assert MonthText(2, false) == "2";
    assert "29.2." == DayText(29, Plain) + "." + (MonthText(2, false) + "." + "");
    DayMonthOf(29, 2, Plain, false, "");
    assert YearField("") == None;
  }

  /** A year-less token is never read as a full date. */
  lemma ShortIsNotFull(day: int, month: int, dp: Pad, zero: bool)
    requires 1 <= day <= 31 && 1 <= month <= 12
    ensures ParseFull(RenderShort(day, month, dp, zero)) == None
  {
    DayMonthOf(day, month, dp, zero, "");
    assert YearField("") == None;
  }

  /**
   * The year-less form as written reads exactly the renderings of a day and month of the
   * current year, except 29 February.
   */
  lemma ParseShortAsWrittenExact(t: string, year: int, d: Date)
    ensures ParseShortAsWritten(t, year) == Some(d) <==>
              && ValidDate(d) && d.year == year && !(d.month == 2 && d.day == 29)
              && exists dp, zero :: t == RenderShort(d.day, d.month, dp, zero)
  {
    ParseShortExact(t, year, d);
    ShortAsWrittenDiffersOnLeapDayOnly(t, year);
  }

  /**
   * What `download_comic` reads from a date text: the last space-separated word, parsed
   * in the full form when it is one, otherwise as day and month of the current year,
   * never as 29 February.
   */
  lemma NormaliseExact(text: string, year: int, d: Date)
    ensures Normalise(text, year) == Some(d) <==>
              ValidDate(d) &&
              ((exists dp, zero :: LastToken(text) == RenderFull(d, dp, zero)) ||
               (d.year == year && !(d.month == 2 && d.day == 29) &&
                exists dp, zero :: LastToken(text) == RenderShort(d.day, d.month, dp, zero)))
  {
    var t := LastToken(text);
    ParseFullExact(t, d);
    if ParseFull(t).Some? {
      FullTokenNotShort(t, d);
    } else {
      ParseShortAsWrittenExact(t, year, d);
    }
  }

  /** With the intended year-less parse, 29 February of a leap year is read too. */
  lemma NormaliseCorrectedExact(text: string, year: int, d: Date)
    ensures NormaliseCorrected(text, year) == Some(d) <==>
              ValidDate(d) &&
              ((exists dp, zero :: LastToken(text) == RenderFull(d, dp, zero)) ||
               (d.year == year && exists dp, zero :: LastToken(text) == RenderShort(d.day, d.month, dp, zero)))
  {
    var t := LastToken(text);
    ParseFullExact(t, d);
    if ParseFull(t).Some? {
      FullTokenNotShort(t, d);
    } else {
      ParseShortExact(t, year, d);
    }
  }

  /** A token read in the full form is not a rendering of a year-less date. */
  lemma FullTokenNotShort(t: string, d: Date)
    requires ParseFull(t).Some?
    ensures forall dp, zero :: ValidDate(d) ==> t != RenderShort(d.day, d.month, dp, zero)
  {
    forall dp, zero | ValidDate(d)
      ensures t != RenderShort(d.day, d.month, dp, zero)
    {
      ShortIsNotFull(d.day, d.month, dp, zero);
    }
  }

  /** A token in the full form yields exactly the date written, wherever it sits. */
  lemma NormaliseFullForm(prefix: string, d: Date, dp: Pad, zero: bool, year: int)
    requires ValidDate(d) && dp != Space
    ensures Normalise(prefix + " " + RenderFull(d, dp, zero), year) == Some(d)
  {
    var t := RenderFull(d, dp, zero);
    assert ' ' !in t by {
      assert ' ' !in DayText(d.day, dp);
      assert ' ' !in Pad4(d.year);
    }
    LastTokenAfterSpace(prefix, t);
    ParseFullExact(t, d);
  }

  /**
   * A year-less token yields that day and month of the current year, except that the
   * code as written raises on 29 February.
   */
  lemma {:induction false} NormaliseShortForm(prefix: string, day: int, month: int, dp: Pad, zero: bool, year: int)
    requires ValidDate(Date(year, month, day)) && dp != Space
    ensures Normalise(prefix + " " + RenderShort(day, month, dp, zero), year)
              == if month == 2 && day == 29 then None else Some(Date(year, month, day))
  {
    var t := RenderShort(day, month, dp, zero);
    assert ' ' !in t by {
      assert ' ' !in DayText(day, dp);
    }
    LastTokenAfterSpace(prefix, t);
    ShortIsNotFull(day, month, dp, zero);
    ParseShortOfRender(day, month, dp, zero, year);
    ShortAsWrittenDiffersOnLeapDayOnly(t, year);
  }

  /** With the intended parse, a year-less token yields that day and month of the current year. */
  lemma {:induction false} NormaliseCorrectedShortForm(prefix: string, day: int, month: int, dp: Pad, zero: bool, year: int)
    requires ValidDate(Date(year, month, day)) && dp != Space
    ensures NormaliseCorrected(prefix + " " + RenderShort(day, month, dp, zero), year) == Some(Date(year, month, day))
  {
    var t := RenderShort(day, month, dp, zero);
    assert ' ' !in t by {
      assert ' ' !in DayText(day, dp);
    }
    LastTokenAfterSpace(prefix, t);
    ShortIsNotFull(day, month, dp, zero);
    ParseShortOfRender(day, month, dp, zero, year);
  }

  /** "ti 5.3." read in 2024 is 5 March 2024. */
  lemma FifthOfMarchExample()
    ensures Normalise("ti 5.3.", 2024) == Some(Date(2024, 3, 5))
  {
    assert RenderShort(5, 3, Plain, false) == "5.3.";
    assert "ti 5.3." == "ti" + " " + "5.3.";
    NormaliseShortForm("ti", 5, 3, Plain, false, 2024);
  }

  /** 5 March 2024 is stored as "2024-03-05". */
  lemma FormatExample()
    ensures Format(Date(2024, 3, 5)) == "2024-03-05"
  {
    DivModUnique(2024, 100, 20, 24);
    DivModUnique(20, 10, 2, 0);
    DivModUnique(24, 10, 2, 4);
    DivModUnique(3, 10, 0, 3);
    DivModUnique(5, 10, 0, 5);
    assert Pad2(20) == "20" && Pad2(24) == "24" && Pad2(3) == "03" && Pad2(5) == "05";
    assert Pad4(2024) == "2024";
  }
}
