/**
 * Calendar dates as Python's `datetime.date` knows them, the two
 * `datetime.strptime` formats the pipeline uses ("%d/%m/%Y" for the TSV
 * columns, "%Y-%m-%d" for the stored text) and `date.isoformat()`.
 *
 * `strptime` matches `%m` against one or two digits, `%d` against one or two
 * digits or a space followed by a digit 1-9, and `%Y` against exactly four
 * digits; it requires the whole string to be consumed, and then rejects a day
 * that the month does not have (leap years included) or a year below 1.
 * In "%d/%m/%Y" the day comes first, so on stripped text the spaced day
 * cannot occur.
 */
module Dates {
  import opened Base
  import opened Text

  datatype Date = Date(year: int, month: int, day: int)

  predicate IsLeapYear(y: int)
  {
    y % 4 == 0 && (y % 100 != 0 || y % 400 == 0)
  }

  function DaysInMonth(y: int, m: int): int
    requires 1 <= m <= 12
  {
    if m == 2 then (if IsLeapYear(y) then 29 else 28)
    else if m == 4 || m == 6 || m == 9 || m == 11 then 30
    else 31
  }

  /** What `datetime.date` accepts: years 1 to 9999 and a day the month has. */
  predicate ValidDate(d: Date)
  {
    1 <= d.year <= 9999 && 1 <= d.month <= 12 && 1 <= d.day <= DaysInMonth(d.year, d.month)
  }

  /** Chronological order. */
  predicate DateLt(a: Date, b: Date)
  {
    a.year < b.year
    || (a.year == b.year && (a.month < b.month || (a.month == b.month && a.day < b.day)))
  }

  // ---------------------------------------------------------------------------
  // Splitting a string into three digit fields
  // ---------------------------------------------------------------------------

  /**
   * The values of `s` read as `t1 sep t2 sep t3`, where the fields have
   * widths `w1`, `w2`, `w3` and consist of decimal digits only.
   */
  function Fields(s: string, sep: char, w1: nat, w2: nat, w3: nat): Option<(nat, nat, nat)>
  {
    if |s| == w1 + w2 + w3 + 2 && s[w1] == sep && s[w1 + 1 + w2] == sep
       && AllDigits(s[..w1]) && AllDigits(s[w1 + 1..w1 + 1 + w2]) && AllDigits(s[w1 + w2 + 2..])
    then Some((Value(s[..w1]), Value(s[w1 + 1..w1 + 1 + w2]), Value(s[w1 + w2 + 2..])))
    else None
  }

  /** Digit fields joined by a non-digit separator split back into those fields. */
  lemma FieldsOfJoin(t1: string, t2: string, t3: string, sep: char)
    requires AllDigits(t1) && AllDigits(t2) && AllDigits(t3) && !IsDigit(sep)
    ensures Fields(t1 + [sep] + t2 + [sep] + t3, sep, |t1|, |t2|, |t3|)
         == Some((Value(t1), Value(t2), Value(t3)))
  {
    JoinSlices(t1, t2, t3, sep);
  }

  lemma JoinSlices(t1: string, t2: string, t3: string, sep: char)
    ensures var s := t1 + [sep] + t2 + [sep] + t3;
            |s| == |t1| + |t2| + |t3| + 2 && s[|t1|] == sep && s[|t1| + 1 + |t2|] == sep
            && s[..|t1|] == t1 && s[|t1| + 1..|t1| + 1 + |t2|] == t2 && s[|t1| + |t2| + 2..] == t3
  {
    var s := t1 + [sep] + t2 + [sep] + t3;
    assert s[..|t1|] == t1;
    assert s[|t1| + 1..|t1| + 1 + |t2|] == t2;
    assert s[|t1| + |t2| + 2..] == t3;
  }

  /**
   * Since digits are never separators, a string splits into three digit
   * fields in at most one way.
   */
  lemma FieldsUnique(s: string, sep: char, a: nat, b: nat, c: nat, a': nat, b': nat, c': nat)
    requires !IsDigit(sep)
    requires Fields(s, sep, a, b, c).Some? && Fields(s, sep, a', b', c').Some?
    ensures a == a' && b == b' && c == c'
  {
  }

  function FirstSome<T>(x: Option<T>, y: Option<T>): Option<T>
  {
    if x.Some? then x else y
  }

  lemma FirstSomeFirst<T>(x: Option<T>, y: Option<T>)
    requires x.Some?
    ensures FirstSome(x, y) == x
  {
  }

  function Checked(d: Date): Option<Date>
  {
    if ValidDate(d) then Some(d) else None
  }

  // ---------------------------------------------------------------------------
  // strptime(s, "%d/%m/%Y")
  // ---------------------------------------------------------------------------

  function DmyWith(s: string, dw: nat, mw: nat): Option<Date>
  {
    match Fields(s, '/', dw, mw, 4)
    case Some((d, m, y)) => Checked(Date(y, m, d))
    case None => None
  }

  /** `datetime.strptime(s, "%d/%m/%Y")`, `None` where Python raises `ValueError`. */
  function ParseDmy(s: string): (r: Option<Date>)
    ensures r.Some? ==> ValidDate(r.value)
  {
    FirstSome(DmyWith(s, 2, 2), FirstSome(DmyWith(s, 2, 1), FirstSome(DmyWith(s, 1, 2), DmyWith(s, 1, 1))))
  }

  /** Width of a day or month field: two digits when padded or when the number needs them. */
  function FieldWidth(n: nat, padded: bool): nat
  {
    if padded || n >= 10 then 2 else 1
  }

  /** A DD/MM/YYYY spelling of `d`, with or without a leading zero on day and month. */
  function DmySpelling(d: Date, padDay: bool, padMonth: bool): string
    requires ValidDate(d)
  {
    Fixed(d.day, FieldWidth(d.day, padDay)) + "/" + Fixed(d.month, FieldWidth(d.month, padMonth))
    + "/" + Fixed(d.year, 4)
  }

  lemma DmyWithSome(s: string, dw: nat, mw: nat)
    requires DmyWith(s, dw, mw).Some?
    ensures Fields(s, '/', dw, mw, 4).Some?
  {
  }

  /** The alternative of ParseDmy with widths (dw', mw') fails unless they are the widths `s` has. */
  lemma DmyWithOnly(s: string, dw: nat, mw: nat, dw': nat, mw': nat)
    requires Fields(s, '/', dw, mw, 4).Some?
    ensures DmyWith(s, dw', mw').Some? ==> dw' == dw && mw' == mw
  {
    if DmyWith(s, dw', mw').Some? {
      DmyWithSome(s, dw', mw');
      FieldsUnique(s, '/', dw, mw, 4, dw', mw', 4);
    }
  }

  /** ParseDmy takes the one alternative whose separators fit `s`. */
  lemma ParseDmyPicks(s: string, dw: nat, mw: nat)
    requires 1 <= dw <= 2 && 1 <= mw <= 2
    requires Fields(s, '/', dw, mw, 4).Some?
    ensures ParseDmy(s) == DmyWith(s, dw, mw)
  {
    DmyWithOnly(s, dw, mw, 2, 2);
    DmyWithOnly(s, dw, mw, 2, 1);
    DmyWithOnly(s, dw, mw, 1, 2);
    DmyWithOnly(s, dw, mw, 1, 1);
  }

  /** Digit fields of the right widths joined by slashes parse as that day, month and year. */
  lemma ParseDmyOfJoin(t1: string, t2: string, t3: string)
    requires AllDigits(t1) && AllDigits(t2) && AllDigits(t3)
    requires 1 <= |t1| <= 2 && 1 <= |t2| <= 2 && |t3| == 4
    ensures ParseDmy(t1 + "/" + t2 + "/" + t3) == Checked(Date(Value(t3), Value(t2), Value(t1)))
  {
    FieldsOfJoin(t1, t2, t3, '/');
    ParseDmyPicks(t1 + "/" + t2 + "/" + t3, |t1|, |t2|);
  }

  /** Each DD/MM/YYYY spelling of a real date parses back to that date. */
  lemma ParseDmyAccepts(d: Date, pd: bool, pm: bool)
    requires ValidDate(d)
    ensures ParseDmy(DmySpelling(d, pd, pm)) == Some(d)
  {
    var dw, mw := FieldWidth(d.day, pd), FieldWidth(d.month, pm);
    ValueOfFixed(d.day, dw);
    ValueOfFixed(d.month, mw);
    ValueOfFixed(d.year, 4);
    ParseDmyOfJoin(Fixed(d.day, dw), Fixed(d.month, mw), Fixed(d.year, 4));
  }

  /** A string that splits into three digit fields is their zero-padded spellings joined by the separator. */
  lemma FieldsSpelled(s: string, sep: char, w1: nat, w2: nat, w3: nat)
    requires Fields(s, sep, w1, w2, w3).Some?
    ensures var (v1, v2, v3) := Fields(s, sep, w1, w2, w3).value;
            s == Fixed(v1, w1) + [sep] + Fixed(v2, w2) + [sep] + Fixed(v3, w3)
            && (w1 == 1 ==> v1 < 10) && (w2 == 1 ==> v2 < 10) && (w3 == 1 ==> v3 < 10)
  {
    var t1, t2, t3 := s[..w1], s[w1 + 1..w1 + 1 + w2], s[w1 + w2 + 2..];
    assert s == t1 + [sep] + t2 + [sep] + t3;
    FixedOfValue(t1);
    FixedOfValue(t2);
    FixedOfValue(t3);
    if w1 == 1 {
      assert t1[..0] == [];
    }
    if w2 == 1 {
      assert t2[..0] == [];
    }
    if w3 == 1 {
      assert t3[..0] == [];
    }
  }

  /** A string the (dw, mw) alternative accepts is the matching spelling of its date. */
  lemma DmyWithSpelled(s: string, dw: nat, mw: nat, d: Date)
    requires 1 <= dw <= 2 && 1 <= mw <= 2
    requires DmyWith(s, dw, mw) == Some(d)
    ensures ValidDate(d) && s == DmySpelling(d, dw == 2, mw == 2)
  {
    FieldsSpelled(s, '/', dw, mw, 4);
    assert FieldWidth(d.day, dw == 2) == dw;
    assert FieldWidth(d.month, mw == 2) == mw;
  }

  /**
   * `strptime(s, "%d/%m/%Y")` succeeds with `d` exactly when `d` is a real
   * date and `s` spells it as day/month/four-digit year, each of day and
   * month with or without a leading zero.
   */
  lemma ParseDmySpec(s: string, d: Date)
    ensures ParseDmy(s) == Some(d)
        <==> ValidDate(d) && exists pd: bool, pm: bool :: s == DmySpelling(d, pd, pm)
  {
    if ParseDmy(s) == Some(d) {
      if DmyWith(s, 2, 2) == Some(d) {
        DmyWithSpelled(s, 2, 2, d);
      } else if DmyWith(s, 2, 1) == Some(d) {
        DmyWithSpelled(s, 2, 1, d);
      } else if DmyWith(s, 1, 2) == Some(d) {
        DmyWithSpelled(s, 1, 2, d);
      } else {
        DmyWithSpelled(s, 1, 1, d);
      }
    }
    if ValidDate(d) && exists pd: bool, pm: bool :: s == DmySpelling(d, pd, pm) {
      var pd: bool, pm: bool :| s == DmySpelling(d, pd, pm);
      ParseDmyAccepts(d, pd, pm);
    }
  }

  // ---------------------------------------------------------------------------
  // strptime(s, "%Y-%m-%d") and date.isoformat()
  // ---------------------------------------------------------------------------

  function IsoWith(s: string, mw: nat, dw: nat): Option<Date>
  {
    match Fields(s, '-', 4, mw, dw)
    case Some((y, m, d)) => Checked(Date(y, m, d))
    case None => None
  }

  /** The day written as a space and a digit 1-9, read as that digit zero-padded. */
  function IsoSpacedDay(s: string, mw: nat): Option<Date>
  {
    if |s| >= 2 && s[|s| - 2] == ' ' && '1' <= s[|s| - 1] <= '9'
    then IsoWith(s[..|s| - 2] + ['0', s[|s| - 1]], mw, 2)
    else None
  }

  /** `datetime.strptime(s, "%Y-%m-%d").date()`, `None` where Python raises `ValueError`. */
  function ParseIso(s: string): (r: Option<Date>)
    ensures r.Some? ==> ValidDate(r.value)
  {
    FirstSome(IsoWith(s, 2, 2),
      FirstSome(IsoWith(s, 2, 1), FirstSome(IsoWith(s, 1, 2), FirstSome(IsoWith(s, 1, 1),
        FirstSome(IsoSpacedDay(s, 2), IsoSpacedDay(s, 1))))))
  }

  /** `date.isoformat()`: YYYY-MM-DD with zero padding. */
  function IsoFormat(d: Date): (r: string)
    requires ValidDate(d)
    ensures |r| == 10 && r[4] == '-' && r[7] == '-'
  {
    Fixed(d.year, 4) + "-" + Fixed(d.month, 2) + "-" + Fixed(d.day, 2)
  }

  lemma IsoFieldsOfFixed(y: nat, m: nat, d: nat)
    requires y < 10000 && m < 100 && d < 100
    ensures Fields(Fixed(y, 4) + "-" + Fixed(m, 2) + "-" + Fixed(d, 2), '-', 4, 2, 2) == Some((y, m, d))
  {
    ValueOfFixed(y, 4);
    ValueOfFixed(m, 2);
    ValueOfFixed(d, 2);
    FieldsOfJoin(Fixed(y, 4), Fixed(m, 2), Fixed(d, 2), '-');
  }

  lemma IsoWithOfFormat(d: Date)
    requires ValidDate(d)
    ensures IsoWith(IsoFormat(d), 2, 2) == Some(d)
  {
    IsoFieldsOfFixed(d.year, d.month, d.day);
  }

  /** The ISO text a date is stored as parses back to the same date. */
  lemma IsoRoundTrip(d: Date)
    requires ValidDate(d)
    ensures ParseIso(IsoFormat(d)) == Some(d)
  {
    var s := IsoFormat(d);
    IsoWithOfFormat(d);
    FirstSomeFirst(IsoWith(s, 2, 2),
      FirstSome(IsoWith(s, 2, 1), FirstSome(IsoWith(s, 1, 2), FirstSome(IsoWith(s, 1, 1),
        FirstSome(IsoSpacedDay(s, 2), IsoSpacedDay(s, 1))))));
  }

  /** A day written as a space and a digit is accepted: "2026-01- 5" is the 5th of January 2026. */
  lemma ParseIsoSpacedDay()
    ensures ParseIso("2026-01- 5") == Some(Date(2026, 1, 5))
  {
    var s := "2026-01- 5";
    assert !AllDigits(s[8..]) by { assert s[8..][0] == ' '; }
    assert IsoWith(s, 2, 2).None?;
    var t := s[..|s| - 2] + ['0', s[|s| - 1]];
    assert t == "2026" + "-" + "01" + "-" + "05";
    FieldsOfJoin("2026", "01", "05", '-');
    assert Value("2") == 2 by { assert "2"[..0] == []; }
    assert Value("20") == 20 by { assert "20"[..1] == "2"; }
    assert Value("202") == 202 by { assert "202"[..2] == "20"; }
    assert Value("2026") == 2026 by { assert "2026"[..3] == "202"; }
    assert Value("0") == 0 by { assert "0"[..0] == []; }
    assert Value("01") == 1 by { assert "01"[..1] == "0"; }
    assert Value("05") == 5 by { assert "05"[..1] == "0"; }
    assert ValidDate(Date(2026, 1, 5));
    assert IsoSpacedDay(s, 2) == Some(Date(2026, 1, 5));
  }

  /** How `%d` may write a day: zero-padded, without the zero, or a space and one digit. */
  datatype DayStyle = Padded | Unpadded | Spaced

  /** The day as `%d` reads it in the given style; a day of 10 or more is always two digits. */
  function IsoDayText(day: nat, style: DayStyle): string
    requires day < 100
  {
    if style.Spaced? && day < 10 then [' ', DigitChar(day)]
    else Fixed(day, FieldWidth(day, style.Padded?))
  }

  /** A YYYY-MM-DD spelling of `d`, the month with or without its leading zero. */
  function IsoSpelling(d: Date, padMonth: bool, style: DayStyle): string
    requires ValidDate(d)
  {
    Fixed(d.year, 4) + "-" + Fixed(d.month, FieldWidth(d.month, padMonth)) + "-" + IsoDayText(d.day, style)
  }

  /** Three digit fields end in two digits or in a separator and a digit, never in a space. */
  lemma FieldsEnd(s: string, sep: char, w1: nat, w2: nat, w3: nat)
    requires sep != ' ' && 1 <= w3 <= 2
    requires Fields(s, sep, w1, w2, w3).Some?
    ensures s[|s| - 2] != ' '
  {
    if w3 == 2 {
      assert s[w1 + w2 + 2..][0] == s[|s| - 2];
    }
  }

  /** ParseIso takes the one digit alternative whose separators fit `s`. */
  lemma ParseIsoPicks(s: string, mw: nat, dw: nat)
    requires 1 <= mw <= 2 && 1 <= dw <= 2
    requires Fields(s, '-', 4, mw, dw).Some?
    ensures ParseIso(s) == IsoWith(s, mw, dw)
  {
    FieldsEnd(s, '-', 4, mw, dw);
    assert IsoSpacedDay(s, 2).None? && IsoSpacedDay(s, 1).None?;
    forall mw': nat, dw': nat | IsoWith(s, mw', dw').Some?
      ensures mw' == mw && dw' == dw
    {
      FieldsUnique(s, '-', 4, mw, dw, 4, mw', dw');
    }
  }

  /** The alternative of ParseIso with widths (mw', dw') fails unless they are the widths `s` has. */
  lemma IsoWithOnly(s: string, mw: nat, dw: nat, mw': nat, dw': nat)
    requires Fields(s, '-', 4, mw, dw).Some?
    ensures IsoWith(s, mw', dw').Some? ==> mw' == mw && dw' == dw
  {
    if IsoWith(s, mw', dw').Some? {
      FieldsUnique(s, '-', 4, mw, dw, 4, mw', dw');
    }
  }

  /** The digit spellings of a real date are accepted by the alternative of their widths. */
  lemma IsoWithOfSpelling(d: Date, pm: bool, style: DayStyle)
    requires ValidDate(d) && !(style.Spaced? && d.day < 10)
    ensures var mw, dw := FieldWidth(d.month, pm), FieldWidth(d.day, style.Padded?);
            Fields(IsoSpelling(d, pm, style), '-', 4, mw, dw).Some?
            && IsoWith(IsoSpelling(d, pm, style), mw, dw) == Some(d)
  {
    var mw, dw := FieldWidth(d.month, pm), FieldWidth(d.day, style.Padded?);
    ValueOfFixed(d.year, 4);
    ValueOfFixed(d.month, mw);
    ValueOfFixed(d.day, dw);
    FieldsOfJoin(Fixed(d.year, 4), Fixed(d.month, mw), Fixed(d.day, dw), '-');
  }

  /** A text an alternative of digit fields accepts is the matching spelling of its date. */
  lemma IsoWithSpelled(s: string, mw: nat, dw: nat, d: Date)
    requires 1 <= mw <= 2 && 1 <= dw <= 2
    requires IsoWith(s, mw, dw) == Some(d)
    ensures ValidDate(d) && s == IsoSpelling(d, mw == 2, if dw == 2 then Padded else Unpadded)
  {
    var (y, m, dd) := Fields(s, '-', 4, mw, dw).value;
    assert d == Date(y, m, dd);
    FieldsSpelled(s, '-', 4, mw, dw);
    var head := Fixed(y, 4) + "-" + Fixed(m, mw) + "-";
    assert s == head + Fixed(dd, dw);
    assert FieldWidth(m, mw == 2) == mw;
    assert head == Fixed(d.year, 4) + "-" + Fixed(d.month, FieldWidth(d.month, mw == 2)) + "-";
    if dw == 2 {
      assert IsoDayText(dd, Padded) == Fixed(dd, 2);
    } else {
      assert dd < 10;
      assert IsoDayText(dd, Unpadded) == Fixed(dd, 1);
    }
  }

  /** A two-digit field that starts with `0` is the padded spelling of one digit. */
  lemma FixedZeroDigit(n: nat, c: char)
    requires n < 100 && IsDigit(c) && Fixed(n, 2) == ['0', c]
    ensures n < 10 && c == DigitChar(n)
  {
    ValueOfFixed(n, 2);
    assert ['0', c][..1] == ['0'] && ['0'][..0] == [];
  }

  /** A text the spaced-day alternative accepts is the spaced spelling of its date. */
  lemma IsoSpacedSpelled(s: string, mw: nat, d: Date)
    requires 1 <= mw <= 2
    requires IsoSpacedDay(s, mw) == Some(d)
    ensures ValidDate(d) && d.day < 10 && s == IsoSpelling(d, mw == 2, Spaced)
  {
    var c := s[|s| - 1];
    var t := s[..|s| - 2] + ['0', c];
    IsoWithSpelled(t, mw, 2, d);
    var head := Fixed(d.year, 4) + "-" + Fixed(d.month, FieldWidth(d.month, mw == 2)) + "-";
    assert t == head + Fixed(d.day, 2);
    assert t[|t| - 2..] == Fixed(d.day, 2) && t[|t| - 2..] == ['0', c];
    FixedZeroDigit(d.day, c);
    assert s[..|s| - 2] == t[..|t| - 2] == head;
    assert s == s[..|s| - 2] + [' ', c];
  }

  /** Every spelling of a real date that `%Y-%m-%d` allows parses back to that date. */
  lemma ParseIsoAccepts(d: Date, pm: bool, style: DayStyle)
    requires ValidDate(d)
    ensures ParseIso(IsoSpelling(d, pm, style)) == Some(d)
  {
    var s := IsoSpelling(d, pm, style);
    var mw := FieldWidth(d.month, pm);
    if style.Spaced? && d.day < 10 {
      var head := Fixed(d.year, 4) + "-" + Fixed(d.month, mw) + "-";
      var c := DigitChar(d.day);
      assert s == head + [' ', c];
      forall mw': nat, dw': nat | 1 <= dw' <= 2
        ensures IsoWith(s, mw', dw').None?
      {
        if Fields(s, '-', 4, mw', dw').Some? {
          FieldsEnd(s, '-', 4, mw', dw');
        }
      }
      var t := s[..|s| - 2] + ['0', c];
      assert Fixed(d.day, 2) == Fixed(0, 1) + [c] == ['0', c];
      assert t == IsoSpelling(d, pm, Padded);
      IsoWithOfSpelling(d, pm, Padded);
      assert IsoSpacedDay(s, mw) == Some(d);
      IsoWithOnly(t, mw, 2, 2, 2);
    } else {
      IsoWithOfSpelling(d, pm, style);
      ParseIsoPicks(s, mw, FieldWidth(d.day, style.Padded?));
    }
  }

  /**
   * `strptime(s, "%Y-%m-%d")` succeeds with `d` exactly when `d` is a real
   * date and `s` spells it as a four-digit year, a month with or without its
   * leading zero and a day zero-padded, unpadded or written as a space and a
   * digit, joined by dashes.
   */
  lemma ParseIsoSpec(s: string, d: Date)
    ensures ParseIso(s) == Some(d)
        <==> ValidDate(d) && exists pm: bool, style: DayStyle :: s == IsoSpelling(d, pm, style)
  {
    if ParseIso(s) == Some(d) {
      if IsoWith(s, 2, 2) == Some(d) {
        IsoWithSpelled(s, 2, 2, d);
      } else if IsoWith(s, 2, 1) == Some(d) {
        IsoWithSpelled(s, 2, 1, d);
      } else if IsoWith(s, 1, 2) == Some(d) {
        IsoWithSpelled(s, 1, 2, d);
      } else if IsoWith(s, 1, 1) == Some(d) {
        IsoWithSpelled(s, 1, 1, d);
      } else if IsoSpacedDay(s, 2) == Some(d) {
        IsoSpacedSpelled(s, 2, d);
      } else {
        IsoSpacedSpelled(s, 1, d);
      }
    }
    if ValidDate(d) && exists pm: bool, style: DayStyle :: s == IsoSpelling(d, pm, style) {
      var pm: bool, style: DayStyle :| s == IsoSpelling(d, pm, style);
      ParseIsoAccepts(d, pm, style);
    }
  }

  // ---------------------------------------------------------------------------
  // Text order of ISO dates
  // ---------------------------------------------------------------------------

  /** Comparing equal-length heads first: the order of `a + b` against `a' + b'`. */
  lemma {:induction false} StrLtConcat(a: string, b: string, a': string, b': string)
    requires |a| == |a'|
    ensures StrLt(a + b, a' + b') <==> StrLt(a, a') || (a == a' && StrLt(b, b'))
    decreases |a|
  {
    if a == [] {
      assert a + b == b && a' + b' == b';
    } else {
      assert (a + b)[1..] == a[1..] + b && (a' + b')[1..] == a'[1..] + b';
      StrLtConcat(a[1..], b, a'[1..], b');
      if a[0] == a'[0] && a[1..] == a'[1..] {
        assert a == [a[0]] + a[1..] && a' == [a'[0]] + a'[1..];
      }
    }
  }

  /** Zero-padded fields of one width sort as the numbers they spell. */
  lemma {:induction false} FixedOrder(m: nat, n: nat, w: nat)
    requires m < Pow10(w) && n < Pow10(w)
    ensures StrLt(Fixed(m, w), Fixed(n, w)) <==> m < n
  {
    if w == 0 {
    } else {
      var hm, hn := Fixed(m / 10, w - 1), Fixed(n / 10, w - 1);
      var cm, cn := [DigitChar(m % 10)], [DigitChar(n % 10)];
      StrLtConcat(hm, cm, hn, cn);
      FixedOrder(m / 10, n / 10, w - 1);
      ValueOfFixed(m / 10, w - 1);
      ValueOfFixed(n / 10, w - 1);
      assert hm == hn <==> m / 10 == n / 10;
      assert StrLt(cm, cn) <==> m % 10 < n % 10;
    }
  }

  /** Dash-joined fields of equal widths sort field by field, the first field first. */
  lemma DashJoinedOrder(ya: string, ma: string, da: string, yb: string, mb: string, db: string)
    requires |ya| == |yb| && |ma| == |mb|
    ensures StrLt(ya + "-" + ma + "-" + da, yb + "-" + mb + "-" + db)
            <==> StrLt(ya, yb) || (ya == yb && (StrLt(ma, mb) || (ma == mb && StrLt(da, db))))
  {
    assert ya + "-" + ma + "-" + da == ya + ("-" + (ma + ("-" + da)));
    assert yb + "-" + mb + "-" + db == yb + ("-" + (mb + ("-" + db)));
    StrLtConcat(ya, "-" + (ma + ("-" + da)), yb, "-" + (mb + ("-" + db)));
    StrLtConcat("-", ma + ("-" + da), "-", mb + ("-" + db));
    StrLtConcat(ma, "-" + da, mb, "-" + db);
    StrLtConcat("-", da, "-", db);
    StrLtIrreflexive("-");
  }

  /** Zero-padded year-month-day text sorts as the numbers do, year first. */
  lemma FixedTripleOrder(y: nat, m: nat, d: nat, y': nat, m': nat, d': nat)
    requires y < 10000 && y' < 10000 && m < 100 && m' < 100 && d < 100 && d' < 100
    ensures StrLt(Fixed(y, 4) + "-" + Fixed(m, 2) + "-" + Fixed(d, 2), Fixed(y', 4) + "-" + Fixed(m', 2) + "-" + Fixed(d', 2))
            <==> y < y' || (y == y' && (m < m' || (m == m' && d < d')))
  {
    DashJoinedOrder(Fixed(y, 4), Fixed(m, 2), Fixed(d, 2), Fixed(y', 4), Fixed(m', 2), Fixed(d', 2));
    FixedOrder(y, y', 4);
    FixedOrder(m, m', 2);
    FixedOrder(d, d', 2);
    ValueOfFixed(y, 4);
    ValueOfFixed(y', 4);
    ValueOfFixed(m, 2);
    ValueOfFixed(m', 2);
  }

  /**
   * ISO text sorts chronologically, so ordering the stored `deadline_date`
   * text orders the deadlines by date.
   */
  lemma IsoOrderIsChronological(a: Date, b: Date)
    requires ValidDate(a) && ValidDate(b)
    ensures StrLt(IsoFormat(a), IsoFormat(b)) <==> DateLt(a, b)
  {
    FixedTripleOrder(a.year, a.month, a.day, b.year, b.month, b.day);
  }
}
