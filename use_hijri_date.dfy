/** Today's date in the Hijri calendar: the Gregorian date's Julian day
    number, the tabular Islamic conversion of that day, the Arabic month
    name and Arabic-Indic numerals, and the special-month flags. */
module HijriDate {
  import opened JsValues
  import opened JsStrings

  const MonthNames: seq<string> := [
    "محرم", "صفر", "ربيع الأول", "ربيع الثاني",
    "جمادى الأولى", "جمادى الآخرة", "رجب", "شعبان",
    "رمضان", "شوال", "ذو القعدة", "ذو الحجة"
  ]

  // ---------------------------------------------------------------------
  // Arabic-Indic numerals

  /** The Arabic-Indic digit for `d` (U+0660 ... U+0669). */
  function ArabicDigit(d: int): (c: char)
    requires 0 <= d < 10
    ensures c as int == 0x0660 + d
  {
    (0x0660 + d) as char
  }

  function MapArabicDigits(s: string): (r: string)
    requires AllDigits(s)
    ensures |r| == |s|
    ensures forall i :: 0 <= i < |s| ==> r[i] == ArabicDigit(DigitValue(s[i]))
  {
    if s == [] then [] else [ArabicDigit(DigitValue(s[0]))] + MapArabicDigits(s[1..])
  }

  function Abs(n: int): nat {
    if n < 0 then -n else n
  }

  /** `toArabicNum(n)` for an integer: the decimal digits of `|n|`, each
      replaced by the Arabic-Indic digit of the same value; no sign. */
  function ToArabicNum(n: int): (r: string)
    ensures |r| == |DecimalString(Abs(n))| && |r| >= 1
    ensures forall i :: 0 <= i < |r| ==> 0x0660 <= r[i] as int <= 0x0669
    ensures forall i :: 0 <= i < |r| ==> r[i] == ArabicDigit(DigitValue(DecimalString(Abs(n))[i]))
    ensures '-' !in r
  {
    MapArabicDigits(DecimalString(Abs(n)))
  }

  /** Two numbers are written alike exactly when their magnitudes agree. */
  lemma ArabicNumInjective(a: int, b: int)
    ensures ToArabicNum(a) == ToArabicNum(b) <==> Abs(a) == Abs(b)
  {
    var sa := DecimalString(Abs(a));
    var sb := DecimalString(Abs(b));
    if ToArabicNum(a) == ToArabicNum(b) {
      assert |sa| == |sb|;
      forall i | 0 <= i < |sa| ensures sa[i] == sb[i] {
        assert ArabicDigit(DigitValue(sa[i])) == ArabicDigit(DigitValue(sb[i]));
        assert DigitChar(DigitValue(sa[i])) == sa[i];
        assert DigitChar(DigitValue(sb[i])) == sb[i];
      }
      assert sa == sb;
      DecimalStringInjective(Abs(a), Abs(b));
    }
  }

  // ---------------------------------------------------------------------
  // Julian day number

  /** The Julian day number as the hook computes it, with floor division
      throughout. `Math.floor((M - 14) / 12)` is -2 in January, -1 in
      February and -1 from March to December, where the integer formula
      needs -1, -1 and 0. */
  function JulianDayAsWritten(y: int, m: int, d: int): int {
    var a := (m - 14) / 12;
    (1461 * (y + 4800 + a)) / 4 + (367 * (m - 2 - 12 * a)) / 12
      - (3 * ((y + 4900 + a) / 100)) / 4 + d - 32075
  }

  /** As written, the first of February lies before the last of January. */
  lemma FebruaryBeforeJanuary(y: int)
    requires y == 2000
    ensures JulianDayAsWritten(y, 2, 1) < JulianDayAsWritten(y, 1, 31)
  {
    assert (2 - 14) / 12 == -1 && (1 - 14) / 12 == -2;
    assert (1461 * (y + 4800 - 1)) / 4 == 2483334;
    assert (1461 * (y + 4800 - 2)) / 4 == 2482969;
    assert (367 * (2 - 2 + 12)) / 12 == 367;
    assert (367 * (1 - 2 + 24)) / 12 == 703;
    assert (y + 4900 - 1) / 100 == 68 && (y + 4900 - 2) / 100 == 68;
    assert JulianDayAsWritten(y, 2, 1) == 2451576;
    assert JulianDayAsWritten(y, 1, 31) == 2451577;
  }

  /** As written, the end of February skips a day number: 29 February
      2000 is day 2451604 and 1 March 2000 is day 2451606. */
  lemma MarchSkipsADay(y: int)
    requires y == 2000
    ensures JulianDayAsWritten(y, 2, 29) == 2451604
    ensures JulianDayAsWritten(y, 3, 1) == 2451606
  {
    assert (2 - 14) / 12 == -1 && (3 - 14) / 12 == -1;
    assert (1461 * (y + 4800 - 1)) / 4 == 2483334;
    assert (367 * (3 - 2 + 12)) / 12 == 397;
    assert (y + 4900 - 1) / 100 == 68;
  }

  /** In 2000 every month but February is off: January by two days and
      March to December by one day each. */
  lemma AsWrittenOffsets(y: int, m: int, d: int)
    requires y == 2000 && 1 <= m <= 12
    ensures JulianDayAsWritten(y, m, d) == JulianDay(y, m, d) + (if m == 1 then 2 else if m == 2 then 0 else 1)
  {
    assert (1461 * (y + 4800 - 2)) / 4 == 2482969;
    assert (1461 * (y + 4800 - 1)) / 4 == 2483334;
    assert (1461 * (y + 4800)) / 4 == 2483700;
    if m == 1 {
      assert (m - 14) / 12 == -2 && TruncDiv(m - 14, 12) == -1;
    } else if m == 2 {
      assert (m - 14) / 12 == -1 && TruncDiv(m - 14, 12) == -1;
    } else {
      assert (m - 14) / 12 == -1 && TruncDiv(m - 14, 12) == 0;
      assert (367 * (m - 2 + 12)) / 12 == (367 * (m - 2)) / 12 + 367;
    }
  }

  /** The integer formula's quotient `(M - 14) / 12`, truncated toward
      zero: -1 in January and February, 0 after. */
  function MonthShift(m: int): (a: int)
    requires 1 <= m <= 12
    ensures a == if m <= 2 then -1 else 0
  {
    TruncDiv(m - 14, 12)
  }

  /** The Julian day number with the month term truncated toward zero, as
      the integer formula intends. */
  function JulianDay(y: int, m: int, d: int): int
    requires 1 <= m <= 12
  {
    var a := MonthShift(m);
    (1461 * (y + 4800 + a)) / 4 + (367 * (m - 2 - 12 * a)) / 12
      - (3 * ((y + 4900 + a) / 100)) / 4 + d - 32075
  }

  /** The Gregorian leap-year rule. */
  predicate Leap(y: int) {
    y % 4 == 0 && (y % 100 != 0 || y % 400 == 0)
  }

  function DaysInMonth(y: int, m: int): int
    requires 1 <= m <= 12
  {
    if m == 2 then (if Leap(y) then 29 else 28)
    else if m == 4 || m == 6 || m == 9 || m == 11 then 30
    else 31
  }

  /** Corrected, consecutive dates get consecutive day numbers: within a
      month, from the last day of a month to the first of the next (the
      end of February in leap and common years included), and from 31
      December to 1 January; 1 January 2000 is day 2451545. */
  lemma JulianDayConsecutive(y: int, m: int, d: int)
    requires 1 <= m <= 12
    ensures JulianDay(y, m, d + 1) == JulianDay(y, m, d) + 1
    ensures m < 12 ==> JulianDay(y, m + 1, 1) == JulianDay(y, m, DaysInMonth(y, m)) + 1
    ensures m == 12 ==> JulianDay(y + 1, 1, 1) == JulianDay(y, 12, 31) + 1
    ensures JulianDay(2000, 1, 1) == 2451545
  {
    if m == 2 {
      FebruaryLength(y);
    } else if m < 12 {
      MonthLength(y, m);
    }
  }

  lemma MonthLength(y: int, m: int)
    requires 1 <= m < 12 && m != 2
    ensures JulianDay(y, m + 1, 1) == JulianDay(y, m, 1) + DaysInMonth(y, m)
  {
    if m == 1 {
      assert (367 * (2 - 2 + 12)) / 12 - (367 * (1 - 2 + 12)) / 12 == 31;
    } else {
      assert (367 * (m + 1 - 2)) / 12 - (367 * (m - 2)) / 12 == DaysInMonth(y, m) by {
        if m == 3 {} else if m == 4 {} else if m == 5 {} else if m == 6 {} else if m == 7 {}
        else if m == 8 {} else if m == 9 {} else if m == 10 {} else {}
      }
    }
  }

  /** February has 29 days in a leap year and 28 otherwise. */
  lemma FebruaryLength(y: int)
    ensures JulianDay(y, 3, 1) == JulianDay(y, 2, 1) + DaysInMonth(y, 2)
  {
    var n := y + 4799;
    var p, q := (1461 * n) / 4, (1461 * (n + 1)) / 4;
    var u, v := (3 * ((y + 4899) / 100)) / 4, (3 * ((y + 4900) / 100)) / 4;
    assert JulianDay(y, 2, 1) == p + 367 - u + 1 - 32075 by {
      assert MonthShift(2) == -1 && (367 * (2 - 2 + 12)) / 12 == 367;
    }
    assert JulianDay(y, 3, 1) == q + 30 - v + 1 - 32075 by {
      assert MonthShift(3) == 0 && (367 * (3 - 2)) / 12 == 30;
    }
    FebruaryDays(y, q - p, v - u);
  }

  /** The day count of February from the two steps of the formula. */
  lemma FebruaryDays(y: int, years: int, century: int)
    requires years == (1461 * (y + 4800)) / 4 - (1461 * (y + 4799)) / 4
    requires century == (3 * ((y + 4900) / 100)) / 4 - (3 * ((y + 4899) / 100)) / 4
    ensures years - 337 - century == DaysInMonth(y, 2)
  {
    QuarterStep(y + 4799);
    CenturyStep(y);
    var k, t := y / 4, y % 4;
    DivMod(y, 4, k, t);
    DivMod(y + 4800, 4, k + 1200, t);
    if y % 100 == 0 {
      DivMod(y, 4, 25 * (y / 100), 0);
    }
  }

  /** One more year adds 366 days when it ends on a multiple of four. */
  lemma QuarterStep(n: int)
    ensures (1461 * (n + 1)) / 4 - (1461 * n) / 4 == if (n + 1) % 4 == 0 then 366 else 365
  {
    var q, r := n / 4, n % 4;
    DivMod(n, 4, q, r);
    DivMod(1461 * n, 4, 1461 * q + 365 * r, r);
    if r == 3 {
      DivMod(1461 * (n + 1), 4, 1461 * (q + 1), 0);
      DivMod(n + 1, 4, q + 1, 0);
    } else {
      DivMod(1461 * (n + 1), 4, 1461 * q + 365 * (r + 1), r + 1);
      DivMod(n + 1, 4, q, r + 1);
    }
  }

  /** The century correction drops a day in a century year that is not a
      multiple of 400, and only there. */
  lemma CenturyStep(y: int)
    ensures (3 * ((y + 4900) / 100)) / 4 - (3 * ((y + 4899) / 100)) / 4
      == if y % 100 == 0 && y % 400 != 0 then 1 else 0
  {
    var c, r := y / 100, y % 100;
    DivMod(y, 100, c, r);
    if r == 0 {
      DivMod(y + 4900, 100, c + 49, 0);
      DivMod(y + 4899, 100, c + 48, 99);
      var k, t := c / 4, c % 4;
      DivMod(c, 4, k, t);
      DivMod(y, 400, k, 100 * t);
      DivMod(3 * (c + 49), 4, 3 * k + 36 + (3 * t + 3) / 4, (3 * t + 3) % 4);
      DivMod(3 * (c + 48), 4, 3 * k + 36 + (3 * t) / 4, (3 * t) % 4);
    } else {
      DivMod(y + 4900, 100, c + 49, r);
      DivMod(y + 4899, 100, c + 49, r - 1);
    }
  }

  // ---------------------------------------------------------------------
  // Tabular Islamic date of a day number

  datatype Hijri = Hijri(day: int, month: int, year: int)

  /** The number of whole thirty-year cycles before the day. */
  function CycleNumber(jd: int): int {
    (jd - 1948440 + 10632 - 1) / 10631
  }

  /** The first reduction: the day's place in its thirty-year cycle. */
  function CycleDay(jd: int): (l: int)
    ensures 355 <= l <= 10985
  {
    var l := jd - 1948440 + 10632;
    l - 10631 * CycleNumber(jd) + 354
  }

  /** The year within the cycle: the first formula's product terms pick
      one of two linear estimates according to the half of the cycle. */
  function CycleYear(l: int): (j: int)
    requires 355 <= l <= 10985
    ensures l < 5670 ==> j == (50 * l) / 17719 && 1 <= j <= 15
    ensures l >= 5670 ==> j == (43 * l) / 15238 && 16 <= j <= 30
  {
    var f := (10985 - l) / 5316;
    var g := l / 5670;
    assert l < 5670 ==> f == 1 && g == 0;
    assert l >= 5670 ==> f == 0 && g == 1;
    f * ((50 * l) / 17719) + g * ((43 * l) / 15238)
  }

  /** The day within the year, from 30 to 384. */
  function YearDay(l: int, j: int): (l2: int)
    requires 355 <= l <= 10985 && j == CycleYear(l)
    ensures 30 <= l2 <= 384
  {
    var f := (30 - j) / 15;
    var g := j / 16;
    assert j <= 15 ==> f == 1 && g == 0;
    assert j >= 16 ==> f == 0 && g == 1;
    YearDayBounds(l, j);
    l - f * ((17719 * j) / 50) - g * ((15238 * j) / 43) + 29
  }

  lemma YearDayBounds(l: int, j: int)
    requires 355 <= l <= 10985 && j == CycleYear(l)
    ensures j <= 15 ==> 1 <= l - (17719 * j) / 50 <= 355
    ensures j >= 16 ==> 1 <= l - (15238 * j) / 43 <= 355
  {
    if l < 5670 { YearDayLow(l, j); } else { YearDayHigh(l, j); }
  }

  lemma YearDayLow(l: int, j: int)
    requires 355 <= l < 5670 && j == (50 * l) / 17719 && 1 <= j <= 15
    ensures 1 <= l - (17719 * j) / 50 <= 355
  {
    assert 17719 * j <= 50 * l < 17719 * j + 17719;
  }

  lemma YearDayHigh(l: int, j: int)
    requires 5670 <= l <= 10985 && j == (43 * l) / 15238 && 16 <= j <= 30
    ensures 1 <= l - (15238 * j) / 43 <= 355
  {
    assert 15238 * j <= 43 * l < 15238 * j + 15238;
  }

  /** The tabular conversion of a day number. */
  function HijriOf(jd: int): (h: Hijri)
    ensures 1 <= h.month <= 12 && 1 <= h.day <= 30
  {
    var l := CycleDay(jd);
    var n := CycleNumber(jd);
    var j := CycleYear(l);
    var l2 := YearDay(l, j);
    var month := (24 * l2) / 709;
    MonthDayRange(l2, month);
    Hijri(l2 - (709 * month) / 24, month, 30 * n + j - 30)
  }

  lemma MonthDayRange(l: int, month: int)
    requires 30 <= l <= 384 && month == (24 * l) / 709
    ensures 1 <= month <= 12
    ensures 1 <= l - (709 * month) / 24 <= 30
  {
    assert 709 * month <= 24 * l < 709 * month + 709;
  }

  /** `gregorianToHijri` of a calendar date, on the corrected day number. */
  function GregorianToHijri(y: int, m: int, d: int): (h: Hijri)
    requires 1 <= m <= 12
    ensures 1 <= h.month <= 12 && 1 <= h.day <= 30
  {
    HijriOf(JulianDay(y, m, d))
  }

  /** `gregorianToHijri` as the hook computes it, on `JulianDayAsWritten`;
      the date is still a valid Hijri day and month. */
  function GregorianToHijriAsWritten(y: int, m: int, d: int): (h: Hijri)
    ensures 1 <= h.month <= 12 && 1 <= h.day <= 30
  {
    HijriOf(JulianDayAsWritten(y, m, d))
  }

  // ---------------------------------------------------------------------
  // The hook's result

  /** `Math.max(0, Math.min(11, month - 1))`. */
  function MonthIndex(month: int): (i: int)
    ensures 0 <= i < |MonthNames|
    ensures 1 <= month <= 12 ==> i == month - 1
  {
    if month - 1 < 0 then 0 else if month - 1 > 11 then 11 else month - 1
  }

  /** `${toArabicNum(day)} ${monthName} ${toArabicNum(year)} هـ`. */
  function ArabicString(h: Hijri, monthName: string): string {
    ToArabicNum(h.day) + " " + monthName + " " + ToArabicNum(h.year) + " هـ"
  }

  datatype HijriToday = HijriToday(
    day: int, month: int, monthName: string, year: int, arabicString: string,
    isRamadan: bool, isDhulHijjah: bool, isSpecial: bool)

  /** `useHijriDate()` on today's day number `jd` (`JulianDay` of the date
      as intended, `JulianDayAsWritten` as the hook computes it): the month
      index never needs its clamp, so the month name is always that of the
      month. */
  function HijriFor(jd: int): (r: HijriToday)
    ensures 1 <= r.month <= 12 && 1 <= r.day <= 30
    ensures r.monthName == MonthNames[r.month - 1]
    ensures r.isRamadan <==> r.month == 9
    ensures r.isDhulHijjah <==> r.month == 12
    ensures r.isSpecial <==> r.month == 7 || r.month == 9 || r.month == 12
    ensures var h := HijriOf(jd);
      r.day == h.day && r.month == h.month && r.year == h.year &&
      r.arabicString == ArabicString(h, r.monthName)
  {
    var h := HijriOf(jd);
    var name := MonthNames[MonthIndex(h.month)];
    var ramadan := h.month == 9;
    var dhulHijjah := h.month == 12;
    HijriToday(h.day, h.month, name, h.year, ArabicString(h, name),
               ramadan, dhulHijjah, ramadan || dhulHijjah || h.month == 7)
  }
}
