/** Calendar dates as signed days from 1970-01-01, converted both ways through
    400-year cycles of years that start in March. */
module Dates {
  import opened Basics
  import opened Numerals

  const FIRST := -719_162
  const LAST := 2_932_896

  datatype Civil = Civil(year: int, month: int, day: int)

  predicate Leap(year: int) {
    year % 4 == 0 && (year % 100 != 0 || year % 400 == 0)
  }

  function MonthDays(year: int, month: int): int
    requires 1 <= month <= 12
  {
    if month == 2 then (if Leap(year) then 29 else 28)
    else if month == 4 || month == 6 || month == 9 || month == 11 then 30
    else 31
  }

  predicate ValidCivil(c: Civil) {
    1 <= c.year <= 9999 && 1 <= c.month <= 12 && 1 <= c.day <= MonthDays(c.year, c.month)
  }

  predicate ValidDays(days: int) { FIRST <= days <= LAST }

  /** Days before year `y` of a cycle. */
  function YearStart(y: int): int { 365 * y + y / 4 - y / 100 }

  /** Days before March-based month `m` of a year. */
  function MonthStart(m: int): int { (153 * m + 2) / 5 }

  /** `civil` after its field checks. */
  function DaysOf(c: Civil): int {
    var adjusted := if c.month <= 2 then c.year - 1 else c.year;
    var era := adjusted / 400;
    var y := adjusted - era * 400;
    var m := c.month + (if c.month > 2 then -3 else 9);
    era * 146097 + YearStart(y) + MonthStart(m) + c.day - 1 - 719468
  }

  /** `DateValue::civil`. */
  function FromCivil(c: Civil): Option<int> {
    if ValidCivil(c) && ValidDays(DaysOf(c)) then Some(DaysOf(c)) else None
  }

  function YearOf(d: int): int { (d - d / 1460 + d / 36524 - d / 146096) / 365 }

  function MonthOf(doy: int): int { (5 * doy + 2) / 153 }

  /** `components`. */
  function Components(days: int): Civil {
    var shifted := days + 719468;
    var era := shifted / 146097;
    var d := shifted - era * 146097;
    var y := YearOf(d);
    var day := d - YearStart(y);
    var m := MonthOf(day);
    var month := m + (if m < 10 then 3 else -9);
    Civil(y + era * 400 + (if month <= 2 then 1 else 0), month, day - MonthStart(m) + 1)
  }

  // One 400-year cycle

  /** Length of March-based year `y`: its leap day falls in the next calendar year. */
  function YearLength(y: int): int { if Leap(y + 1) then 366 else 365 }

  lemma StartOfYear(k: int, q: int, r: int)
    requires 0 <= k < 4 && 0 <= q < 25 && 0 <= r < 4
    ensures YearStart(100 * k + 4 * q + r) == 36524 * k + 1461 * q + 365 * r
  {
    assert (100 * k + 4 * q + r) / 100 == k;
    assert (100 * k + 4 * q + r) / 4 == 25 * k + q;
  }

  lemma FourYears(a: int, b: int)
    requires 0 <= b < 1460
    ensures (1460 * a + b) / 1460 == a
  {}

  /** How many groups of 1460 days, one short of four years, precede a day of a cycle. */
  lemma GroupOfDay(k: int, q: int, r: int, doy: int)
    requires 0 <= k < 4 && 0 <= q < 25 && 0 <= r < 4 && 0 <= doy < 366
    ensures var past := 24 * k + q + 365 * r + doy;
            (36524 * k + 1461 * q + 365 * r + doy) / 1460 == 25 * k + q + (if past >= 1460 then 1 else 0)
  {
    var past := 24 * k + q + 365 * r + doy;
    if past >= 1460 {
      FourYears(25 * k + q + 1, past - 1460);
    } else {
      FourYears(25 * k + q, past);
    }
  }

  lemma CenturyOfDay(k: int, rest: int)
    requires 0 <= k < 4 && 0 <= rest < 36524
    ensures (36524 * k + rest) / 36524 == k && (36524 * k + rest) / 146096 == 0
  {}

  lemma YearOfDay(k: int, q: int, r: int, doy: int)
    requires 0 <= k < 4 && 0 <= q < 25 && 0 <= r < 4
    requires 0 <= doy < YearLength(100 * k + 4 * q + r)
    ensures var y := 100 * k + 4 * q + r;
            var d := YearStart(y) + doy;
            0 <= d <= 146096 && YearOf(d) == y
  {
    StartOfYear(k, q, r);
    LongYear(k, q, r);
    hide YearStart, YearLength, YearOf;
    if k == 3 && q == 24 && r == 3 && doy == 365 {
      LastOfCycle();
    } else {
      InCentury(k, q, r, doy);
      YearInCentury(k, q, r, doy);
    }
  }

  lemma LastOfCycle()
    ensures YearOf(146096) == 399
  {}

  lemma InCentury(k: int, q: int, r: int, doy: int)
    requires 0 <= k < 4 && 0 <= q < 25 && 0 <= r < 4
    requires 0 <= doy < (if r == 3 && (q != 24 || k == 3) then 366 else 365)
    requires !(k == 3 && q == 24 && r == 3 && doy == 365)
    ensures 1461 * q + 365 * r + doy < 36524
    ensures 0 <= doy - (if 24 * k + q + 365 * r + doy >= 1460 then 1 else 0) < 365
  {}

  lemma YearInCentury(k: int, q: int, r: int, doy: int)
    requires 0 <= k < 4 && 0 <= q < 25 && 0 <= r < 4 && 0 <= doy < 366 && 1461 * q + 365 * r + doy < 36524
    requires 0 <= doy - (if 24 * k + q + 365 * r + doy >= 1460 then 1 else 0) < 365
    ensures YearOf(36524 * k + 1461 * q + 365 * r + doy) == 100 * k + 4 * q + r
  {
    var d := 36524 * k + 1461 * q + 365 * r + doy;
    var e := if 24 * k + q + 365 * r + doy >= 1460 then 1 else 0;
    GroupOfDay(k, q, r, doy);
    CenturyOfDay(k, 1461 * q + 365 * r + doy);
    WholeYears(100 * k + 4 * q + r, doy - e);
    assert d - (25 * k + q + e) + k - 0 == 365 * (100 * k + 4 * q + r) + (doy - e);
  }

  lemma WholeYears(y: int, rest: int)
    requires 0 <= rest < 365
    ensures (365 * y + rest) / 365 == y
  {}

  /** Only the last year of a group of four is long, and not in centuries 0 to 2. */
  lemma LongYear(k: int, q: int, r: int)
    requires 0 <= k < 4 && 0 <= q < 25 && 0 <= r < 4
    ensures YearLength(100 * k + 4 * q + r) == if r == 3 && (q != 24 || k == 3) then 366 else 365
  {
    var n := 100 * k + 4 * q + r + 1;
    assert n % 4 == (r + 1) % 4;
    if r == 3 {
      assert n == 100 * k + 4 * (q + 1);
      if q == 24 { assert n == 100 * (k + 1); }
    }
  }

  lemma MonthOfDay(m: int, dom: int)
    requires 0 <= m < 12 && 0 <= dom < (if m == 11 then 29 else MonthStart(m + 1) - MonthStart(m))
    ensures MonthOf(MonthStart(m) + dom) == m
  {}

  /** Months as calendar months have the lengths the calendar gives them. */
  lemma MonthLengths(year: int, month: int)
    requires 1 <= month <= 12
    ensures var m := month + (if month > 2 then -3 else 9);
            0 <= m < 12 && MonthDays(year, month) <= (if m == 11 then 29 else MonthStart(m + 1) - MonthStart(m))
    ensures var m := month + (if month > 2 then -3 else 9);
            month != 2 ==> MonthDays(year, month) == MonthStart(m + 1) - MonthStart(m)
  {}

  lemma SplitYear(y: int)
    requires 0 <= y < 400
    ensures var k, q, r := y / 100, y % 100 / 4, y % 4;
            0 <= k < 4 && 0 <= q < 25 && 0 <= r < 4 && y == 100 * k + 4 * q + r
  {}

  lemma LeapPeriod(era: int, y: int)
    ensures Leap(era * 400 + y) == Leap(y)
  {
    var n := era * 400 + y;
    assert n == 4 * (100 * era) + y && n == 100 * (4 * era) + y;
    Periodic(y, 4, 100 * era);
    Periodic(y, 100, 4 * era);
    Periodic(y, 400, era);
  }

  lemma Periodic(a: int, n: int, k: int)
    requires n == 4 || n == 100 || n == 400
    ensures (a + n * k) % n == a % n
  {}

  /** A date's March-based year and day of year. */
  lemma DayOfYear(c: Civil)
    requires ValidCivil(c)
    ensures var adjusted := if c.month <= 2 then c.year - 1 else c.year;
            var era := adjusted / 400;
            var y := adjusted - era * 400;
            var m := c.month + (if c.month > 2 then -3 else 9);
            var doy := MonthStart(m) + c.day - 1;
            0 <= y < 400 && 0 <= era < 25 && 0 <= doy < YearLength(y) &&
            DaysOf(c) == era * 146097 + YearStart(y) + doy - 719468
  {
    var adjusted := if c.month <= 2 then c.year - 1 else c.year;
    var era := adjusted / 400;
    MonthLengths(c.year, c.month);
    LeapPeriod(era, adjusted - era * 400 + 1);
  }

  lemma EraOf(era: int, d: int)
    requires 0 <= d < 146097
    ensures (era * 146097 + d) / 146097 == era
  {}

  /** Every day of a cycle lies in one of its years. */
  lemma SplitDay(d: int) returns (y: int, doy: int)
    requires 0 <= d < 146097
    ensures 0 <= y < 400 && 0 <= doy < YearLength(y) && d == YearStart(y) + doy
  {
    var k := if d / 36524 == 4 then 3 else d / 36524;
    var dk := d - 36524 * k;
    var q := dk / 1461;
    var dq := dk - 1461 * q;
    var r := if dq / 365 == 4 then 3 else dq / 365;
    y := 100 * k + 4 * q + r;
    doy := dq - 365 * r;
    LongYear(k, q, r);
    assert y / 100 == k && y / 4 == 25 * k + q;
  }

  lemma SplitDoy(doy: int) returns (m: int, dom: int)
    requires 0 <= doy < 366
    ensures 0 <= m < 12 && 0 <= dom < (if m == 11 then 29 else MonthStart(m + 1) - MonthStart(m))
    ensures doy == MonthStart(m) + dom
  {
    m := (5 * doy + 2) / 153;
    dom := doy - MonthStart(m);
  }

  /** Components of a day number, spelled out by cycle, year and month. */
  lemma ComponentsAt(era: int, y: int, doy: int, m: int, dom: int)
    requires 0 <= y < 400 && 0 <= doy < YearLength(y)
    requires 0 <= m < 12 && 0 <= dom < (if m == 11 then 29 else MonthStart(m + 1) - MonthStart(m)) &&
      doy == MonthStart(m) + dom
    ensures Components(era * 146097 + YearStart(y) + doy - 719468) ==
            var month := if m < 10 then m + 3 else m - 9;
            Civil(era * 400 + y + (if month <= 2 then 1 else 0), month, dom + 1)
  {
    hide YearOf, MonthOf, YearStart, MonthStart, YearLength;
    SplitYear(y);
    YearOfDay(y / 100, y % 100 / 4, y % 4, doy);
    EraOf(era, YearStart(y) + doy);
    MonthOfDay(m, dom);
  }

  /** Reading back a date's day number gives the date. */
  lemma ComponentsOfDays(c: Civil)
    requires ValidCivil(c)
    ensures Components(DaysOf(c)) == c
  {
    hide Components, YearStart, MonthStart, YearLength, MonthDays;
    var adjusted := if c.month <= 2 then c.year - 1 else c.year;
    var era := adjusted / 400;
    var m := c.month + (if c.month > 2 then -3 else 9);
    DayOfYear(c);
    MonthLengths(c.year, c.month);
    ComponentsAt(era, adjusted - era * 400, MonthStart(m) + c.day - 1, m, c.day - 1);
  }

  lemma YearsBefore(y: int)
    requires 0 <= y < 400
    ensures 365 * y <= YearStart(y) <= 365 * y + 97
  {}

  /** The supported day numbers are those of years 1 to 9999. */
  lemma SupportedYears(days: int, era: int, y: int, doy: int)
    requires ValidDays(days) && 0 <= y < 400 && 0 <= doy < 366
    requires days + 719468 == era * 146097 + YearStart(y) + doy && 0 <= YearStart(y) + doy < 146097
    ensures 0 <= era <= 24
    ensures era == 0 && y == 0 ==> doy >= 306
    ensures era == 24 && y == 399 ==> doy <= 305
  {
    YearsBefore(y);
  }

  /** Day 306 of a March-based year is the first of January. */
  lemma JanuaryStarts(m: int, dom: int)
    requires 0 <= m < 12 && 0 <= dom < (if m == 11 then 29 else MonthStart(m + 1) - MonthStart(m))
    ensures MonthStart(m) + dom >= 306 <==> m >= 10
  {}

  /** The day of the month a March-based month allows, once February is cut to its year. */
  lemma MonthFits(y: int, year: int, m: int, dom: int)
    requires 0 <= y < 400 && 0 <= m < 12
    requires 0 <= dom < (if m == 11 then 29 else MonthStart(m + 1) - MonthStart(m)) &&
      MonthStart(m) + dom < YearLength(y)
    requires m == 11 ==> Leap(year) == Leap(y + 1)
    ensures dom + 1 <= MonthDays(year, if m < 10 then m + 3 else m - 9)
  {
    MonthLengths(year, if m < 10 then m + 3 else m - 9);
  }

  /** Every supported day number is the number of exactly the date it decodes to. */
  lemma DaysOfComponents(days: int)
    requires ValidDays(days)
    ensures ValidCivil(Components(days)) && DaysOf(Components(days)) == days
  {
    hide Components, YearStart, MonthStart, MonthDays;
    var shifted := days + 719468;
    var era := shifted / 146097;
    var y, doy := SplitDay(shifted - era * 146097);
    var m, dom := SplitDoy(doy);
    var month := if m < 10 then m + 3 else m - 9;
    var year := era * 400 + y + (if month <= 2 then 1 else 0);
    ComponentsAt(era, y, doy, m, dom);
    SupportedYears(days, era, y, doy);
    JanuaryStarts(m, dom);
    LeapPeriod(era, y + 1);
    MonthFits(y, year, m, dom);
    assert (era * 400 + y) / 400 == era;
  }

  /** All valid dates have supported day numbers, so `civil` refuses exactly the
      invalid ones. */
  lemma CivilAccepts(c: Civil)
    ensures FromCivil(c) == if ValidCivil(c) then Some(DaysOf(c)) else None
  {
    if ValidCivil(c) {
      DayOfYear(c);
      var adjusted := if c.month <= 2 then c.year - 1 else c.year;
      var y := adjusted - adjusted / 400 * 400;
      YearsBefore(y);
    }
  }

  // An independent calendar: counting days one at a time from the epoch

  function NextDay(c: Civil): Civil
    requires 1 <= c.month <= 12
  {
    if c.day < MonthDays(c.year, c.month) then c.(day := c.day + 1)
    else if c.month < 12 then Civil(c.year, c.month + 1, 1)
    else Civil(c.year + 1, 1, 1)
  }

  /** The date reached by counting n days from 1970-01-01. */
  function Later(n: nat): (c: Civil)
    ensures 1 <= c.month <= 12
  {
    if n == 0 then Civil(1970, 1, 1) else NextDay(Later(n - 1))
  }

  lemma Epoch()
    ensures DaysOf(Civil(1970, 1, 1)) == 0
  {}

  lemma LastDay()
    ensures DaysOf(Civil(9999, 12, 31)) == LAST
  {}

  lemma NextDayValid(c: Civil)
    requires ValidCivil(c) && DaysOf(c) < LAST
    ensures ValidCivil(NextDay(c))
  {
    LastDay();
  }

  /** The numbering is the calendar's: day n is the n-th day after 1970-01-01, and decoding n
      gives the date that counting reaches. */
  lemma {:induction false} CountedFromEpoch(n: nat)
    requires n <= LAST
    ensures ValidCivil(Later(n)) && DaysOf(Later(n)) == n && Components(n) == Later(n)
  {
    hide DaysOf, Components, NextDay, ValidCivil;
    if n == 0 {
      Epoch();
      FirstValid();
    } else {
      CountedFromEpoch(n - 1);
      NextDayValid(Later(n - 1));
      NextDayCounts(Later(n - 1));
    }
    ComponentsOfDays(Later(n));
  }

  lemma FirstValid()
    ensures ValidCivil(Civil(1970, 1, 1))
  {}

  /** The day after a date has the next number. */
  lemma NextDayCounts(c: Civil)
    requires ValidCivil(c) && ValidCivil(NextDay(c))
    ensures DaysOf(NextDay(c)) == DaysOf(c) + 1
  {
    hide DaysOf, YearBase, MonthStart, Leap;
    if c.month == 2 && c.day == MonthDays(c.year, 2) {
      EndOfFebruary(c.year);
    } else {
      InYear(c);
      InYear(NextDay(c));
      MonthLengths(c.year, c.month);
    }
  }

  /** The number of the first day of an arithmetic year, which starts in March. */
  function YearBase(adjusted: int): int {
    var era := adjusted / 400;
    era * 146097 + YearStart(adjusted - era * 400) - 719468
  }

  lemma InYear(c: Civil)
    ensures DaysOf(c) ==
            YearBase(if c.month <= 2 then c.year - 1 else c.year)
            + MonthStart(c.month + (if c.month > 2 then -3 else 9)) + c.day - 1
  {}

  lemma MarchBased(year: int)
    requires 1 <= year
    ensures var era := (year - 1) / 400;
            var y := year - 1 - era * 400;
            0 <= y < 400 && year == era * 400 + y + 1
    ensures var era := (year - 1) / 400;
            if year - 1 - era * 400 == 399 then year / 400 == era + 1 && year - year / 400 * 400 == 0
            else year / 400 == era
  {}

  lemma MonthStarts()
    ensures MonthStart(0) == 0 && MonthStart(11) == 337 && YearStart(0) == 0
  {}

  /** March starts a new arithmetic year after 28 or 29 days of February. */
  lemma EndOfFebruary(year: int)
    requires 1 <= year <= 9999
    ensures DaysOf(Civil(year, 3, 1)) == DaysOf(Civil(year, 2, MonthDays(year, 2))) + 1
  {
    hide YearStart, MonthStart;
    var era := (year - 1) / 400;
    var y := year - 1 - era * 400;
    MarchBased(year);
    MonthStarts();
    LeapPeriod(era, y + 1);
    hide Leap;
    NextYearStart(y);
  }

  lemma NextYearStart(y: int)
    requires 0 <= y < 400
    ensures YearStart(y) + YearLength(y) == if y == 399 then 146097 else YearStart(y + 1)
  {
    var k, q, r := y / 100, y % 100 / 4, y % 4;
    SplitYear(y);
    StartOfYear(k, q, r);
    LongYear(k, q, r);
    hide YearStart, YearLength;
    if r < 3 {
      StartOfYear(k, q, r + 1);
    } else if q < 24 {
      StartOfYear(k, q + 1, 0);
    } else if k < 3 {
      StartOfYear(k + 1, 0, 0);
    }
  }

  // Text form

  /** `{year:04}-{month:02}-{day:02}`; fields of a supported date never exceed their width. */
  function Print(days: int): (r: seq<Byte>)
    requires ValidDays(days)
    ensures |r| == 10 && Clean(r)
  {
    DaysOfComponents(days);
    var c := Components(days);
    Padded(c.year, 4) + [45] + Padded(c.month, 2) + [45] + Padded(c.day, 2)
  }

  /** `DateValue::parse`. */
  function Parse(bytes: seq<Byte>): Option<int> {
    if |bytes| != 10 || bytes[4] != 45 || bytes[7] != 45 then None
    else
      match (Value(bytes[..4]), Value(bytes[5..7]), Value(bytes[8..]))
      case (Some(year), Some(month), Some(day)) => FromCivil(Civil(year, month, day))
      case _ => None
  }

  lemma Powers()
    ensures Power(10, 4) == 10_000 && Power(10, 2) == 100
  {
    assert Power(10, 1) == 10 && Power(10, 3) == 1000;
  }

  lemma ParsePrint(days: int)
    requires ValidDays(days)
    ensures Parse(Print(days)) == Some(days)
  {
    hide DaysOf, Components, Padded, Value;
    var c := Components(days);
    DaysOfComponents(days);
    Powers();
    ValueOfPadded(c.year, 4);
    ValueOfPadded(c.month, 2);
    ValueOfPadded(c.day, 2);
    var p := Print(days);
    assert p[..4] == Padded(c.year, 4) && p[5..7] == Padded(c.month, 2) && p[8..] == Padded(c.day, 2);
  }

  /** Parsing accepts exactly the printed forms of supported dates. */
  lemma ParseExactly(bytes: seq<Byte>, days: int)
    ensures Parse(bytes) == Some(days) <==> ValidDays(days) && bytes == Print(days)
  {
    hide Parse, Print;
    if ValidDays(days) { ParsePrint(days); }
    if Parse(bytes) == Some(days) { ParsedIsPrinted(bytes, days); }
  }

  lemma ParsedIsPrinted(bytes: seq<Byte>, days: int)
    requires Parse(bytes) == Some(days)
    ensures ValidDays(days) && bytes == Print(days)
  {
    hide DaysOf, Components, Padded, Value, ValidCivil;
    var c := Civil(Value(bytes[..4]).value, Value(bytes[5..7]).value, Value(bytes[8..]).value);
    PaddedOfValue(bytes[..4]);
    PaddedOfValue(bytes[5..7]);
    PaddedOfValue(bytes[8..]);
    ComponentsOfDays(c);
    assert bytes == bytes[..4] + [45] + bytes[5..7] + [45] + bytes[8..];
  }

  /** What a date looks like. */
  lemma Example()
    ensures Print(0) == Ascii("1970-01-01")
  {
    Epoch();
    FirstValid();
    EpochFields();
    hide DaysOf, Components, Padded, ValidCivil;
    ComponentsOfDays(Civil(1970, 1, 1));
    assert [49, 57, 55, 48] + [45] + [48, 49] + [45] + [48, 49] == Ascii("1970-01-01");
  }

  lemma EpochFields()
    ensures Padded(1970, 4) == [49, 57, 55, 48] && Padded(1, 2) == [48, 49]
  {
    assert Padded(19, 2) == [49, 57];
  }
}
