/** Unix time to proleptic Gregorian dates, and the audit timestamp. */
module Calendar {
  import opened Order
  import opened Text

  datatype Date = Date(year: int, month: int, day: int)

  /** Rust's `/` on signed integers rounds toward zero. */
  function TruncDiv(a: int, b: int): int
    requires b > 0
  {
    if a >= 0 then a / b else -((-a) / b)
  }

  function CivilFromDays(days: int): Date {
    var z := days + 719_468;
    var era := EraIndex(z);
    var doe := z - era * 146_097;
    var yoe := YearInEra(doe);
    var doy := doe - EraDays(yoe);
    DateInMarchYear(yoe + era * 400, doy)
  }

  /** The 400-year era of a day counted from 0000-03-01. */
  function EraIndex(z: int): int {
    TruncDiv(if z >= 0 then z else z - 146_096, 146_097)
  }

  /** The year of the 400-year era that holds day `doe` of it. */
  function YearInEra(doe: int): int {
    (doe - doe / 1460 + doe / 36524 - doe / 146_096) / 365
  }

  /** Days of an era before its `yoe`-th year, which starts in March. */
  function EraDays(yoe: int): int {
    365 * yoe + yoe / 4 - yoe / 100
  }

  /** Day `doy` of the year that starts on March 1st of `y`. */
  function DateInMarchYear(y: int, doy: int): Date {
    var mp := (5 * doy + 2) / 153;
    var d := doy - (153 * mp + 2) / 5 + 1;
    var m := if mp < 10 then mp + 3 else mp - 9;
    Date(y + (if m <= 2 then 1 else 0), m, d)
  }

  // ----- the calendar -----------------------------------------------------

  predicate IsLeap(y: int) {
    y % 4 == 0 && (y % 100 != 0 || y % 400 == 0)
  }

  function DaysInMonth(y: int, m: int): int {
    if m == 2 then (if IsLeap(y) then 29 else 28)
    else if m in {4, 6, 9, 11} then 30
    else 31
  }

  predicate ValidDate(d: Date) {
    1 <= d.month <= 12 && 1 <= d.day <= DaysInMonth(d.year, d.month)
  }

  function NextDay(d: Date): Date {
    if d.day < DaysInMonth(d.year, d.month) then Date(d.year, d.month, d.day + 1)
    else if d.month < 12 then Date(d.year, d.month + 1, 1)
    else Date(d.year + 1, 1, 1)
  }

  /** Days of the years before `y`, up to a constant. */
  function DaysBeforeYear(y: int): int {
    365 * y + (y - 1) / 4 - (y - 1) / 100 + (y - 1) / 400
  }

  function DaysBeforeMonth(y: int, m: nat): int {
    if m <= 1 then 0 else DaysBeforeMonth(y, m - 1) + DaysInMonth(y, m - 1)
  }

  /** The number of days from 1970-01-01. */
  function DayNumber(d: Date): int
    requires ValidDate(d)
  {
    DaysBeforeYear(d.year) + DaysBeforeMonth(d.year, d.month) + d.day - 1 - 719_527
  }

  lemma Quotients(y: int)
    ensures y / 4 - (y - 1) / 4 == if y % 4 == 0 then 1 else 0
    ensures y / 100 - (y - 1) / 100 == if y % 100 == 0 then 1 else 0
    ensures y / 400 - (y - 1) / 400 == if y % 400 == 0 then 1 else 0
  {
  }

  lemma CenturyYears(y: int)
    ensures y % 400 == 0 ==> y % 100 == 0
    ensures y % 100 == 0 ==> y % 4 == 0
  {
  }

  lemma YearLength(y: int)
    ensures DaysBeforeYear(y + 1) == DaysBeforeYear(y) + if IsLeap(y) then 366 else 365
  {
    Quotients(y);
    CenturyYears(y);
  }

  /** Days before a month, counted from March. */
  function FromMarch(mp: int): int {
    (153 * mp + 2) / 5
  }

  lemma MonthTable(y: int, m: nat)
    requires 1 <= m <= 12
    ensures var leap := if IsLeap(y) then 1 else 0;
            DaysBeforeMonth(y, m) == if m == 1 then 0 else if m == 2 then 31 else 59 + leap + FromMarch(m - 3)
  {
    assert DaysBeforeMonth(y, 1) == 0;
    assert DaysBeforeMonth(y, 2) == 31;
    assert DaysBeforeMonth(y, 3) == 31 + DaysInMonth(y, 2);
    assert DaysBeforeMonth(y, 4) == 62 + DaysInMonth(y, 2);
    assert DaysBeforeMonth(y, 5) == 92 + DaysInMonth(y, 2);
    assert DaysBeforeMonth(y, 6) == 123 + DaysInMonth(y, 2);
    assert DaysBeforeMonth(y, 7) == 153 + DaysInMonth(y, 2);
    assert DaysBeforeMonth(y, 8) == 184 + DaysInMonth(y, 2);
    assert DaysBeforeMonth(y, 9) == 215 + DaysInMonth(y, 2);
    assert DaysBeforeMonth(y, 10) == 245 + DaysInMonth(y, 2);
    assert DaysBeforeMonth(y, 11) == 276 + DaysInMonth(y, 2);
    assert DaysBeforeMonth(y, 12) == 306 + DaysInMonth(y, 2);
  }

  /** The day count is the calendar's: the epoch is day zero and the next
      calendar day has the next number. */
  lemma DayNumberCounts(d: Date)
    requires ValidDate(d)
    ensures DayNumber(Date(1970, 1, 1)) == 0
    ensures ValidDate(NextDay(d)) && DayNumber(NextDay(d)) == DayNumber(d) + 1
  {
    if d.day == DaysInMonth(d.year, d.month) && d.month == 12 {
      MonthTable(d.year, 12);
      YearLength(d.year);
    }
  }

  ghost predicate Before(a: Date, b: Date) {
    a.year < b.year || (a.year == b.year && (a.month < b.month || (a.month == b.month && a.day < b.day)))
  }

  lemma {:induction false} MonthsGrow(y: int, m: nat, n: nat)
    requires 1 <= m < n
    ensures DaysBeforeMonth(y, m) + DaysInMonth(y, m) <= DaysBeforeMonth(y, n)
  {
    if m + 1 < n { MonthsGrow(y, m, n - 1); }
  }

  lemma {:induction false} YearsGrow(y: int, n: int)
    requires y < n
    ensures DaysBeforeYear(y + 1) <= DaysBeforeYear(n)
    decreases n - y
  {
    if y + 1 < n {
      YearsGrow(y, n - 1);
      YearLength(n - 1);
    }
  }

  lemma DayOfYear(d: Date)
    requires ValidDate(d)
    ensures 0 <= DaysBeforeMonth(d.year, d.month) + d.day - 1 < DaysBeforeYear(d.year + 1) - DaysBeforeYear(d.year)
  {
    MonthTable(d.year, 12);
    MonthTable(d.year, d.month);
    YearLength(d.year);
    if d.month < 12 { MonthsGrow(d.year, d.month, 12); }
  }

  /** Earlier dates have smaller numbers, so no two share one. */
  lemma DayNumberMonotone(a: Date, b: Date)
    requires ValidDate(a) && ValidDate(b)
    ensures Before(a, b) <==> DayNumber(a) < DayNumber(b)
    ensures DayNumber(a) == DayNumber(b) ==> a == b
  {
    if Before(a, b) { EarlierIsSmaller(a, b); }
    if Before(b, a) { EarlierIsSmaller(b, a); }
  }

  lemma EarlierIsSmaller(a: Date, b: Date)
    requires ValidDate(a) && ValidDate(b) && Before(a, b)
    ensures DayNumber(a) < DayNumber(b)
  {
    if a.year < b.year {
      DayOfYear(a);
      DayOfYear(b);
      YearsGrow(a.year, b.year);
    } else if a.month < b.month {
      MonthsGrow(a.year, a.month, b.month);
    }
  }

  // ----- the conversion ---------------------------------------------------

  /** The division tricks find the year: centuries of 36524 days, four-year
      cycles of 1461, years of 365, and the day left over. */
  lemma YearOfEra(c: int, a: int, b: int, t: int)
    requires 0 <= c <= 3 && 0 <= a <= 24 && 0 <= b <= 3 && 0 <= t <= 365
    requires t == 365 ==> b == 3 && (a < 24 || c == 3)
    ensures YearInEra(36524 * c + 1461 * a + 365 * b + t) == 100 * c + 4 * a + b
    ensures EraDays(100 * c + 4 * a + b) == 36524 * c + 1461 * a + 365 * b
  {
    var doe := 36524 * c + 1461 * a + 365 * b + t;
    var rest := 1461 * a + 365 * b + t;
    var w := 24 * c + a + 365 * b + t;
    var k := 100 * c + 4 * a + b;
    assert 0 <= rest <= 36524 && (rest == 36524 ==> c == 3);
    assert doe / 36524 - doe / 146_096 == c;
    assert doe == 1460 * (25 * c + a) + w;
    assert 0 <= w < 2920;
    assert doe / 1460 == 25 * c + a + w / 1460;
    var u := t - w / 1460;
    assert 0 <= u < 365;
    assert doe - doe / 1460 + c == 365 * k + u;
    assert (365 * k + u) / 365 == k;
    assert k / 4 == 25 * c + a && k / 100 == c;
  }

  /** The parts of a day of an era. */
  lemma EraParts(doe: int) returns (c: int, a: int, b: int, t: int)
    requires 0 <= doe < 146_097
    ensures 0 <= c <= 3 && 0 <= a <= 24 && 0 <= b <= 3 && 0 <= t <= 365
    ensures t == 365 ==> b == 3 && (a < 24 || c == 3)
    ensures doe == 36524 * c + 1461 * a + 365 * b + t
  {
    c := if doe / 36524 == 4 then 3 else doe / 36524;
    var r := doe - 36524 * c;
    a := r / 1461;
    var s := r - 1461 * a;
    b := if s / 365 == 4 then 3 else s / 365;
    t := s - 365 * b;
  }

  lemma MonthOfYear(doy: int)
    requires 0 <= doy <= 365
    ensures var mp := (5 * doy + 2) / 153;
            0 <= mp <= 11 && FromMarch(mp) <= doy < FromMarch(mp + 1)
  {
  }

  lemma MarchYear(era: int, yoe: int)
    requires 0 <= yoe < 400
    ensures var y := yoe + era * 400;
            DaysBeforeYear(y) + (if IsLeap(y) then 1 else 0) == 146_097 * era + EraDays(yoe)
    ensures IsLeap(yoe + era * 400) <==> IsLeap(yoe)
  {
    var y := yoe + era * 400;
    YearLength(y);
    assert y / 4 == 100 * era + yoe / 4 && y / 100 == 4 * era + yoe / 100 && y / 400 == era;
    assert y % 4 == yoe % 4 && y % 100 == yoe % 100 && y % 400 == yoe % 400;
  }

  lemma EraOf(z: int)
    ensures 0 <= z - EraIndex(z) * 146_097 < 146_097
  {
  }

  /** A day of the March-based year `y` is a valid date with the right number. */
  lemma MarchDate(y: int, doy: int)
    requires 0 <= doy <= 365 && (doy == 365 ==> IsLeap(y + 1))
    ensures var date := DateInMarchYear(y, doy);
            && ValidDate(date)
            && DayNumber(date) == DaysBeforeYear(y) + (if IsLeap(y) then 1 else 0) + 59 + doy - 719_527
  {
    var mp := (5 * doy + 2) / 153;
    MonthOfYear(doy);
    var m := if mp < 10 then mp + 3 else mp - 9;
    YearLength(y);
    MonthTable(if m <= 2 then y + 1 else y, m);
  }

  /** The last year of a cycle that has a day 365 ends in a leap year. */
  lemma LeapDay(era: int, c: int, a: int)
    requires 0 <= c <= 3 && 0 <= a <= 24 && (a < 24 || c == 3)
    ensures IsLeap(100 * c + 4 * a + 3 + era * 400 + 1)
  {
    var y := 100 * c + 4 * a + 3 + era * 400 + 1;
    assert y == 4 * (25 * c + a + 1 + 100 * era);
    if a < 24 {
      assert y == 100 * (c + 4 * era) + (4 * a + 4);
      assert y % 100 == 4 * a + 4;
    } else {
      assert y == 400 * (era + 1);
    }
  }

  lemma EraDate(era: int, doe: int) returns (yoe: int, doy: int)
    requires 0 <= doe < 146_097
    ensures yoe == YearInEra(doe)
    ensures doy == doe - EraDays(yoe) && 0 <= yoe < 400 && 0 <= doy <= 365
    ensures doy == 365 ==> IsLeap(yoe + era * 400 + 1)
  {
    var c, a, b, t := EraParts(doe);
    YearOfEra(c, a, b, t);
    yoe, doy := 100 * c + 4 * a + b, t;
    if t == 365 { LeapDay(era, c, a); }
  }

  lemma CivilUnfolds(days: int, era: int, doe: int)
    requires era == EraIndex(days + 719_468) && doe == days + 719_468 - era * 146_097
    ensures CivilFromDays(days) == DateInMarchYear(YearInEra(doe) + era * 400, doe - EraDays(YearInEra(doe)))
  {
  }

  /** The day falls `doy` days into the March-based year `y`. */
  lemma CivilParts(days: int) returns (y: int, doy: int)
    ensures CivilFromDays(days) == DateInMarchYear(y, doy)
    ensures 0 <= doy <= 365 && (doy == 365 ==> IsLeap(y + 1))
    ensures DaysBeforeYear(y) + (if IsLeap(y) then 1 else 0) + 59 + doy - 719_527 == days
  {
    var era := EraIndex(days + 719_468);
    var doe := days + 719_468 - era * 146_097;
    EraOf(days + 719_468);
    CivilUnfolds(days, era, doe);
    var yoe;
    yoe, doy := EraDate(era, doe);
    y := yoe + era * 400;
    MarchYear(era, yoe);
  }

  /** For every integer, the conversion gives a valid date whose day number is
      that integer. */
  lemma CivilRoundTrip(days: int)
    ensures ValidDate(CivilFromDays(days)) && DayNumber(CivilFromDays(days)) == days
  {
    var y, doy := CivilParts(days);
    MarchDate(y, doy);
  }

  /** It is the inverse of the day count, in both directions. */
  lemma CivilInverse(d: Date)
    requires ValidDate(d)
    ensures CivilFromDays(DayNumber(d)) == d
  {
    CivilRoundTrip(DayNumber(d));
    DayNumberMonotone(CivilFromDays(DayNumber(d)), d);
  }

  lemma NextIsUnique(d: Date, e: Date)
    requires ValidDate(d) && ValidDate(e) && DayNumber(e) == DayNumber(d) + 1
    ensures e == NextDay(d)
  {
    DayNumberCounts(d);
    DayNumberMonotone(e, NextDay(d));
  }

  /** The day after day `z` is the next day of the calendar. */
  lemma CivilSuccessor(days: int)
    ensures CivilFromDays(days + 1) == NextDay(CivilFromDays(days))
  {
    CivilRoundTrip(days);
    CivilRoundTrip(days + 1);
    NextIsUnique(CivilFromDays(days), CivilFromDays(days + 1));
  }

  // ----- timestamps -------------------------------------------------------

  /** At least `width` digits, padded with zeros. */
  function Padded(n: nat, width: nat): string {
    var digits := Decimal(n);
    seq(if |digits| < width then width - |digits| else 0, i => '0') + digits
  }

  /** Dates order by year first, so a whole range of days has years in range. */
  lemma YearBounds(days: int, from: int, to: int)
    requires DayNumber(Date(from, 1, 1)) <= days < DayNumber(Date(to, 1, 1))
    ensures from <= CivilFromDays(days).year < to
  {
    CivilRoundTrip(days);
    DayNumberMonotone(CivilFromDays(days), Date(from, 1, 1));
    DayNumberMonotone(CivilFromDays(days), Date(to, 1, 1));
  }

  lemma SinceEpoch(days: nat)
    ensures CivilFromDays(days).year >= 1970 && CivilFromDays(days).month >= 1 && CivilFromDays(days).day >= 1
  {
    CivilRoundTrip(days);
    DayNumberMonotone(CivilFromDays(days), Date(1970, 1, 1));
  }

  function FormatUnixTs(secs: nat): string {
    var date := CivilFromDays(secs / 86_400);
    var rem := secs % 86_400;
    SinceEpoch(secs / 86_400);
    Padded(date.year, 4) + ['-'] + (Padded(date.month, 2) + ['-'] + (Padded(date.day, 2) + ['T'] +
      (Padded(rem / 3600, 2) + [':'] + (Padded(rem % 3600 / 60, 2) + [':'] + (Padded(rem % 60, 2) + ['Z'])))))
  }

  /** 10000-01-01T00:00:00Z. */
  const YEAR_10000 := 253_402_300_800

  /** Exactly `width` digits. */
  function Fixed(n: nat, width: nat): string {
    if width == 0 then [] else Fixed(n / 10, width - 1) + [Digit(n % 10)]
  }

  function Power10(width: nat): nat {
    if width == 0 then 1 else 10 * Power10(width - 1)
  }

  lemma {:induction false} ZerosFixed(width: nat)
    ensures Fixed(0, width) == seq(width, i => '0')
  {
    if width > 0 { ZerosFixed(width - 1); }
  }

  lemma {:induction false} PaddedFixed(n: nat, width: nat)
    requires width > 0 && n < Power10(width)
    ensures Padded(n, width) == Fixed(n, width)
  {
    if n < 10 {
      ZerosFixed(width - 1);
      assert Fixed(n / 10, width - 1) == Fixed(0, width - 1);
    } else {
      assert width > 1 by { assert Power10(1) == 10 * Power10(0); }
      PaddedFixed(n / 10, width - 1);
      assert Decimal(n) == Decimal(n / 10) + [Digit(n % 10)];
      PadExtends(Decimal(n / 10), Digit(n % 10), width);
    }
  }

  lemma PadExtends(digits: string, last: char, width: nat)
    requires width > 0
    ensures seq(if |digits| + 1 < width then width - (|digits| + 1) else 0, i => '0') + (digits + [last])
         == seq(if |digits| < width - 1 then width - 1 - |digits| else 0, i => '0') + digits + [last]
  {
  }

  lemma {:induction false} FixedValue(n: nat, width: nat)
    requires n < Power10(width)
    ensures |Fixed(n, width)| == width && DecimalValue(Fixed(n, width)) == n
  {
    if width > 0 {
      FixedValue(n / 10, width - 1);
      assert Fixed(n, width)[..width - 1] == Fixed(n / 10, width - 1);
    }
  }

  /** Comparing strings with heads of one length compares the heads first. */
  lemma {:induction false} LessHeads(a: string, b: string, s: string, t: string)
    requires |a| == |b|
    ensures Less(a + s, b + t) <==> Less(a, b) || (a == b && Less(s, t))
  {
    if a == [] {
      assert a + s == s && b + t == t;
    } else {
      assert (a + s)[1..] == a[1..] + s && (b + t)[1..] == b[1..] + t;
      LessHeads(a[1..], b[1..], s, t);
      assert a == [a[0]] + a[1..] && b == [b[0]] + b[1..];
    }
  }

  lemma LastDigitOrder(m: nat, n: nat)
    ensures Less([Digit(m % 10)], [Digit(n % 10)]) <==> m % 10 < n % 10
    ensures m < n <==> m / 10 < n / 10 || (m / 10 == n / 10 && m % 10 < n % 10)
    ensures Digit(m % 10) == Digit(n % 10) <==> m % 10 == n % 10
  {
    var a, b := [Digit(m % 10)], [Digit(n % 10)];
    assert Less(a, b) <==> a[0] < b[0] by {
      assert a[1..] == [] && b[1..] == [];
    }
  }

  lemma SameTail(a: string, b: string, c: char, d: char)
    requires |a| == |b|
    ensures a + [c] == b + [d] <==> a == b && c == d
  {
    assert (a + [c])[..|a|] == a && (b + [d])[..|b|] == b;
    assert (a + [c])[|a|] == c && (b + [d])[|b|] == d;
  }

  lemma {:induction false} FixedOrder(m: nat, n: nat, width: nat)
    requires m < Power10(width) && n < Power10(width)
    ensures Less(Fixed(m, width), Fixed(n, width)) <==> m < n
    ensures Fixed(m, width) == Fixed(n, width) <==> m == n
  {
    if width > 0 {
      var a, b := Fixed(m / 10, width - 1), Fixed(n / 10, width - 1);
      FixedOrder(m / 10, n / 10, width - 1);
      FixedValue(m / 10, width - 1);
      FixedValue(n / 10, width - 1);
      LessHeads(a, b, [Digit(m % 10)], [Digit(n % 10)]);
      SameTail(a, b, Digit(m % 10), Digit(n % 10));
      LastDigitOrder(m, n);
    }
  }

  // ----- the six fields -----------------------------------------------------

  /** The fields of a timestamp, most significant first: value, width, and the
      separator that follows. */
  datatype Part = Part(value: nat, width: nat, separator: char)

  function Parts(secs: nat): seq<Part> {
    var date := CivilFromDays(secs / 86_400);
    var rem := secs % 86_400;
    SinceEpoch(secs / 86_400);
    [Part(date.year, 4, '-'), Part(date.month, 2, '-'), Part(date.day, 2, 'T'),
     Part(rem / 3600, 2, ':'), Part(rem % 3600 / 60, 2, ':'), Part(rem % 60, 2, 'Z')]
  }

  function Layout(parts: seq<Part>): string {
    if parts == [] then [] else Fixed(parts[0].value, parts[0].width) + [parts[0].separator] + Layout(parts[1..])
  }

  /** The values read back from the text, given the widths. */
  function ReadParts(text: string, widths: seq<nat>): seq<int> {
    if widths == [] || |text| < widths[0] + 1 then []
    else [DecimalValue(text[..widths[0]])] + ReadParts(text[widths[0] + 1..], widths[1..])
  }

  ghost predicate Fits(parts: seq<Part>) {
    forall i :: 0 <= i < |parts| ==> parts[i].width > 0 && parts[i].value < Power10(parts[i].width)
  }

  function Values(parts: seq<Part>): seq<int> {
    seq(|parts|, i requires 0 <= i < |parts| => parts[i].value)
  }

  function Widths(parts: seq<Part>): seq<nat> {
    seq(|parts|, i requires 0 <= i < |parts| => parts[i].width)
  }

  lemma {:induction false} LayoutReadsBack(parts: seq<Part>)
    requires Fits(parts)
    ensures ReadParts(Layout(parts), Widths(parts)) == Values(parts)
  {
    if parts != [] {
      var head := Fixed(parts[0].value, parts[0].width);
      FixedValue(parts[0].value, parts[0].width);
      LayoutReadsBack(parts[1..]);
      var text := Layout(parts);
      assert text[..parts[0].width] == head && text[parts[0].width + 1..] == Layout(parts[1..]);
      assert Widths(parts)[1..] == Widths(parts[1..]);
      assert Values(parts) == [parts[0].value] + Values(parts[1..]);
    }
  }

  /** Lexicographic order of the values. */
  predicate ValuesLess(a: seq<Part>, b: seq<Part>) {
    a != [] && b != [] && (a[0].value < b[0].value || (a[0].value == b[0].value && ValuesLess(a[1..], b[1..])))
  }

  ghost predicate SameShape(a: seq<Part>, b: seq<Part>) {
    |a| == |b| && forall i :: 0 <= i < |a| ==> a[i].width == b[i].width && a[i].separator == b[i].separator
  }

  lemma {:induction false} LayoutOrder(a: seq<Part>, b: seq<Part>)
    requires Fits(a) && Fits(b) && SameShape(a, b)
    ensures Less(Layout(a), Layout(b)) <==> ValuesLess(a, b)
  {
    if a != [] {
      var x, y := Fixed(a[0].value, a[0].width), Fixed(b[0].value, b[0].width);
      FixedOrder(a[0].value, b[0].value, a[0].width);
      FixedValue(a[0].value, a[0].width);
      FixedValue(b[0].value, b[0].width);
      LayoutOrder(a[1..], b[1..]);
      var separator := [a[0].separator];
      LessHeads(x + separator, y + separator, Layout(a[1..]), Layout(b[1..]));
      LessHeads(x, y, separator, separator);
      LessTotal(separator, separator);
      assert x + separator == y + separator <==> x == y by {
        assert (x + separator)[..|x|] == x && (y + separator)[..|y|] == y;
      }
    }
  }

  lemma ClockFields(rem: nat)
    requires rem < 86_400
    ensures rem / 3600 < 24 && rem % 3600 / 60 < 60 && rem % 60 < 60
    ensures rem == 3600 * (rem / 3600) + 60 * (rem % 3600 / 60) + rem % 60
  {
  }

  lemma PartsFit(secs: nat)
    requires secs < YEAR_10000
    ensures Fits(Parts(secs))
  {
    CivilRoundTrip(secs / 86_400);
    YearBounds(secs / 86_400, 1970, 10000);
    ClockFields(secs % 86_400);
    TenPowers();
  }

  lemma TenPowers()
    ensures Power10(2) == 100 && Power10(4) == 10000
  {
    assert Power10(1) == 10 && Power10(2) == 10 * Power10(1) && Power10(3) == 10 * Power10(2);
  }

  lemma LayoutOfSix(a: Part, b: Part, c: Part, d: Part, e: Part, f: Part)
    ensures Layout([a, b, c, d, e, f]) ==
              Fixed(a.value, a.width) + [a.separator] + (Fixed(b.value, b.width) + [b.separator] +
                (Fixed(c.value, c.width) + [c.separator] + (Fixed(d.value, d.width) + [d.separator] +
                  (Fixed(e.value, e.width) + [e.separator] + (Fixed(f.value, f.width) + [f.separator])))))
  {
    assert [f][1..] == [] && Layout([f]) == Fixed(f.value, f.width) + [f.separator];
    assert [e, f][1..] == [f] && [d, e, f][1..] == [e, f] && [c, d, e, f][1..] == [d, e, f];
    assert [b, c, d, e, f][1..] == [c, d, e, f] && [a, b, c, d, e, f][1..] == [b, c, d, e, f];
    assert Layout([e, f]) == Fixed(e.value, e.width) + [e.separator] + Layout([f]);
    assert Layout([d, e, f]) == Fixed(d.value, d.width) + [d.separator] + Layout([e, f]);
    assert Layout([c, d, e, f]) == Fixed(c.value, c.width) + [c.separator] + Layout([d, e, f]);
    assert Layout([b, c, d, e, f]) == Fixed(b.value, b.width) + [b.separator] + Layout([c, d, e, f]);
  }

  /** Before the year 10000 the timestamp is its six fields at fixed widths. */
  lemma FormatIsLayout(secs: nat)
    requires secs < YEAR_10000
    ensures Fits(Parts(secs)) && FormatUnixTs(secs) == Layout(Parts(secs))
  {
    PartsFit(secs);
    var p := Parts(secs);
    forall i | 0 <= i < 6 ensures Padded(p[i].value, p[i].width) == Fixed(p[i].value, p[i].width) {
      PaddedFixed(p[i].value, p[i].width);
    }
    LayoutOfSix(p[0], p[1], p[2], p[3], p[4], p[5]);
    assert p == [p[0], p[1], p[2], p[3], p[4], p[5]];
  }

  lemma {:induction false} FixedDigits(n: nat, width: nat)
    ensures |Fixed(n, width)| == width && forall k :: 0 <= k < width ==> '0' <= Fixed(n, width)[k] <= '9'
  {
    if width > 0 { FixedDigits(n / 10, width - 1); }
  }

  /** The shape of section 5.6 of RFC 3339: `-`, `T`, `:` and `Z` in their places
      and digits everywhere else. */
  lemma FormatShape(secs: nat)
    requires secs < YEAR_10000
    ensures var t := FormatUnixTs(secs);
            && |t| == 20
            && t[4] == '-' && t[7] == '-' && t[10] == 'T' && t[13] == ':' && t[16] == ':' && t[19] == 'Z'
            && forall i :: 0 <= i < 20 && i !in {4, 7, 10, 13, 16, 19} ==> '0' <= t[i] <= '9'
  {
    FormatIsLayout(secs);
    var p := Parts(secs);
    LayoutOfSix(p[0], p[1], p[2], p[3], p[4], p[5]);
    assert p == [p[0], p[1], p[2], p[3], p[4], p[5]];
    SixDigits(p);
  }

  lemma SixDigits(p: seq<Part>)
    requires |p| == 6
    requires p[0].width == 4 && p[1].width == 2 && p[2].width == 2 && p[3].width == 2 && p[4].width == 2 && p[5].width == 2
    requires p[0].separator == '-' && p[1].separator == '-' && p[2].separator == 'T'
    requires p[3].separator == ':' && p[4].separator == ':' && p[5].separator == 'Z'
    ensures var t := Fixed(p[0].value, p[0].width) + [p[0].separator] + (Fixed(p[1].value, p[1].width) + [p[1].separator] +
                (Fixed(p[2].value, p[2].width) + [p[2].separator] + (Fixed(p[3].value, p[3].width) + [p[3].separator] +
                  (Fixed(p[4].value, p[4].width) + [p[4].separator] + (Fixed(p[5].value, p[5].width) + [p[5].separator])))));
            && |t| == 20
            && t[4] == '-' && t[7] == '-' && t[10] == 'T' && t[13] == ':' && t[16] == ':' && t[19] == 'Z'
            && forall i :: 0 <= i < 20 && i !in {4, 7, 10, 13, 16, 19} ==> '0' <= t[i] <= '9'
  {
    forall i | 0 <= i < 6
      ensures |Fixed(p[i].value, p[i].width)| == p[i].width
      ensures forall k :: 0 <= k < p[i].width ==> '0' <= Fixed(p[i].value, p[i].width)[k] <= '9'
    {
      FixedDigits(p[i].value, p[i].width);
    }
  }

  /** The instant a timestamp's text denotes. */
  function InstantOf(text: string): int {
    InstantOfValues(ReadParts(text, [4, 2, 2, 2, 2, 2]))
  }

  function InstantOfValues(v: seq<int>): int {
    if |v| == 6 && ValidDate(Date(v[0], v[1], v[2])) then
      86_400 * DayNumber(Date(v[0], v[1], v[2])) + 3600 * v[3] + 60 * v[4] + v[5]
    else -1
  }

  lemma InstantOfParts(secs: nat)
    ensures InstantOfValues(Values(Parts(secs))) == secs
  {
    var date, rem := CivilFromDays(secs / 86_400), secs % 86_400;
    var v := Values(Parts(secs));
    CivilRoundTrip(secs / 86_400);
    ClockFields(rem);
    assert v[0] == date.year && v[1] == date.month && v[2] == date.day;
    assert v[3] == rem / 3600 && v[4] == rem % 3600 / 60 && v[5] == rem % 60;
    assert Date(v[0], v[1], v[2]) == date;
  }

  /** Up to the year 9999 the text decodes back to the instant. */
  lemma FormatRoundTrip(secs: nat)
    requires secs < YEAR_10000
    ensures InstantOf(FormatUnixTs(secs)) == secs
  {
    FormatIsLayout(secs);
    LayoutReadsBack(Parts(secs));
    assert Widths(Parts(secs)) == [4, 2, 2, 2, 2, 2];
    InstantOfParts(secs);
  }

  lemma ClockOrder(r: nat, q: nat)
    requires r < 86_400 && q < 86_400
    ensures r < q <==>
              || r / 3600 < q / 3600
              || (r / 3600 == q / 3600 && (r % 3600 / 60 < q % 3600 / 60 ||
                   (r % 3600 / 60 == q % 3600 / 60 && r % 60 < q % 60)))
  {
    ClockFields(r);
    ClockFields(q);
  }

  lemma ValuesLessAt(p: seq<Part>, q: seq<Part>, i: nat)
    requires |p| == |q| && i < |p|
    ensures ValuesLess(p[i..], q[i..]) <==>
              p[i].value < q[i].value || (p[i].value == q[i].value && ValuesLess(p[i + 1..], q[i + 1..]))
  {
    assert p[i..][1..] == p[i + 1..] && q[i..][1..] == q[i + 1..];
  }

  lemma SixFields(p: seq<Part>, q: seq<Part>)
    requires |p| == 6 && |q| == 6
    ensures ValuesLess(p, q) <==>
              var u, v := Date(p[0].value, p[1].value, p[2].value), Date(q[0].value, q[1].value, q[2].value);
              Before(u, v) || (u == v &&
                (p[3].value < q[3].value || (p[3].value == q[3].value &&
                  (p[4].value < q[4].value || (p[4].value == q[4].value && p[5].value < q[5].value)))))
  {
    assert p[0..] == p && q[0..] == q;
    ValuesLessAt(p, q, 0);
    ValuesLessAt(p, q, 1);
    ValuesLessAt(p, q, 2);
    ValuesLessAt(p, q, 3);
    ValuesLessAt(p, q, 4);
    ValuesLessAt(p, q, 5);
  }

  /** Days and their dates are in the same order. */
  lemma CivilOrder(m: int, n: int)
    ensures Before(CivilFromDays(m), CivilFromDays(n)) <==> m < n
    ensures CivilFromDays(m) == CivilFromDays(n) <==> m == n
  {
    CivilRoundTrip(m);
    CivilRoundTrip(n);
    DayNumberMonotone(CivilFromDays(m), CivilFromDays(n));
  }

  lemma PartsValues(secs: nat)
    ensures var p, rem := Parts(secs), secs % 86_400;
            && |p| == 6
            && Date(p[0].value, p[1].value, p[2].value) == CivilFromDays(secs / 86_400)
            && p[3].value == rem / 3600 && p[4].value == rem % 3600 / 60 && p[5].value == rem % 60
  {
  }

  lemma PartsOrder(a: nat, b: nat)
    ensures ValuesLess(Parts(a), Parts(b)) <==> a < b
  {
    PartsValues(a);
    PartsValues(b);
    CivilOrder(a / 86_400, b / 86_400);
    ClockOrder(a % 86_400, b % 86_400);
    DayThenClock(a, b);
    SixFields(Parts(a), Parts(b));
  }

  lemma DayThenClock(a: nat, b: nat)
    ensures a < b <==> a / 86_400 < b / 86_400 || (a / 86_400 == b / 86_400 && a % 86_400 < b % 86_400)
  {
  }

  /** Up to the year 9999 timestamps sort as text in time order. */
  lemma FormatSortsByTime(a: nat, b: nat)
    requires a < YEAR_10000 && b < YEAR_10000
    ensures Less(FormatUnixTs(a), FormatUnixTs(b)) <==> a < b
  {
    FormatIsLayout(a);
    FormatIsLayout(b);
    LayoutOrder(Parts(a), Parts(b));
    PartsOrder(a, b);
  }
}
