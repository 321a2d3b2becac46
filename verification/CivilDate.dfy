/** The build date stamped into the images: days since the Unix epoch turned into a
    Gregorian date by nested divisions, and the text printed for it. */
module CivilDate {
  import opened Bits

  datatype Date = Date(year: int, month: int, day: int)

  // --- The conversion the build scripts run ----------------------------------

  /** The year of a 400-year era that starts on 1 March, from the day of the era. */
  function YearOfEra(doe: nat): int {
    (doe - doe / 1460 + doe / 36_524 - doe / 146_096) / 365
  }

  /** The date of day `doy` of the year that starts on 1 March of `y`. */
  function DateInYear(y: int, doy: int): Date {
    var mp := (5 * doy + 2) / 153;
    var d := doy - (153 * mp + 2) / 5 + 1;
    var m := if mp < 10 then mp + 3 else mp - 9;
    Date(if m <= 2 then y + 1 else y, m, d)
  }

  /** The date of day `doe` of era `era`. */
  function DateInEra(era: int, doe: nat): Date {
    var yoe := YearOfEra(doe);
    DateInYear(yoe + era * 400, doe - (365 * yoe + yoe / 4 - yoe / 100))
  }

  function CivilFromDays(days: nat): Date {
    var z := days + 719_468;
    var era := z / 146_097;
    DateInEra(era, z - era * 146_097)
  }

  // --- The calendar, by its own rules ----------------------------------------

  predicate IsLeap(y: int) {
    y % 4 == 0 && (y % 100 != 0 || y % 400 == 0)
  }

  function YearLength(y: int): int { if IsLeap(y) then 366 else 365 }

  function DaysInMonth(y: int, m: int): int {
    if m == 2 then (if IsLeap(y) then 29 else 28)
    else if m == 4 || m == 6 || m == 9 || m == 11 then 30
    else 31
  }

  predicate ValidDate(d: Date) {
    1 <= d.month <= 12 && 1 <= d.day <= DaysInMonth(d.year, d.month)
  }

  function NextDay(d: Date): Date {
    if d.day < DaysInMonth(d.year, d.month) then d.(day := d.day + 1)
    else if d.month < 12 then Date(d.year, d.month + 1, 1)
    else Date(d.year + 1, 1, 1)
  }

  const EPOCH: Date := Date(1970, 1, 1)

  /** Days from 1 January 1970 to 1 January of `y`, one year at a time. */
  function DaysBeforeYear(y: int): int
    requires y >= 1970
    decreases y
  {
    if y == 1970 then 0 else DaysBeforeYear(y - 1) + YearLength(y - 1)
  }

  /** Days of the year before month `m`, one month at a time. */
  function DaysBeforeMonth(y: int, m: int): int
    requires 1 <= m
    decreases m
  {
    if m == 1 then 0 else DaysBeforeMonth(y, m - 1) + DaysInMonth(y, m - 1)
  }

  /** The day number of a date, by counting. */
  function CountDays(d: Date): int
    requires ValidDate(d) && d.year >= 1970
  {
    DaysBeforeYear(d.year) + DaysBeforeMonth(d.year, d.month) + d.day - 1
  }

  // --- Closed forms ----------------------------------------------------------

  /** Leap days before 1 January of `y`. */
  function LeapsBefore(y: int): int {
    (y - 1) / 4 - (y - 1) / 100 + (y - 1) / 400
  }

  lemma DivStep(x: int, d: int)
    requires d > 1
    ensures x / d == (x - 1) / d + (if x % d == 0 then 1 else 0)
  {
    var q, r := (x - 1) / d, (x - 1) % d;
    assert x == d * q + (r + 1);
    if r + 1 == d {
      assert x == d * (q + 1) + 0;
      DivUnique(x, d, q + 1, 0);
    } else {
      DivUnique(x, d, q, r + 1);
    }
  }

  lemma LeapStep(y: int)
    ensures LeapsBefore(y + 1) == LeapsBefore(y) + (if IsLeap(y) then 1 else 0)
  {
    var a, b, c := (y - 1) / 4, (y - 1) / 100, (y - 1) / 400;
    DivStep(y, 4);
    DivStep(y, 100);
    DivStep(y, 400);
    assert LeapsBefore(y) == a - b + c && LeapsBefore(y + 1) == y / 4 - y / 100 + y / 400;
    hide LeapsBefore;
    Multiples(y);
  }

  lemma Multiples(y: int)
    ensures (y % 100 == 0 ==> y % 4 == 0) && (y % 400 == 0 ==> y % 100 == 0)
  {
  }

  lemma {:induction false} YearClosedForm(y: int)
    requires y >= 1970
    ensures DaysBeforeYear(y) == 365 * (y - 1970) + LeapsBefore(y) - 477
    decreases y
  {
    if y > 1970 {
      YearClosedForm(y - 1);
      LeapStep(y - 1);
    }
  }

  lemma {:induction false} MonthClosedForm(y: int, m: int)
    requires 1 <= m <= 12
    ensures DaysBeforeMonth(y, m) ==
            if m <= 2 then 31 * (m - 1) else (153 * (m - 3) + 2) / 5 + 59 + (if IsLeap(y) then 1 else 0)
    decreases m
  {
    if m > 2 {
      MonthClosedForm(y, m - 1);
    }
  }

  /** The first day of year `yoe` of an era. */
  function YearStart(yoe: int): int { 365 * yoe + yoe / 4 - yoe / 100 }

  /** Day `t` of the `k`-th four years of the `c`-th century of an era. */
  lemma YearOfSplit(c: int, k: int, t: int, e: int, j: int)
    requires 0 <= c <= 3 && 0 <= k <= 24 && 0 <= t < 1461 && 1461 * k + t < 36_524
    requires e == (24 * c + k + t) / 1460 && j == (if t < 1460 then t / 365 else 3)
    ensures YearOfEra(36_524 * c + 1461 * k + t) == 100 * c + 4 * k + j
  {
    var doe := 36_524 * c + 1461 * k + t;
    var u := 24 * c + k + t;
    DivUnique(doe, 1460, 25 * c + k + e, u - 1460 * e);
    DivUnique(doe, 36_524, c, 1461 * k + t);
    DivUnique(doe, 146_096, 0, doe);
    var n := doe - doe / 1460 + doe / 36_524 - doe / 146_096;
    assert n == 365 * (100 * c + 4 * k) + t - e;
    DivUnique(n, 365, 100 * c + 4 * k + j, t - e - 365 * j);
  }

  /** The year found is the one whose span holds the day. */
  lemma YearOfEraCorrect(doe: nat)
    requires doe < 146_097
    ensures var yoe := YearOfEra(doe);
            0 <= yoe < 400 && YearStart(yoe) <= doe && (doe < YearStart(yoe + 1) || yoe == 399)
  {
    if doe < 146_096 {
      var c, k, t, j := Split(doe);
      hide YearOfEra, YearStart;
      YearOfSplit(c, k, t, (24 * c + k + t) / 1460, j);
      SpanOfSplit(c, k, t, j);
    }
  }

  /** A day of an era by century, four years and day, and the year of the four that holds it. */
  lemma Split(doe: nat) returns (c: int, k: int, t: int, j: int)
    requires doe < 146_096
    ensures doe == 36_524 * c + 1461 * k + t && j == (if t < 1460 then t / 365 else 3)
    ensures 0 <= c <= 3 && 0 <= k <= 24 && 0 <= t < 1461 && 1461 * k + t < 36_524
    ensures 0 <= j <= 3 && 365 * j <= t && (j < 3 ==> t < 365 * j + 365)
  {
    c := doe / 36_524;
    var r := doe - 36_524 * c;
    k := r / 1461;
    t := r - 1461 * k;
    j := if t < 1460 then t / 365 else 3;
  }

  /** The span of that year, from the same split. */
  lemma SpanOfSplit(c: int, k: int, t: int, j: int)
    requires 0 <= c <= 3 && 0 <= k <= 24 && 0 <= t < 1461 && 1461 * k + t < 36_524
    requires 0 <= j <= 3 && 365 * j <= t && (j < 3 ==> t < 365 * j + 365)
    ensures var y := 100 * c + 4 * k + j;
            var doe := 36_524 * c + 1461 * k + t;
            0 <= y < 400 && YearStart(y) <= doe && (doe < YearStart(y + 1) || y == 399)
  {
    var y := 100 * c + 4 * k + j;
    DivUnique(y, 4, 25 * c + k, j);
    DivUnique(y, 100, c, 4 * k + j);
    if j < 3 {
      DivUnique(y + 1, 4, 25 * c + k, j + 1);
      DivUnique(y + 1, 100, c, 4 * k + j + 1);
    } else if k < 24 {
      DivUnique(y + 1, 4, 25 * c + k + 1, 0);
      DivUnique(y + 1, 100, c, 4 * k + 4);
    }
  }

  /** The length of the year of an era, from 1 March to the next: its leap day is in the following January year. */
  lemma DayOfYearBound(era: int, doe: nat)
    requires doe < 146_097
    ensures var yoe := YearOfEra(doe);
            var doy := doe - YearStart(yoe);
            0 <= doy <= 365 && (doy == 365 ==> IsLeap(yoe + era * 400 + 1))
  {
    YearOfEraCorrect(doe);
    var n := YearOfEra(doe) + 1;
    DivStep(n, 4);
    DivStep(n, 100);
    EraShift(era, n);
  }

  lemma EraShift(era: int, n: int)
    ensures (n + era * 400) % 4 == n % 4 && (n + era * 400) % 100 == n % 100 && (n + era * 400) % 400 == n % 400
    ensures (n + era * 400) / 4 == n / 4 + 100 * era && (n + era * 400) / 100 == n / 100 + 4 * era
    ensures (n + era * 400) / 400 == n / 400 + era
  {
    DivUnique(n + era * 400, 4, n / 4 + 100 * era, n % 4);
    DivUnique(n + era * 400, 100, n / 100 + 4 * era, n % 100);
    DivUnique(n + era * 400, 400, n / 400 + era, n % 400);
  }

  /** Months counted from March have 31, 30, 31, 30, 31 days, over and over, and the last is cut short. */
  lemma MonthOfYear(doy: int, mp: int, d: int)
    requires 0 <= doy <= 365 && mp == (5 * doy + 2) / 153 && d == doy - (153 * mp + 2) / 5 + 1
    ensures 0 <= mp <= 11 && 1 <= d <= 31
    ensures mp == 1 || mp == 3 || mp == 6 || mp == 8 ==> d <= 30
    ensures mp == 11 ==> d <= 29 && (d == 29 ==> doy == 365)
  {
  }

  lemma LeapsBeforeEra(era: int, yoe: int)
    requires 0 <= yoe < 400
    ensures LeapsBefore(yoe + era * 400 + 1) == yoe / 4 - yoe / 100 + 97 * era
  {
    EraShift(era, yoe);
  }

  lemma DateInYearValid(y: int, doy: int)
    requires 0 <= doy <= 365 && (doy == 365 ==> IsLeap(y + 1))
    ensures ValidDate(DateInYear(y, doy))
  {
    hide IsLeap;
    MonthOfYear(doy, (5 * doy + 2) / 153, DateInYear(y, doy).day);
  }

  lemma DateInYearCounts(y: int, doy: int)
    requires 0 <= doy <= 365 && ValidDate(DateInYear(y, doy)) && DateInYear(y, doy).year >= 1970
    ensures CountDays(DateInYear(y, doy)) == 365 * (y - 1970) + LeapsBefore(y + 1) + doy - 418
  {
    hide IsLeap, LeapsBefore;
    var d, mp := DateInYear(y, doy), (5 * doy + 2) / 153;
    MonthOfYear(doy, mp, d.day);
    MonthClosedForm(d.year, d.month);
    YearClosedForm(d.year);
    LeapStep(y);
  }

  lemma EraCounts(era: int, yoe: int, doy: int)
    requires 0 <= yoe < 400
    ensures 365 * (yoe + era * 400 - 1970) + LeapsBefore(yoe + era * 400 + 1) + doy - 418 ==
            era * 146_097 + YearStart(yoe) + doy - 719_468
  {
    LeapsBeforeEra(era, yoe);
    hide LeapsBefore;
  }

  lemma EraYear(era: int, yoe: int, doy: int)
    requires 0 <= yoe < 400 && 0 <= doy <= 365 && era * 146_097 + YearStart(yoe) + doy >= 719_468
    ensures DateInYear(yoe + era * 400, doy).year >= 1970
  {
    hide DateInYear, YearStart;
    YearStartBelow(yoe);
    assert era >= 4;
    if era == 4 {
      From1970(yoe, doy);
      if yoe == 369 { LateInYear(1969, doy); }
    }
    FromYear(yoe + era * 400, doy);
  }

  lemma YearStartBelow(yoe: int)
    requires 0 <= yoe < 400
    ensures YearStart(yoe) <= 365 * yoe + 99
  {
  }

  /** Day 135,080 of an era is 1 January 1970, in the year that starts on 1 March 1969. */
  lemma From1970(yoe: int, doy: int)
    requires 0 <= yoe < 400 && doy <= 365 && YearStart(yoe) + doy >= 135_080
    ensures yoe >= 369 && (yoe == 369 ==> doy >= 306)
  {
    YearStartBelow(yoe);
  }

  lemma LateInYear(y: int, doy: int)
    requires 306 <= doy <= 365
    ensures DateInYear(y, doy).year == y + 1
  {
  }

  lemma FromYear(y: int, doy: int)
    ensures DateInYear(y, doy).year >= y
  {
  }

  lemma DateInEraCorrect(era: int, doe: nat)
    requires doe < 146_097 && era * 146_097 + doe >= 719_468
    ensures var d := DateInEra(era, doe);
            ValidDate(d) && d.year >= 1970 && CountDays(d) == era * 146_097 + doe - 719_468
  {
    YearOfEraCorrect(doe);
    DayOfYearBound(era, doe);
    var yoe := YearOfEra(doe);
    var y, doy := yoe + era * 400, doe - YearStart(yoe);
    assert DateInEra(era, doe) == DateInYear(y, doy);
    hide *;
    DateInYearValid(y, doy);
    EraYear(era, yoe, doy);
    DateInYearCounts(y, doy);
    EraCounts(era, yoe, doy);
  }

  /** The date produced is a real calendar date, and counting its days returns the input. */
  lemma CivilCountsBack(days: nat)
    ensures var d := CivilFromDays(days);
            ValidDate(d) && d.year >= 1970 && CountDays(d) == days
  {
    var z := days + 719_468;
    var era := z / 146_097;
    var doe := z - era * 146_097;
    assert CivilFromDays(days) == DateInEra(era, doe);
    hide *;
    DateInEraCorrect(era, doe);
  }

  lemma CountWithinYear(d: Date)
    requires ValidDate(d) && d.year >= 1970
    ensures DaysBeforeYear(d.year) <= CountDays(d) < DaysBeforeYear(d.year + 1)
  {
    MonthClosedForm(d.year, d.month);
  }

  lemma {:induction false} YearsIncrease(y: int, y': int)
    requires 1970 <= y <= y'
    ensures DaysBeforeYear(y) <= DaysBeforeYear(y')
    decreases y'
  {
    if y < y' { YearsIncrease(y, y' - 1); }
  }

  lemma {:induction false} MonthsIncrease(y: int, m: int, m': int)
    requires 1 <= m < m'
    ensures DaysBeforeMonth(y, m) + DaysInMonth(y, m) <= DaysBeforeMonth(y, m')
    decreases m'
  {
    if m + 1 < m' { MonthsIncrease(y, m, m' - 1); }
  }

  /** Two dates with the same day number are the same date. */
  lemma CountDaysInjective(a: Date, b: Date)
    requires ValidDate(a) && ValidDate(b) && a.year >= 1970 && b.year >= 1970
    requires CountDays(a) == CountDays(b)
    ensures a == b
  {
    CountWithinYear(a);
    CountWithinYear(b);
    if a.year < b.year { YearsIncrease(a.year + 1, b.year); }
    if b.year < a.year { YearsIncrease(b.year + 1, a.year); }
    if a.month < b.month { MonthsIncrease(a.year, a.month, b.month); }
    if b.month < a.month { MonthsIncrease(a.year, b.month, a.month); }
  }

  lemma NextDayCounts(d: Date)
    requires ValidDate(d) && d.year >= 1970
    ensures ValidDate(NextDay(d)) && CountDays(NextDay(d)) == CountDays(d) + 1
  {
    MonthClosedForm(d.year, 12);
  }

  /** Every calendar date from 1970 on is the conversion of its own day number. */
  lemma CivilInvertsCount(d: Date)
    requires ValidDate(d) && d.year >= 1970
    ensures CountDays(d) >= 0 && CivilFromDays(CountDays(d)) == d
  {
    CountWithinYear(d);
    YearsIncrease(1970, d.year);
    CivilCountsBack(CountDays(d));
    CountDaysInjective(CivilFromDays(CountDays(d)), d);
  }

  /** Day 0 is 1 January 1970, and each following day number is the next calendar day. */
  lemma ConsecutiveDays(days: nat)
    ensures CivilFromDays(0) == EPOCH
    ensures CivilFromDays(days + 1) == NextDay(CivilFromDays(days))
  {
    hide CivilFromDays, CountDays, NextDay, ValidDate;
    EpochIsDayZero();
    CivilInvertsCount(EPOCH);
    CivilCountsBack(days);
    CivilCountsBack(days + 1);
    NextDayCounts(CivilFromDays(days));
    NextDayYear(CivilFromDays(days));
    CountDaysInjective(CivilFromDays(days + 1), NextDay(CivilFromDays(days)));
  }

  lemma EpochIsDayZero()
    ensures ValidDate(EPOCH) && CountDays(EPOCH) == 0 && EPOCH.year == 1970
  {
  }

  lemma NextDayYear(d: Date)
    ensures NextDay(d).year >= d.year
  {
  }

  // --- The printed stamp -----------------------------------------------------

  function Digit(d: nat): char
    requires d < 10
  {
    '0' + d as char
  }

  function Decimal(n: nat): string {
    if n < 10 then [Digit(n)] else Decimal(n / 10) + [Digit(n % 10)]
  }

  function Zeros(n: nat): string { if n == 0 then "" else "0" + Zeros(n - 1) }

  /** `{n:0width}`. */
  function Padded(n: nat, width: nat): string {
    var s := Decimal(n);
    if |s| < width then Zeros(width - |s|) + s else s
  }

  function Field(sep: char, n: nat, rest: string): string { [sep] + (Padded(n, 2) + rest) }

  /** The part of the stamp after the year. */
  function Tail(month: nat, day: nat, h: nat, m: nat): string {
    Field('-', month, Field('-', day, Field(' ', h, Field(':', m, " UTC"))))
  }

  function FormatUtcDate(secs: nat): string {
    var today := secs % 86_400;
    var d := CivilFromDays(secs / 86_400);
    CivilCountsBack(secs / 86_400);
    Padded(d.year, 4) + Tail(d.month, d.day, today / 3600, today % 3600 / 60)
  }

  /** The kernel's copy of the conversion, as one chain of expressions. */
  function KernelCivil(days: nat): Date {
    var z := days + 719_468;
    var era := (if z >= 0 then z else z - 146_096) / 146_097;
    KernelDateInEra(era, z - era * 146_097)
  }

  function KernelDateInEra(era: int, doe: int): Date {
    var yoe := (doe - doe / 1460 + doe / 36_524 - doe / 146_096) / 365;
    var y := yoe + era * 400;
    var doy := doe - (365 * yoe + yoe / 4 - yoe / 100);
    var mp := (5 * doy + 2) / 153;
    var d := doy - (153 * mp + 2) / 5 + 1;
    var m := if mp < 10 then mp + 3 else mp - 9;
    Date(if m <= 2 then y + 1 else y, m, d)
  }

  lemma KernelEraAgrees(era: int, doe: nat)
    ensures KernelDateInEra(era, doe) == DateInEra(era, doe)
  {
    var yoe := YearOfEra(doe);
    var doy := doe - (365 * yoe + yoe / 4 - yoe / 100);
    assert DateInEra(era, doe) == DateInYear(yoe + era * 400, doy);
  }

  lemma KernelCivilAgrees(days: nat)
    ensures KernelCivil(days) == CivilFromDays(days)
  {
    hide KernelDateInEra, DateInEra;
    var z := days + 719_468;
    KernelEraAgrees(z / 146_097, z - z / 146_097 * 146_097);
  }

  function KernelDate(secs: nat): string {
    var d := KernelCivil(secs / 86_400);
    KernelCivilAgrees(secs / 86_400);
    CivilCountsBack(secs / 86_400);
    Padded(d.year, 4) + "-" + Padded(d.month, 2) + "-" + Padded(d.day, 2) + " " +
    Padded(secs % 86_400 / 3600, 2) + ":" + Padded(secs % 86_400 % 3600 / 60, 2) + " UTC"
  }

  /** Both copies print the same stamp for every build time. */
  lemma CopiesAgree(secs: nat)
    ensures KernelDate(secs) == FormatUtcDate(secs)
  {
    var days := secs / 86_400;
    KernelCivilAgrees(days);
    StampFields(secs);
    hide KernelCivil, CivilFromDays, Padded;
    var d := CivilFromDays(days);
    Regroup(Padded(d.year, 4), Padded(d.month, 2), Padded(d.day, 2),
            Padded(secs % 86_400 / 3600, 2), Padded(secs % 86_400 % 3600 / 60, 2));
  }

  lemma Regroup(y: string, m: string, d: string, h: string, t: string)
    ensures y + "-" + m + "-" + d + " " + h + ":" + t + " UTC" ==
            y + (['-'] + (m + (['-'] + (d + ([' '] + (h + ([':'] + (t + " UTC"))))))))
  {
    assert y + "-" + m + "-" + d == y + (['-'] + (m + (['-'] + d)));
    assert " " + h + ":" + t + " UTC" == [' '] + (h + ([':'] + (t + " UTC")));
  }

  /** The number a run of decimal digits denotes. */
  function Value(s: string): int {
    if s == "" then 0 else Value(s[..|s| - 1]) * 10 + (s[|s| - 1] as int - '0' as int)
  }

  lemma {:induction false} ValueOfDecimal(n: nat)
    ensures Value(Decimal(n)) == n
  {
    if n >= 10 {
      ValueOfDecimal(n / 10);
      var s := Decimal(n);
      assert s[..|s| - 1] == Decimal(n / 10);
    }
  }

  lemma {:induction false} ValueOfZeros(k: nat, s: string)
    ensures Value(Zeros(k) + s) == Value(s)
    decreases k + |s|
  {
    var t := Zeros(k) + s;
    if s != "" {
      ValueOfZeros(k, s[..|s| - 1]);
      assert t[..|t| - 1] == Zeros(k) + s[..|s| - 1];
    } else if k > 0 {
      ValueOfZeros(k - 1, "");
      ZerosEnd(k - 1);
      assert t == Zeros(k) && Zeros(k - 1) + "" == Zeros(k - 1);
      assert t[..|t| - 1] == Zeros(k - 1);
    }
  }

  lemma {:induction false} ZerosEnd(k: nat)
    ensures |Zeros(k)| == k && Zeros(k + 1) == Zeros(k) + "0"
  {
    if k > 0 { ZerosEnd(k - 1); }
  }

  lemma PaddedValue(n: nat, width: nat)
    ensures Value(Padded(n, width)) == n
  {
    ValueOfDecimal(n);
    var s := Decimal(n);
    if |s| < width { ValueOfZeros(width - |s|, s); }
  }

  lemma PaddedTwo(n: nat)
    requires n < 100
    ensures |Padded(n, 2)| == 2
  {
    ZerosEnd(1);
    if n >= 10 { assert Decimal(n / 10) == [Digit(n / 10)]; }
  }

  ghost predicate InRange(month: nat, day: nat, h: nat, m: nat) {
    month < 100 && day < 100 && h < 100 && m < 100
  }

  lemma FieldInjective(sep: char, n: nat, rest: string, n': nat, rest': string)
    requires n < 100 && n' < 100
    ensures |Field(sep, n, rest)| == 3 + |rest|
    ensures Field(sep, n, rest) == Field(sep, n', rest') ==> n == n' && rest == rest'
  {
    PaddedTwo(n);
    PaddedTwo(n');
    PaddedValue(n, 2);
    PaddedValue(n', 2);
    hide Padded, Value;
    if Field(sep, n, rest) == Field(sep, n', rest') {
      assert Field(sep, n, rest)[1..] == Padded(n, 2) + rest;
      assert Field(sep, n', rest')[1..] == Padded(n', 2) + rest';
      SamePrefix(Padded(n, 2), rest, Padded(n', 2), rest');
    }
  }

  lemma SamePrefix(p: string, t: string, p': string, t': string)
    requires |p| == |p'| && p + t == p' + t'
    ensures p == p' && t == t'
  {
    assert p == (p + t)[..|p|] && t == (p + t)[|p|..];
    assert p' == (p' + t')[..|p|] && t' == (p' + t')[|p|..];
  }

  lemma TailInjective(month: nat, day: nat, h: nat, m: nat, month': nat, day': nat, h': nat, m': nat)
    requires InRange(month, day, h, m) && InRange(month', day', h', m')
    ensures |Tail(month, day, h, m)| == 16
    ensures Tail(month, day, h, m) == Tail(month', day', h', m') ==>
              month == month' && day == day' && h == h' && m == m'
  {
    hide Field;
    var z, z' := Field(':', m, " UTC"), Field(':', m', " UTC");
    var y, y' := Field(' ', h, z), Field(' ', h', z');
    var x, x' := Field('-', day, y), Field('-', day', y');
    FieldInjective('-', month, x, month', x');
    FieldInjective('-', day, y, day', y');
    FieldInjective(' ', h, z, h', z');
    FieldInjective(':', m, " UTC", m', " UTC");
  }

  lemma StampFields(secs: nat)
    ensures var d := CivilFromDays(secs / 86_400);
            var today := secs % 86_400;
            d.year >= 0 && d.month >= 0 && d.day >= 0 && InRange(d.month, d.day, today / 3600, today % 3600 / 60)
  {
    CivilCountsBack(secs / 86_400);
  }

  lemma SameTail(p: string, t: string, p': string, t': string)
    requires |t| == |t'| && p + t == p' + t'
    ensures p == p' && t == t'
  {
    var s := p + t;
    assert |p| == |p'|;
    assert p == s[..|p|] && t == s[|p|..];
    assert p' == (p' + t')[..|p|] && t' == (p' + t')[|p|..];
  }

  /** Minutes since the epoch, from the day, the hour and the minute of the stamp. */
  lemma MinuteOf(a: nat)
    ensures a / 60 == 1440 * (a / 86_400) + 60 * (a % 86_400 / 3600) + a % 86_400 % 3600 / 60
    ensures a % 86_400 / 3600 < 24 && a % 86_400 % 3600 / 60 < 60
  {
    var d, t := a / 86_400, a % 86_400;
    var h, u := t / 3600, t % 3600;
    var m, s := u / 60, u % 60;
    assert a == 86_400 * d + t && t == 3600 * h + u && u == 60 * m + s;
    DivUnique(a, 60, 1440 * d + 60 * h + m, s);
  }

  lemma SameMinute(a: nat, b: nat)
    ensures a / 60 == b / 60 <==>
              a / 86_400 == b / 86_400 && a % 86_400 / 3600 == b % 86_400 / 3600 &&
              a % 86_400 % 3600 / 60 == b % 86_400 % 3600 / 60
  {
    MinuteOf(a);
    MinuteOf(b);
    SameDigits(a / 86_400, a % 86_400 / 3600, a % 86_400 % 3600 / 60,
               b / 86_400, b % 86_400 / 3600, b % 86_400 % 3600 / 60);
  }

  lemma SameDigits(d: int, h: int, m: int, d': int, h': int, m': int)
    requires 0 <= h < 24 && 0 <= h' < 24 && 0 <= m < 60 && 0 <= m' < 60
    ensures 1440 * d + 60 * h + m == 1440 * d' + 60 * h' + m' <==> d == d' && h == h' && m == m'
  {
  }

  /** Two build times print the same stamp exactly when they fall in the same minute. */
  lemma StampIdentifiesMinute(a: nat, b: nat)
    ensures FormatUtcDate(a) == FormatUtcDate(b) <==> a / 60 == b / 60
  {
    SameMinute(a, b);
    if FormatUtcDate(a) == FormatUtcDate(b) {
      StampSplit(a, b);
    }
  }

  lemma StampSplit(a: nat, b: nat)
    requires FormatUtcDate(a) == FormatUtcDate(b)
    ensures a / 86_400 == b / 86_400 && a % 86_400 / 3600 == b % 86_400 / 3600 &&
            a % 86_400 % 3600 / 60 == b % 86_400 % 3600 / 60
  {
    var d, e := CivilFromDays(a / 86_400), CivilFromDays(b / 86_400);
    var ta, tb := a % 86_400, b % 86_400;
    StampFields(a);
    StampFields(b);
    CivilCountsBack(a / 86_400);
    CivilCountsBack(b / 86_400);
    hide CivilFromDays, Padded, Value, CountDays, ValidDate, Tail;
    TailInjective(d.month, d.day, ta / 3600, ta % 3600 / 60, e.month, e.day, tb / 3600, tb % 3600 / 60);
    TailInjective(e.month, e.day, tb / 3600, tb % 3600 / 60, d.month, d.day, ta / 3600, ta % 3600 / 60);
    SameTail(Padded(d.year, 4), Tail(d.month, d.day, ta / 3600, ta % 3600 / 60),
             Padded(e.year, 4), Tail(e.month, e.day, tb / 3600, tb % 3600 / 60));
    PaddedValue(d.year, 4);
    PaddedValue(e.year, 4);
    assert d == e;
  }

  // --- Reading the stamp back --------------------------------------------------

  ghost predicate IsNumber(s: string, n: int) {
    (forall i :: 0 <= i < |s| ==> '0' <= s[i] <= '9') && Value(s) == n
  }

  lemma {:induction false} DecimalDigits(n: nat)
    ensures forall i :: 0 <= i < |Decimal(n)| ==> '0' <= Decimal(n)[i] <= '9'
  {
    if n >= 10 { DecimalDigits(n / 10); }
  }

  lemma {:induction false} ZeroDigits(k: nat)
    ensures |Zeros(k)| == k && forall i :: 0 <= i < k ==> Zeros(k)[i] == '0'
  {
    if k > 0 { ZeroDigits(k - 1); }
  }

  lemma PaddedIsNumber(n: nat, width: nat)
    ensures IsNumber(Padded(n, width), n) && |Padded(n, width)| >= width
  {
    DecimalDigits(n);
    PaddedValue(n, width);
    if |Decimal(n)| < width { ZeroDigits(width - |Decimal(n)|); }
    hide Value, Decimal, Zeros;
  }

  lemma FieldReads(sep: char, n: nat, rest: string)
    requires n < 100
    ensures var f := Field(sep, n, rest);
            |f| == 3 + |rest| && f[0] == sep && IsNumber(f[1..3], n) && f[3..] == rest
  {
    PaddedTwo(n);
    PaddedIsNumber(n, 2);
    hide Padded, IsNumber;
    var f := Field(sep, n, rest);
    assert f[1..3] == Padded(n, 2) && f[3..] == rest;
  }

  lemma TailReads(month: nat, day: nat, h: nat, m: nat)
    requires InRange(month, day, h, m)
    ensures var t := Tail(month, day, h, m);
            && |t| == 16 && t[0] == '-' && t[3] == '-' && t[6] == ' ' && t[9] == ':' && t[12..] == " UTC"
            && IsNumber(t[1..3], month) && IsNumber(t[4..6], day) && IsNumber(t[7..9], h) && IsNumber(t[10..12], m)
  {
    hide Field, IsNumber;
    var z := Field(':', m, " UTC");
    var y := Field(' ', h, z);
    var x := Field('-', day, y);
    var t := Tail(month, day, h, m);
    FieldReads('-', month, x);
    FieldReads('-', day, y);
    FieldReads(' ', h, z);
    FieldReads(':', m, " UTC");
    assert t[6..] == x[3..] && t[9..] == y[3..] && t[12..] == z[3..];
    assert t[4..6] == x[1..3] && t[7..9] == y[1..3] && t[10..12] == z[1..3];
  }

  /** The text reads "year-month-day hour:minute UTC", with at least four digits for the year and two
      for everything else. */
  ghost predicate ReadsAs(s: string, d: Date, h: nat, m: nat) {
    var n := |s| - 16;
    && n >= 4 && s[n] == '-' && s[n + 3] == '-' && s[n + 6] == ' ' && s[n + 9] == ':' && s[n + 12..] == " UTC"
    && IsNumber(s[..n], d.year) && IsNumber(s[n + 1..n + 3], d.month) && IsNumber(s[n + 4..n + 6], d.day)
    && IsNumber(s[n + 7..n + 9], h) && IsNumber(s[n + 10..n + 12], m)
  }

  /** The stamp of a build time reads as a valid date and a time of day, and counting the days of that
      date and adding its hours and minutes gives the build time, to the minute. */
  lemma StampReads(secs: nat) returns (d: Date, h: nat, m: nat)
    ensures ReadsAs(FormatUtcDate(secs), d, h, m) && ValidDate(d) && d.year >= 1970 && h < 24 && m < 60
    ensures CountDays(d) * 86_400 + h * 3600 + m * 60 <= secs < CountDays(d) * 86_400 + h * 3600 + m * 60 + 60
  {
    hide CivilFromDays, CountDays, ValidDate, FormatUtcDate, ReadsAs;
    d, h, m := CivilFromDays(secs / 86_400), secs % 86_400 / 3600, secs % 86_400 % 3600 / 60;
    StampFields(secs);
    CivilCountsBack(secs / 86_400);
    StampText(secs, d, h, m);
    MinuteOf(secs);
    assert secs == 60 * (secs / 60) + secs % 60;
  }

  lemma StampText(secs: nat, d: Date, h: nat, m: nat)
    requires d == CivilFromDays(secs / 86_400) && h == secs % 86_400 / 3600 && m == secs % 86_400 % 3600 / 60
    requires d.year >= 0 && d.month >= 0 && d.day >= 0 && InRange(d.month, d.day, h, m)
    ensures ReadsAs(FormatUtcDate(secs), d, h, m)
  {
    hide CivilFromDays, IsNumber, Padded, Tail;
    var y, t := Padded(d.year, 4), Tail(d.month, d.day, h, m);
    PaddedIsNumber(d.year, 4);
    TailReads(d.month, d.day, h, m);
    assert FormatUtcDate(secs) == y + t;
    Shifted(y, t);
  }

  lemma Shifted(y: string, t: string)
    requires |t| == 16
    ensures var s, n := y + t, |y|;
            && s[..n] == y && s[n] == t[0] && s[n + 3] == t[3] && s[n + 6] == t[6] && s[n + 9] == t[9]
            && s[n + 1..n + 3] == t[1..3] && s[n + 4..n + 6] == t[4..6] && s[n + 7..n + 9] == t[7..9]
            && s[n + 10..n + 12] == t[10..12] && s[n + 12..] == t[12..]
  {
  }
}
