/**
 Unix time to civil date, twice: the closed form used for RPC timestamps and the counting loop
 used for Bluetooth timestamps. Both are proved to walk the Gregorian calendar day by day.
 */
module Calendar {

  datatype Date = Date(year: int, month: int, day: int)

  predicate IsLeap(y: int) {
    (y % 4 == 0 && y % 100 != 0) || y % 400 == 0
  }

  function MonthLength(y: int, m: int): int {
    if m == 2 then (if IsLeap(y) then 29 else 28)
    else if m == 4 || m == 6 || m == 9 || m == 11 then 30
    else 31
  }

  function YearLength(y: int): int {
    if IsLeap(y) then 366 else 365
  }

  function NextDay(d: Date): Date {
    if d.day < MonthLength(d.year, d.month) then Date(d.year, d.month, d.day + 1)
    else if d.month < 12 then Date(d.year, d.month + 1, 1)
    else Date(d.year + 1, 1, 1)
  }

  // ---------------------------------------------------------------------
  // The closed form

  /** Division as the machine does it, rounding toward zero. */
  function TruncDiv(a: int, b: int): int
    requires b > 0
  {
    if a >= 0 then a / b else -((-a) / b)
  }

  function Era(z: int): int {
    TruncDiv(if z >= 0 then z else z - 146_096, 146_097)
  }

  /** Year within the 400-year era from the day within the era; years start in March. */
  function YearOfEra(doe: int): int {
    (doe - doe / 1460 + doe / 36_524 - doe / 146_096) / 365
  }

  /** Month and day from the day of a year that starts in March. */
  function FromMarch(y: int, doy: int): Date {
    var mp := (5 * doy + 2) / 153;
    var d := doy - (153 * mp + 2) / 5 + 1;
    var m := if mp < 10 then mp + 3 else mp - 9;
    Date(if m <= 2 then y + 1 else y, m, d)
  }

  function ClosedForm(days: int): Date {
    var z := days + 719_468;
    var era := Era(z);
    var doe := z - era * 146_097;
    var yoe := YearOfEra(doe);
    FromMarch(yoe + era * 400, doe - (365 * yoe + yoe / 4 - yoe / 100))
  }

  /** First day of year `k` of an era, counted from the start of the era. */
  function YearStart(k: int): int {
    365 * k + k / 4 - k / 100 + k / 400
  }

  lemma EraIsFloor(z: int)
    ensures 0 <= z - Era(z) * 146_097 < 146_097
  {
  }

  /** A day of an era is day `doy` of year `y` of a four-year cycle `q` of a century `c`. */
  predicate Splits(doe: int, c: int, q: int, y: int, doy: int) {
    && 0 <= c <= 3 && 0 <= q <= 24 && 0 <= y <= 3 && 0 <= doy
    && doe == 36_524 * c + 1461 * q + 365 * y + doy
    && doy <= (if y == 3 && (q < 24 || c == 3) then 365 else 364)
  }

  lemma SplitDay(doe: int) returns (c: int, q: int, y: int, doy: int)
    requires 0 <= doe < 146_097
    ensures Splits(doe, c, q, y, doy)
  {
    c := if doe / 36_524 > 3 then 3 else doe / 36_524;
    var inCentury := doe - 36_524 * c;
    q := inCentury / 1461;
    var inCycle := inCentury - 1461 * q;
    y := if inCycle / 365 > 3 then 3 else inCycle / 365;
    doy := inCycle - 365 * y;
  }

  /** The corrections for leap days cancel exactly. */
  lemma YearOfEraOfSplit(doe: int, c: int, q: int, y: int, doy: int)
    requires Splits(doe, c, q, y, doy)
    ensures YearOfEra(doe) == 100 * c + 4 * q + y
  {
    var inCycle := 365 * y + doy;
    var carry := if 24 * c + q + inCycle >= 1460 then 1 else 0;
    assert doe == 1460 * (25 * c + q) + (24 * c + q + inCycle);
    assert doe / 1460 == 25 * c + q + carry;
    var last := if doe == 146_096 then 1 else 0;
    assert doe / 36_524 == c + last && doe / 146_096 == last;
    assert (doe - doe / 1460 + doe / 36_524 - doe / 146_096) == 365 * (100 * c + 4 * q + y) + (doy - carry);
    assert 0 <= doy - carry < 365;
  }

  lemma YearStartOfSplit(doe: int, c: int, q: int, y: int, doy: int)
    requires Splits(doe, c, q, y, doy)
    ensures YearStart(100 * c + 4 * q + y) == doe - doy
    ensures doe < YearStart(100 * c + 4 * q + y + 1)
  {
    var k := 100 * c + 4 * q + y;
    assert k / 4 == 25 * c + q && k / 100 == c && k / 400 == 0;
    if y < 3 {
      assert (k + 1) / 4 == 25 * c + q && (k + 1) / 100 == c && (k + 1) / 400 == 0;
    } else if q < 24 {
      assert (k + 1) / 4 == 25 * c + q + 1 && (k + 1) / 100 == c && (k + 1) / 400 == 0;
    } else {
      assert k + 1 == 100 * (c + 1);
      assert (k + 1) / 4 == 25 * c + 25 && (k + 1) / 100 == c + 1;
      assert (k + 1) / 400 == if c == 3 then 1 else 0;
    }
  }

  lemma YearOfEraIsRight(doe: int)
    requires 0 <= doe < 146_097
    ensures 0 <= YearOfEra(doe) < 400
    ensures YearStart(YearOfEra(doe)) <= doe < YearStart(YearOfEra(doe) + 1)
  {
    var c, q, y, doy := SplitDay(doe);
    YearOfEraOfSplit(doe, c, q, y, doy);
    YearStartOfSplit(doe, c, q, y, doy);
  }

  /** A year of an era has 366 days exactly when the civil year its last months fall in is a leap year. */
  lemma YearSpan(k: int)
    requires 0 <= k < 400
    ensures YearStart(k + 1) - YearStart(k) == YearLength(k + 1)
  {
    assert (k + 1) / 4 - k / 4 == if (k + 1) % 4 == 0 then 1 else 0;
    assert (k + 1) / 100 - k / 100 == if (k + 1) % 100 == 0 then 1 else 0;
    assert (k + 1) / 400 - k / 400 == if (k + 1) % 400 == 0 then 1 else 0;
    assert (k + 1) % 100 == 0 ==> (k + 1) % 4 == 0;
    assert (k + 1) % 400 == 0 ==> (k + 1) % 100 == 0;
  }

  lemma YearOfEraIsUnique(doe: int, k: int)
    requires 0 <= doe < 146_097 && 0 <= k < 400 && YearStart(k) <= doe < YearStart(k + 1)
    ensures YearOfEra(doe) == k
  {
    YearOfEraIsRight(doe);
    YearStartGrows(k, YearOfEra(doe));
  }

  lemma YearStartGrows(a: int, b: int)
    requires 0 <= a && 0 <= b
    ensures a < b ==> YearStart(a + 1) <= YearStart(b)
    ensures b < a ==> YearStart(b + 1) <= YearStart(a)
  {
  }

  /** Within a year that starts in March the formula steps from each day to the next. */
  lemma FromMarchSteps(y: int, doy: int)
    requires 0 <= doy && doy + 1 < YearLength(y + 1)
    ensures FromMarch(y, doy + 1) == NextDay(FromMarch(y, doy))
  {
    var mp := (5 * doy + 2) / 153;
    assert mp <= (5 * doy + 7) / 153 <= mp + 1;
  }

  lemma FromMarchWraps(y: int)
    ensures FromMarch(y + 1, 0) == NextDay(FromMarch(y, YearLength(y + 1) - 1))
  {
  }

  lemma LeapYearsRepeat(y: int, era: int)
    ensures IsLeap(y + era * 400) <==> IsLeap(y)
  {
    Repeat400(y, era);
    Repeat100(y, era * 4);
    Repeat4(y, era * 100);
  }

  lemma Repeat400(y: int, k: int)
    ensures (y + k * 400) % 400 == y % 400
  {
  }

  lemma Repeat100(y: int, k: int)
    ensures (y + k * 100) % 100 == y % 100
  {
  }

  lemma Repeat4(y: int, k: int)
    ensures (y + k * 4) % 4 == y % 4
  {
  }

  /** `days` is day `doy` of year `k` of era `era`. */
  predicate Describes(days: int, era: int, k: int, doy: int) {
    && 0 <= k < 400 && 0 <= doy < YearLength(k + 1)
    && days + 719_468 == era * 146_097 + YearStart(k) + doy
  }

  lemma EraIsUnique(z: int, era: int, doe: int)
    requires 0 <= doe < 146_097 && z == era * 146_097 + doe
    ensures Era(z) == era
  {
    EraIsFloor(z);
  }

  lemma DayInEra(k: int, doy: int)
    requires 0 <= k < 400 && 0 <= doy < YearLength(k + 1)
    ensures 0 <= YearStart(k) <= YearStart(k) + doy < YearStart(k + 1) <= 146_097
    ensures YearStart(k) == 365 * k + k / 4 - k / 100
  {
    YearSpan(k);
    if k < 399 { YearStartGrows(k + 1, 400); }
    if k > 0 { YearStartGrows(0, k); }
  }

  /** The closed form depends only on which day of which year it is. */
  lemma ClosedFormIs(days: int, era: int, k: int, doy: int)
    requires Describes(days, era, k, doy)
    ensures ClosedForm(days) == FromMarch(k + era * 400, doy)
  {
    DayInEra(k, doy);
    var doe := YearStart(k) + doy;
    EraIsUnique(days + 719_468, era, doe);
    YearOfEraIsUnique(doe, k);
  }

  lemma Described(days: int) returns (era: int, k: int, doy: int)
    ensures Describes(days, era, k, doy)
  {
    var z := days + 719_468;
    era := Era(z);
    EraIsFloor(z);
    var doe := z - era * 146_097;
    YearOfEraIsRight(doe);
    k := YearOfEra(doe);
    YearSpan(k);
    doy := doe - YearStart(k);
  }

  /** The day after, in the same terms. */
  lemma DescribedNext(days: int, era: int, k: int, doy: int)
    requires Describes(days, era, k, doy)
    ensures doy + 1 < YearLength(k + 1) ==> Describes(days + 1, era, k, doy + 1)
    ensures doy + 1 == YearLength(k + 1) && k < 399 ==> Describes(days + 1, era, k + 1, 0)
    ensures doy + 1 == YearLength(k + 1) && k == 399 ==> Describes(days + 1, era + 1, 0, 0)
  {
    YearSpan(k);
  }

  lemma MarchStepsOn(era: int, k: int, doy: int)
    requires 0 <= doy < YearLength(k + 1)
    ensures NextDay(FromMarch(k + era * 400, doy))
         == if doy + 1 < YearLength(k + 1) then FromMarch(k + era * 400, doy + 1) else FromMarch(k + 1 + era * 400, 0)
  {
    LeapYearsRepeat(k + 1, era);
    if doy + 1 < YearLength(k + 1) { FromMarchSteps(k + era * 400, doy); } else { FromMarchWraps(k + era * 400); }
  }

  lemma StepAlong(days: int, era: int, k: int, doy: int, era': int, k': int, doy': int)
    requires Describes(days, era, k, doy) && Describes(days + 1, era', k', doy')
    requires FromMarch(k' + era' * 400, doy') == NextDay(FromMarch(k + era * 400, doy))
    ensures ClosedForm(days + 1) == NextDay(ClosedForm(days))
  {
    ClosedFormIs(days, era, k, doy);
    ClosedFormIs(days + 1, era', k', doy');
  }

  /** The closed form walks the calendar: each day is followed by the next, on all integers. */
  lemma ClosedFormSteps(days: int)
    ensures ClosedForm(days + 1) == NextDay(ClosedForm(days))
  {
    var era, k, doy := Described(days);
    DescribedNext(days, era, k, doy);
    MarchStepsOn(era, k, doy);
    if doy + 1 < YearLength(k + 1) {
      StepAlong(days, era, k, doy, era, k, doy + 1);
    } else if k < 399 {
      StepAlong(days, era, k, doy, era, k + 1, 0);
    } else {
      StepAlong(days, era, k, doy, era + 1, 0, 0);
    }
  }

  // ---------------------------------------------------------------------
  // Counting days

  /** The date `n` days after 1 January 1970. */
  function DateOf(n: nat): Date {
    if n == 0 then Date(1970, 1, 1) else NextDay(DateOf(n - 1))
  }

  lemma EpochIsRight()
    ensures ClosedForm(0) == Date(1970, 1, 1)
  {
    assert YearStart(369) == 134_774;
    ClosedFormIs(0, 4, 369, 306);
  }

  /** `f` goes from day `k` to the next day of the calendar. */
  ghost predicate StepsAt(f: int -> Date, k: int) {
    f(k + 1) == NextDay(f(k))
  }

  /** Whatever starts at the epoch and steps through the calendar is the calendar. */
  lemma {:induction false} SteppingIsDate(f: int -> Date, n: nat)
    requires f(0) == Date(1970, 1, 1) && forall k: int :: StepsAt(f, k)
    ensures f(n) == DateOf(n)
  {
    if n > 0 {
      SteppingIsDate(f, n - 1);
      assert StepsAt(f, n - 1);
    }
  }

  /** The closed form is the calendar. */
  lemma ClosedFormIsDate(n: nat)
    ensures ClosedForm(n) == DateOf(n)
  {
    EpochIsRight();
    forall k: int ensures StepsAt(ClosedForm, k) { ClosedFormSteps(k); }
    SteppingIsDate(ClosedForm, n);
  }

  lemma {:induction false} WithinMonth(n: nat, y: int, m: int, k: nat)
    requires DateOf(n) == Date(y, m, 1) && k < MonthLength(y, m)
    ensures DateOf(n + k) == Date(y, m, 1 + k)
  {
    if k > 0 { WithinMonth(n, y, m, k - 1); }
  }

  lemma NextMonth(n: nat, y: int, m: int)
    requires DateOf(n) == Date(y, m, 1) && 1 <= m <= 12
    ensures DateOf(n + MonthLength(y, m)) == if m < 12 then Date(y, m + 1, 1) else Date(y + 1, 1, 1)
  {
    WithinMonth(n, y, m, MonthLength(y, m) - 1);
  }

  /** Days of the year before month `m`. */
  function DaysBefore(y: int, m: int): int
    requires 1 <= m <= 13
  {
    if m == 1 then 0 else DaysBefore(y, m - 1) + MonthLength(y, m - 1)
  }

  lemma {:induction false} StartOfMonth(n: nat, y: int, m: int)
    requires DateOf(n) == Date(y, 1, 1) && 1 <= m <= 12
    ensures DaysBefore(y, m) >= 0 && DateOf(n + DaysBefore(y, m)) == Date(y, m, 1)
  {
    if m > 1 {
      StartOfMonth(n, y, m - 1);
      NextMonth(n + DaysBefore(y, m - 1), y, m - 1);
    }
  }

  lemma DaysInYear(y: int)
    ensures DaysBefore(y, 13) == YearLength(y)
  {
    var jun, dec := DaysBefore(y, 6), DaysBefore(y, 12);
    assert DaysBefore(y, 3) == DaysBefore(y, 2) + MonthLength(y, 2);
    assert DaysBefore(y, 5) == DaysBefore(y, 3) + 61;
    assert jun == DaysBefore(y, 5) + 31;
    assert DaysBefore(y, 8) == jun + 61;
    assert DaysBefore(y, 10) == DaysBefore(y, 8) + 61;
    assert DaysBefore(y, 11) == DaysBefore(y, 10) + 31;
    assert dec == DaysBefore(y, 10) + 61;
  }

  lemma NextYear(n: nat, y: int)
    requires DateOf(n) == Date(y, 1, 1)
    ensures DateOf(n + YearLength(y)) == Date(y + 1, 1, 1)
  {
    StartOfMonth(n, y, 12);
    NextMonth(n + DaysBefore(y, 12), y, 12);
    DaysInYear(y);
    assert DaysBefore(y, 13) == DaysBefore(y, 12) + MonthLength(y, 12);
  }

  datatype Timestamp = Timestamp(year: int, month: int, day: int, hour: int, minute: int, second: int)

  /** Reduce to a signed or unsigned 32-bit value, as a cast does. */
  function AsU32(x: int): int {
    x % 0x1_0000_0000
  }

  function AsI32(x: int): int {
    if AsU32(x) < 0x8000_0000 then AsU32(x) else AsU32(x) - 0x1_0000_0000
  }

  /** The closed form with the time of day, as the RPC formatter prints it. */
  function RpcTimestamp(secs: nat): Timestamp {
    var d := ClosedForm(secs / 86_400);
    var today := secs % 86_400;
    Timestamp(AsI32(d.year), d.month, d.day, today / 3600, today % 3600 / 60, today % 60)
  }

  /** The first counting loop: whole years. */
  method CountYears(total: nat) returns (year: int, days: nat)
    ensures days <= total && days < YearLength(year) && DateOf(total - days) == Date(year, 1, 1)
  {
    days := total;
    year := 1970;
    while true
      invariant days <= total && DateOf(total - days) == Date(year, 1, 1)
      decreases days
    {
      var daysIn := if IsLeap(year) then 366 else 365;
      if days < daysIn {
        break;
      }
      NextYear(total - days, year);
      days := days - daysIn;
      year := year + 1;
    }
  }

  /** The second counting loop: whole months. */
  method CountMonths(year: int, dayOfYear: nat) returns (month: int, days: nat)
    requires dayOfYear < YearLength(year)
    ensures 1 <= month <= 12 && days < MonthLength(year, month) && days + DaysBefore(year, month) == dayOfYear
  {
    days := dayOfYear;
    var leap := IsLeap(year);
    var monthDays := [31, if leap then 29 else 28, 31, 30, 31, 30, 31, 31, 30, 31, 30, 31];
    assert forall m :: 1 <= m <= 12 ==> monthDays[m - 1] == MonthLength(year, m);
    month := 1;
    DaysInYear(year);
    while month <= 12 && days >= monthDays[month - 1]
      invariant 1 <= month <= 13
      invariant days + DaysBefore(year, month) == dayOfYear < DaysBefore(year, 13)
      decreases 13 - month
    {
      days := days - monthDays[month - 1];
      month := month + 1;
    }
  }

  method CountDays(total: nat) returns (date: Date)
    ensures date == DateOf(total)
  {
    var year, dayOfYear := CountYears(total);
    var month, days := CountMonths(year, dayOfYear);
    DayOfMonth(total - dayOfYear, year, month, days);
    date := Date(year, month, days + 1);
  }

  lemma DayOfMonth(n: nat, y: int, m: int, days: nat)
    requires DateOf(n) == Date(y, 1, 1) && 1 <= m <= 12 && days < MonthLength(y, m)
    ensures DaysBefore(y, m) >= 0 && DateOf(n + DaysBefore(y, m) + days) == Date(y, m, days + 1)
  {
    StartOfMonth(n, y, m);
    WithinMonth(n + DaysBefore(y, m), y, m, days);
  }

  method YmdhmsFromUnix(t: nat) returns (r: Timestamp)
    ensures var d := DateOf(t / 86_400);
      r == Timestamp(AsU32(d.year), d.month, d.day, t / 3600 % 24, t / 60 % 60, t % 60)
    ensures DateOf(t / 86_400).year < 0x8000_0000 ==> r == RpcTimestamp(t)
  {
    ConversionsAgree(t);
    var date := CountDays(t / 86_400);
    r := Timestamp(AsU32(date.year), date.month, date.day, t / 3600 % 24, t / 60 % 60, t % 60);
  }

  /** Both conversions agree exactly when the year, cut to 32 bits, is not negative as a signed value. */
  lemma ConversionsAgree(t: nat)
    ensures var d := DateOf(t / 86_400);
      (RpcTimestamp(t) == Timestamp(AsU32(d.year), d.month, d.day, t / 3600 % 24, t / 60 % 60, t % 60))
      <==> AsU32(d.year) < 0x8000_0000
    ensures DateOf(t / 86_400).year < 0x8000_0000 ==> AsU32(DateOf(t / 86_400).year) < 0x8000_0000
  {
    ClosedFormIsDate(t / 86_400);
    YearsStartAt1970(t / 86_400);
    TimeOfDay(t);
    CastsAgree(DateOf(t / 86_400).year);
  }

  lemma CastsAgree(year: int)
    requires year >= 0
    ensures AsI32(year) == AsU32(year) <==> AsU32(year) < 0x8000_0000
    ensures year < 0x8000_0000 ==> AsU32(year) == year
  {
  }

  /** The casts keep the low 32 bits, read unsigned or as two's complement. */
  lemma CastsKeepLowBits(x: int)
    ensures 0 <= AsU32(x) <= 4_294_967_295 && -2_147_483_648 <= AsI32(x) <= 2_147_483_647
    ensures (x - AsU32(x)) % 4_294_967_296 == 0 && (x - AsI32(x)) % 4_294_967_296 == 0
  {
    var q := x / 4_294_967_296;
    assert x - AsU32(x) == q * 4_294_967_296;
    assert AsI32(x) == AsU32(x) || x - AsI32(x) == (q + 1) * 4_294_967_296;
  }

  lemma TimeOfDay(t: nat)
    ensures t % 86_400 / 3600 == t / 3600 % 24
    ensures t % 86_400 % 3600 / 60 == t / 60 % 60
    ensures t % 86_400 % 60 == t % 60
  {
    var q, s := t / 86_400, t % 86_400;
    assert t == q * 86_400 + s;
    assert t / 3600 == 24 * q + s / 3600;
    assert t / 60 == 1440 * q + s / 60;
    var h, r := s / 3600, s % 3600;
    assert s / 60 == 60 * h + r / 60;
  }

  lemma {:induction false} YearsStartAt1970(n: nat)
    ensures DateOf(n).year >= 1970
  {
    if n > 0 { YearsStartAt1970(n - 1); }
  }
}
