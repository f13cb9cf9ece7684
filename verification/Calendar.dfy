/** UTC calendar bucketing of segments (crates/kronika-layout/src/time.rs). */
module Calendar {

  const MICROS_PER_DAY: int := 86_400_000_000

  datatype Civil = Civil(year: int, month: int, day: int)

  datatype LayoutError =
    | SegmentIdOutOfRange(id: int)
    | MalformedDayDirectory
    | MisbucketedSegment(id: int, actual: Civil, expected: Civil)

  datatype Result<+T> = Ok(value: T) | Err(error: LayoutError)

  // ----- the code -----

  predicate IsLeapYear(year: int) {
    year % 4 == 0 && (year % 100 != 0 || year % 400 == 0)
  }

  function DaysInMonth(year: int, month: int): int {
    if month in {1, 3, 5, 7, 8, 10, 12} then 31
    else if month in {4, 6, 9, 11} then 30
    else if month == 2 then (if IsLeapYear(year) then 29 else 28)
    else 0
  }

  /** Machine division: the quotient is rounded toward zero. */
  function TruncDiv(a: int, b: int): int
    requires b > 0
  {
    if a >= 0 then a / b else -((-a) / b)
  }

  function CivilFromDays(daysSinceEpoch: int): Civil {
    var shifted := daysSinceEpoch + 719_468;
    var era := TruncDiv(if shifted >= 0 then shifted else shifted - 146_096, 146_097);
    var dayOfEra := shifted - era * 146_097;
    CivilOfEra(era, dayOfEra)
  }

  function CivilOfEra(era: int, dayOfEra: int): Civil {
    var yearOfEra := YearOfEra(dayOfEra);
    var dayOfYear := dayOfEra - (365 * yearOfEra + TruncDiv(yearOfEra, 4) - TruncDiv(yearOfEra, 100));
    var monthPrime := TruncDiv(5 * dayOfYear + 2, 153);
    var day := dayOfYear - TruncDiv(153 * monthPrime + 2, 5) + 1;
    var month := monthPrime + (if monthPrime < 10 then 3 else -9);
    var year := yearOfEra + era * 400;
    Civil(if month <= 2 then year + 1 else year, month, day)
  }

  function YearOfEra(dayOfEra: int): int {
    TruncDiv(dayOfEra - TruncDiv(dayOfEra, 1_460) + TruncDiv(dayOfEra, 36_524) - TruncDiv(dayOfEra, 146_096), 365)
  }

  function UtcDay(id: int): Result<Civil> {
    var civil := CivilFromDays(id / MICROS_PER_DAY);
    if 0 <= civil.year <= 9999 then Ok(civil) else Err(SegmentIdOutOfRange(id))
  }

  function NewSegmentId(value: int): Result<int> {
    if UtcDay(value).Ok? then Ok(value) else Err(SegmentIdOutOfRange(value))
  }

  function NewUtcDay(year: nat, month: nat, day: nat): Result<Civil> {
    if year > 9999 || !(1 <= month <= 12) || day == 0 || day > DaysInMonth(year, month) then
      Err(MalformedDayDirectory)
    else
      Ok(Civil(year, month, day))
  }

  /** The address of a segment found in directory `day`. */
  function InDay(id: int, day: Civil): Result<(int, Civil)> {
    match UtcDay(id)
    case Err(e) => Err(e)
    case Ok(expected) =>
      if expected != day then Err(MisbucketedSegment(id, day, expected)) else Ok((id, day))
  }

  // ----- the calendar, independently -----

  predicate ValidCivil(c: Civil) {
    1 <= c.month <= 12 && 1 <= c.day <= DaysInMonth(c.year, c.month)
  }

  function NextDay(c: Civil): Civil {
    if c.day < DaysInMonth(c.year, c.month) then Civil(c.year, c.month, c.day + 1)
    else if c.month < 12 then Civil(c.year, c.month + 1, 1)
    else Civil(c.year + 1, 1, 1)
  }

  predicate Before(a: Civil, b: Civil) {
    a.year < b.year
    || (a.year == b.year && (a.month < b.month || (a.month == b.month && a.day < b.day)))
  }

  // ----- mixed-radix position of a day inside its 400-year era -----

  /** Day `doy` of March-based year 400 era + 100 c + 4 q + r. */
  datatype Position = Position(era: int, c: int, q: int, r: int, doy: int) {
    predicate Valid() {
      0 <= c <= 3 && 0 <= q <= 24 && 0 <= r <= 3 && 0 <= doy < YearLength()
    }

    /** The leap day ends a March-based year. */
    function YearLength(): int {
      if r == 3 && (q < 24 || c == 3) then 366 else 365
    }

    function DayOfEra(): int { 36_524 * c + 1_461 * q + 365 * r + doy }

    function Days(): int { 146_097 * era + DayOfEra() - 719_468 }

    function Year(): int { 400 * era + 100 * c + 4 * q + r }

    function Next(): Position {
      if doy + 1 < YearLength() then this.(doy := doy + 1)
      else if r < 3 then this.(r := r + 1, doy := 0)
      else if q < 24 then this.(q := q + 1, r := 0, doy := 0)
      else if c < 3 then this.(c := c + 1, q := 0, r := 0, doy := 0)
      else Position(era + 1, 0, 0, 0, 0)
    }
  }

  function PositionOf(days: int): Position {
    var shifted := days + 719_468;
    var era, doe := shifted / 146_097, shifted % 146_097;
    var c := if doe / 36_524 <= 3 then doe / 36_524 else 3;
    var dc := doe - 36_524 * c;
    var q := dc / 1_461;
    var dq := dc - 1_461 * q;
    var r := if dq / 365 <= 3 then dq / 365 else 3;
    Position(era, c, q, r, dq - 365 * r)
  }

  lemma {:induction false} PositionIsExact(days: int)
    ensures PositionOf(days).Valid() && PositionOf(days).Days() == days
  {
    var shifted := days + 719_468;
    var doe := shifted % 146_097;
    var p := PositionOf(days);
    var dc := doe - 36_524 * p.c;
    assert 0 <= dc <= 36_524;
    assert p.c < 3 ==> dc < 36_524;
  }

  lemma {:induction false} NextPosition(p: Position)
    requires p.Valid()
    ensures p.Next().Valid() && p.Next().Days() == p.Days() + 1
  {
  }

  /** The year-of-era formula undoes the mixed radix. */
  lemma {:induction false} YearOfEraIsExact(p: Position)
    requires p.Valid()
    ensures YearOfEra(p.DayOfEra()) == 100 * p.c + 4 * p.q + p.r
    ensures 0 <= p.DayOfEra() <= 146_096
  {
    var doe := p.DayOfEra();
    var late := if 24 * p.c + p.q + 365 * p.r + p.doy >= 1_460 then 1 else 0;
    var last := if doe == 146_096 then 1 else 0;
    assert doe == 1_460 * (25 * p.c + p.q) + 24 * p.c + p.q + 365 * p.r + p.doy;
    assert doe / 1_460 == 25 * p.c + p.q + late;
    assert 1_461 * p.q + 365 * p.r + p.doy == 36_524 ==> p.c == 3;
    assert doe / 36_524 == p.c + last;
    assert doe / 146_096 == last;
    assert doe - doe / 1_460 + doe / 36_524 - doe / 146_096
        == 365 * (100 * p.c + 4 * p.q + p.r) + (p.doy - late);
  }

  function MonthStart(monthPrime: int): int { (153 * monthPrime + 2) / 5 }

  lemma {:induction false} MonthOfDay(doy: int)
    requires 0 <= doy <= 365
    ensures var m := (5 * doy + 2) / 153; 0 <= m <= 11 && MonthStart(m) <= doy < MonthStart(m + 1)
  {
  }

  /** Where a March-based month lands in the civil calendar. */
  function CivilOfPosition(p: Position): Civil {
    var m := (5 * p.doy + 2) / 153;
    Civil(if m < 10 then p.Year() else p.Year() + 1, if m < 10 then m + 3 else m - 9, p.doy - MonthStart(m) + 1)
  }

  lemma {:induction false} EraIsFloor(era: int, doe: int)
    requires 0 <= doe < 146_097
    ensures var shifted := 146_097 * era + doe;
            TruncDiv(if shifted >= 0 then shifted else shifted - 146_096, 146_097) == era
  {
    var shifted := 146_097 * era + doe;
    if shifted < 0 { assert 146_096 - shifted == 146_097 * (-era) + (146_096 - doe); }
  }

  lemma {:induction false} CivilInEra(p: Position)
    requires p.Valid()
    ensures CivilOfEra(p.era, p.DayOfEra()) == CivilOfPosition(p)
  {
    hide YearOfEra, Position.DayOfEra;
    YearOfEraIsExact(p);
    DayOfYearIsExact(p);
    MonthOfDay(p.doy);
  }

  lemma {:induction false} DayOfYearIsExact(p: Position)
    requires p.Valid()
    ensures var y := 100 * p.c + 4 * p.q + p.r;
            0 <= y && p.DayOfEra() - (365 * y + y / 4 - y / 100) == p.doy
  {
    var y := 100 * p.c + 4 * p.q + p.r;
    assert y / 4 == 25 * p.c + p.q && y / 100 == p.c;
  }

  lemma {:induction false} CivilAtPosition(p: Position)
    requires p.Valid()
    ensures CivilFromDays(p.Days()) == CivilOfPosition(p)
  {
    hide CivilOfEra, CivilOfPosition, TruncDiv;
    YearOfEraIsExact(p);
    EraIsFloor(p.era, p.DayOfEra());
    CivilInEra(p);
    assert p.Days() + 719_468 == 146_097 * p.era + p.DayOfEra();
  }

  /** The leap rule of the year whose February ends this March-based year. */
  lemma {:induction false} YearLengthIsLeapRule(p: Position)
    requires p.Valid()
    ensures p.YearLength() == 366 <==> IsLeapYear(p.Year() + 1)
  {
    var y := p.Year() + 1;
    MultipleOf4(y, 100 * p.era + 25 * p.c + p.q, p.r + 1);
    MultipleOf100(y, 4 * p.era + p.c, 4 * p.q + p.r + 1);
    MultipleOf400(y, p.era, 100 * p.c + 4 * p.q + p.r + 1);
  }

  // A year is a multiple exactly when its part after the last multiple fills a whole cycle.

  lemma {:induction false} MultipleOf4(y: int, cycles: int, rest: int)
    requires y == 4 * cycles + rest && 0 < rest <= 4
    ensures y % 4 == 0 <==> rest == 4
  {
  }

  lemma {:induction false} MultipleOf100(y: int, cycles: int, rest: int)
    requires y == 100 * cycles + rest && 0 < rest <= 100
    ensures y % 100 == 0 <==> rest == 100
  {
  }

  lemma {:induction false} MultipleOf400(y: int, cycles: int, rest: int)
    requires y == 400 * cycles + rest && 0 < rest <= 400
    ensures y % 400 == 0 <==> rest == 400
  {
  }

  lemma {:induction false} MonthLength(p: Position)
    requires p.Valid()
    ensures var m, c := (5 * p.doy + 2) / 153, CivilOfPosition(p);
            ValidCivil(c)
            && DaysInMonth(c.year, c.month)
               == (if m < 11 then MonthStart(m + 1) else p.YearLength()) - MonthStart(m)
  {
    hide MonthStart, DaysInMonth, IsLeapYear;
    MonthOfDay(p.doy);
    YearLengthIsLeapRule(p);
    var m, c := (5 * p.doy + 2) / 153, CivilOfPosition(p);
    MonthDays(m, c.year);
  }

  /** Lengths of the March-based months of a year. */
  lemma {:induction false} MonthDays(m: int, year: int)
    requires 0 <= m <= 11
    ensures DaysInMonth(year, if m < 10 then m + 3 else m - 9)
         == (if m < 11 then MonthStart(m + 1) else if IsLeapYear(year) then 366 else 365) - MonthStart(m)
  {
    hide IsLeapYear;
  }

  lemma {:induction false} PositionSuccessor(p: Position)
    requires p.Valid()
    ensures ValidCivil(CivilOfPosition(p))
    ensures CivilOfPosition(p.Next()) == NextDay(CivilOfPosition(p))
  {
    MonthLength(p);
    if p.doy + 1 < p.YearLength() { NextDayOfYear(p); } else { NextDayIsMarchFirst(p); }
  }

  lemma {:induction false} NextDayOfYear(p: Position)
    requires p.Valid() && p.doy + 1 < p.YearLength()
    ensures CivilOfPosition(p.Next()) == NextDay(CivilOfPosition(p))
  {
    hide MonthStart, DaysInMonth, IsLeapYear;
    MonthLength(p);
    MonthOfDay(p.doy);
    var m, n := (5 * p.doy + 2) / 153, p.Next();
    MonthStarts(m);
    assert n.Year() == p.Year() && n.doy == p.doy + 1;
    if n.doy < MonthStart(m + 1) {
      MonthIsUnique(n.doy, m);
    } else {
      NextMonthStarts(m, p.doy);
      MonthIsUnique(n.doy, m + 1);
    }
  }

  lemma {:induction false} NextMonthStarts(m: int, doy: int)
    requires 0 <= m <= 11 && MonthStart(m) <= doy < MonthStart(m + 1) <= doy + 1 < 366
    ensures m < 11 && MonthStart(m + 1) == doy + 1 < MonthStart(m + 2)
  {
  }

  lemma {:induction false} NextDayIsMarchFirst(p: Position)
    requires p.Valid() && p.doy + 1 == p.YearLength()
    ensures CivilOfPosition(p.Next()) == NextDay(CivilOfPosition(p))
  {
    hide DaysInMonth, IsLeapYear;
    MonthLength(p);
    MonthIsUnique(p.doy, 11);
    NextYear(p);
  }

  lemma {:induction false} MonthIsUnique(doy: int, m: int)
    requires 0 <= m <= 11 && MonthStart(m) <= doy < MonthStart(m + 1)
    ensures (5 * doy + 2) / 153 == m
  {
  }

  lemma {:induction false} NextYear(p: Position)
    requires p.Valid() && p.doy + 1 == p.YearLength()
    ensures p.Next().Year() == p.Year() + 1
  {
  }

  // ----- main results -----

  /** Consecutive day numbers are consecutive calendar days, for every day number. */
  lemma {:induction false} CivilSuccessor(days: int)
    ensures ValidCivil(CivilFromDays(days))
    ensures CivilFromDays(days + 1) == NextDay(CivilFromDays(days))
  {
    hide CivilFromDays, PositionOf, Position.Days;
    PositionIsExact(days);
    var p := PositionOf(days);
    NextPosition(p);
    CivilAtPosition(p);
    CivilAtPosition(p.Next());
    PositionSuccessor(p);
  }

  lemma {:induction false} EpochDay()
    ensures CivilFromDays(0) == Civil(1970, 1, 1)
  {
  }

  /** Later day numbers are strictly later dates; in particular the map is injective. */
  lemma {:induction false} CivilMonotone(a: int, b: int)
    requires a < b
    ensures Before(CivilFromDays(a), CivilFromDays(b))
    decreases b - a
  {
    hide CivilFromDays;
    CivilSuccessor(b - 1);
    if a >= b - 1 {
    } else {
      CivilMonotone(a, b - 1);
    }
  }

  /** The day number of a date. */
  function DaysFromCivil(c: Civil): int
    requires ValidCivil(c)
  {
    var m := if c.month >= 3 then c.month - 3 else c.month + 9;
    var y := if c.month >= 3 then c.year else c.year - 1;
    Position(y / 400, y % 400 / 100, y % 100 / 4, y % 4, MonthStart(m) + c.day - 1).Days()
  }

  /** Every valid date is reached by exactly one day number. */
  lemma {:induction false} CivilBijection(c: Civil, days: int)
    requires ValidCivil(c)
    ensures CivilFromDays(DaysFromCivil(c)) == c
    ensures CivilFromDays(days) == c ==> days == DaysFromCivil(c)
  {
    hide CivilFromDays, DaysFromCivil;
    var p := PositionOfCivil(c);
    CivilAtPosition(p);
    if CivilFromDays(days) == c {
      if days < p.Days() { CivilMonotone(days, p.Days()); }
      if p.Days() < days { CivilMonotone(p.Days(), days); }
    }
  }

  lemma {:induction false} PositionOfCivil(c: Civil) returns (p: Position)
    requires ValidCivil(c)
    ensures p.Valid() && CivilOfPosition(p) == c && p.Days() == DaysFromCivil(c)
  {
    hide MonthStart, DaysInMonth, IsLeapYear, CivilOfPosition;
    var m := if c.month >= 3 then c.month - 3 else c.month + 9;
    var y := if c.month >= 3 then c.year else c.year - 1;
    p := Position(y / 400, y % 400 / 100, y % 100 / 4, y % 4, MonthStart(m) + c.day - 1);
    YearDigits(y);
    MonthDays(m, c.year);
    MonthStarts(m);
    MonthIsUnique(p.doy, m);
    YearOfDigits(p, y);
    FitsItsYear(p, c, m);
    CivilOfParts(p, c, m);
  }

  lemma {:induction false} YearOfDigits(p: Position, y: int)
    requires 400 * p.era + 100 * p.c + 4 * p.q + p.r == y
    ensures p.Year() == y
  {
  }

  lemma {:induction false} CivilOfParts(p: Position, c: Civil, m: int)
    requires (5 * p.doy + 2) / 153 == m && p.doy == MonthStart(m) + c.day - 1
    requires m == (if c.month >= 3 then c.month - 3 else c.month + 9) && 1 <= c.month <= 12
    requires p.Year() == if c.month >= 3 then c.year else c.year - 1
    ensures CivilOfPosition(p) == c
  {
    hide MonthStart;
  }

  lemma {:induction false} FitsItsYear(p: Position, c: Civil, m: int)
    requires 0 <= p.c <= 3 && 0 <= p.q <= 24 && 0 <= p.r <= 3 && 0 <= m <= 11
    requires p.doy == MonthStart(m) + c.day - 1 && 1 <= c.day <= DaysInMonth(c.year, if m < 10 then m + 3 else m - 9)
    requires c.year == if m < 10 then p.Year() else p.Year() + 1
    ensures 0 <= p.doy < p.YearLength()
  {
    hide MonthStart, DaysInMonth, IsLeapYear;
    YearLengthIsLeapRule(p.(doy := 0));
    MonthDays(m, c.year);
    MonthStarts(m);
  }

  lemma {:induction false} MonthStarts(m: int)
    requires 0 <= m <= 11
    ensures 0 <= MonthStart(m) && MonthStart(12) == 367
    ensures if m < 11 then MonthStart(m + 1) <= 337 else MonthStart(m) == 337
  {
  }

  lemma {:induction false} YearDigits(y: int)
    ensures 400 * (y / 400) + 100 * (y % 400 / 100) + 4 * (y % 100 / 4) + y % 4 == y
    ensures 0 <= y % 400 / 100 <= 3 && 0 <= y % 100 / 4 <= 24
  {
    var a, b := y / 400, y % 400;
    var c, d := b / 100, b % 100;
    Remainder100(y, 4 * a + c, d);
    Remainder4(y, 25 * (4 * a + c) + d / 4, d % 4);
  }

  lemma {:induction false} Remainder100(y: int, q: int, r: int)
    requires y == 100 * q + r && 0 <= r < 100
    ensures y % 100 == r
  {
  }

  lemma {:induction false} Remainder4(y: int, q: int, r: int)
    requires y == 4 * q + r && 0 <= r < 4
    ensures y % 4 == r
  {
  }

  lemma {:induction false} FirstAndLastDay()
    ensures CivilFromDays(-719_528) == Civil(0, 1, 1)
    ensures CivilFromDays(2_932_896) == Civil(9999, 12, 31)
  {
    hide CivilFromDays;
    CivilAtPosition(Position(-1, 3, 24, 3, 306));
    CivilAtPosition(Position(24, 3, 24, 3, 305));
  }

  /** The layout accepts exactly the instants of 0000-01-01 through 9999-12-31. */
  lemma {:induction false} AcceptedIds(id: int)
    ensures UtcDay(id).Ok?
       <==> -719_528 * (24 * 60 * 60 * 1_000_000) <= id < 2_932_897 * (24 * 60 * 60 * 1_000_000)
    ensures NewSegmentId(id) == if UtcDay(id).Ok? then Ok(id) else Err(SegmentIdOutOfRange(id))
  {
    hide CivilFromDays;
    AcceptedDays(id / MICROS_PER_DAY);
  }

  lemma {:induction false} AcceptedDays(days: int)
    ensures 0 <= CivilFromDays(days).year <= 9999 <==> -719_528 <= days <= 2_932_896
  {
    hide CivilFromDays;
    FirstAndLastDay();
    CivilSuccessor(days);
    if days < -719_528 { CivilMonotone(days, -719_528); }
    if -719_528 < days { CivilMonotone(-719_528, days); }
    if days < 2_932_896 { CivilMonotone(days, 2_932_896); }
    if 2_932_896 < days { CivilMonotone(2_932_896, days); }
  }

  /** A segment id has one bucket: a day the directory parser accepts, the only one `InDay`
      accepts, and shared with another id exactly when both lie in the same 24 hours. */
  lemma {:induction false} OneBucket(id: int, other: int, day: Civil)
    ensures UtcDay(id).Ok? ==> IsDirectory(UtcDay(id).value)
    ensures InDay(id, day).Ok? <==> UtcDay(id) == Ok(day)
    ensures UtcDay(id).Ok? && UtcDay(other).Ok? ==>
              && (UtcDay(id) == UtcDay(other) <==> id / MICROS_PER_DAY == other / MICROS_PER_DAY)
              && (Before(UtcDay(id).value, UtcDay(other).value) <==> id / MICROS_PER_DAY < other / MICROS_PER_DAY)
  {
    hide CivilFromDays;
    var a, b := id / MICROS_PER_DAY, other / MICROS_PER_DAY;
    CivilSuccessor(a);
    if a < b { CivilMonotone(a, b); }
    if b < a { CivilMonotone(b, a); }
  }

  /** The directory parser accepts this day. */
  predicate IsDirectory(c: Civil) {
    c.year >= 0 && c.month >= 0 && c.day >= 0 && NewUtcDay(c.year, c.month, c.day) == Ok(c)
  }

  /** Every directory name the parser accepts is the bucket of some segment id. */
  lemma {:induction false} EveryDayIsABucket(year: nat, month: nat, day: nat)
    requires NewUtcDay(year, month, day).Ok?
    ensures var c := Civil(year, month, day);
            UtcDay(DaysFromCivil(c) * MICROS_PER_DAY) == Ok(c)
  {
    hide CivilFromDays, DaysFromCivil;
    var c := Civil(year, month, day);
    CivilBijection(c, 0);
    assert DaysFromCivil(c) * MICROS_PER_DAY / MICROS_PER_DAY == DaysFromCivil(c);
  }
}
