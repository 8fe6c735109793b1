/** The closed-form civil date of the SigV4 signer, against the calendar stepped day by day. */
module CivilDate {
  datatype Date = Date(year: int, month: int, day: int)

  // ---- The closed form ----

  /** Truncating division by a positive number, as the code's `/` on signed integers. After the era is taken
      off no dividend is negative (`NoNegativeDividend`), and Dafny's `/` is the same. */
  function TruncDiv(a: int, b: int): int
    requires b > 0
  {
    if a >= 0 then a / b else -((-a) / b)
  }

  /** Month and day from the day of a year that starts on March 1. */
  function MarchDate(y: int, doy: int): Date {
    var mp := (5 * doy + 2) / 153;
    var d := doy - (153 * mp + 2) / 5 + 1;
    var m := if mp < 10 then mp + 3 else mp - 9;
    Date(if m <= 2 then y + 1 else y, m, d)
  }

  function YearOfDay(doe: int): int {
    (doe - doe / 1460 + doe / 36524 - doe / 146096) / 365
  }

  function EraOfCount(z: int): int {
    TruncDiv(if z >= 0 then z else z - 146096, 146097)
  }

  /** The year that starts in March and the day of it, for a day count from 0000-03-01. */
  function YearAndDay(z: int): (int, int) {
    var era := EraOfCount(z);
    var doe := z - era * 146097;
    var yoe := YearOfDay(doe);
    (yoe + era * 400, doe - (365 * yoe + yoe / 4 - yoe / 100))
  }

  function CivilFromDays(days: int): Date {
    var (y, doy) := YearAndDay(days + 719468);
    MarchDate(y, doy)
  }

  // ---- The calendar ----

  predicate IsLeap(year: int) {
    year % 4 == 0 && (year % 100 != 0 || year % 400 == 0)
  }

  function DaysInMonth(year: int, month: int): int {
    if month == 2 then (if IsLeap(year) then 29 else 28)
    else if month == 4 || month == 6 || month == 9 || month == 11 then 30
    else 31
  }

  predicate ValidDate(d: Date) {
    1 <= d.month <= 12 && 1 <= d.day <= DaysInMonth(d.year, d.month)
  }

  function NextDay(d: Date): Date {
    if d.day < DaysInMonth(d.year, d.month) then d.(day := d.day + 1)
    else if d.month < 12 then Date(d.year, d.month + 1, 1)
    else Date(d.year + 1, 1, 1)
  }

  function PreviousDay(d: Date): Date {
    if d.day > 1 then d.(day := d.day - 1)
    else if d.month > 1 then Date(d.year, d.month - 1, DaysInMonth(d.year, d.month - 1))
    else Date(d.year - 1, 12, 31)
  }

  const EPOCH := Date(1970, 1, 1)

  /** The date reached by stepping from 1970-01-01, forward or back. */
  function Stepped(days: int): Date
    decreases if days < 0 then -days else days
  {
    if days == 0 then EPOCH
    else if days > 0 then NextDay(Stepped(days - 1))
    else PreviousDay(Stepped(days + 1))
  }

  // ---- Years that start in March ----

  /** A day as era, century, four-year block, year and day of a year that starts on March 1. */
  datatype Slot = Slot(era: int, c: int, q: int, s: int, doy: int)

  /** The year of the era, 0 to 399, and whether February of the following calendar year is leap. */
  function YearOfEra(t: Slot): int { 100 * t.c + 4 * t.q + t.s }

  predicate LongYear(t: Slot) { t.s == 3 && (t.q != 24 || t.c == 3) }

  predicate InSlot(t: Slot) {
    0 <= t.c <= 3 && 0 <= t.q <= 24 && 0 <= t.s <= 3 && 0 <= t.doy < (if LongYear(t) then 366 else 365)
  }

  function DayOfEra(t: Slot): int { 36524 * t.c + 1461 * t.q + 365 * t.s + t.doy }

  /** Day counts of the algorithm start on 0000-03-01. */
  function DayCount(t: Slot): int { 146097 * t.era + DayOfEra(t) - 719468 }

  function DateOf(t: Slot): Date {
    MarchDate(MarchYear(t), t.doy)
  }

  lemma DayOfEraRange(t: Slot)
    requires InSlot(t)
    ensures 0 <= DayOfEra(t) < 146097
    ensures DayOfEra(t) == 146096 <==> t.c == 3 && t.q == 24 && t.s == 3 && t.doy == 365
  {
  }

  /** Past the era, the closed form divides only non-negative numbers. */
  lemma NoNegativeDividend(days: int)
    ensures var z := days + 719468;
            var doe := z - EraOfCount(z) * 146097;
            var yoe := YearOfDay(doe);
            var doy := doe - (365 * yoe + yoe / 4 - yoe / 100);
            0 <= doe && 0 <= doe - doe / 1460 + doe / 36524 - doe / 146096 && 0 <= yoe && 0 <= doy
  {
    var t := SlotOf(days);
    EraOf(t);
    ClosedFormInEra(t);
    assert days + 719468 - t.era * 146097 == DayOfEra(t);
    YearDividend(t);
  }

  lemma YearDividend(t: Slot)
    requires InSlot(t)
    ensures var doe := DayOfEra(t); 0 <= doe - doe / 1460 + doe / 36524 - doe / 146096
  {
    CenturyOf(t);
    DayOfEraRange(t);
  }

  lemma EraOf(t: Slot)
    requires InSlot(t)
    ensures EraOfCount(DayCount(t) + 719468) == t.era
  {
    DayOfEraRange(t);
    var z := 146097 * t.era + DayOfEra(t);
    assert z / 146097 == t.era;
    if z < 0 {
      var n := 146096 - z;
      assert n == 146097 * (-t.era) + (146096 - DayOfEra(t));
      assert n / 146097 == -t.era;
    }
  }

  /** The correction terms of the closed form: days of century leaps and of four-year leaps. */
  lemma CenturyOf(t: Slot)
    requires InSlot(t)
    ensures DayOfEra(t) / 36524 - DayOfEra(t) / 146096 == t.c
  {
    DayOfEraRange(t);
    var r := 1461 * t.q + 365 * t.s + t.doy;
    assert DayOfEra(t) == 36524 * t.c + r;
    if DayOfEra(t) == 146096 {
    } else {
      assert 0 <= r < 36524 by {
        assert t.q == 24 && t.s == 3 && t.c != 3 ==> t.doy <= 364;
      }
    }
  }

  lemma YearOfSlot(t: Slot)
    requires InSlot(t)
    ensures var doe := DayOfEra(t);
            (doe - doe / 1460 + doe / 36524 - doe / 146096) / 365 == YearOfEra(t)
  {
    CenturyOf(t);
    var doe, e := DayOfEra(t), 24 * t.c + t.q + 365 * t.s + t.doy;
    assert doe == 1460 * (25 * t.c + t.q) + e;
    assert doe / 1460 == 25 * t.c + t.q + e / 1460;
    var n := doe - doe / 1460 + t.c;
    assert n == 365 * YearOfEra(t) + t.doy - e / 1460;
    assert 0 <= t.doy - e / 1460 < 365;
  }

  /** The part of the closed form that follows the era. */
  lemma ClosedFormInEra(t: Slot)
    requires InSlot(t)
    ensures var doe, yoe := DayOfEra(t), YearOfDay(DayOfEra(t));
            yoe == YearOfEra(t) && doe - (365 * yoe + yoe / 4 - yoe / 100) == t.doy
  {
    DayOfEraRange(t);
    YearOfSlot(t);
    var yoe := YearOfEra(t);
    assert yoe / 4 == 25 * t.c + t.q && yoe / 100 == t.c;
  }

  /** The closed form reads every slot back. */
  lemma YearAndDayOfSlot(t: Slot, z: int)
    requires InSlot(t) && z == DayCount(t) + 719468
    ensures YearAndDay(z) == (MarchYear(t), t.doy)
  {
    EraOf(t);
    ClosedFormInEra(t);
    assert z - t.era * 146097 == DayOfEra(t);
  }

  lemma ClosedFormOfSlot(t: Slot)
    requires InSlot(t)
    ensures CivilFromDays(DayCount(t)) == DateOf(t)
  {
    YearAndDayOfSlot(t, DayCount(t) + 719468);
  }

  function NextSlot(t: Slot): Slot {
    if t.doy + 1 < (if LongYear(t) then 366 else 365) then t.(doy := t.doy + 1)
    else if t.s < 3 then t.(s := t.s + 1, doy := 0)
    else if t.q < 24 then t.(q := t.q + 1, s := 0, doy := 0)
    else if t.c < 3 then t.(c := t.c + 1, q := 0, s := 0, doy := 0)
    else Slot(t.era + 1, 0, 0, 0, 0)
  }

  lemma NextSlotIsNextCount(t: Slot)
    requires InSlot(t)
    ensures InSlot(NextSlot(t)) && DayCount(NextSlot(t)) == DayCount(t) + 1
  {
  }

  /** Every day count has a slot. */
  lemma SlotOf(days: int) returns (t: Slot)
    ensures InSlot(t) && DayCount(t) == days
  {
    var z := days + 719468;
    var era, doe := z / 146097, z % 146097;
    var c := if doe / 36524 > 3 then 3 else doe / 36524;
    var r := doe - 36524 * c;
    var q := r / 1461;
    var u := r - 1461 * q;
    var s := if u / 365 > 3 then 3 else u / 365;
    t := Slot(era, c, q, s, u - 365 * s);
  }

  lemma Remainder4(q: int, r: int)
    requires 0 <= r < 4
    ensures (4 * q + r) % 4 == r
  {
    assert (4 * q + r) / 4 == q;
  }

  lemma Remainder100(q: int, r: int)
    requires 0 <= r < 100
    ensures (100 * q + r) % 100 == r
  {
    assert (100 * q + r) / 100 == q;
  }

  lemma Remainder400(q: int, r: int)
    requires 0 <= r < 400
    ensures (400 * q + r) % 400 == r
  {
    assert (400 * q + r) / 400 == q;
  }

  lemma Remainders(q: int, r: int)
    ensures 0 <= r < 4 ==> (4 * q + r) % 4 == r
    ensures 0 <= r < 100 ==> (100 * q + r) % 100 == r
    ensures 0 <= r < 400 ==> (400 * q + r) % 400 == r
  {
    if 0 <= r < 4 {
      Remainder4(q, r);
    }
    if 0 <= r < 100 {
      Remainder100(q, r);
    }
    if 0 <= r < 400 {
      Remainder400(q, r);
    }
  }

  lemma NextMultiple(q: int)
    ensures (4 * q + 4) % 4 == 0 && (100 * q + 100) % 100 == 0 && (400 * q + 400) % 400 == 0
  {
    Remainder4(q + 1, 0);
    Remainder100(q + 1, 0);
    Remainder400(q + 1, 0);
  }

  /** Is February 29 of the calendar year that this March year ends in. */
  lemma LongYearIsLeap(t: Slot)
    requires InSlot(t)
    ensures LongYear(t) <==> IsLeap(YearOfEra(t) + 400 * t.era + 1)
  {
    var y := YearOfEra(t) + 400 * t.era + 1;
    var q4, q100 := 25 * t.c + t.q + 100 * t.era, t.c + 4 * t.era;
    assert y == 4 * q4 + (t.s + 1) && y == 100 * q100 + (4 * t.q + t.s + 1) && y == 400 * t.era + (YearOfEra(t) + 1);
    Remainders(q4, t.s + 1);
    Remainders(q100, 4 * t.q + t.s + 1);
    Remainders(t.era, YearOfEra(t) + 1);
    NextMultiple(q4);
    NextMultiple(q100);
    NextMultiple(t.era);
  }

  /** Month lengths of the March year, by the month counter of the closed form. */
  function MonthStart(mp: int): int { (153 * mp + 2) / 5 }

  lemma MonthOfDay(doy: int)
    requires 0 <= doy < 366
    ensures var mp := (5 * doy + 2) / 153;
            0 <= mp <= 11 && MonthStart(mp) <= doy < MonthStart(mp + 1)
  {
  }

  lemma SameOrNextMonth(doy: int)
    requires 0 <= doy < 365
    ensures var mp := (5 * doy + 2) / 153;
            (5 * (doy + 1) + 2) / 153 == if doy + 1 == MonthStart(mp + 1) then mp + 1 else mp
  {
    MonthOfDay(doy);
    MonthOfDay(doy + 1);
  }

  /** The closed form's month and day, by its month counter. */
  lemma MarchDateParts(y: int, doy: int, mp: int)
    requires 0 <= doy < 366 && mp == (5 * doy + 2) / 153
    ensures MarchDate(y, doy)
         == Date(if mp < 10 then y else y + 1, if mp < 10 then mp + 3 else mp - 9, doy - MonthStart(mp) + 1)
  {
    MonthOfDay(doy);
  }

  lemma MonthLength(year: int, mp: int)
    requires 0 <= mp < 11
    ensures MonthStart(mp + 1) - MonthStart(mp) == DaysInMonth(year, if mp < 10 then mp + 3 else mp - 9)
  {
  }

  lemma NextDaySameYear(y: int, doy: int)
    requires 0 <= doy && doy + 1 < (if IsLeap(y + 1) then 366 else 365)
    ensures ValidDate(MarchDate(y, doy)) && MarchDate(y, doy + 1) == NextDay(MarchDate(y, doy))
  {
    var mp, mp' := (5 * doy + 2) / 153, (5 * (doy + 1) + 2) / 153;
    MonthOfDay(doy);
    SameOrNextMonth(doy);
    MarchDateParts(y, doy, mp);
    MarchDateParts(y, doy + 1, mp');
    if mp < 11 {
      MonthLength(MarchDate(y, doy).year, mp);
    }
  }

  lemma NextDayNextYear(y: int, doy: int)
    requires doy + 1 == (if IsLeap(y + 1) then 366 else 365)
    ensures ValidDate(MarchDate(y, doy)) && MarchDate(y + 1, 0) == NextDay(MarchDate(y, doy))
  {
    MarchDateParts(y, doy, 11);
    MarchDateParts(y + 1, 0, 0);
  }

  /** The March year a slot lies in. */
  function MarchYear(t: Slot): int { YearOfEra(t) + 400 * t.era }

  predicate LastOfYear(t: Slot) { t.doy + 1 == if LongYear(t) then 366 else 365 }

  lemma NextSlotYear(t: Slot)
    requires InSlot(t)
    ensures MarchYear(NextSlot(t)) == MarchYear(t) + if LastOfYear(t) then 1 else 0
    ensures NextSlot(t).doy == if LastOfYear(t) then 0 else t.doy + 1
  {
  }

  /** The date of a slot is valid, and a slot that follows it by one day has the next date. */
  lemma DateOfSteps(t: Slot, n: Slot)
    requires InSlot(t)
    requires MarchYear(n) == MarchYear(t) + if LastOfYear(t) then 1 else 0
    requires n.doy == if LastOfYear(t) then 0 else t.doy + 1
    ensures ValidDate(DateOf(t)) && DateOf(n) == NextDay(DateOf(t))
  {
    LongYearIsLeap(t);
    if LastOfYear(t) {
      NextDayNextYear(MarchYear(t), t.doy);
    } else {
      NextDaySameYear(MarchYear(t), t.doy);
    }
  }

  /** A rule that reads every slot as its date steps by `NextDay`. */
  lemma StepsBySlots(civil: int -> Date, dateOf: Slot -> Date, days: int)
    requires forall t {:trigger InSlot(t)} | InSlot(t) :: civil(DayCount(t)) == dateOf(t)
    requires forall t {:trigger InSlot(t)} | InSlot(t) ::
               ValidDate(dateOf(t)) && dateOf(NextSlot(t)) == NextDay(dateOf(t))
    ensures ValidDate(civil(days)) && civil(days + 1) == NextDay(civil(days))
  {
    var t := SlotOf(days);
    NextSlotIsNextCount(t);
    assert civil(days) == dateOf(t) && civil(DayCount(NextSlot(t))) == dateOf(NextSlot(t));
  }

  lemma PreviousUndoesNext(d: Date)
    requires ValidDate(d)
    ensures PreviousDay(NextDay(d)) == d
  {
  }

  lemma EpochSlot(t: Slot)
    requires t == Slot(4, 3, 17, 1, 306)
    ensures InSlot(t) && DayCount(t) == 0 && DateOf(t) == EPOCH
  {
  }

  lemma EpochIsDayZero()
    ensures CivilFromDays(0) == EPOCH
  {
    var t := Slot(4, 3, 17, 1, 306);
    EpochSlot(t);
    ClosedFormOfSlot(t);
  }

  /** Any rule that gives the epoch at 0 and steps by `NextDay` is the stepped calendar. */
  lemma {:induction false} SteppedIsUnique(civil: int -> Date, days: int)
    requires civil(0) == EPOCH && forall n :: ValidDate(civil(n)) && civil(n + 1) == NextDay(civil(n))
    ensures civil(days) == Stepped(days)
    decreases if days < 0 then -days else days
  {
    if days > 0 {
      SteppedIsUnique(civil, days - 1);
      assert civil((days - 1) + 1) == NextDay(civil(days - 1));
    } else if days < 0 {
      SteppedIsUnique(civil, days + 1);
      PreviousUndoesNext(civil(days));
    }
  }

  /** The closed form is the calendar: for every day count, before or after the epoch, it is the valid
      Gregorian date reached by stepping day by day from 1970-01-01. */
  lemma ClosedFormIsCalendar(days: int)
    ensures ValidDate(CivilFromDays(days)) && CivilFromDays(days) == Stepped(days)
  {
    var civil, dateOf := n => CivilFromDays(n), t => DateOf(t);
    EpochIsDayZero();
    forall t | InSlot(t) ensures civil(DayCount(t)) == dateOf(t) {
      ClosedFormOfSlot(t);
    }
    forall t | InSlot(t) ensures ValidDate(dateOf(t)) && dateOf(NextSlot(t)) == NextDay(dateOf(t)) {
      NextSlotYear(t);
      DateOfSteps(t, NextSlot(t));
    }
    forall n ensures ValidDate(civil(n)) && civil(n + 1) == NextDay(civil(n)) {
      StepsBySlots(civil, dateOf, n);
    }
    SteppedIsUnique(civil, days);
  }
}
