/** The `YYYYMMDDTHHMMSSZ` stamp of the SigV4 signer and its order. */
module AmzDate {
  import opened Bytes
  import opened CivilDate

  const ZERO: Byte := 0x30
  const LETTER_T: Byte := 0x54
  const LETTER_Z: Byte := 0x5A

  function Zeros(n: nat): Str { seq(n, _ => ZERO) }

  /** `{:0w}`: at least `w` digits. */
  function Padded(n: nat, w: nat): Str {
    var d := Digits(n);
    if |d| < w then Zeros(w - |d|) + d else d
  }

  function Nat(n: int): nat { if n < 0 then 0 else n }

  function DateStamp(d: Date): Str {
    Padded(Nat(d.year), 4) + Padded(Nat(d.month), 2) + Padded(Nat(d.day), 2)
  }

  function TimeStamp(rem: nat): Str {
    Padded(rem / 3600, 2) + Padded(rem % 3600 / 60, 2) + Padded(rem % 60, 2)
  }

  function Stamp(d: Date, rem: nat): Str {
    DateStamp(d) + ([LETTER_T] + TimeStamp(rem) + [LETTER_Z])
  }

  function FormatAmzDate(secs: nat): Str {
    Stamp(CivilFromDays(secs / 86400), secs % 86400)
  }

  // ---- Fixed-width numbers ----

  function Pow10(w: nat): (p: nat)
    ensures p >= 1
  {
    if w == 0 then 1 else 10 * Pow10(w - 1)
  }

  /** The last `w` digits. */
  function Fixed(n: nat, w: nat): (r: Str)
    ensures |r| == w
  {
    if w == 0 then [] else Fixed(n / 10, w - 1) + [0x30 + n % 10]
  }

  /** The number that a digit string stands for. */
  function Value(s: Str): int {
    if s == [] then 0 else Value(s[..|s| - 1]) * 10 + ((s[|s| - 1] as int) - 0x30)
  }

  predicate AllDigits(s: Str) {
    forall i | 0 <= i < |s| :: '0' as int <= s[i] <= '9' as int
  }

  lemma {:induction false} FixedIsDigits(n: nat, w: nat)
    ensures AllDigits(Fixed(n, w))
  {
    if w > 0 {
      FixedIsDigits(n / 10, w - 1);
    }
  }

  lemma {:induction false} FixedZero(w: nat)
    ensures Fixed(0, w) == Zeros(w)
  {
    if w > 0 {
      FixedZero(w - 1);
      assert Zeros(w) == Zeros(w - 1) + [ZERO];
    }
  }

  lemma {:induction false} PaddedIsFixed(n: nat, w: nat)
    requires w >= 1 && n < Pow10(w)
    ensures Padded(n, w) == Fixed(n, w) && |Digits(n)| <= w
  {
    if n < 10 {
      FixedZero(w - 1);
    } else {
      assert w > 1 by {
        assert Pow10(1) == 10 * Pow10(0);
      }
      PaddedIsFixed(n / 10, w - 1);
    }
  }

  lemma {:induction false} FixedReadsBack(n: nat, w: nat)
    requires n < Pow10(w)
    ensures Value(Fixed(n, w)) == n
  {
    if w > 0 {
      FixedReadsBack(n / 10, w - 1);
      assert Fixed(n, w)[..w - 1] == Fixed(n / 10, w - 1);
    }
  }

  lemma {:induction false} FixedOrder(a: nat, b: nat, w: nat)
    requires a < b < Pow10(w)
    ensures LexLess(Fixed(a, w), Fixed(b, w))
  {
    var p, q := Fixed(a / 10, w - 1), Fixed(b / 10, w - 1);
    if a / 10 < b / 10 {
      FixedOrder(a / 10, b / 10, w - 1);
      LexHead(p, q, [0x30 + a % 10], [0x30 + b % 10]);
    } else {
      assert a / 10 == b / 10 && a % 10 < b % 10;
      LexPrefix(p, [0x30 + a % 10], [0x30 + b % 10]);
    }
  }

  lemma PaddedOrder(a: nat, b: nat, w: nat)
    requires w >= 1 && a < b < Pow10(w)
    ensures LexLess(Padded(a, w), Padded(b, w)) && |Padded(a, w)| == |Padded(b, w)| == w
  {
    PaddedIsFixed(a, w);
    PaddedIsFixed(b, w);
    FixedOrder(a, b, w);
  }

  lemma Pow10Small()
    ensures Pow10(1) == 10 && Pow10(2) == 100 && Pow10(3) == 1000 && Pow10(4) == 10000
  {
    assert Pow10(1) == 10 * Pow10(0);
    assert Pow10(2) == 10 * Pow10(1);
    assert Pow10(3) == 10 * Pow10(2);
  }

  /** A triple of equal-width fields is ordered by its first differing field. */
  lemma FieldsOrder(a: nat, b: nat, c: nat, x: nat, y: nat, z: nat, w: nat)
    requires w >= 1 && a < Pow10(w) && x < Pow10(w) && b < 100 && c < 100 && y < 100 && z < 100
    requires a < x || (a == x && (b < y || (b == y && c < z)))
    ensures LexLess(Padded(a, w) + Padded(b, 2) + Padded(c, 2), Padded(x, w) + Padded(y, 2) + Padded(z, 2))
    ensures |Padded(a, w) + Padded(b, 2) + Padded(c, 2)| == w + 4 == |Padded(x, w) + Padded(y, 2) + Padded(z, 2)|
  {
    Pow10Small();
    PaddedIsFixed(a, w);
    PaddedIsFixed(x, w);
    PaddedIsFixed(b, 2);
    PaddedIsFixed(y, 2);
    PaddedIsFixed(c, 2);
    PaddedIsFixed(z, 2);
    var p, q, r, p', q', r' := Padded(a, w), Padded(b, 2), Padded(c, 2), Padded(x, w), Padded(y, 2), Padded(z, 2);
    assert p + q + r == p + (q + r) && p' + q' + r' == p' + (q' + r');
    if a < x {
      PaddedOrder(a, x, w);
      LexHead(p, p', q + r, q' + r');
    } else {
      if b < y {
        PaddedOrder(b, y, 2);
        LexHead(q, q', r, r');
      } else {
        PaddedOrder(c, z, 2);
        LexPrefix(q, r, r');
      }
      LexPrefix(p, q + r, q' + r');
    }
  }

  // ---- Dates in order ----

  predicate DateLess(a: Date, b: Date) {
    a.year < b.year || (a.year == b.year && (a.month < b.month || (a.month == b.month && a.day < b.day)))
  }

  lemma SteppedIsValid(days: int)
    ensures ValidDate(Stepped(days))
  {
    ClosedFormIsCalendar(days);
  }

  lemma NextDayIsLater(d: Date)
    ensures ValidDate(d) ==> DateLess(d, NextDay(d))
  {
  }

  lemma {:induction false} LaterDaysLaterDates(a: nat, b: nat)
    requires a < b
    ensures DateLess(Stepped(a), Stepped(b))
    decreases b
  {
    SteppedIsValid(b - 1);
    NextDayIsLater(Stepped(b - 1));
    if a < b - 1 {
      LaterDaysLaterDates(a, b - 1);
    }
  }

  lemma YearsFromEpoch(days: nat)
    ensures Stepped(days).year >= 1970 && ValidDate(Stepped(days))
  {
    SteppedIsValid(days);
    if days > 0 {
      LaterDaysLaterDates(0, days);
    }
  }

  lemma DateStampOrder(d: Date, e: Date)
    requires ValidDate(d) && ValidDate(e) && DateLess(d, e) && 0 <= d.year && e.year <= 9999
    ensures LexLess(DateStamp(d), DateStamp(e)) && |DateStamp(d)| == 8 == |DateStamp(e)|
  {
    Pow10Small();
    FieldsOrder(d.year, d.month, d.day, e.year, e.month, e.day, 4);
  }

  lemma ClockOrder(a: nat, b: nat)
    requires a < b < 86400
    ensures var (h, m, sec), (h', m', sec') := (a / 3600, a % 3600 / 60, a % 60), (b / 3600, b % 3600 / 60, b % 60);
            && h' < 100 && m < 100 && m' < 100 && sec < 100 && sec' < 100
            && (h < h' || (h == h' && (m < m' || (m == m' && sec < sec'))))
  {
    SecondsOfDay(a);
    SecondsOfDay(b);
  }

  lemma TimeStampOrder(a: nat, b: nat)
    requires a < b < 86400
    ensures LexLess(TimeStamp(a), TimeStamp(b)) && |TimeStamp(a)| == |TimeStamp(b)|
  {
    Pow10Small();
    ClockOrder(a, b);
    FieldsOrder(a / 3600, a % 3600 / 60, a % 60, b / 3600, b % 3600 / 60, b % 60, 2);
  }

  lemma LaterDateSorts(d: Date, e: Date, p: nat, q: nat)
    requires ValidDate(d) && ValidDate(e) && DateLess(d, e) && 0 <= d.year && e.year <= 9999
    ensures LexLess(Stamp(d, p), Stamp(e, q))
  {
    DateStampOrder(d, e);
    LexHead(DateStamp(d), DateStamp(e), [LETTER_T] + TimeStamp(p) + [LETTER_Z], [LETTER_T] + TimeStamp(q) + [LETTER_Z]);
  }

  lemma LaterTimeSorts(d: Date, p: nat, q: nat)
    requires p < q < 86400
    ensures LexLess(Stamp(d, p), Stamp(d, q))
  {
    TimeStampOrder(p, q);
    TimesSort(TimeStamp(p), TimeStamp(q));
    LexPrefix(DateStamp(d), [LETTER_T] + TimeStamp(p) + [LETTER_Z], [LETTER_T] + TimeStamp(q) + [LETTER_Z]);
  }

  /** Stamps sort as their times, strictly, as long as the later one falls in a year up to 9999. */
  lemma StampsSortByTime(a: nat, b: nat)
    requires a < b && Stepped(b / 86400).year <= 9999
    ensures LexLess(Stamp(Stepped(a / 86400), a % 86400), Stamp(Stepped(b / 86400), b % 86400))
  {
    LaterInParts(a, b);
    StampsSort(a / 86400, a % 86400, b / 86400, b % 86400);
  }

  lemma LaterInParts(a: nat, b: nat)
    requires a < b
    ensures a / 86400 < b / 86400 || (a / 86400 == b / 86400 && a % 86400 < b % 86400)
  {
  }

  lemma StampsSort(d: nat, p: nat, e: nat, q: nat)
    requires (d < e || (d == e && p < q)) && p < 86400 && q < 86400 && Stepped(e).year <= 9999
    ensures LexLess(Stamp(Stepped(d), p), Stamp(Stepped(e), q))
  {
    if d < e {
      LaterDaysLaterDates(d, e);
      YearsFromEpoch(d);
      SteppedIsValid(e);
      LaterDateSorts(Stepped(d), Stepped(e), p, q);
    } else {
      LaterTimeSorts(Stepped(d), p, q);
    }
  }

  lemma TimesSort(x: Str, y: Str)
    requires LexLess(x, y) && |x| == |y|
    ensures LexLess([LETTER_T] + x + [LETTER_Z], [LETTER_T] + y + [LETTER_Z])
  {
    LexHead(x, y, [LETTER_Z], [LETTER_Z]);
    LexPrefix([LETTER_T], x + [LETTER_Z], y + [LETTER_Z]);
    assert [LETTER_T] + x + [LETTER_Z] == [LETTER_T] + (x + [LETTER_Z]);
    assert [LETTER_T] + y + [LETTER_Z] == [LETTER_T] + (y + [LETTER_Z]);
  }

  lemma FieldReadsBack(n: nat, w: nat)
    requires w >= 1 && n < Pow10(w)
    ensures |Padded(n, w)| == w && Value(Padded(n, w)) == n && AllDigits(Padded(n, w))
  {
    FixedIsDigits(n, w);
    PaddedIsFixed(n, w);
    FixedReadsBack(n, w);
  }

  lemma DateReadsBack(d: Date)
    requires ValidDate(d) && 0 <= d.year <= 9999
    ensures var s := DateStamp(d);
            && |s| == 8 && AllDigits(s)
            && Value(s[..4]) == d.year && Value(s[4..6]) == d.month && Value(s[6..8]) == d.day
  {
    Pow10Small();
    FieldReadsBack(d.year, 4);
    FieldReadsBack(d.month, 2);
    FieldReadsBack(d.day, 2);
    FieldsOf(Padded(d.year, 4), Padded(d.month, 2), Padded(d.day, 2));
  }

  lemma TimeReadsBack(rem: nat)
    requires rem < 86400
    ensures var s := TimeStamp(rem);
            && |s| == 6 && AllDigits(s)
            && Value(s[..2]) == rem / 3600 && Value(s[2..4]) == rem % 3600 / 60 && Value(s[4..6]) == rem % 60
  {
    Pow10Small();
    FieldReadsBack(rem / 3600, 2);
    FieldReadsBack(rem % 3600 / 60, 2);
    FieldReadsBack(rem % 60, 2);
    FieldsOf(Padded(rem / 3600, 2), Padded(rem % 3600 / 60, 2), Padded(rem % 60, 2));
  }

  lemma FieldsOf(a: Str, b: Str, c: Str)
    requires |b| == |c| == 2
    ensures var s, n := a + b + c, |a|;
            |s| == n + 4 && s[..n] == a && s[n..n + 2] == b && s[n + 2..n + 4] == c
  {
  }

  lemma StampPieces(date: Str, time: Str)
    requires |date| == 8 && |time| == 6
    ensures var s := date + ([LETTER_T] + time + [LETTER_Z]);
            && |s| == 16 && s[8] == LETTER_T && s[15] == LETTER_Z && s[..8] == date && s[9..15] == time
            && s[..4] == date[..4] && s[4..6] == date[4..6] && s[6..8] == date[6..8]
            && s[9..11] == time[..2] && s[11..13] == time[2..4] && s[13..15] == time[4..6]
  {
  }

  lemma SecondsOfDay(rem: nat)
    ensures rem / 3600 * 3600 + rem % 3600 / 60 * 60 + rem % 60 == rem
  {
    var minutes, seconds := rem / 60, rem % 60;
    FromParts(rem, minutes / 60, minutes % 60, seconds);
  }

  lemma FromParts(rem: nat, h: nat, m: nat, s: nat)
    requires m < 60 && s < 60 && rem == h * 3600 + m * 60 + s
    ensures rem / 3600 == h && rem % 3600 / 60 == m && rem % 60 == s
  {
  }

  /** Up to year 9999 the first 8 characters are the date, and the stamp's fields read back. */
  lemma StampReadsBack(d: Date, rem: nat)
    requires ValidDate(d) && 0 <= d.year <= 9999 && rem < 86400
    ensures var s := Stamp(d, rem);
            && |s| == 16 && s[8] == 'T' as int && s[15] == 'Z' as int && AllDigits(s[..8]) && AllDigits(s[9..15])
            && s[..8] == DateStamp(d)
            && Value(s[..4]) == d.year && Value(s[4..6]) == d.month && Value(s[6..8]) == d.day
            && Value(s[11..13]) < 60 && Value(s[13..15]) < 60
            && Value(s[9..11]) * 3600 + Value(s[11..13]) * 60 + Value(s[13..15]) == rem
  {
    DateReadsBack(d);
    TimeReadsBack(rem);
    StampPieces(DateStamp(d), TimeStamp(rem));
    SecondsOfDay(rem);
  }

  // ---- Where the order ends ----

  /** 10000-01-01T00:00:00Z. */
  const YEAR_10000: nat := 253402300800

  lemma Year10000Dates(last: nat, first: nat)
    requires last == 2932896 && first == last + 1
    ensures Stepped(first) == Date(10000, 1, 1) && Stepped(last) == Date(9999, 12, 31)
  {
    var t := Slot(24, 3, 24, 3, 305);
    YearEnd(t, last);
    NextDayOf(last);
  }

  lemma YearEnd(t: Slot, day: int)
    requires t == Slot(24, 3, 24, 3, 305) && day == 2932896
    ensures Stepped(day) == Date(9999, 12, 31)
  {
    assert InSlot(t) && day == DayCount(t);
    SteppedOfSlot(t);
  }

  lemma NextDayOf(day: nat)
    ensures Stepped(day + 1) == NextDay(Stepped(day))
  {
  }

  lemma SteppedOfSlot(t: Slot)
    requires InSlot(t)
    ensures Stepped(DayCount(t)) == DateOf(t)
  {
    ClosedFormOfSlot(t);
    ClosedFormIsCalendar(DayCount(t));
  }

  lemma UpToLastDay(days: nat, last: nat)
    requires days <= last == 2932896
    ensures Stepped(days).year <= 9999
  {
    Year10000Dates(last, last + 1);
    if days < last {
      LaterDaysLaterDates(days, last);
    }
  }

  lemma YearUpTo9999(secs: nat)
    requires secs < YEAR_10000
    ensures Stepped(secs / 86400).year <= 9999
  {
    var days: nat := secs / 86400;
    assert days <= 2932896;
    UpToLastDay(days, 2932896);
  }

  /** The stamp of the closed form is the stamp of the stepped calendar. */
  lemma FormatByCalendar(secs: nat)
    ensures FormatAmzDate(secs) == Stamp(Stepped(secs / 86400), secs % 86400)
  {
    ClosedFormIsCalendar(secs / 86400);
  }

  lemma FirstDigit9999()
    ensures Padded(9999, 4)[0] == 0x39 && Padded(10000, 4)[0] == 0x31
  {
    assert Digits(9) == [0x39] && Digits(99) == [0x39, 0x39] && Digits(999) == [0x39, 0x39, 0x39];
    assert Digits(9999) == [0x39, 0x39, 0x39, 0x39];
    assert Digits(1) == [0x31] && Digits(10) == [0x31, 0x30] && Digits(100) == [0x31, 0x30, 0x30];
    assert Digits(1000) == [0x31, 0x30, 0x30, 0x30] && Digits(10000) == [0x31, 0x30, 0x30, 0x30, 0x30];
  }

  /** Stamps that start with the years 9999 and 10000 stand in the wrong order. */
  lemma OrderBreaks(d: Date, e: Date, r: nat, q: nat)
    requires d.year == 9999 && e.year == 10000
    ensures !LexLess(Stamp(d, r), Stamp(e, q))
  {
    FirstDigit9999();
    assert Stamp(d, r)[0] == Padded(9999, 4)[0] && Stamp(e, q)[0] == Padded(10000, 4)[0] by {
      PaddedNotEmpty(9999, 4);
      PaddedNotEmpty(10000, 4);
    }
  }

  lemma PaddedNotEmpty(n: nat, w: nat)
    ensures Padded(n, w) != []
  {
  }

  ghost predicate StampsOrderedUpTo(last: nat) {
    forall a: nat, b: nat | a < b <= last :: LexLess(FormatAmzDate(a), FormatAmzDate(b))
  }

  lemma FormatsSortByTime(a: nat, b: nat)
    requires a < b < YEAR_10000
    ensures LexLess(FormatAmzDate(a), FormatAmzDate(b))
  {
    YearUpTo9999(b);
    FormatByCalendar(a);
    FormatByCalendar(b);
    StampsSortByTime(a, b);
  }

  lemma FormatsBreakAt10000(a: nat, b: nat)
    requires b == YEAR_10000 && a == b - 1
    ensures !LexLess(FormatAmzDate(a), FormatAmzDate(b))
  {
    FormatByCalendar(a);
    FormatByCalendar(b);
    YearsAt10000(a, b);
    OrderBreaks(Stepped(a / 86400), Stepped(b / 86400), a % 86400, b % 86400);
  }

  lemma YearsAt10000(a: nat, b: nat)
    requires b == YEAR_10000 && a == b - 1
    ensures Stepped(a / 86400).year == 9999 && Stepped(b / 86400).year == 10000
  {
    Year10000Dates(a / 86400, b / 86400);
  }

  /** Exact: all stamps up to a time sort as their times iff that time lies before the year 10000. */
  lemma StampsOrderedIff(last: nat)
    ensures StampsOrderedUpTo(last) <==> last < 253402300800
  {
    if last < YEAR_10000 {
      forall a: nat, b: nat | a < b <= last ensures LexLess(FormatAmzDate(a), FormatAmzDate(b)) {
        FormatsSortByTime(a, b);
      }
    } else {
      var b: nat := YEAR_10000;
      FormatsBreakAt10000(b - 1, b);
      assert b - 1 < b <= last;
    }
  }

  /** Before the year 10000 the stamp holds the calendar date and the time of day, field by field. */
  lemma FormatReadsBack(secs: nat)
    requires secs < 253402300800
    ensures var s, d := FormatAmzDate(secs), Stepped(secs / 86400);
            && |s| == 16 && s[8] == 'T' as int && s[15] == 'Z' as int && AllDigits(s[..8]) && AllDigits(s[9..15])
            && s[..8] == DateStamp(d)
            && Value(s[..4]) == d.year && Value(s[4..6]) == d.month && Value(s[6..8]) == d.day
            && Value(s[11..13]) < 60 && Value(s[13..15]) < 60
            && Value(s[9..11]) * 3600 + Value(s[11..13]) * 60 + Value(s[13..15]) == secs % 86400
  {
    YearUpTo9999(secs);
    YearsFromEpoch(secs / 86400);
    FormatByCalendar(secs);
    StampReadsBack(Stepped(secs / 86400), secs % 86400);
  }
}
