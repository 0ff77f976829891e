/** src/exfat/time.c: timestamps with a date and a time word. */
module ExfatTime {
  import opened Arithmetic

  const SEC_IN_DAY: int := 86400
  const EPOCH_DIFF_DAYS: int := 10 * 365 + 10 / 4
  const EPOCH_DIFF_SEC: int := EPOCH_DIFF_DAYS * 86400
  /** The days of the 128 years a date word can express. */
  const DAYS: int := 46752

  /** `LEAP_YEARS` */
  function LeapYears(year: nat): int {
    (1980 + year - 1) / 4 - (1980 - 1) / 4
  }

  /** `IS_LEAP_YEAR` */
  predicate IsLeap(year: nat) {
    (1980 + year) % 4 == 0
  }

  /** `days_in_year` */
  const BEFORE: seq<int> := [0, 0, 31, 59, 90, 120, 151, 181, 212, 243, 273, 304, 334]

  datatype Fields = Fields(day: nat, month: nat, year: nat, twosec: nat, min: nat, hour: nat)

  predicate Proper(f: Fields) {
    && 1 <= f.day <= 31 && 1 <= f.month <= 12 && f.year <= 127
    && f.twosec <= 29 && f.min <= 59 && f.hour <= 23
  }

  /** The day, counted from the beginning of 1980, of a date. */
  function DayOf(day: nat, month: nat, year: nat): int
    requires 1 <= month <= 12
  {
    year * 365 + LeapYears(year) + BEFORE[month] + (if IsLeap(year) && month > 2 then 1 else 0) + day - 1
  }

  /** The first day of a year. */
  function YearStart(year: nat): int {
    year * 365 + LeapYears(year)
  }

  // ----- the calendar

  predicate LeapInCalendar(y: nat) {
    y % 4 == 0 && (y % 100 != 0 || y % 400 == 0)
  }

  /** The length of a month of the Gregorian calendar. */
  function MonthLength(y: nat, month: nat): nat
    requires 1 <= month <= 12
  {
    if month == 2 then (if LeapInCalendar(y) then 29 else 28)
    else if month == 4 || month == 6 || month == 9 || month == 11 then 30
    else 31
  }

  /** The days of a year before a month, month by month. */
  function DaysBefore(y: nat, month: nat): nat
    requires 1 <= month <= 13
  {
    if month == 1 then 0 else DaysBefore(y, month - 1) + MonthLength(y, month - 1)
  }

  /** The days of the `n` years from `y` on, year by year. */
  function DaysOfYears(y: nat, n: nat): nat {
    if n == 0 then 0 else DaysOfYears(y, n - 1) + DaysBefore(y + n - 1, 13)
  }

  /** The day of a date, counted from the beginning of 1980. */
  function CalendarDay(day: nat, month: nat, year: nat): int
    requires 1 <= month <= 12
  {
    DaysOfYears(1980, year) + DaysBefore(1980 + year, month) + day - 1
  }

  lemma {:induction false} DaysBeforeIs(y: nat, month: nat)
    requires 1 <= month <= 13
    ensures DaysBefore(y, month) == (if month == 13 then 365 else BEFORE[month])
                                    + (if LeapInCalendar(y) && month > 2 then 1 else 0)
  {
    if 1 < month {
      DaysBeforeIs(y, month - 1);
    }
  }

  lemma YearMore(y: nat, n: nat)
    ensures DaysOfYears(y, 0) == 0
    ensures DaysOfYears(y, n + 1) == DaysOfYears(y, n) + 365 + (if LeapInCalendar(y + n) then 1 else 0)
  {
    hide LeapInCalendar;
    DaysBeforeIs(y + n, 13);
  }

  /** Of the 128 years only 2100 is taken for a leap year without being one. */
  lemma LeapAgrees(year: nat)
    requires year <= 127
    ensures IsLeap(year) <==> LeapInCalendar(1980 + year) || year == 120
  {
  }

  lemma {:induction false} YearsAgree(year: nat)
    requires year <= 128
    ensures YearStart(year) == DaysOfYears(1980, year) + (if year <= 120 then 0 else 1)
  {
    hide DaysOfYears, LeapInCalendar, IsLeap;
    if year == 0 {
      YearMore(1980, 0);
    } else {
      YearsAgree(year - 1);
      YearMore(1980, year - 1);
      YearLength(year - 1);
      LeapAgrees(year - 1);
      LeapIn2100();
    }
  }

  /** The source's day of a date is the calendar's exactly before 1 March 2100: 2100 is no leap year. */
  lemma CalendarAgrees(day: nat, month: nat, year: nat)
    requires 1 <= month <= 12 && year <= 127
    ensures DayOf(day, month, year) == CalendarDay(day, month, year) <==> year < 120 || (year == 120 && month <= 2)
  {
    hide DaysOfYears, DaysBefore, LeapInCalendar, IsLeap;
    YearsAgree(year);
    DaysBeforeIs(1980 + year, month);
    LeapAgrees(year);
    LeapIn2100();
  }

  /** 1 March 2100 is taken for the day after it. */
  lemma FirstOfMarch2100()
    ensures DayOf(1, 3, 120) == CalendarDay(2, 3, 120) == CalendarDay(1, 3, 120) + 1
  {
    hide DaysOfYears, DaysBefore, LeapInCalendar, IsLeap;
    YearsAgree(120);
    DaysBeforeIs(2100, 3);
    LeapIn2100();
  }

  lemma LeapIn2100()
    ensures IsLeap(120) && !LeapInCalendar(2100)
  {
  }

  lemma {:induction false} YearsFrom1970(n: nat)
    requires n <= 10
    ensures DaysOfYears(1970, n) == 365 * n + (n + 1) / 4
  {
    hide DaysOfYears;
    if n == 0 {
      YearMore(1970, 0);
    } else {
      YearsFrom1970(n - 1);
      YearMore(1970, n - 1);
    }
  }

  /** The years from 1970 to 1980 have as many days as the source takes. */
  lemma EpochAgrees()
    ensures DaysOfYears(1970, 10) == EPOCH_DIFF_DAYS
  {
    hide DaysOfYears;
    YearsFrom1970(10);
  }

  /** The year of a day, by the average length of four years. */
  lemma YearOf(days: int)
    requires 0 <= days < DAYS
    ensures var year := (4 * days) / (4 * 365 + 1);
            0 <= year <= 127 && YearStart(year) <= days < YearStart(year + 1)
  {
  }

  lemma YearLength(year: nat)
    ensures YearStart(year + 1) == YearStart(year) + 365 + (if IsLeap(year) then 1 else 0)
  {
  }

  /** The loop that looks for the month. */
  method FindMonth(year: nat, yearDay: int) returns (month: nat, day: nat)
    requires 0 <= yearDay < 365 + (if IsLeap(year) then 1 else 0)
    ensures 1 <= month <= 12 && 1 <= day <= 31
    ensures yearDay == BEFORE[month] + (if IsLeap(year) && month > 2 then 1 else 0) + day - 1
  {
    var i := 1;
    while i <= 12
      invariant 1 <= i <= 12
      invariant i <= 2 ==> BEFORE[i] <= yearDay
      invariant 2 < i ==> BEFORE[i] + (if IsLeap(year) then 1 else 0) <= yearDay
      decreases 12 - i
    {
      var leapDay := if IsLeap(year) && i == 2 then 1 else 0;
      var leapSub := if IsLeap(year) && 3 <= i then 1 else 0;
      if i == 12 || yearDay - leapSub < BEFORE[i + 1] + leapDay {
        return i, yearDay - (BEFORE[i] + leapSub) + 1;
      }
      i := i + 1;
    }
    assert false;
  }

  // ----- the two words

  lemma NextBits(b: bv7)
    requires b != 127
    ensures (b + 1) as int == b as int + 1
  {
  }

  /** The seven bits of a small number. */
  function Bits(k: nat): (b: bv7)
    requires k < 128
    ensures b as int == k
  {
    if k == 0 then 0 else NextBits(Bits(k - 1)); Bits(k - 1) + 1
  }

  function Word(k: nat): bv16
    requires k < 128
  {
    Bits(k) as bv16
  }

  /** `day | (month << 5) | (year << 9)` */
  function PackDate(day: nat, month: nat, year: nat): bv16
    requires day < 32 && month < 16 && year < 128
  {
    Word(day) | (Word(month) << 5) | (Word(year) << 9)
  }

  /** `twosec | (min << 5) | (hour << 11)` */
  function PackTime(twosec: nat, min: nat, hour: nat): bv16
    requires twosec < 32 && min < 64 && hour < 32
  {
    Word(twosec) | (Word(min) << 5) | (Word(hour) << 11)
  }

  /** The number in a field of a word. */
  function Value(w: bv16): nat
    requires w < 128
  {
    (w as bv7) as int
  }

  lemma Smaller(b: bv7)
    ensures (b as int < 64 ==> b < 64) && (b as int < 32 ==> b < 32) && (b as int < 16 ==> b < 16)
  {
  }

  lemma Widened(b: bv7)
    ensures (b as bv16) < 128 && (b as bv16) as bv7 == b
    ensures (b < 64 ==> (b as bv16) < 64) && (b < 32 ==> (b as bv16) < 32) && (b < 16 ==> (b as bv16) < 16)
  {
  }

  lemma WordSmall(k: nat)
    requires k < 128
    ensures Word(k) < 128 && (k < 64 ==> Word(k) < 64) && (k < 32 ==> Word(k) < 32) && (k < 16 ==> Word(k) < 16)
  {
    hide Bits;
    Smaller(Bits(k));
    Widened(Bits(k));
  }

  lemma WordValue(k: nat)
    requires k < 128
    ensures Word(k) < 128 && Value(Word(k)) == k
  {
    hide Bits;
    Widened(Bits(k));
  }

  /** The fields of a date do not overlap. */
  lemma DateFields(d: bv16, m: bv16, y: bv16)
    requires d < 32 && m < 16 && y < 128
    ensures var w := d | (m << 5) | (y << 9); w & 0x1f == d && (w >> 5) & 0xf == m && w >> 9 == y
  {
  }

  /** Nor do those of a time. */
  lemma TimeFields(s: bv16, m: bv16, h: bv16)
    requires s < 32 && m < 64 && h < 32
    ensures var w := s | (m << 5) | (h << 11); w & 0x1f == s && (w >> 5) & 0x3f == m && w >> 11 == h
  {
  }

  lemma FieldBounds(w: bv16)
    ensures w & 0x1f < 128 && (w >> 5) & 0xf < 128 && w >> 9 < 128
    ensures (w >> 5) & 0x3f < 128 && w >> 11 < 128
  {
  }

  function Unpack(date: bv16, time: bv16): (f: Fields)
  {
    FieldBounds(date);
    FieldBounds(time);
    Fields(Value(date & 0x1f), Value((date >> 5) & 0xf), Value(date >> 9),
           Value(time & 0x1f), Value((time >> 5) & 0x3f), Value(time >> 11))
  }

  lemma ValueWord(w: bv16)
    requires w < 128
    ensures Word(Value(w)) == w
  {
    SameBits(Bits(Value(w)), w as bv7);
    Narrowed(w);
  }

  lemma SameBits(a: bv7, b: bv7)
    ensures a as int == b as int ==> a == b
  {
  }

  lemma Narrowed(w: bv16)
    requires w < 128
    ensures (w as bv7) as bv16 == w
  {
  }

  lemma FieldsAreDigits(w: bv16)
    ensures w & 0x1f == w % 32 && (w >> 5) & 0xf == w / 32 % 16 && w >> 9 == w / 512
    ensures (w >> 5) & 0x3f == w / 32 % 64 && w >> 11 == w / 2048
  {
  }

  /** The words as numbers: a day in 32, a month in 16; two seconds in 32, a minute in 64. */
  lemma WordsAre(date: bv16, time: bv16)
    ensures var f := Unpack(date, time);
            && f.day < 128 && f.month < 128 && f.year < 128 && f.twosec < 128 && f.min < 128 && f.hour < 128
            && Word(f.day) == date % 32 && Word(f.month) == date / 32 % 16 && Word(f.year) == date / 512
            && Word(f.twosec) == time % 32 && Word(f.min) == time / 32 % 64 && Word(f.hour) == time / 2048
  {
    hide Word, Value;
    FieldBounds(date);
    FieldBounds(time);
    FieldsAreDigits(date);
    FieldsAreDigits(time);
    ValueSmall(date & 0x1f);
    ValueSmall((date >> 5) & 0xf);
    ValueSmall(date >> 9);
    ValueSmall(time & 0x1f);
    ValueSmall((time >> 5) & 0x3f);
    ValueSmall(time >> 11);
  }

  lemma ValueSmall(w: bv16)
    requires w < 128
    ensures Value(w) < 128 && Word(Value(w)) == w
  {
    hide Word;
    ValueWord(w);
  }

  lemma UnpackPack(f: Fields)
    requires Proper(f)
    ensures Unpack(PackDate(f.day, f.month, f.year), PackTime(f.twosec, f.min, f.hour)) == f
  {
    hide Word, Value;
    Packed(f.day, f.month, f.year);
    PackedTime(f.twosec, f.min, f.hour);
    WordValue(f.day);
    WordValue(f.month);
    WordValue(f.year);
    WordValue(f.twosec);
    WordValue(f.min);
    WordValue(f.hour);
  }

  lemma Packed(day: nat, month: nat, year: nat)
    requires day < 32 && month < 16 && year < 128
    ensures var w := PackDate(day, month, year);
            w & 0x1f == Word(day) && (w >> 5) & 0xf == Word(month) && w >> 9 == Word(year)
  {
    hide Word;
    WordSmall(day);
    WordSmall(month);
    WordSmall(year);
    DateFields(Word(day), Word(month), Word(year));
  }

  lemma PackedTime(twosec: nat, min: nat, hour: nat)
    requires twosec < 32 && min < 64 && hour < 32
    ensures var w := PackTime(twosec, min, hour);
            w & 0x1f == Word(twosec) && (w >> 5) & 0x3f == Word(min) && w >> 11 == Word(hour)
  {
    hide Word;
    WordSmall(twosec);
    WordSmall(min);
    WordSmall(hour);
    TimeFields(Word(twosec), Word(min), Word(hour));
  }

  // ----- the conversions

  /** The moment a timestamp stands for; `tz` is what local time is behind UTC, in seconds. */
  function Moment(f: Fields, centisec: nat, tz: int): int
    requires 1 <= f.month <= 12
  {
    EPOCH_DIFF_SEC + DayOf(f.day, f.month, f.year) * SEC_IN_DAY + f.hour * 3600 + f.min * 60 + f.twosec * 2 +
      centisec / 100 + tz
  }

  /** The first moment there is, and the noon of a leap day: 315532800 and 1709208000 seconds after 1970. */
  lemma MomentExamples()
    ensures Moment(Fields(1, 1, 0, 0, 0, 0), 0, 0) == 315532800
    ensures Moment(Fields(29, 2, 44, 0, 0, 12), 0, 0) == 1709208000
  {
  }

  /** `exfat_exfat2unix`; a bad field makes the result 0. */
  method Exfat2Unix(date: bv16, time: bv16, centisec: nat, tz: int) returns (t: int)
    ensures var f := Unpack(date, time);
            t == if 1 <= f.day && 1 <= f.month <= 12 && f.hour <= 23 && f.min <= 59 && f.twosec <= 29 && centisec <= 199
                 then Moment(f, centisec, tz) else 0
  {
    hide Unpack;
    t := EPOCH_DIFF_SEC;
    var f := Unpack(date, time);
    if f.day == 0 || f.month == 0 || f.month > 12 {
      return 0;
    }
    if f.hour > 23 || f.min > 59 || f.twosec > 29 {
      return 0;
    }
    if centisec > 199 {
      return 0;
    }
    t := t + f.year * (365 * SEC_IN_DAY) + LeapYears(f.year) * SEC_IN_DAY;
    t := t + BEFORE[f.month] * SEC_IN_DAY;
    if (1980 + f.year) % 4 == 0 && f.month > 2 {
      t := t + SEC_IN_DAY;
    }
    t := t + (f.day - 1) * SEC_IN_DAY;
    t := t + f.hour * 3600;
    t := t + f.min * 60;
    t := t + f.twosec * 2;
    t := t + centisec / 100;
    t := t + tz;
  }

  /** What a moment becomes: times before 1980 are taken for its beginning. */
  function Clamped(t: int, tz: int): int {
    if t < EPOCH_DIFF_SEC + tz then EPOCH_DIFF_SEC + tz else t
  }

  /** `exfat_unix2exfat`: the fields of a moment in the 128 years. */
  method Unix2Exfat(moment: int, tz: int) returns (date: bv16, time: bv16, centisec: nat)
    requires Clamped(moment, tz) - (EPOCH_DIFF_SEC + tz) < DAYS * SEC_IN_DAY
    ensures Proper(Unpack(date, time)) && centisec == (Clamped(moment, tz) - EPOCH_DIFF_SEC - tz) % 2 * 100
    ensures Moment(Unpack(date, time), centisec, tz) == Clamped(moment, tz)
  {
    hide Unpack, PackDate, PackTime;
    var shift := EPOCH_DIFF_SEC + tz;
    var t := moment;
    if t < shift {
      t := shift;
    }
    t := t - shift;
    var days := t / SEC_IN_DAY;
    YearOf(days);
    var year: nat := (4 * days) / (4 * 365 + 1);
    YearLength(year);
    days := days - (year * 365 + LeapYears(year));
    var month, day := FindMonth(year, days);
    var hour := (t % SEC_IN_DAY) / 3600;
    var min := (t % 3600) / 60;
    var twosec := (t % 60) / 2;
    date := PackDate(day, month, year);
    time := PackTime(twosec, min, hour);
    centisec := (t % 2) * 100;
    UnpackPack(Fields(day, month, year, twosec, min, hour));
    Seconds(t);
  }

  /** The remainder of a remainder by a multiple. */
  lemma ModOfMod(t: nat, k: nat, m: nat)
    requires 0 < k && 0 < m
    ensures 0 < k * m && t % (k * m) % k == t % k
  {
    MulMonotone(1, m, k);
    var n := k * m;
    var q, r := t / n, t % n;
    var q', r' := r / k, r % k;
    assert t == n * q + r && r == k * q' + r';
    MulAgain(k, m, q);
    MulDistributes(m * q, q', k);
    DivUnique(t, k, m * q + q', r');
  }

  lemma MulAgain(k: nat, m: nat, q: int)
    ensures k * m * q == k * (m * q)
  {
  }

  lemma Parts(t: nat, k: nat)
    requires 0 < k
    ensures t == t / k * k + t % k
  {
  }

  /** The parts of a time add up. */
  lemma Seconds(t: nat)
    ensures t == t / SEC_IN_DAY * SEC_IN_DAY + (t % SEC_IN_DAY) / 3600 * 3600 + (t % 3600) / 60 * 60 +
              (t % 60) / 2 * 2 + (t % 2) * 100 / 100
  {
    ModOfMod(t, 3600, 24);
    ModOfMod(t, 60, 60);
    ModOfMod(t, 2, 30);
    Parts(t, 86400);
    Parts(t % 86400, 3600);
    Parts(t % 3600, 60);
    Parts(t % 60, 2);
  }

  lemma Centiseconds(f: Fields, centisec: nat, tz: int)
    requires 1 <= f.month <= 12
    ensures Moment(f, centisec, tz) == Moment(f, 0, tz) + centisec / 100
  {
  }

  /** A moment converted and converted back; without the centiseconds an odd second is lost. */
  method ThereAndBack(moment: int, tz: int) returns (t: int, even: int)
    requires Clamped(moment, tz) - (EPOCH_DIFF_SEC + tz) < DAYS * SEC_IN_DAY
    ensures t == Clamped(moment, tz)
    ensures even == t - (t - EPOCH_DIFF_SEC - tz) % 2
  {
    hide Unpack, Moment;
    var date, time, centisec := Unix2Exfat(moment, tz);
    Centiseconds(Unpack(date, time), centisec, tz);
    t := Exfat2Unix(date, time, centisec, tz);
    even := Exfat2Unix(date, time, 0, tz);
  }
}
