/** Seconds since the epoch as a Gregorian date and time
    (crates/flowsdn-agent/src/log.rs:6-38,
    crates/flowsdn-version/build_support.rs:37-64; section 5.6 of RFC 3339). */
module Calendar {
  import opened Bytes

  // ---------- the calendar ----------

  datatype Date = Date(year: int, month: int, day: int)

  predicate Leap(year: int) { year % 4 == 0 && (year % 100 != 0 || year % 400 == 0) }

  function MonthLength(year: int, month: int): int
  {
    if month == 2 then (if Leap(year) then 29 else 28)
    else if month in {4, 6, 9, 11} then 30 else 31
  }

  predicate ValidDate(d: Date)
  {
    1 <= d.month <= 12 && 1 <= d.day <= MonthLength(d.year, d.month)
  }

  /** The next day of the calendar. */
  function Successor(d: Date): Date
  {
    if d.day < MonthLength(d.year, d.month) then d.(day := d.day + 1)
    else if d.month < 12 then Date(d.year, d.month + 1, 1)
    else Date(d.year + 1, 1, 1)
  }

  const EPOCH := Date(1970, 1, 1)

  /** The calendar date `n` days after the epoch, by counting. */
  function Counted(n: nat): Date { if n == 0 then EPOCH else Successor(Counted(n - 1)) }

  // ---------- the conversion ----------

  const EPOCH_DAYS := 719_468
  const ERA_DAYS := 146_097

  /** Days before a year of the era, years starting in March. */
  function YearStart(yoe: int): int { 365 * yoe + yoe / 4 - yoe / 100 }

  function YearOfEra(doe: int): int
  {
    (doe - doe / 1460 + doe / 36524 - doe / 146_096) / 365
  }

  function MonthDay(doy: int): (int, int)
  {
    var index := (5 * doy + 2) / 153;
    (if index < 10 then index + 3 else index - 9, doy - (153 * index + 2) / 5 + 1)
  }

  function FromDays(n: nat): Date
  {
    var days := n + EPOCH_DAYS;
    var era := days / ERA_DAYS;
    var doe := days - era * ERA_DAYS;
    var yoe := YearOfEra(doe);
    var (month, day) := MonthDay(doe - YearStart(yoe));
    Date(yoe + era * 400 + (if month <= 2 then 1 else 0), month, day)
  }

  // ---------- its inverse ----------

  /** The month counted from March. */
  function MarchMonth(month: int): int { if month > 2 then month - 3 else month + 9 }

  function DayOfYear(month: int, day: int): int { (153 * MarchMonth(month) + 2) / 5 + day - 1 }

  function MarchYear(d: Date): int { if d.month <= 2 then d.year - 1 else d.year }

  function ToDays(d: Date): int
  {
    var y := MarchYear(d);
    (y / 400) * ERA_DAYS + YearStart(y % 400) + DayOfYear(d.month, d.day) - EPOCH_DAYS
  }

  /** Years of an era by centuries, four-year cycles and rest. */
  lemma YearParts(c: int, q: int, k: int)
    requires 0 <= c <= 3 && 0 <= q <= 24 && 0 <= k <= 3
    ensures YearStart(100 * c + 4 * q + k) == 36524 * c + 1461 * q + 365 * k
  {
    DivModUnique(100 * c + 4 * q + k, 4, 25 * c + q, k);
    DivModUnique(100 * c + 4 * q + k, 100, c, 4 * q + k);
  }

  /** The year formula inverts the year starts. */
  lemma YearInverts(c: int, q: int, k: int, r: int)
    requires 0 <= c <= 3 && 0 <= q <= 24 && 0 <= k <= 3 && 0 <= r <= 365
    requires r == 365 ==> k == 3 && (q == 24 ==> c == 3)
    ensures YearOfEra(36524 * c + 1461 * q + 365 * k + r) == 100 * c + 4 * q + k
  {
    var doe := 36524 * c + 1461 * q + 365 * k + r;
    var over := 24 * c + q + 365 * k + r;
    var last := c == 3 && q == 24 && k == 3 && r == 365;
    DivModUnique(doe, 36524, if last then 4 else c, if last then 0 else 1461 * q + 365 * k + r);
    DivModUnique(doe, 146_096, if last then 1 else 0, if last then 0 else doe);
    if over < 1460 {
      DivModUnique(doe, 1460, 25 * c + q, over);
      DivModUnique(365 * (100 * c + 4 * q + k) + r, 365, 100 * c + 4 * q + k, r);
    } else {
      DivModUnique(doe, 1460, 25 * c + q + 1, over - 1460);
      DivModUnique(365 * (100 * c + 4 * q + k) + r - 1, 365, 100 * c + 4 * q + k, r - 1);
    }
  }

  /** Every day of an era in these parts. */
  lemma DayParts(doe: int) returns (c: int, q: int, k: int, r: int)
    requires 0 <= doe < ERA_DAYS
    ensures 0 <= c <= 3 && 0 <= q <= 24 && 0 <= k <= 3 && 0 <= r <= 365
    ensures r == 365 ==> k == 3 && (q == 24 ==> c == 3)
    ensures doe == 36524 * c + 1461 * q + 365 * k + r
  {
    c := if doe / 36524 > 3 then 3 else doe / 36524;
    var in4 := doe - 36524 * c;
    q := in4 / 1461;
    var in1 := in4 - 1461 * q;
    k := if in1 / 365 > 3 then 3 else in1 / 365;
    r := in1 - 365 * k;
  }

  /** The conversion of a day of an era lands in its March year. */
  lemma DayOfEra(doe: int)
    requires 0 <= doe < ERA_DAYS
    ensures 0 <= YearOfEra(doe) <= 399 && 0 <= doe - YearStart(YearOfEra(doe)) <= 365
    ensures doe - YearStart(YearOfEra(doe)) == 365 ==> LongYear(YearOfEra(doe))
  {
    hide YearOfEra, YearStart;
    var c, q, k, r := DayParts(doe);
    YearInverts(c, q, k, r);
    YearParts(c, q, k);
    if r == 365 { LongYearParts(c, q); }
  }

  /** March years with a February 29 at their end. */
  predicate LongYear(yoe: int) { (yoe + 1) % 4 == 0 && ((yoe + 1) % 100 != 0 || yoe == 399) }

  lemma LongYearParts(c: int, q: int)
    requires 0 <= c <= 3 && 0 <= q <= 24 && (q == 24 ==> c == 3)
    ensures LongYear(100 * c + 4 * q + 3)
  {
    DivModUnique(100 * c + 4 * q + 4, 4, 25 * c + q + 1, 0);
    if q < 24 { DivModUnique(100 * c + 4 * q + 4, 100, c, 4 * q + 4); }
  }

  /** A March year's length. */
  lemma YearLength(yoe: int)
    requires 0 <= yoe <= 399
    ensures (if yoe == 399 then ERA_DAYS else YearStart(yoe + 1)) - YearStart(yoe) == if LongYear(yoe) then 366 else 365
  {
  }

  /** Leap years are those a long March year ends in. */
  lemma LeapIsLong(y: int)
    ensures Leap(y + 1) <==> LongYear(y % 400)
  {
    var e, yoe := y / 400, y % 400;
    assert y == 400 * e + yoe;
    if yoe == 399 {
      DivModUnique(y + 1, 400, e + 1, 0);
      DivModUnique(y + 1, 4, 100 * (e + 1), 0);
    } else {
      DivModUnique(y + 1, 400, e, yoe + 1);
      DivModUnique(y + 1, 4, 100 * e + (yoe + 1) / 4, (yoe + 1) % 4);
      DivModUnique(y + 1, 100, 4 * e + (yoe + 1) / 100, (yoe + 1) % 100);
    }
  }

  /** Months from March on and their first days. */
  lemma MonthInverts(doy: int)
    requires 0 <= doy <= 365
    ensures var (month, day) := MonthDay(doy);
            && 1 <= month <= 12 && DayOfYear(month, day) == doy && 1 <= day
            && day <= (if month == 2 then 29 else if month in {4, 6, 9, 11} then 30 else 31)
            && (month == 2 && day == 29 <==> doy == 365)
            && (month <= 2 <==> doy >= 306)
  {
    var index := (5 * doy + 2) / 153;
    assert 0 <= index <= 11;
  }

  lemma DayInverts(month: int, day: int)
    requires 1 <= month <= 12 && 1 <= day <= (if month == 2 then 29 else if month in {4, 6, 9, 11} then 30 else 31)
    ensures 0 <= DayOfYear(month, day) <= 365 && MonthDay(DayOfYear(month, day)) == (month, day)
    ensures DayOfYear(month, day) == 365 ==> month == 2 && day == 29
  {
    var index := MarchMonth(month);
    var left := (153 * index + 2) % 5;
    assert day == 31 ==> left >= 2;
    assert 5 * DayOfYear(month, day) + 2 == 153 * index + (4 - left + 5 * (day - 1));
    DivModUnique(5 * DayOfYear(month, day) + 2, 153, index, 4 - left + 5 * (day - 1));
  }

  lemma MonthLengthIs(year: int, month: int)
    requires 1 <= month <= 12
    ensures MonthLength(year, month) == (if month == 2 then (if Leap(year) then 29 else 28)
                                         else if month in {4, 6, 9, 11} then 30 else 31)
  {
  }

  /** The conversion yields valid dates and its inverse recovers the day. */
  lemma ToFrom(n: nat)
    ensures ValidDate(FromDays(n)) && ToDays(FromDays(n)) == n
  {
    hide YearOfEra, YearStart, MonthDay, DayOfYear, Leap, LongYear;
    var days := n + EPOCH_DAYS;
    var era := days / ERA_DAYS;
    var doe := days - era * ERA_DAYS;
    assert 0 <= doe < ERA_DAYS;
    DayOfEra(doe);
    var yoe := YearOfEra(doe);
    MonthInverts(doe - YearStart(yoe));
    var y := yoe + era * 400;
    DivModUnique(y, 400, era, yoe);
    LeapIsLong(y);
    var d := FromDays(n);
    assert MarchYear(d) == y;
    MonthLengthIs(d.year, d.month);
  }

  lemma YearOfDay(yoe: int, doy: int)
    requires 0 <= yoe <= 399 && 0 <= doy <= 365 && (doy == 365 ==> LongYear(yoe))
    ensures 0 <= YearStart(yoe) + doy < ERA_DAYS && YearOfEra(YearStart(yoe) + doy) == yoe
  {
    hide YearOfEra, YearStart;
    var c, q, k := yoe / 100, (yoe % 100) / 4, yoe % 4;
    assert yoe == 100 * c + 4 * q + k;
    YearParts(c, q, k);
    YearInverts(c, q, k, doy);
  }

  /** Every valid date from the epoch on is the conversion of its day. */
  lemma FromTo(d: Date)
    requires ValidDate(d) && ToDays(d) >= 0
    ensures FromDays(ToDays(d)) == d
  {
    hide YearOfEra, YearStart, MonthDay, DayOfYear, Leap, LongYear;
    var y := MarchYear(d);
    var doy := DayOfYear(d.month, d.day);
    MonthLengthIs(d.year, d.month);
    DayInverts(d.month, d.day);
    LeapIsLong(y);
    YearOfDay(y % 400, doy);
    DivModUnique(ToDays(d) + EPOCH_DAYS, ERA_DAYS, y / 400, YearStart(y % 400) + doy);
  }

  /** The next calendar day is one day later. */
  lemma SuccessorDays(d: Date)
    requires ValidDate(d)
    ensures ValidDate(Successor(d)) && ToDays(Successor(d)) == ToDays(d) + 1
  {
    hide YearStart, LongYear, Leap;
    var y := MarchYear(d);
    MonthLengthIs(d.year, d.month);
    if d.month == 2 && d.day == MonthLength(d.year, 2) {
      LeapIsLong(y);
      YearLength(y % 400);
      NextMarchYear(y);
    }
  }

  lemma NextMarchYear(y: int)
    ensures y % 400 == 399 ==> (y + 1) / 400 == y / 400 + 1 && (y + 1) % 400 == 0
    ensures y % 400 != 399 ==> (y + 1) / 400 == y / 400 && (y + 1) % 400 == y % 400 + 1
    ensures YearStart(0) == 0
  {
  }

  /** The conversion counts calendar days from 1970-01-01. */
  lemma {:induction false} ConversionCounts(n: nat)
    ensures FromDays(n) == Counted(n)
  {
    hide FromDays, ToDays, Successor;
    if n == 0 {
      EpochIsZero();
    } else {
      ConversionCounts(n - 1);
      ToFrom(n - 1);
      SuccessorDays(Counted(n - 1));
      FromTo(Counted(n));
    }
  }

  lemma EpochIsZero()
    ensures FromDays(0) == EPOCH
  {
  }

  // ---------- seconds and text ----------

  datatype Moment = Moment(date: Date, hour: int, minute: int, second: int)

  const LAST_SECOND: nat := 253_402_300_799

  function Convert(seconds: nat): Moment
  {
    Moment(FromDays(seconds / 86400), seconds / 3600 % 24, seconds / 60 % 60, seconds % 60)
  }

  /** The clock reading is the time of day, and date and time determine the second. */
  lemma ClockIsExact(seconds: nat)
    ensures var m := Convert(seconds);
            && 0 <= m.hour < 24 && 0 <= m.minute < 60 && 0 <= m.second < 60
            && ValidDate(m.date) && ToDays(m.date) >= 0
            && seconds == 86400 * ToDays(m.date) + 3600 * m.hour + 60 * m.minute + m.second
  {
    hide FromDays, ToDays, ValidDate;
    ToFrom(seconds / 86400);
    var minutes := seconds / 60;
    var hours := minutes / 60;
    assert seconds / 3600 == hours && seconds / 86400 == hours / 24;
  }

  /** Dates through the last second have four-digit years. */
  lemma YearsFit(seconds: nat)
    requires seconds <= LAST_SECOND
    ensures 1970 <= Convert(seconds).date.year <= 9999
  {
    hide YearOfEra, YearStart, MonthDay;
    var n := seconds / 86400;
    var days := n + EPOCH_DAYS;
    var era := days / ERA_DAYS;
    var doe := days - era * ERA_DAYS;
    assert 4 <= era <= 24 && 0 <= doe < ERA_DAYS;
    DayOfEra(doe);
    MonthInverts(doe - YearStart(YearOfEra(doe)));
    YearStartBounds(YearOfEra(doe));
  }

  /** The starts of the March years around the epoch and the last year. */
  lemma YearStartBounds(yoe: int)
    requires 0 <= yoe <= 399
    ensures yoe <= 368 ==> YearStart(yoe) < 134_715
    ensures yoe == 369 ==> YearStart(yoe) == 134_774
    ensures yoe == 399 ==> YearStart(yoe) == 145_731
  {
  }

  /** A number in decimal, with leading zeros up to a width. */
  function Padded(n: nat, width: nat): (r: string)
    ensures |r| == width
  {
    if width == 0 then "" else Padded(n / 10, width - 1) + [Digit(n % 10)]
  }

  function Digit(n: nat): char
    requires n < 10
  {
    "0123456789"[n]
  }

  function Text(m: Moment): string
    requires 0 <= m.date.year && 0 <= m.date.month && 0 <= m.date.day && 0 <= m.hour && 0 <= m.minute && 0 <= m.second
  {
    Padded(m.date.year, 4) + "-" + Padded(m.date.month, 2) + "-" + Padded(m.date.day, 2) + "T"
    + Padded(m.hour, 2) + ":" + Padded(m.minute, 2) + ":" + Padded(m.second, 2)
  }

  /** The agent's copy: later times are written as the last second. */
  function Civil(seconds: u64): string
  {
    var s := Min(seconds, LAST_SECOND);
    ClockIsExact(s);
    YearsFit(s);
    Text(Convert(s))
  }

  predicate IsDigit(c: char) { '0' <= c <= '9' }

  function DecimalValue(text: string): nat
    requires forall i :: 0 <= i < |text| ==> IsDigit(text[i])
  {
    if text == "" then 0 else
    var last := text[|text| - 1];
    assert IsDigit(last);
    10 * DecimalValue(text[..|text| - 1]) + (last as int - '0' as int)
  }

  const I64_MAX: nat := 0x7FFF_FFFF_FFFF_FFFF

  /** The build's copy: decimal seconds, refused when malformed or too late. */
  function BuildDate(epoch: string): Option<string>
  {
    if epoch == "" || !(forall i :: 0 <= i < |epoch| ==> IsDigit(epoch[i])) then None
    else
      var seconds := DecimalValue(epoch);
      if seconds > I64_MAX || seconds > LAST_SECOND then None
      else
        ClockIsExact(seconds);
        YearsFit(seconds);
        Some(Text(Convert(seconds)) + "Z")
  }

  lemma {:induction false} PaddedValue(n: nat, width: nat)
    requires n < Ten(width)
    ensures forall i :: 0 <= i < width ==> IsDigit(Padded(n, width)[i])
    ensures DecimalValue(Padded(n, width)) == n
  {
    if width > 0 {
      PaddedValue(n / 10, width - 1);
      var r := Padded(n, width);
      assert r[..width - 1] == Padded(n / 10, width - 1);
    }
  }

  function Ten(width: nat): nat { if width == 0 then 1 else 10 * Ten(width - 1) }

  predicate Decimal(text: string) { text != "" && forall i :: 0 <= i < |text| ==> IsDigit(text[i]) }

  /** The build's copy accepts exactly the decimal numbers, of any length, through
      year 9999, and writes the agent's text with a Z. Read back, the text is the
      number given. */
  lemma CopiesAgree(epoch: string)
    ensures BuildDate(epoch).Some? <==> Decimal(epoch) && DecimalValue(epoch) <= LAST_SECOND
    ensures BuildDate(epoch).Some? ==> BuildDate(epoch).value == Civil(DecimalValue(epoch)) + "Z"
    ensures BuildDate(epoch).Some? ==> SecondOf(BuildDate(epoch).value) == DecimalValue(epoch)
  {
    hide Convert, Text, SecondOf, FromDays;
    if Decimal(epoch) && DecimalValue(epoch) <= LAST_SECOND { TextReads(DecimalValue(epoch), "Z"); }
  }

  lemma TextWithin(seconds: nat)
    requires seconds <= LAST_SECOND
    ensures var t, m := Civil(seconds), Convert(seconds);
            && |t| == 19 && t[4] == '-' && t[7] == '-' && t[10] == 'T' && t[13] == ':' && t[16] == ':'
            && Field(t, 0, 4, m.date.year) && Field(t, 5, 7, m.date.month) && Field(t, 8, 10, m.date.day)
            && Field(t, 11, 13, m.hour) && Field(t, 14, 16, m.minute) && Field(t, 17, 19, m.second)
  {
    hide Convert, Padded, DecimalValue, ToDays, MonthLength;
    ClockIsExact(seconds);
    YearsFit(seconds);
    var m := Convert(seconds);
    var t := Civil(seconds);
    assert Ten(4) == 10000 && Ten(2) == 100 by { Tens(); }
    assert m.date.day <= 31 by { MonthLengthIs(m.date.year, m.date.month); }
    PaddedValue(m.date.year, 4);
    PaddedValue(m.date.month, 2);
    PaddedValue(m.date.day, 2);
    PaddedValue(m.hour, 2);
    PaddedValue(m.minute, 2);
    PaddedValue(m.second, 2);
    assert t[0..4] == Padded(m.date.year, 4) && t[5..7] == Padded(m.date.month, 2) && t[8..10] == Padded(m.date.day, 2);
    assert t[11..13] == Padded(m.hour, 2) && t[14..16] == Padded(m.minute, 2) && t[17..19] == Padded(m.second, 2);
  }

  /** The text of a moment can be read back field by field; every moment past the
      last second of year 9999 is shown as that one. */
  lemma TextExact(seconds: u64)
    ensures var t, m := Civil(seconds), Convert(if seconds <= LAST_SECOND then seconds else LAST_SECOND);
            && |t| == 19 && t[4] == '-' && t[7] == '-' && t[10] == 'T' && t[13] == ':' && t[16] == ':'
            && Field(t, 0, 4, m.date.year) && Field(t, 5, 7, m.date.month) && Field(t, 8, 10, m.date.day)
            && Field(t, 11, 13, m.hour) && Field(t, 14, 16, m.minute) && Field(t, 17, 19, m.second)
  {
    hide Convert, Text, Field;
    TextWithin(if seconds <= LAST_SECOND then seconds else LAST_SECOND);
  }

  lemma LastSecond()
    ensures Convert(LAST_SECOND) == Moment(Date(9999, 12, 31), 23, 59, 59)
  {
    hide FromDays;
    var last := Date(9999, 12, 31);
    assert ToDays(last) == 2_932_896 && LAST_SECOND / 86400 == 2_932_896;
    assert MonthLength(9999, 12) == 31;
    FromTo(last);
  }

  /** The number that characters `i` to `j` spell. */
  function Number(t: string, i: nat, j: nat): int
    requires i <= j <= |t|
  {
    if forall k :: 0 <= k < |t[i..j]| ==> IsDigit(t[i..j][k]) then DecimalValue(t[i..j]) else 0
  }

  /** The second that a text names. */
  function SecondOf(t: string): int
  {
    if |t| < 19 then 0 else
    86400 * ToDays(Date(Number(t, 0, 4), Number(t, 5, 7), Number(t, 8, 10)))
    + 3600 * Number(t, 11, 13) + 60 * Number(t, 14, 16) + Number(t, 17, 19)
  }

  /** The text names the second it was made from, whatever follows it. */
  lemma TextReads(seconds: nat, suffix: string)
    requires seconds <= LAST_SECOND
    ensures SecondOf(Civil(seconds) + suffix) == seconds
  {
    hide Civil, Convert, DecimalValue, ToDays;
    TextWithin(seconds);
    ClockIsExact(seconds);
    var t, s := Civil(seconds), Civil(seconds) + suffix;
    assert s[0..4] == t[0..4] && s[5..7] == t[5..7] && s[8..10] == t[8..10];
    assert s[11..13] == t[11..13] && s[14..16] == t[14..16] && s[17..19] == t[17..19];
    var m := Convert(seconds);
    assert m.date == Date(m.date.year, m.date.month, m.date.day);
  }

  lemma Tens()
    ensures Ten(4) == 10000 && Ten(2) == 100
  {
  }

  /** Characters `i` to `j` are digits and spell the number. */
  ghost predicate Field(t: string, i: nat, j: nat, value: int)
    requires i <= j <= |t|
  {
    (forall k :: 0 <= k < |t[i..j]| ==> IsDigit(t[i..j][k])) && DecimalValue(t[i..j]) == value
  }
}
