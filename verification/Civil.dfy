/** Civil dates as day numbers, and RFC 3339 timestamps (section 5.6) as Unix seconds. */
module Civil {
  import opened Bytes
  import opened Decimal

  // ---------------------------------------------------------------- the formula

  /** The proleptic Gregorian day number, with March-based years in 400-year eras. */
  function DaysFromCivil(year: int, m: int, d: int): int {
    var y := if m <= 2 then year - 1 else year;
    var era := if y >= 0 then y / 400 else -((399 - y) / 400);
    var yoe := y - era * 400;
    var doy := (153 * (m + (if m > 2 then -3 else 9)) + 2) / 5 + d - 1;
    var doe := yoe * 365 + yoe / 4 - yoe / 100 + doy;
    era * 146097 + doe - 719468
  }

  // --------------------------------------------------------------- the calendar

  predicate IsLeap(y: int) {
    y % 4 == 0 && (y % 100 != 0 || y % 400 == 0)
  }

  function DaysIn(y: int, m: int): int {
    if m == 2 then (if IsLeap(y) then 29 else 28)
    else if m == 4 || m == 6 || m == 9 || m == 11 then 30
    else 31
  }

  datatype Date = Date(year: int, month: int, day: int)

  predicate ValidDate(t: Date) {
    1 <= t.month <= 12 && 1 <= t.day <= DaysIn(t.year, t.month)
  }

  function Next(t: Date): Date {
    if t.day < DaysIn(t.year, t.month) then Date(t.year, t.month, t.day + 1)
    else if t.month < 12 then Date(t.year, t.month + 1, 1)
    else Date(t.year + 1, 1, 1)
  }

  function Days(t: Date): int {
    DaysFromCivil(t.year, t.month, t.day)
  }

  /** Days before the March-based year yoe of its era. */
  function EraDays(yoe: int): int {
    yoe * 365 + yoe / 4 - yoe / 100
  }

  lemma {:induction false} EraFloor(y: int)
    ensures (if y >= 0 then y / 400 else -((399 - y) / 400)) == y / 400
  {}

  /** Days before month m of the year that starts in March. */
  function DaysBefore(m: int): int {
    (153 * (m + (if m > 2 then -3 else 9)) + 2) / 5
  }

  lemma {:induction false} DaysByEra(year: int, m: int, d: int)
    ensures DaysFromCivil(year, m, d) == YearDays(if m <= 2 then year - 1 else year) + DaysBefore(m) + d - 1 - 719468
  {
    EraFloor(if m <= 2 then year - 1 else year);
  }

  lemma {:induction false} LeapByRemainder(e: int, k: int)
    ensures IsLeap(400 * e + k) == IsLeap(k)
  {
    DivideUnique(400 * e + k, 4, 100 * e + k / 4, k % 4);
    DivideUnique(400 * e + k, 100, 4 * e + k / 100, k % 100);
    DivideUnique(400 * e + k, 400, e + k / 400, k % 400);
  }

  lemma {:induction false} EraStep(r: int)
    requires 0 <= r < 399
    ensures EraDays(r + 1) == EraDays(r) + 337 + DaysIn(r + 1, 2)
  {
    assert (r + 1) / 4 == r / 4 + (if (r + 1) % 4 == 0 then 1 else 0);
    assert (r + 1) / 100 == r / 100 + (if (r + 1) % 100 == 0 then 1 else 0);
    assert (r + 1) % 100 == 0 ==> (r + 1) % 4 == 0;
  }

  /** Days before the March-based year y, counted from year 0. */
  function YearDays(y: int): int {
    y / 400 * 146097 + EraDays(y % 400)
  }

  /** From one March-based year to the next: 365 days, and a leap day when the February between is long. */
  lemma {:induction false} YearLength(y: int)
    ensures YearDays(y + 1) == YearDays(y) + 337 + DaysIn(y + 1, 2)
  {
    var e, r := y / 400, y % 400;
    LeapByRemainder(e, r + 1);
    if r == 399 {
      DivideUnique(y + 1, 400, e + 1, 0);
      assert EraDays(399) + 337 + 29 == 146097 + EraDays(0) && IsLeap(400);
    } else {
      DivideUnique(y + 1, 400, e, r + 1);
      EraStep(r);
    }
    hide IsLeap, EraDays;
  }

  lemma {:induction false} MonthStart(m: int)
    requires 1 <= m <= 12
    ensures m != 2 && m != 12 ==> DaysBefore(m + 1) == DaysBefore(m) + DaysIn(1, m)
    ensures DaysBefore(3) == 0 && DaysBefore(2) == 337 && DaysBefore(1) == 306 && DaysBefore(12) == 275
  {}

  /** The first of the next month comes one month's length after the first of this one. */
  lemma {:induction false} MonthAdvance(y: int, m: int)
    requires 1 <= m <= 12
    ensures (if m < 12 then DaysFromCivil(y, m + 1, 1) else DaysFromCivil(y + 1, 1, 1)) ==
            DaysFromCivil(y, m, 1) + DaysIn(y, m)
  {
    hide YearDays, DaysFromCivil, DaysBefore, IsLeap;
    DaysByEra(y, m, 1);
    DaysByEra(if m < 12 then y else y + 1, if m < 12 then m + 1 else 1, 1);
    MonthStart(m);
    if m == 2 {
      YearLength(y - 1);
    }
  }

  /** Days of a month follow each other, whatever the month's length: an over-long day
      number runs on into the next month. */
  lemma {:induction false} DaysLinear(y: int, m: int, d: int)
    ensures DaysFromCivil(y, m, d) == DaysFromCivil(y, m, 1) + d - 1
  {}

  lemma {:induction false} Epoch()
    ensures DaysFromCivil(1970, 1, 1) == 0
  {}

  /** The epoch is day 0, and every valid date is one day before the next. */
  lemma {:induction false} DaysAdvance(t: Date)
    requires ValidDate(t)
    ensures Days(Date(1970, 1, 1)) == 0
    ensures ValidDate(Next(t)) && Days(Next(t)) == Days(t) + 1
  {
    hide DaysFromCivil, IsLeap;
    Epoch();
    MonthAdvance(t.year, t.month);
    DaysLinear(t.year, t.month, t.day);
    DaysLinear(t.year, t.month, t.day + 1);
  }

  predicate Earlier(a: Date, b: Date) {
    a.year < b.year || (a.year == b.year && (a.month < b.month || (a.month == b.month && a.day < b.day)))
  }

  /** A later month starts no sooner than this one ends. */
  lemma {:induction false} MonthsAdvance(y: int, m: int, y': int, m': int)
    requires 1 <= m <= 12 && 1 <= m' <= 12 && (y < y' || (y == y' && m < m'))
    ensures DaysFromCivil(y, m, 1) + DaysIn(y, m) <= DaysFromCivil(y', m', 1)
    decreases y' - y, m' - m + 12
  {
    hide DaysFromCivil, IsLeap;
    MonthAdvance(y, m);
    var (ny, nm) := if m < 12 then (y, m + 1) else (y + 1, 1);
    if ny != y' || nm != m' {
      MonthsAdvance(ny, nm, y', m');
    }
  }

  /** The day number orders valid dates exactly as the calendar does. */
  lemma {:induction false} DaysMonotone(a: Date, b: Date)
    requires ValidDate(a) && ValidDate(b)
    ensures Earlier(a, b) <==> Days(a) < Days(b)
    ensures Days(a) == Days(b) <==> a == b
  {
    DaysLinear(a.year, a.month, a.day);
    DaysLinear(b.year, b.month, b.day);
    hide DaysFromCivil;
    if Earlier(a, b) && (a.year != b.year || a.month != b.month) {
      MonthsAdvance(a.year, a.month, b.year, b.month);
    }
    if Earlier(b, a) && (a.year != b.year || a.month != b.month) {
      MonthsAdvance(b.year, b.month, a.year, a.month);
    }
  }

  // ------------------------------------------------------------------ timestamps

  /** The n digits at i read as a number. */
  function Number(s: bytes, i: nat, n: nat): Option<nat> {
    if n == 0 then Some(0)
    else
      var before := Number(s, i, n - 1);
      if before.Some? && i + n <= |s| && IsDigit(s[i + n - 1])
      then Some(before.value * 10 + (s[i + n - 1] - '0' as int)) else None
  }

  function Is(s: bytes, i: nat, c: char): bool
    requires c < 128 as char
  {
    i < |s| && s[i] == c as int
  }

  /** The six numbers of the leading 19 characters. */
  datatype Local = Local(year: nat, month: nat, day: nat, hour: nat, minute: nat, second: nat) {
    predicate InRange() {
      && year <= 9999 && 1 <= month <= 12 && 1 <= day <= 31
      && hour <= 23 && minute <= 59 && second <= 60
    }

    function Day(): Date {
      Date(year, month, day)
    }

    function Clock(): int {
      hour * 3600 + minute * 60 + second
    }

    function Seconds(): int {
      Days(Day()) * 86400 + Clock()
    }
  }

  function LocalOf(s: bytes): Option<Local> {
    var year, month, day := Number(s, 0, 4), Number(s, 5, 2), Number(s, 8, 2);
    var hour, minute, second := Number(s, 11, 2), Number(s, 14, 2), Number(s, 17, 2);
    if && year.Some? && Is(s, 4, '-') && month.Some? && Is(s, 7, '-') && day.Some?
       && (Is(s, 10, 'T') || Is(s, 10, 't') || Is(s, 10, ' '))
       && hour.Some? && Is(s, 13, ':') && minute.Some? && Is(s, 16, ':') && second.Some?
    then
      var local := Local(year.value, month.value, day.value, hour.value, minute.value, second.value);
      if local.InRange() then Some(local) else None
    else None
  }

  /** Where an optional fraction starting at i ends. */
  function FractionEnd(s: bytes, i: nat): (r: Option<nat>)
    requires i <= |s|
    ensures r.Some? ==> i <= r.value <= |s|
  {
    if !Is(s, i, '.') then Some(i)
    else if i + 1 < |s| && IsDigit(s[i + 1]) then Some(DigitsEnd(s, i + 1))
    else None
  }

  /** The zone from i to the end of the text, as the seconds by which local time is ahead. */
  function ZoneOf(s: bytes, i: nat): Option<int> {
    if Is(s, i, 'Z') || Is(s, i, 'z') then
      if i + 1 == |s| then Some(0) else None
    else if Is(s, i, '+') || Is(s, i, '-') then
      var oh, om := Number(s, i + 1, 2), Number(s, i + 4, 2);
      if oh.Some? && Is(s, i + 3, ':') && om.Some? && i + 6 == |s| && oh.value <= 23 && om.value <= 59 then
        var off := oh.value * 3600 + om.value * 60;
        Some(if Is(s, i, '+') then off else -off)
      else None
    else None
  }

  function ParseOf(s: bytes): Option<int> {
    if |s| < 20 then None else
    var local := LocalOf(s);
    if local.None? then None else
    var at := FractionEnd(s, 19);
    if at.None? then None else
    var zone := ZoneOf(s, at.value);
    if zone.None? then None else Some(local.value.Seconds() - zone.value)
  }

  // ------------------------------------------------------------- printed stamps

  datatype Zone = Utc(mark: byte) | Shift(ahead: bool, hours: nat, minutes: nat) {
    predicate Valid() {
      match this
      case Utc(m) => m == 'Z' as int || m == 'z' as int
      case Shift(_, h, m) => h <= 23 && m <= 59
    }

    function Seconds(): int {
      match this
      case Utc(_) => 0
      case Shift(ahead, h, m) => if ahead then h * 3600 + m * 60 else -(h * 3600 + m * 60)
    }
  }

  /** Everything an RFC 3339 timestamp says: `fraction` holds the digits after the point, none
      when there is no point, and `sep` stands between date and time. */
  datatype Stamp = Stamp(local: Local, sep: byte, fraction: bytes, zone: Zone) {
    predicate Valid() {
      && local.InRange() && zone.Valid()
      && (sep == 'T' as int || sep == 't' as int || sep == ' ' as int)
      && AllDigits(fraction)
    }

    function Instant(): int {
      local.Seconds() - zone.Seconds()
    }
  }

  function PrintLocal(l: Local, sep: byte): (r: bytes)
    ensures |r| == 19
  {
    [Digit(l.year / 1000), Digit(l.year / 100), Digit(l.year / 10), Digit(l.year), '-' as int,
     Digit(l.month / 10), Digit(l.month), '-' as int, Digit(l.day / 10), Digit(l.day), sep,
     Digit(l.hour / 10), Digit(l.hour), ':' as int, Digit(l.minute / 10), Digit(l.minute), ':' as int,
     Digit(l.second / 10), Digit(l.second)]
  }

  function PrintFraction(fraction: bytes): bytes {
    if fraction == [] then [] else ['.' as int] + fraction
  }

  function PrintZone(z: Zone): bytes {
    match z
    case Utc(mark) => [mark]
    case Shift(ahead, h, m) =>
      [if ahead then '+' as int else '-' as int, Digit(h / 10), Digit(h), ':' as int, Digit(m / 10), Digit(m)]
  }

  function Print(t: Stamp): bytes {
    PrintLocal(t.local, t.sep) + (PrintFraction(t.fraction) + PrintZone(t.zone))
  }

  lemma {:induction false} NumberStep(s: bytes, i: nat, n: nat, v: nat)
    ensures Number(s, i, n + 1) == Some(v) <==>
            Number(s, i, n) == Some(v / 10) && i + n + 1 <= |s| && s[i + n] == Digit(v)
  {}

  lemma {:induction false} Number2(s: bytes, i: nat, v: nat)
    ensures Number(s, i, 2) == Some(v) <==>
            v <= 99 && i + 2 <= |s| && s[i] == Digit(v / 10) && s[i + 1] == Digit(v)
  {
    NumberStep(s, i, 0, v / 10);
    NumberStep(s, i, 1, v);
  }

  lemma {:induction false} Year4(s: bytes, v: nat)
    ensures Number(s, 0, 4) == Some(v) <==>
            v <= 9999 && |s| >= 4
            && s[0] == Digit(v / 1000) && s[1] == Digit(v / 100) && s[2] == Digit(v / 10) && s[3] == Digit(v)
  {
    assert v / 10 / 10 == v / 100 && v / 10 / 10 / 10 == v / 1000;
    Number2(s, 0, v / 10 / 10);
    NumberStep(s, 0, 2, v / 10);
    NumberStep(s, 0, 3, v);
    hide Number;
  }

  /** The 19 characters one by one. */
  predicate Spelled(s: bytes, l: Local)
    requires |s| >= 19
  {
    && s[0] == Digit(l.year / 1000) && s[1] == Digit(l.year / 100) && s[2] == Digit(l.year / 10)
       && s[3] == Digit(l.year)
    && s[4] == '-' as int && s[5] == Digit(l.month / 10) && s[6] == Digit(l.month)
    && s[7] == '-' as int && s[8] == Digit(l.day / 10) && s[9] == Digit(l.day)
    && s[11] == Digit(l.hour / 10) && s[12] == Digit(l.hour)
    && s[13] == ':' as int && s[14] == Digit(l.minute / 10) && s[15] == Digit(l.minute)
    && s[16] == ':' as int && s[17] == Digit(l.second / 10) && s[18] == Digit(l.second)
  }

  lemma {:induction false} SpelledIff(s: bytes, l: Local)
    requires |s| >= 19
    ensures Spelled(s, l) <==> s[..19] == PrintLocal(l, s[10])
  {
    hide Digit;
    var p := PrintLocal(l, s[10]);
    assert forall k :: 0 <= k < 19 ==> s[..19][k] == s[k];
    if Spelled(s, l) {
      assert forall k :: 0 <= k < 19 ==> s[k] == p[k];
    }
  }

  lemma {:induction false} LocalIff(s: bytes, l: Local)
    requires |s| >= 20
    ensures LocalOf(s) == Some(l) <==>
            l.InRange() && (s[10] == 'T' as int || s[10] == 't' as int || s[10] == ' ' as int)
            && s[..19] == PrintLocal(l, s[10])
  {
    hide Number, Digit, PrintLocal;
    SpelledIff(s, l);
    Year4(s, l.year);
    Number2(s, 5, l.month);
    Number2(s, 8, l.day);
    Number2(s, 11, l.hour);
    Number2(s, 14, l.minute);
    Number2(s, 17, l.second);
  }

  lemma {:induction false} ZonePrinted(s: bytes, i: nat, z: Zone)
    requires i <= |s| && z.Valid() && s[i..] == PrintZone(z)
    ensures ZoneOf(s, i) == Some(z.Seconds())
  {
    assert forall k :: i <= k < |s| ==> s[k] == s[i..][k - i];
    if z.Shift? {
      Number2(s, i + 1, z.hours);
      Number2(s, i + 4, z.minutes);
    }
    hide Number, Digit;
  }

  lemma {:induction false} ZoneRead(s: bytes, i: nat) returns (z: Zone)
    requires ZoneOf(s, i).Some?
    ensures i <= |s| && z.Valid() && s[i..] == PrintZone(z) && ZoneOf(s, i) == Some(z.Seconds())
  {
    if Is(s, i, 'Z') || Is(s, i, 'z') {
      z := Utc(s[i]);
    } else {
      z := Shift(Is(s, i, '+'), Number(s, i + 1, 2).value, Number(s, i + 4, 2).value);
      Number2(s, i + 1, z.hours);
      Number2(s, i + 4, z.minutes);
    }
    hide Number, Digit;
  }

  lemma {:induction false} FractionPrinted(s: bytes, f: bytes, z: Zone)
    requires |s| >= 19 && (z.Utc? ==> z.Valid()) && AllDigits(f)
    requires s[19..] == PrintFraction(f) + PrintZone(z)
    ensures FractionEnd(s, 19) == Some(19 + |PrintFraction(f)|)
    ensures s[19 + |PrintFraction(f)|..] == PrintZone(z)
  {
    hide Digit, PrintZone, DigitsEnd, AllDigits;
    ZoneStarts(z);
    assert s[19] == s[19..][0];
    if f != [] {
      BehindPoint(s, f, PrintZone(z));
      DigitRun(s, 20, f, PrintZone(z));
    } else {
      assert s[19..] == PrintZone(z);
    }
  }

  lemma {:induction false} BehindPoint(s: bytes, f: bytes, rest: bytes)
    requires |s| >= 19 && s[19..] == ['.' as int] + f + rest
    ensures |s| >= 20 && s[20..] == f + rest
  {
    assert s[20..] == s[19..][1..];
  }

  lemma {:induction false} ZoneStarts(z: Zone)
    requires z.Utc? ==> z.Valid()
    ensures PrintZone(z) != [] && !IsDigit(PrintZone(z)[0]) && PrintZone(z)[0] != '.' as int
  {}

  lemma {:induction false} FractionRead(s: bytes) returns (f: bytes)
    requires |s| >= 19 && FractionEnd(s, 19).Some?
    ensures AllDigits(f)
    ensures s[19..FractionEnd(s, 19).value] == PrintFraction(f)
  {
    f := if Is(s, 19, '.') then s[20..DigitsEnd(s, 20)] else [];
  }

  /** The parser accepts exactly the printed timestamps, each with the instant it names: local
      time less the zone's offset, the fraction ignored. A day up to 31 is taken in every month. */
  lemma {:induction false} StampRead(s: bytes) returns (st: Stamp)
    requires ParseOf(s).Some?
    ensures st.Valid() && s == Print(st) && ParseOf(s) == Some(st.Instant())
  {
    hide LocalOf, ZoneOf, FractionEnd, PrintLocal, PrintFraction, PrintZone, ParseOf, Local.Seconds, Local.InRange,
         Zone.Seconds, Zone.Valid, AllDigits;
    var l, e := ParseParts(s);
    LocalIff(s, l);
    var f := FractionRead(s);
    var z := ZoneRead(s, e);
    st := Stamp(l, s[10], f, z);
    Parts(s, 19, e);
  }

  lemma {:induction false} Parts(s: bytes, i: nat, j: nat)
    requires i <= j <= |s|
    ensures s == s[..i] + (s[i..j] + s[j..])
  {}

  lemma {:induction false} ParseParts(s: bytes) returns (l: Local, e: nat)
    requires ParseOf(s).Some?
    ensures |s| >= 20 && LocalOf(s) == Some(l) && FractionEnd(s, 19) == Some(e) && 19 <= e <= |s|
    ensures ZoneOf(s, e).Some? && ParseOf(s) == Some(l.Seconds() - ZoneOf(s, e).value)
  {
    hide LocalOf, ZoneOf, FractionEnd, Local.Seconds;
    l, e := LocalOf(s).value, FractionEnd(s, 19).value;
  }

  lemma {:induction false} ParseIff(s: bytes, t: int)
    ensures ParseOf(s) == Some(t) <==> exists st: Stamp :: st.Valid() && s == Print(st) && t == st.Instant()
  {
    hide *;
    if ParseOf(s) == Some(t) {
      var st := StampRead(s);
    }
    if st: Stamp :| st.Valid() && s == Print(st) && t == st.Instant() {
      RoundTrip(st);
    }
  }

  lemma {:induction false} RoundTrip(st: Stamp)
    requires st.Valid()
    ensures ParseOf(Print(st)) == Some(st.Instant())
  {
    hide LocalOf, ZoneOf, FractionEnd, PrintLocal, PrintFraction, PrintZone, ParseOf, Print, Local.Seconds,
         Local.InRange, Zone.Seconds, Zone.Valid, AllDigits;
    var s := Print(st);
    PrintParts(st);
    FractionPrinted(s, st.fraction, st.zone);
    var e := 19 + |PrintFraction(st.fraction)|;
    ZonePrinted(s, e, st.zone);
    LocalIff(s, st.local);
    FromParts(s, st.local, e);
  }

  lemma {:induction false} PrintParts(st: Stamp)
    ensures var s := Print(st);
            && |s| >= 20 && s[..19] == PrintLocal(st.local, st.sep) && s[10] == st.sep
            && s[19..] == PrintFraction(st.fraction) + PrintZone(st.zone)
  {
    hide PrintFraction;
    assert Print(st)[10] == Print(st)[..19][10];
  }

  lemma {:induction false} FromParts(s: bytes, l: Local, e: nat)
    requires |s| >= 20 && LocalOf(s) == Some(l) && FractionEnd(s, 19) == Some(e) && ZoneOf(s, e).Some?
    ensures ParseOf(s) == Some(l.Seconds() - ZoneOf(s, e).value)
  {
    hide LocalOf, ZoneOf, FractionEnd, Local.Seconds;
  }

  /** The date n days after a date. */
  function Later(t: Date, n: nat): Date {
    if n == 0 then t else Next(Later(t, n - 1))
  }

  lemma {:induction false} LaterDays(t: Date, n: nat)
    requires ValidDate(t)
    ensures ValidDate(Later(t, n)) && Days(Later(t, n)) == Days(t) + n
  {
    hide Days, Next, ValidDate;
    if n > 0 {
      LaterDays(t, n - 1);
      DaysAdvance(Later(t, n - 1));
    }
  }

  /** b reads `ahead` seconds further on than a, n midnights later. */
  predicate Reads(a: Local, b: Local, n: nat, ahead: int) {
    b.Day() == Later(a.Day(), n) && b.Clock() + 86400 * n == a.Clock() + ahead
  }

  /** Two readings of one instant: their clocks differ by what their zones do, across however many
      midnights lie between them, month's and year's ends included. */
  predicate SameInstant(a: Stamp, b: Stamp, n: nat) {
    Reads(a.local, b.local, n, b.zone.Seconds() - a.zone.Seconds())
  }

  /** Every spelling of one instant parses to the same second. */
  lemma {:induction false} OffsetSpellings(a: Stamp, b: Stamp, n: nat)
    requires a.Valid() && b.Valid() && ValidDate(a.local.Day()) && ValidDate(b.local.Day())
    requires SameInstant(a, b, n) || SameInstant(b, a, n)
    ensures ParseOf(Print(a)) == ParseOf(Print(b))
  {
    hide ParseOf, Print, Later, Zone.Seconds, ValidDate, Stamp.Valid, Days;
    RoundTrip(a);
    RoundTrip(b);
    LaterDays(a.local.Day(), n);
    LaterDays(b.local.Day(), n);
  }

  /** The numbers settle when two dates are n days apart: the calendar has no other way there. */
  lemma {:induction false} LaterIff(t: Date, u: Date, n: nat)
    requires ValidDate(t) && ValidDate(u)
    ensures u == Later(t, n) <==> Days(u) == Days(t) + n
  {
    hide Days, Later, ValidDate;
    LaterDays(t, n);
    DaysMonotone(Later(t, n), u);
  }

  /** Conversely, timestamps on calendar dates that parse to one second are spellings of one instant
      in this sense, so nothing is left out. */
  lemma {:induction false} OnlySpellings(a: Stamp, b: Stamp)
    requires a.Valid() && b.Valid() && ValidDate(a.local.Day()) && ValidDate(b.local.Day())
    requires ParseOf(Print(a)) == ParseOf(Print(b))
    ensures exists n: nat :: SameInstant(a, b, n) || SameInstant(b, a, n)
  {
    hide ParseOf, Print, Later, Zone.Seconds, ValidDate, Stamp.Valid, Days;
    RoundTrip(a);
    RoundTrip(b);
    var d := Days(b.local.Day()) - Days(a.local.Day());
    if d >= 0 {
      LaterIff(a.local.Day(), b.local.Day(), d);
      assert SameInstant(a, b, d);
    } else {
      LaterIff(b.local.Day(), a.local.Day(), -d);
      assert SameInstant(b, a, -d);
    }
  }

  /** 31 February 2026 is taken, and is 3 March. */
  lemma {:induction false} FebruaryRunsOn()
    ensures var late := Stamp(Local(2026, 2, 31, 0, 0, 0), 'T' as int, [], Utc('Z' as int));
            var march := Stamp(Local(2026, 3, 3, 0, 0, 0), 'T' as int, [], Utc('Z' as int));
            ParseOf(Print(late)) == ParseOf(Print(march)) && ParseOf(Print(late)).Some?
  {
    hide ParseOf, Print, DaysFromCivil;
    SameDay();
    Midnight(2026, 2, 31);
    Midnight(2026, 3, 3);
  }

  lemma {:induction false} Midnight(y: nat, m: nat, d: nat)
    requires Local(y, m, d, 0, 0, 0).InRange()
    ensures ParseOf(Print(Stamp(Local(y, m, d, 0, 0, 0), 'T' as int, [], Utc('Z' as int)))) ==
            Some(DaysFromCivil(y, m, d) * 86400)
  {
    hide ParseOf, Print, DaysFromCivil;
    RoundTrip(Stamp(Local(y, m, d, 0, 0, 0), 'T' as int, [], Utc('Z' as int)));
  }

  lemma {:induction false} SameDay()
    ensures DaysFromCivil(2026, 2, 31) == DaysFromCivil(2026, 3, 3)
  {}

  // ------------------------------------------------------- the clock by numbers

  /** One second further on the clock face, past the ends of the minute, the hour and the day. */
  function NextSecond(l: Local): Local {
    if l.second < 59 then l.(second := l.second + 1)
    else if l.minute < 59 then l.(minute := l.minute + 1, second := 0)
    else if l.hour < 23 then l.(hour := l.hour + 1, minute := 0, second := 0)
    else NextMidnight(l)
  }

  function NextMidnight(l: Local): Local {
    var t := Next(l.Day());
    if t.year < 0 || t.month < 0 || t.day < 0 then l else Local(t.year, t.month, t.day, 0, 0, 0)
  }

  /** The timestamp that shows the next second parses to one more. */
  lemma {:induction false} NextSecondParses(st: Stamp)
    requires st.Valid() && ValidDate(st.local.Day()) && st.local.second <= 59
    requires NextSecond(st.local).year <= 9999
    ensures ParseOf(Print(st)).Some?
    ensures ParseOf(Print(st.(local := NextSecond(st.local)))) == Some(ParseOf(Print(st)).value + 1)
  {
    NextSecondCounts(st.local);
    LocalMoves(st, NextSecond(st.local));
    hide ParseOf, Print, Local.Seconds, NextSecond, ValidDate, Stamp.Valid;
  }

  lemma {:induction false} LocalMoves(st: Stamp, l: Local)
    requires st.Valid() && l.InRange()
    ensures ParseOf(Print(st)).Some?
    ensures ParseOf(Print(st.(local := l))) == Some(ParseOf(Print(st)).value + (l.Seconds() - st.local.Seconds()))
  {
    hide ParseOf, Print, Local.Seconds, Zone.Seconds;
    RoundTrip(st);
    RoundTrip(st.(local := l));
  }

  lemma {:induction false} NextSecondCounts(l: Local)
    requires l.InRange() && ValidDate(l.Day()) && l.second <= 59 && NextSecond(l).year <= 9999
    ensures NextSecond(l).InRange() && NextSecond(l).Seconds() == l.Seconds() + 1
  {
    hide Days, Next, ValidDate;
    if l.second == 59 && l.minute == 59 && l.hour == 23 {
      DaysAdvance(l.Day());
      NextIsDate(l.Day());
      var t := Next(l.Day());
      assert NextMidnight(l).Day() == t;
    }
  }

  lemma {:induction false} NextIsDate(t: Date)
    requires ValidDate(t)
    ensures ValidDate(Next(t)) && 1 <= Next(t).day <= 31 && 1 <= Next(t).month <= 12 && Next(t).year >= t.year
  {}

  /** A leap second, 23:59:60 or any other, parses to one more than the second before it. */
  lemma {:induction false} LeapSecondParses(st: Stamp)
    requires st.Valid() && st.local.second == 59
    ensures ParseOf(Print(st)).Some?
    ensures ParseOf(Print(st.(local := st.local.(second := 60)))) == Some(ParseOf(Print(st)).value + 1)
  {
    hide ParseOf, Print, Days;
    LocalMoves(st, st.local.(second := 60));
  }

  /** An offset is so many hours and minutes ahead of Z, or behind it. */
  lemma {:induction false} OffsetParses(st: Stamp, mark: byte, h: nat, m: nat)
    requires st.Valid() && (mark == 'Z' as int || mark == 'z' as int) && h <= 23 && m <= 59
    ensures var utc := ParseOf(Print(st.(zone := Utc(mark))));
            && utc.Some?
            && ParseOf(Print(st.(zone := Shift(true, h, m)))) == Some(utc.value - (h * 3600 + m * 60))
            && ParseOf(Print(st.(zone := Shift(false, h, m)))) == Some(utc.value + (h * 3600 + m * 60))
  {
    hide ParseOf, Print, Local.Seconds;
    RoundTrip(st.(zone := Utc(mark)));
    RoundTrip(st.(zone := Shift(true, h, m)));
    RoundTrip(st.(zone := Shift(false, h, m)));
  }

  const EPOCH := Stamp(Local(1970, 1, 1, 0, 0, 0), 'T' as int, [], Utc('Z' as int))

  /** The epoch is second 0. */
  lemma {:induction false} EpochParses()
    ensures ParseOf(Ascii("1970-01-01T00:00:00Z")) == Some(0)
  {
    hide *;
    EpochInstant();
    EpochText();
    RoundTrip(EPOCH);
  }

  lemma {:induction false} EpochInstant()
    ensures EPOCH.Valid() && EPOCH.Instant() == 0
  {
    hide DaysFromCivil, Stamp.Instant;
    Epoch();
    Reckon(EPOCH, 1970, 1, 1, 0, 0, 0);
  }

  /** The second a stamp with Z names, by its numbers. */
  lemma {:induction false} Reckon(st: Stamp, y: nat, m: nat, d: nat, hour: nat, minute: nat, second: nat)
    requires st.local == Local(y, m, d, hour, minute, second) && st.zone.Utc?
    ensures st.Instant() == DaysFromCivil(y, m, d) * 86400 + hour * 3600 + minute * 60 + second
  {
    hide DaysFromCivil;
  }

  lemma {:induction false} EpochText()
    ensures Print(EPOCH) == Ascii("1970-01-01T00:00:00Z")
  {
    var s, t := Print(EPOCH), Ascii("1970-01-01T00:00:00Z");
    assert s[..10] == t[..10];
    assert s[10..] == t[10..];
    assert s == s[..10] + s[10..] && t == t[..10] + t[10..];
  }

  const FIRST := Stamp(Local(1985, 4, 12, 23, 20, 50), 'T' as int, ['5' as int, '2' as int], Utc('Z' as int))
  const SECOND := Stamp(Local(1996, 12, 19, 16, 39, 57), 'T' as int, [], Shift(false, 8, 0))

  /** The first two examples of section 5.8 of RFC 3339. */
  lemma {:induction false} ExamplesParse()
    ensures ParseOf(Ascii("1985-04-12T23:20:50.52Z")) == Some(482_196_050)
    ensures ParseOf(Ascii("1996-12-19T16:39:57-08:00")) == Some(851_042_397)
  {
    hide *;
    FirstText();
    SecondText();
    ExampleInstants();
    RoundTrip(FIRST);
    RoundTrip(SECOND);
  }

  lemma {:induction false} ExampleInstants()
    ensures FIRST.Valid() && FIRST.Instant() == 482_196_050
    ensures SECOND.Valid() && SECOND.Instant() == 851_042_397
  {}

  lemma {:induction false} FirstText()
    ensures Print(FIRST) == Ascii("1985-04-12T23:20:50.52Z")
  {
    var s, t := Print(FIRST), Ascii("1985-04-12T23:20:50.52Z");
    assert s[..10] == t[..10];
    assert s[10..] == t[10..];
    assert s == s[..10] + s[10..] && t == t[..10] + t[10..];
  }

  lemma {:induction false} SecondText()
    ensures Print(SECOND) == Ascii("1996-12-19T16:39:57-08:00")
  {
    var s, t := Print(SECOND), Ascii("1996-12-19T16:39:57-08:00");
    assert s[..10] == t[..10];
    assert s[10..] == t[10..];
    assert s == s[..10] + s[10..] && t == t[..10] + t[10..];
  }

  /** The numbers a printed timestamp may show; its layout leaves room for others. */
  lemma {:induction false} RangesParse(st: Stamp)
    requires var l := st.local; l.year < 10000 && l.month < 100 && l.day < 100
    requires var l := st.local; l.hour < 100 && l.minute < 100 && l.second < 100
    requires st.sep == 'T' as int || st.sep == 't' as int || st.sep == ' ' as int
    requires AllDigits(st.fraction)
    requires match st.zone case Utc(m) => m == 'Z' as int || m == 'z' as int case Shift(_, h, m) => h < 100 && m < 100
    ensures var l := st.local;
            ParseOf(Print(st)).Some? <==>
            && 1 <= l.month <= 12 && 1 <= l.day <= 31 && l.hour <= 23 && l.minute <= 59 && l.second <= 60
            && (st.zone.Shift? ==> st.zone.hours <= 23 && st.zone.minutes <= 59)
  {
    var s, l := Print(st), st.local;
    if st.Valid() {
      RoundTrip(st);
    } else if l.InRange() {
      ZoneRefused(s, st);
    } else {
      LocalRefused(s, st);
    }
    hide Print, LocalOf, FractionEnd, ZoneOf, Days;
  }

  lemma {:induction false} LocalRefused(s: bytes, st: Stamp)
    requires var l := st.local; l.year < 10000 && l.month < 100 && l.day < 100
    requires var l := st.local; l.hour < 100 && l.minute < 100 && l.second < 100
    requires !st.local.InRange() && s == Print(st)
    ensures LocalOf(s) == None
  {
    LocalNumbers(s, st);
    hide Number, Print;
  }

  /** The six numbers of the text are the six numbers printed. */
  lemma {:induction false} LocalNumbers(s: bytes, st: Stamp)
    requires var l := st.local; l.year < 10000 && l.month < 100 && l.day < 100
    requires var l := st.local; l.hour < 100 && l.minute < 100 && l.second < 100
    requires s == Print(st)
    ensures var l := st.local;
            && Number(s, 0, 4) == Some(l.year) && Number(s, 5, 2) == Some(l.month) && Number(s, 8, 2) == Some(l.day)
            && Number(s, 11, 2) == Some(l.hour) && Number(s, 14, 2) == Some(l.minute)
            && Number(s, 17, 2) == Some(l.second)
  {
    hide Number, Digit;
    var l := st.local;
    assert s[..19] == PrintLocal(l, st.sep);
    assert forall k :: 0 <= k < 19 ==> s[k] == s[..19][k];
    hide Print;
    Year4(s, l.year);
    Number2(s, 5, l.month);
    Number2(s, 8, l.day);
    Number2(s, 11, l.hour);
    Number2(s, 14, l.minute);
    Number2(s, 17, l.second);
  }

  lemma {:induction false} ZoneRefused(s: bytes, st: Stamp)
    requires s == Print(st) && AllDigits(st.fraction)
    requires st.zone.Shift? && st.zone.hours < 100 && st.zone.minutes < 100 && !st.zone.Valid()
    ensures FractionEnd(s, 19).Some? ==> ZoneOf(s, FractionEnd(s, 19).value) == None
  {
    var e := 19 + |PrintFraction(st.fraction)|;
    assert s[19..] == PrintFraction(st.fraction) + PrintZone(st.zone);
    FractionPrinted(s, st.fraction, st.zone);
    ZoneOutOfRange(s, e, st.zone);
    hide FractionEnd, ZoneOf, Print;
  }

  lemma {:induction false} ZoneOutOfRange(s: bytes, i: nat, z: Zone)
    requires i <= |s| && s[i..] == PrintZone(z) && z.Shift? && z.hours < 100 && z.minutes < 100 && !z.Valid()
    ensures ZoneOf(s, i) == None
  {
    assert forall k :: i <= k < |s| ==> s[k] == s[i..][k - i];
    Number2(s, i + 1, z.hours);
    Number2(s, i + 4, z.minutes);
    hide Number, Digit;
  }

  // ------------------------------------------------------------------- the parser

  /** No read passes the terminator: a digit is never the NUL. */
  method Digits(s: bytes, i: nat, n: nat) returns (r: Option<nat>)
    requires NulFree(s) && i <= |s|
    ensures r == Number(s, i, n)
    ensures r.Some? ==> i + n <= |s|
  {
    var v := 0;
    var k := 0;
    while k < n
      invariant 0 <= k <= n && i + k <= |s|
      invariant v >= 0 && Number(s, i, k) == Some(v)
    {
      var c := At(s, i + k);
      if c < '0' as int || c > '9' as int {
        NumberNone(s, i, k + 1, n);
        return None;
      }
      v := v * 10 + (c - '0' as int);
      k := k + 1;
    }
    return Some(v);
  }

  lemma {:induction false} NumberNone(s: bytes, i: nat, k: nat, n: nat)
    requires k <= n && Number(s, i, k) == None
    ensures Number(s, i, n) == None
  {
    if k < n {
      NumberNone(s, i, k, n - 1);
    }
  }

  method Parse(s: bytes) returns (r: Option<int>)
    requires NulFree(s)
    ensures r == ParseOf(s)
    ensures forall t :: r == Some(t) <==> exists st: Stamp :: st.Valid() && s == Print(st) && t == st.Instant()
  {
    forall t {
      ParseIff(s, t);
    }
    r := ParseFields(s);
  }

  method ParseFields(s: bytes) returns (r: Option<int>)
    requires NulFree(s)
    ensures r == ParseOf(s)
  {
    hide Number, DaysFromCivil;
    if |s| < 20 {
      return None;
    }
    var local := ParseLocal(s);
    if local.None? {
      return None;
    }
    var i := 19;
    if At(s, i) == '.' as int {
      i := i + 1;
      if At(s, i) < '0' as int || At(s, i) > '9' as int {
        return None;
      }
      while At(s, i) >= '0' as int && At(s, i) <= '9' as int
        invariant 20 <= i <= |s|
        invariant forall k :: 20 <= k < i ==> IsDigit(s[k])
        decreases |s| - i
      {
        i := i + 1;
      }
      DigitsEndAt(s, 20, i);
    }
    var t := local.value.Seconds();
    if At(s, i) == 'Z' as int || At(s, i) == 'z' as int {
      if At(s, i + 1) != 0 {
        return None;
      }
    } else if At(s, i) == '+' as int || At(s, i) == '-' as int {
      var oh := Digits(s, i + 1, 2);
      if oh.None? || At(s, i + 3) != ':' as int {
        return None;
      }
      var om := Digits(s, i + 4, 2);
      if om.None? || At(s, i + 6) != 0 {
        return None;
      }
      if oh.value > 23 || om.value > 59 {
        return None;
      }
      var off := oh.value * 3600 + om.value * 60;
      t := if At(s, i) == '+' as int then t - off else t + off;
    } else {
      return None;
    }
    return Some(t);
  }

  method ParseLocal(s: bytes) returns (r: Option<Local>)
    requires NulFree(s) && |s| >= 20
    ensures r == LocalOf(s)
  {
    hide Number;
    var year := Digits(s, 0, 4);
    if year.None? || At(s, 4) != '-' as int {
      return None;
    }
    var month := Digits(s, 5, 2);
    if month.None? || At(s, 7) != '-' as int {
      return None;
    }
    var day := Digits(s, 8, 2);
    if day.None? || (At(s, 10) != 'T' as int && At(s, 10) != 't' as int && At(s, 10) != ' ' as int) {
      return None;
    }
    var hour := Digits(s, 11, 2);
    if hour.None? || At(s, 13) != ':' as int {
      return None;
    }
    var minute := Digits(s, 14, 2);
    if minute.None? || At(s, 16) != ':' as int {
      return None;
    }
    var second := Digits(s, 17, 2);
    if second.None? {
      return None;
    }
    var local := Local(year.value, month.value, day.value, hour.value, minute.value, second.value);
    if month.value < 1 || month.value > 12 || day.value < 1 || day.value > 31
       || hour.value > 23 || minute.value > 59 || second.value > 60 {
      return None;
    }
    YearBound(s);
    return Some(local);
  }

  lemma {:induction false} YearBound(s: bytes)
    ensures Number(s, 0, 4).Some? ==> Number(s, 0, 4).value <= 9999
  {
    if Number(s, 0, 4).Some? {
      Year4(s, Number(s, 0, 4).value);
    }
  }
}
