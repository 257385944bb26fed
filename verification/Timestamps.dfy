/** RFC 3339 section 5.6 timestamps in UTC with the `Z` suffix, over the years 0000 to 9999. */
module Timestamps {
  import opened Basics
  import opened Text

  // An instant is a number of nanoseconds since the start of year 0000.
  type Instant = int

  const SECOND := 1_000_000_000
  const MINUTE := 60_000_000_000
  const HOUR := 3_600_000_000_000
  const DAY := 86_400_000_000_000

  // ----- the proleptic Gregorian calendar -----

  datatype Date = Date(year: nat, month: nat, day: nat)

  predicate Leap(y: nat) {
    y % 4 == 0 && (y % 100 != 0 || y % 400 == 0)
  }

  function YearLength(y: nat): nat {
    if Leap(y) then 366 else 365
  }

  function MonthLength(y: nat, m: nat): nat {
    if m == 2 then (if Leap(y) then 29 else 28)
    else if m == 4 || m == 6 || m == 9 || m == 11 then 30
    else 31
  }

  function DaysBeforeYear(y: nat): nat {
    365 * y + (y + 3) / 4 - (y + 99) / 100 + (y + 399) / 400
  }

  lemma NextYear(y: nat)
    ensures DaysBeforeYear(y + 1) == DaysBeforeYear(y) + YearLength(y)
  {
    assert (y + 4) / 4 == (y + 3) / 4 + (if y % 4 == 0 then 1 else 0);
    assert (y + 100) / 100 == (y + 99) / 100 + (if y % 100 == 0 then 1 else 0);
    assert (y + 400) / 400 == (y + 399) / 400 + (if y % 400 == 0 then 1 else 0);
  }

  function DaysBeforeMonth(y: nat, m: nat): nat {
    if m <= 1 then 0 else DaysBeforeMonth(y, m - 1) + MonthLength(y, m - 1)
  }

  predicate ValidDate(d: Date) {
    d.year <= 9999 && 1 <= d.month <= 12 && 1 <= d.day <= MonthLength(d.year, d.month)
  }

  function DayNumber(d: Date): nat
    requires ValidDate(d)
  {
    DaysBeforeYear(d.year) + DaysBeforeMonth(d.year, d.month) + d.day - 1
  }

  // The days of the years 0000 to 9999.
  const DAY_LIMIT := 3652425

  lemma YearMonths(y: nat)
    ensures DaysBeforeMonth(y, 12) + MonthLength(y, 12) == YearLength(y)
  {
    assert DaysBeforeMonth(y, 2) == 31;
    assert DaysBeforeMonth(y, 3) == 31 + MonthLength(y, 2);
    assert DaysBeforeMonth(y, 5) == DaysBeforeMonth(y, 3) + 61;
    assert DaysBeforeMonth(y, 7) == DaysBeforeMonth(y, 5) + 61;
    assert DaysBeforeMonth(y, 9) == DaysBeforeMonth(y, 7) + 62;
    assert DaysBeforeMonth(y, 11) == DaysBeforeMonth(y, 9) + 61;
    assert DaysBeforeMonth(y, 12) == DaysBeforeMonth(y, 11) + 30;
  }

  function YearOf(n: nat, y: nat): (r: nat)
    requires y <= 10000 && DaysBeforeYear(y) <= n < DAY_LIMIT
    ensures r <= 9999 && DaysBeforeYear(r) <= n < DaysBeforeYear(r) + YearLength(r)
    decreases 10000 - y
  {
    if n < DaysBeforeYear(y) + YearLength(y) then y
    else
      NextYear(y);
      YearOf(n, y + 1)
  }

  function MonthOf(y: nat, n: nat, m: nat): (r: nat)
    requires 1 <= m <= 12 && DaysBeforeMonth(y, m) <= n < YearLength(y)
    ensures 1 <= r <= 12 && DaysBeforeMonth(y, r) <= n < DaysBeforeMonth(y, r) + MonthLength(y, r)
    decreases 12 - m
  {
    if n < DaysBeforeMonth(y, m) + MonthLength(y, m) then m
    else
      YearMonths(y);
      assert DaysBeforeMonth(y, m + 1) == DaysBeforeMonth(y, m) + MonthLength(y, m);
      MonthOf(y, n, m + 1)
  }

  /** The date of a day number, by searching the year and then the month. */
  function DateOf(n: nat): (d: Date)
    requires n < DAY_LIMIT
    ensures ValidDate(d) && DayNumber(d) == n
  {
    var y := YearOf(n, 0);
    var k := n - DaysBeforeYear(y);
    var m := MonthOf(y, k, 1);
    Date(y, m, k - DaysBeforeMonth(y, m) + 1)
  }

  // ----- text -----

  // A number of fixed width; when read, one of the characters `after` must follow, when written the first does.
  datatype Slot = Slot(width: nat, after: bytes)

  const SLOTS: seq<Slot> := [Slot(4, "-"), Slot(2, "-"), Slot(2, "Tt"), Slot(2, ":"), Slot(2, ":"), Slot(2, "")]

  function Pad(n: nat, width: nat): (s: bytes)
    ensures |s| == width
    decreases width, n
  {
    if width == 0 then [] else Pad(n / 10, width - 1) + [DigitChar(n % 10)]
  }

  function Separator(slot: Slot): bytes {
    if slot.after == [] then [] else [slot.after[0]]
  }

  function WriteSlots(values: seq<nat>, slots: seq<Slot>): bytes
    requires |values| == |slots|
    decreases |slots|, values
  {
    if slots == [] then []
    else
      Pad(values[0], slots[0].width) + (Separator(slots[0]) + WriteSlots(values[1..], slots[1..]))
  }

  /** The number of the next `width` digits, continuing `acc`. */
  function ReadPad(acc: nat, s: bytes, width: nat): Option<(nat, bytes)>
    decreases width, s
  {
    if width == 0 then Some((acc, s))
    else if s == [] || !IsDigit(s[0]) then None
    else ReadPad(acc * 10 + DigitValue(s[0]), s[1..], width - 1)
  }

  function ReadSlots(s: bytes, slots: seq<Slot>): (r: Option<(seq<nat>, bytes)>)
    ensures r.Some? ==> |r.value.0| == |slots|
    decreases |slots|, s
  {
    if slots == [] then Some(([], s))
    else
      var (n, rest) :- ReadPad(0, s, slots[0].width);
      if slots[0].after != [] && (rest == [] || rest[0] !in slots[0].after) then None
      else
        var (ns, tail) :- ReadSlots(if slots[0].after == [] then rest else rest[1..], slots[1..]);
        Some(([n] + ns, tail))
  }

  function SecondOfDay(t: nat): (k: nat)
    ensures k < 86400
  {
    t % 86_400_000_000_000 / 1_000_000_000
  }

  /** An instant in years 0000 to 9999, with its sub-second part dropped; formatting others panics. */
  function FormatTimestamp(t: Instant): (r: Option<bytes>)
    ensures r.Some? <==> 0 <= t < DAY_LIMIT * DAY
  {
    if t < 0 || t >= DAY_LIMIT * DAY then None
    else
      Some(FormatDay(t / DAY, SecondOfDay(t)))
  }

  function FormatDay(day: nat, s: nat): bytes
    requires day < DAY_LIMIT && s < 86400
  {
    FormatDate(DateOf(day), s / 3600, s / 60 % 60, s % 60)
  }

  function FormatDate(d: Date, hour: nat, minute: nat, second: nat): bytes {
    WriteSlots([d.year, d.month, d.day, hour, minute, second], SLOTS) + "Z"
  }

  /** Nanoseconds of a decimal fraction; digits past the ninth are dropped. */
  function Fraction(digits: bytes, scale: nat): nat {
    if digits == [] || !IsDigit(digits[0]) then 0
    else DigitValue(digits[0]) * scale + Fraction(digits[1..], scale / 10)
  }

  predicate AllDigits(s: bytes) {
    forall i | 0 <= i < |s| :: IsDigit(s[i])
  }

  function ParseTimestamp(s: bytes): Option<Instant> {
    if s == [] || s[|s| - 1] != 'Z' then None
    else
      var (v, tail) :- ReadSlots(s[..|s| - 1], SLOTS);
      if tail != [] && (tail[0] != '.' || |tail| < 2 || !AllDigits(tail[1..])) then None
      else
        Assemble(Date(v[0], v[1], v[2]), v[3], v[4], v[5], if tail == [] then 0 else Fraction(tail[1..], SECOND / 10))
  }

  function Assemble(date: Date, hour: nat, minute: nat, second: nat, nanos: nat): Option<Instant> {
    if !ValidDate(date) || hour > 23 || minute > 59 || second > 60 then None
    else
      var start := DayNumber(date) * DAY + hour * HOUR + minute * MINUTE;
      if second < 60 then Some(start + second * SECOND + nanos)
      // A leap second may only end the last minute of a month; it reads as the instant before.
      else if hour == 23 && minute == 59 && date.day == MonthLength(date.year, date.month) then
        Some(start + 59 * SECOND + (SECOND - 1))
      else None
  }

  // ----- reading undoes writing -----

  function Pow10(width: nat): nat {
    if width == 0 then 1 else 10 * Pow10(width - 1)
  }

  lemma {:induction false} ReadPadded(n: nat, width: nat, more: nat, rest: bytes)
    requires n < Pow10(width)
    ensures ReadPad(0, Pad(n, width) + rest, width + more) == ReadPad(n, rest, more)
  {
    if width == 0 {
      assert Pad(n, width) + rest == rest;
    } else {
      var d := [DigitChar(n % 10)];
      ReadPadded(n / 10, width - 1, more + 1, d + rest);
      assert Pad(n, width) + rest == Pad(n / 10, width - 1) + (d + rest);
      assert (d + rest)[1..] == rest && n / 10 * 10 + n % 10 == n;
    }
  }

  ghost predicate Fits(values: seq<nat>, slots: seq<Slot>)
    requires |values| == |slots|
  {
    forall i | 0 <= i < |values| :: values[i] < Pow10(slots[i].width)
  }

  lemma ReadSlot(value: nat, slot: Slot, s: bytes, others: bytes)
    requires value < Pow10(slot.width) && s == Separator(slot) + others
    ensures ReadPad(0, Pad(value, slot.width) + s, slot.width) == Some((value, s))
    ensures slot.after != [] ==> s != [] && s[0] in slot.after && s[1..] == others
    ensures slot.after == [] ==> s == others
  {
    ReadPadded(value, slot.width, 0, s);
    if slot.after != [] { assert slot.after[0] in slot.after; }
  }

  lemma {:induction false} ReadWritten(values: seq<nat>, slots: seq<Slot>, rest: bytes)
    requires |values| == |slots| && Fits(values, slots)
    ensures ReadSlots(WriteSlots(values, slots) + rest, slots) == Some((values, rest))
    decreases |slots|
  {
    if slots == [] {
      assert WriteSlots(values, slots) + rest == rest;
    } else {
      var others := WriteSlots(values[1..], slots[1..]) + rest;
      var s := Separator(slots[0]) + others;
      FitsTail(values, slots);
      ReadWritten(values[1..], slots[1..], rest);
      ReadSlot(values[0], slots[0], s, others);
      Regroup(Pad(values[0], slots[0].width), Separator(slots[0]), WriteSlots(values[1..], slots[1..]), rest);
      assert [values[0]] + values[1..] == values;
    }
  }

  lemma FitsTail(values: seq<nat>, slots: seq<Slot>)
    requires |values| == |slots| > 0 && Fits(values, slots)
    ensures values[0] < Pow10(slots[0].width) && Fits(values[1..], slots[1..])
  {
  }

  lemma Regroup(a: bytes, b: bytes, c: bytes, d: bytes)
    ensures a + (b + c) + d == a + (b + (c + d))
  {
  }

  lemma {:induction false} WrittenDigits(n: nat, width: nat)
    ensures forall i | 0 <= i < width :: IsDigit(Pad(n, width)[i])
  {
    if width > 0 { WrittenDigits(n / 10, width - 1); }
  }

  lemma ReadDate(d: Date, hour: nat, minute: nat, second: nat)
    requires ValidDate(d) && hour < 24 && minute < 60 && second < 60
    ensures ParseTimestamp(FormatDate(d, hour, minute, second)) == Assemble(d, hour, minute, second, 0)
  {
    var values := [d.year, d.month, d.day, hour, minute, second];
    var text := WriteSlots(values, SLOTS);
    assert Pow10(2) == 100 && Pow10(4) == 10000;
    assert forall i | 0 <= i < 6 :: SLOTS[i].width == if i == 0 then 4 else 2;
    ReadWritten(values, SLOTS, []);
    assert text + [] == text && (text + "Z")[..|text + "Z"| - 1] == text;
  }

  lemma Recombine(t: nat, s: nat, day: nat)
    requires s == SecondOfDay(t) && day == t / DAY
    ensures day * DAY + s / 3600 * HOUR + s / 60 % 60 * MINUTE + s % 60 * SECOND == t - t % SECOND
  {
    var u := t % 86_400_000_000_000;
    WholeSeconds(t, day, u, s, u % 1_000_000_000);
    ClockFace(s);
  }

  lemma WholeSeconds(t: nat, day: nat, u: nat, s: nat, w: nat)
    requires t == day * 86_400_000_000_000 + u && u == s * 1_000_000_000 + w && w < 1_000_000_000
    ensures t % SECOND == w && day * DAY + s * SECOND == t - w
  {
    var q := day * 86400 + s;
    assert t == q * 1_000_000_000 + w;
    assert t / 1_000_000_000 == q;
  }

  lemma ClockFace(s: nat)
    ensures s == s / 3600 * 3600 + s / 60 % 60 * 60 + s % 60
  {
  }

  lemma ReadClock(t: nat, d: Date, s: nat, h: nat, m: nat, x: nat)
    requires ValidDate(d) && DayNumber(d) == t / DAY && s == SecondOfDay(t)
    requires h == s / 3600 && m == s / 60 % 60 && x == s % 60
    ensures h < 24 && ParseTimestamp(FormatDate(d, h, m, x)) == Some(t - t % SECOND)
  {
    ReadDate(d, h, m, x);
    AssembleClock(t, d, s, h, m, x);
  }

  lemma AssembleClock(t: nat, d: Date, s: nat, h: nat, m: nat, x: nat)
    requires ValidDate(d) && DayNumber(d) == t / DAY && s == SecondOfDay(t)
    requires h == s / 3600 && m == s / 60 % 60 && x == s % 60
    ensures Assemble(d, h, m, x, 0) == Some(t - t % SECOND)
  {
    Recombine(t, s, DayNumber(d));
  }

  lemma ReadDay(t: nat, day: nat, s: nat)
    requires day == t / DAY && day < DAY_LIMIT && s == SecondOfDay(t)
    ensures ParseTimestamp(FormatDay(day, s)) == Some(t - t % SECOND)
  {
    ReadClock(t, DateOf(day), s, s / 3600, s / 60 % 60, s % 60);
  }

  lemma FormatSteps(t: Instant, s: bytes) returns (day: nat, second: nat)
    requires FormatTimestamp(t) == Some(s)
    ensures t >= 0 && day == t / DAY && day < DAY_LIMIT && second == SecondOfDay(t) && s == FormatDay(day, second)
  {
    day, second := t / DAY, SecondOfDay(t);
  }

  /** Reading back a formatted instant gives it to the whole second. */
  lemma ParseFormatted(t: Instant, s: bytes)
    requires FormatTimestamp(t) == Some(s)
    ensures ParseTimestamp(s) == Some(t - t % SECOND)
  {
    var day, second := FormatSteps(t, s);
    ReadDay(t, day, second);
  }

  lemma {:induction false} WrittenAscii(values: seq<nat>, slots: seq<Slot>)
    requires |values| == |slots| && forall i | 0 <= i < |slots| :: Ascii(slots[i].after)
    ensures Ascii(WriteSlots(values, slots))
    decreases |slots|
  {
    if slots != [] {
      WrittenDigits(values[0], slots[0].width);
      WrittenAscii(values[1..], slots[1..]);
      assert slots[0].after != [] ==> slots[0].after[0] as int < 128;
    }
  }

  lemma DateAscii(d: Date, hour: nat, minute: nat, second: nat)
    ensures Ascii(FormatDate(d, hour, minute, second))
  {
    WrittenAscii([d.year, d.month, d.day, hour, minute, second], SLOTS);
  }

  lemma FormattedAscii(t: Instant, s: bytes)
    requires FormatTimestamp(t) == Some(s)
    ensures Ascii(s)
  {
    var day, k := FormatSteps(t, s);
    DateAscii(DateOf(day), k / 3600, k / 60 % 60, k % 60);
  }
}
