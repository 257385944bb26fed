/** The texts that read as timestamps, and which instant each of them is. */
module Clock {
  import opened Basics
  import opened Text
  import opened Timestamps

  // ----- digits -----

  lemma {:induction false} ReadMore(acc: nat, s: bytes, width: nat, n: nat, rest: bytes) returns (m: nat)
    requires ReadPad(acc, s, width) == Some((n, rest))
    ensures m < Pow10(width) && s == Pad(m, width) + rest && n == acc * Pow10(width) + m
    decreases width
  {
    if width == 0 {
      m := 0;
    } else {
      var d := DigitValue(s[0]);
      var tail := ReadMore(acc * 10 + d, s[1..], width - 1, n, rest);
      Carried(acc, d, Pow10(width - 1), tail);
      m := d * Pow10(width - 1) + tail;
      PadFirst(d, tail, width - 1);
      OneInFront(s, d, Pad(tail, width - 1), Pad(m, width), rest);
    }
  }

  lemma OneInFront(s: bytes, d: nat, pad: bytes, all: bytes, rest: bytes)
    requires s != [] && IsDigit(s[0]) && d == DigitValue(s[0]) && s[1..] == pad + rest && all == [DigitChar(d)] + pad
    ensures s == all + rest
  {
  }

  lemma Carried(acc: nat, d: nat, p: nat, m: nat)
    requires d < 10 && m < p
    ensures (acc * 10 + d) * p + m == acc * (10 * p) + (d * p + m) && d * p + m < 10 * p
  {
  }

  /** A number with one more digit in front. */
  lemma {:induction false} PadFirst(d: nat, m: nat, width: nat)
    requires d < 10 && m < Pow10(width)
    ensures Pad(d * Pow10(width) + m, width + 1) == [DigitChar(d)] + Pad(m, width)
  {
    if width > 0 {
      var p := Pow10(width - 1);
      TensApart(d, p, m);
      PadFirst(d, m / 10, width - 1);
    }
  }

  lemma TensApart(d: nat, p: nat, m: nat)
    requires m < 10 * p
    ensures (d * (10 * p) + m) / 10 == d * p + m / 10 && (d * (10 * p) + m) % 10 == m % 10 && m / 10 < p
  {
    assert d * (10 * p) == 10 * (d * p);
  }

  /** So many digits are read exactly from a number of so many digits. */
  lemma ReadPadExact(s: bytes, width: nat, n: nat, rest: bytes)
    ensures ReadPad(0, s, width) == Some((n, rest)) <==> n < Pow10(width) && s == Pad(n, width) + rest
  {
    if ReadPad(0, s, width) == Some((n, rest)) { var m := ReadMore(0, s, width, n, rest); }
    if n < Pow10(width) && s == Pad(n, width) + rest { ReadPadded(n, width, 0, rest); }
  }

  // ----- the text of a timestamp -----

  /** Four digits, two, two, a `T` or `t`, two, two, two, with their separators, and then the rest. */
  ghost predicate ClockText(s: bytes, d: Date, sep: char, hour: nat, minute: nat, second: nat, rest: bytes) {
    && d.year < 10000 && d.month < 100 && d.day < 100 && hour < 100 && minute < 100 && second < 100 && sep in "Tt"
    && s == Pad(d.year, 4) + ("-" + (Pad(d.month, 2) + ("-" + (Pad(d.day, 2) + ([sep]
            + (Pad(hour, 2) + (":" + (Pad(minute, 2) + (":" + (Pad(second, 2) + rest))))))))))
  }

  lemma SlotStep(s: bytes, slot: Slot, more: seq<Slot>, n: nat, sep: char, rest: bytes)
    requires slot.after != [] && sep in slot.after && n < Pow10(slot.width) && s == Pad(n, slot.width) + ([sep] + rest)
    ensures ReadSlots(s, [slot] + more) ==
            match ReadSlots(rest, more) case Some((ns, tail)) => Some(([n] + ns, tail)) case None => None
  {
    ReadPadExact(s, slot.width, n, [sep] + rest);
    assert ([slot] + more)[0] == slot && ([slot] + more)[1..] == more && ([sep] + rest)[1..] == rest;
  }

  lemma SlotSplit(s: bytes, slot: Slot, more: seq<Slot>) returns (n: nat, sep: char, rest: bytes)
    requires slot.after != [] && ReadSlots(s, [slot] + more).Some?
    ensures sep in slot.after && n < Pow10(slot.width) && s == Pad(n, slot.width) + ([sep] + rest)
    ensures ReadSlots(rest, more).Some?
    ensures ReadSlots(s, [slot] + more) == Some(([n] + ReadSlots(rest, more).value.0, ReadSlots(rest, more).value.1))
  {
    assert ([slot] + more)[0] == slot && ([slot] + more)[1..] == more;
    var p := ReadPad(0, s, slot.width).value;
    n, sep, rest := p.0, p.1[0], p.1[1..];
    assert p.1 == [sep] + rest;
    ReadPadExact(s, slot.width, n, p.1);
  }

  lemma Powers()
    ensures Pow10(2) == 100 && Pow10(4) == 10000
  {
    assert Pow10(1) == 10;
    assert Pow10(3) == 1000;
  }

  lemma LastSlot(s: bytes, n: nat, rest: bytes)
    ensures ReadSlots(s, [Slot(2, "")]) == Some(([n], rest)) <==> n < 100 && s == Pad(n, 2) + rest
  {
    Powers();
    var slot := Slot(2, "");
    ReadPadExact(s, 2, n, rest);
    assert [slot][0] == slot && [slot][1..] == [];
    if ReadPad(0, s, 2).Some? {
      var p := ReadPad(0, s, 2).value;
      assert ReadSlots(p.1, []) == Some(([], p.1));
      assert [p.0] + [] == [p.0];
      assert ReadSlots(s, [slot]) == Some(([p.0], p.1));
    }
  }

  lemma Six(a: nat, b: nat, c: nat, d: nat, e: nat, f: nat)
    ensures [a] + ([b] + ([c] + ([d] + ([e] + [f])))) == [a, b, c, d, e, f]
  {
  }

  const DATE_SLOTS: seq<Slot> := [Slot(2, ":")] + ([Slot(2, ":")] + [Slot(2, "")])

  lemma SlotsLiteral()
    ensures SLOTS == [Slot(4, "-")] + ([Slot(2, "-")] + ([Slot(2, "Tt")] + DATE_SLOTS))
  {
  }

  /** What was read, when the slots could be read, in the order of the slots. */
  lemma ReadClockText(s: bytes) returns (d: Date, sep: char, hour: nat, minute: nat, second: nat, rest: bytes)
    requires ReadSlots(s, SLOTS).Some?
    ensures ClockText(s, d, sep, hour, minute, second, rest)
    ensures ReadSlots(s, SLOTS) == Some(([d.year, d.month, d.day, hour, minute, second], rest))
  {
    Powers();
    SlotsLiteral();
    var y, a, r1 := SlotSplit(s, Slot(4, "-"), [Slot(2, "-")] + ([Slot(2, "Tt")] + DATE_SLOTS));
    var m, b, r2 := SlotSplit(r1, Slot(2, "-"), [Slot(2, "Tt")] + DATE_SLOTS);
    var k, e, r3 := SlotSplit(r2, Slot(2, "Tt"), DATE_SLOTS);
    var h, f, r4 := SlotSplit(r3, Slot(2, ":"), [Slot(2, ":")] + [Slot(2, "")]);
    var i, g, r5 := SlotSplit(r4, Slot(2, ":"), [Slot(2, "")]);
    var last := ReadSlots(r5, [Slot(2, "")]).value;
    second, rest := last.0[0], last.1;
    assert last.0 == [second];
    LastSlot(r5, second, rest);
    d, sep, hour, minute := Date(y, m, k), e, h, i;
    Six(y, m, k, h, i, second);
  }

  /** Such a text is read as what it says. */
  lemma ClockTextReads(s: bytes, d: Date, sep: char, hour: nat, minute: nat, second: nat, rest: bytes)
    requires ClockText(s, d, sep, hour, minute, second, rest)
    ensures ReadSlots(s, SLOTS) == Some(([d.year, d.month, d.day, hour, minute, second], rest))
  {
    Powers();
    SlotsLiteral();
    var r5 := Pad(second, 2) + rest;
    var r4 := Pad(minute, 2) + (":" + r5);
    var r3 := Pad(hour, 2) + (":" + r4);
    var r2 := Pad(d.day, 2) + ([sep] + r3);
    var r1 := Pad(d.month, 2) + ("-" + r2);
    LastSlot(r5, second, rest);
    SlotStep(r4, Slot(2, ":"), [Slot(2, "")], minute, ':', r5);
    SlotStep(r3, Slot(2, ":"), [Slot(2, ":")] + [Slot(2, "")], hour, ':', r4);
    SlotStep(r2, Slot(2, "Tt"), DATE_SLOTS, d.day, sep, r3);
    SlotStep(r1, Slot(2, "-"), [Slot(2, "Tt")] + DATE_SLOTS, d.month, '-', r2);
    SlotStep(s, Slot(4, "-"), [Slot(2, "-")] + ([Slot(2, "Tt")] + DATE_SLOTS), d.year, '-', r1);
    Six(d.year, d.month, d.day, hour, minute, second);
  }

  // ----- the calendar -----

  /** The last day of a month of the Gregorian calendar. */
  function LastDay(y: nat, m: nat): nat {
    if m == 2 then (if y % 4 == 0 && (y % 100 != 0 || y % 400 == 0) then 29 else 28)
    else if m == 4 || m == 6 || m == 9 || m == 11 then 30
    else 31
  }

  ghost predicate CalendarDate(d: Date) {
    d.year <= 9999 && 1 <= d.month <= 12 && 1 <= d.day <= LastDay(d.year, d.month)
  }

  function NextDate(d: Date): Date {
    if d.day < LastDay(d.year, d.month) then Date(d.year, d.month, d.day + 1)
    else if d.month < 12 then Date(d.year, d.month + 1, 1)
    else Date(d.year + 1, 1, 1)
  }

  /** Two dates, the second the day after the first. */
  ghost predicate NumberedAfter(d: Date, e: Date) {
    ValidDate(d) && ValidDate(e) && DayNumber(e) == DayNumber(d) + 1
  }

  ghost predicate NumberedFirst(d: Date) {
    ValidDate(d) && DayNumber(d) == 0
  }

  lemma DatesExact(d: Date)
    ensures ValidDate(d) <==> CalendarDate(d)
  {
    MonthLengthExact(d.year, d.month);
  }

  lemma FirstDay(d: Date)
    requires d == Date(0, 1, 1)
    ensures NumberedFirst(d)
  {
  }

  predicate LastOfAll(d: Date) {
    d.year == 9999 && d.month == 12 && d.day == 31
  }

  /** Days are numbered from the first of January of year 0000, one by one. */
  lemma DayNumberExact(d: Date)
    requires CalendarDate(d)
    ensures d == Date(0, 1, 1) ==> NumberedFirst(d)
    ensures !LastOfAll(d) ==> NumberedAfter(d, NextDate(d))
  {
    DatesExact(d);
    if d == Date(0, 1, 1) { FirstDay(d); }
    if !LastOfAll(d) { DayAfter(d, NextDate(d)); }
  }

  lemma DayAfter(d: Date, e: Date)
    requires ValidDate(d) && !LastOfAll(d) && e == NextDate(d)
    ensures NumberedAfter(d, e)
  {
    MonthLengthExact(d.year, d.month);
    if d.day == LastDay(d.year, d.month) && d.month == 12 {
      NextYear(d.year);
      YearMonths(d.year);
    }
  }

  lemma MonthLengthExact(y: nat, m: nat)
    ensures MonthLength(y, m) == LastDay(y, m)
  {
  }

  // ----- fractions -----

  /** The nine digits that count: the first nine, filled up with zeros. */
  ghost predicate NineDigits(digits: bytes, nanos: nat) {
    nanos < 1_000_000_000 && Pad(nanos, 9) == (digits + "000000000")[..9]
  }

  ghost function Zeros(k: nat): (z: bytes)
    ensures |z| == k && forall i | 0 <= i < k :: z[i] == '0'
  {
    seq(k, _ => '0')
  }

  lemma {:induction false} PadZero(k: nat)
    ensures Pad(0, k) == Zeros(k)
  {
    if k > 0 { PadZero(k - 1); }
  }

  lemma {:induction false} NoScale(digits: bytes)
    ensures Fraction(digits, 0) == 0
  {
    if digits != [] && IsDigit(digits[0]) { NoScale(digits[1..]); }
  }

  lemma FractionHead(digits: bytes, k: nat)
    requires AllDigits(digits) && digits != [] && k > 0
    ensures AllDigits(digits[1..])
    ensures Fraction(digits, Pow10(k - 1)) ==
            DigitValue(digits[0]) * Pow10(k - 1) + if k == 1 then 0 else Fraction(digits[1..], Pow10(k - 2))
  {
    if k == 1 { NoScale(digits[1..]); } else { assert Pow10(k - 1) / 10 == Pow10(k - 2); }
  }

  /** The first k digits, filled up with zeros, are the number `n`. */
  ghost predicate FirstDigits(digits: bytes, k: nat, n: nat) {
    n < Pow10(k) && Pad(n, k) == (digits + Zeros(k))[..k]
  }

  lemma DigitInFront(d: char, tail: bytes, k: nat, m: nat)
    requires IsDigit(d) && FirstDigits(tail, k, m)
    ensures FirstDigits([d] + tail, k + 1, DigitValue(d) * Pow10(k) + m)
  {
    PadFirst(DigitValue(d), m, k);
    Carried(0, DigitValue(d), Pow10(k), m);
    assert ([d] + tail + Zeros(k + 1))[..k + 1] == [d] + (tail + Zeros(k))[..k];
  }

  /** At a scale of k digits the fraction is the number of the first k digits, filled up with zeros. */
  lemma {:induction false} FractionPads(digits: bytes, k: nat)
    requires AllDigits(digits) && k > 0
    ensures FirstDigits(digits, k, Fraction(digits, Pow10(k - 1)))
    decreases k
  {
    if digits == [] {
      PadZero(k);
      assert ([] + Zeros(k))[..k] == Zeros(k);
      PowerPositive(k);
    } else {
      FractionHead(digits, k);
      var tail := digits[1..];
      assert digits == [digits[0]] + tail;
      if k == 1 {
        OneDigit(digits[0], tail);
      } else {
        FractionPads(tail, k - 1);
        DigitInFront(digits[0], tail, k - 1, Fraction(tail, Pow10(k - 2)));
      }
    }
  }

  lemma OneDigit(d: char, tail: bytes)
    requires IsDigit(d)
    ensures FirstDigits([d] + tail, 1, DigitValue(d) * Pow10(0) + 0)
  {
    assert Pad(0, 0) == [] && (tail + Zeros(0))[..0] == [];
    DigitInFront(d, tail, 0, 0);
  }

  lemma {:induction false} PowerPositive(k: nat)
    ensures Pow10(k) > 0
  {
    if k > 0 { PowerPositive(k - 1); }
  }

  lemma Nines(digits: bytes)
    requires AllDigits(digits)
    ensures NineDigits(digits, Fraction(digits, SECOND / 10))
  {
    Powers9();
    FractionPads(digits, 9);
    assert Zeros(9) == "000000000";
  }

  lemma Powers9()
    ensures Pow10(8) == 100_000_000 && Pow10(9) == 1_000_000_000
  {
    Powers();
    assert Pow10(5) == 100_000 && Pow10(6) == 1_000_000;
    assert Pow10(7) == 10_000_000;
  }

  // ----- which instant a text is -----

  /** The instant of a date and a clock face; a leap second, at the end of a month, is the last nanosecond of its day. */
  ghost predicate InstantIs(t: Instant, d: Date, hour: nat, minute: nat, second: nat, nanos: nat) {
    && ValidDate(d) && hour <= 23 && minute <= 59
    && if second <= 59 then
         t == DayNumber(d) * 86_400_000_000_000 + hour * 3_600_000_000_000 + minute * 60_000_000_000
              + second * 1_000_000_000 + nanos
       else
         && second == 60 && hour == 23 && minute == 59 && d.day == LastDay(d.year, d.month)
         && t == (DayNumber(d) + 1) * 86_400_000_000_000 - 1
  }

  function FractionText(digits: bytes): bytes {
    if digits == [] then [] else "." + digits
  }

  /** The text says this date and time, with these digits of a fraction, in UTC, and that is the instant `t`. */
  ghost predicate Says(s: bytes, t: Instant, d: Date, sep: char, hour: nat, minute: nat, second: nat, digits: bytes,
                       nanos: nat)
  {
    && ClockText(s, d, sep, hour, minute, second, FractionText(digits) + "Z") && AllDigits(digits)
    && NineDigits(digits, nanos) && InstantIs(t, d, hour, minute, second, nanos)
  }

  lemma Appended(s: bytes, d: Date, sep: char, hour: nat, minute: nat, second: nat, rest: bytes)
    requires ClockText(s, d, sep, hour, minute, second, rest)
    ensures ClockText(s + "Z", d, sep, hour, minute, second, rest + "Z")
  {
  }

  lemma Chopped(s: bytes, d: Date, sep: char, hour: nat, minute: nat, second: nat, rest: bytes)
    requires ClockText(s, d, sep, hour, minute, second, rest + "Z")
    ensures s != [] && s[|s| - 1] == 'Z' && ClockText(s[..|s| - 1], d, sep, hour, minute, second, rest)
  {
    var five := Pad(second, 2) + rest;
    var four := Pad(minute, 2) + (":" + five);
    var three := Pad(hour, 2) + (":" + four);
    var two := Pad(d.day, 2) + ([sep] + three);
    var one := Pad(d.month, 2) + ("-" + two);
    assert Pad(second, 2) + (rest + "Z") == five + "Z";
    assert Pad(minute, 2) + (":" + (five + "Z")) == four + "Z";
    assert Pad(hour, 2) + (":" + (four + "Z")) == three + "Z";
    assert Pad(d.day, 2) + ([sep] + (three + "Z")) == two + "Z";
    assert Pad(d.month, 2) + ("-" + (two + "Z")) == one + "Z";
    assert s == Pad(d.year, 4) + ("-" + one) + "Z";
  }

  lemma AssembleSteps(t: Instant, d: Date, hour: nat, minute: nat, second: nat, nanos: nat, day: int)
    requires ValidDate(d) && day == DayNumber(d)
    ensures Assemble(d, hour, minute, second, nanos) == Some(t) <==>
            && hour <= 23 && minute <= 59
            && if second <= 59 then
                 t == day * DAY + hour * HOUR + minute * MINUTE + second * SECOND + nanos
               else
                 && second == 60 && hour == 23 && minute == 59 && d.day == MonthLength(d.year, d.month)
                 && t == day * DAY + hour * HOUR + minute * MINUTE + 59 * SECOND + (SECOND - 1)
  {
  }

  lemma AssembleExact(t: Instant, d: Date, hour: nat, minute: nat, second: nat, nanos: nat)
    ensures Assemble(d, hour, minute, second, nanos) == Some(t) <==> InstantIs(t, d, hour, minute, second, nanos)
  {
    MonthLengthExact(d.year, d.month);
    if ValidDate(d) { AssembleSteps(t, d, hour, minute, second, nanos, DayNumber(d)); }
  }

  lemma NanosUnique(digits: bytes, m: nat, n: nat)
    requires NineDigits(digits, m) && NineDigits(digits, n)
    ensures m == n
  {
    Powers9();
    ReadPadded(m, 9, 0, []);
    ReadPadded(n, 9, 0, []);
    assert Pad(m, 9) + [] == Pad(n, 9) + [];
  }

  lemma ParseSteps(s: bytes, d: Date, hour: nat, minute: nat, second: nat, digits: bytes)
    requires s != [] && s[|s| - 1] == 'Z' && AllDigits(digits)
    requires ReadSlots(s[..|s| - 1], SLOTS) == Some(([d.year, d.month, d.day, hour, minute, second], FractionText(digits)))
    ensures ParseTimestamp(s) == Assemble(d, hour, minute, second, Fraction(digits, SECOND / 10))
  {
    if digits != [] { assert FractionText(digits)[1..] == digits; }
  }

  lemma ParsedTail(s: bytes, v: seq<nat>, tail: bytes) returns (digits: bytes)
    requires ParseTimestamp(s).Some? && ReadSlots(s[..|s| - 1], SLOTS) == Some((v, tail))
    ensures tail == FractionText(digits) && AllDigits(digits) && s[|s| - 1] == 'Z'
  {
    digits := if tail == [] then [] else tail[1..];
  }

  lemma SaidReads(s: bytes, t: Instant, d: Date, sep: char, hour: nat, minute: nat, second: nat, digits: bytes, nanos: nat)
    requires Says(s, t, d, sep, hour, minute, second, digits, nanos)
    ensures ParseTimestamp(s) == Some(t)
  {
    Chopped(s, d, sep, hour, minute, second, FractionText(digits));
    ClockTextReads(s[..|s| - 1], d, sep, hour, minute, second, FractionText(digits));
    ParseSteps(s, d, hour, minute, second, digits);
    Nines(digits);
    NanosUnique(digits, nanos, Fraction(digits, SECOND / 10));
    AssembleExact(t, d, hour, minute, second, nanos);
  }

  lemma ReadSays(s: bytes, t: Instant)
    returns (d: Date, sep: char, hour: nat, minute: nat, second: nat, digits: bytes, nanos: nat)
    requires ParseTimestamp(s) == Some(t)
    ensures Says(s, t, d, sep, hour, minute, second, digits, nanos)
  {
    var body := s[..|s| - 1];
    var tail;
    d, sep, hour, minute, second, tail := ReadClockText(body);
    digits := ParsedTail(s, [d.year, d.month, d.day, hour, minute, second], tail);
    ParseSteps(s, d, hour, minute, second, digits);
    nanos := Fraction(digits, SECOND / 10);
    Nines(digits);
    AssembleExact(t, d, hour, minute, second, nanos);
    Appended(body, d, sep, hour, minute, second, tail);
    assert s == body + "Z";
  }

  /** The texts that read as an instant are exactly those that say a date and a time that are it. */
  lemma ParseExact(s: bytes, t: Instant)
    ensures ParseTimestamp(s) == Some(t) <==>
            exists d, sep, hour, minute, second, digits, nanos ::
              Says(s, t, d, sep, hour, minute, second, digits, nanos)
  {
    if ParseTimestamp(s) == Some(t) {
      var d, sep, hour, minute, second, digits, nanos := ReadSays(s, t);
    }
    forall d, sep, hour, minute, second, digits, nanos | Says(s, t, d, sep, hour, minute, second, digits, nanos)
      ensures ParseTimestamp(s) == Some(t)
    {
      SaidReads(s, t, d, sep, hour, minute, second, digits, nanos);
    }
  }

  // ----- the text that is written -----

  lemma WriteStep(v: nat, values: seq<nat>, slot: Slot, slots: seq<Slot>)
    requires |values| == |slots|
    ensures WriteSlots([v] + values, [slot] + slots) == Pad(v, slot.width) + (Separator(slot) + WriteSlots(values, slots))
  {
    assert ([v] + values)[1..] == values && ([slot] + slots)[1..] == slots;
  }

  lemma TimeWritten(hour: nat, minute: nat, second: nat)
    ensures WriteSlots([hour] + ([minute] + [second]), DATE_SLOTS) ==
            Pad(hour, 2) + (":" + (Pad(minute, 2) + (":" + (Pad(second, 2) + []))))
  {
    WriteStep(second, [], Slot(2, ""), []);
    assert [second] + [] == [second] && [Slot(2, "")] + [] == [Slot(2, "")];
    WriteStep(minute, [second], Slot(2, ":"), [Slot(2, "")]);
    WriteStep(hour, [minute] + [second], Slot(2, ":"), [Slot(2, ":")] + [Slot(2, "")]);
  }

  lemma BodyWritten(d: Date, hour: nat, minute: nat, second: nat)
    ensures WriteSlots([d.year, d.month, d.day, hour, minute, second], SLOTS) ==
            Pad(d.year, 4) + ("-" + (Pad(d.month, 2) + ("-" + (Pad(d.day, 2) + (['T']
                + (Pad(hour, 2) + (":" + (Pad(minute, 2) + (":" + (Pad(second, 2) + []))))))))))
  {
    SlotsLiteral();
    Six(d.year, d.month, d.day, hour, minute, second);
    var time := [hour] + ([minute] + [second]);
    TimeWritten(hour, minute, second);
    WriteStep(d.day, time, Slot(2, "Tt"), DATE_SLOTS);
    WriteStep(d.month, [d.day] + time, Slot(2, "-"), [Slot(2, "Tt")] + DATE_SLOTS);
    WriteStep(d.year, [d.month] + ([d.day] + time), Slot(4, "-"), [Slot(2, "-")] + ([Slot(2, "Tt")] + DATE_SLOTS));
  }

  lemma DateWritten(d: Date, hour: nat, minute: nat, second: nat)
    requires ValidDate(d) && hour < 24 && minute < 60 && second < 60
    ensures ClockText(FormatDate(d, hour, minute, second), d, 'T', hour, minute, second, "Z")
  {
    MonthLengthExact(d.year, d.month);
    BodyWritten(d, hour, minute, second);
    var body := WriteSlots([d.year, d.month, d.day, hour, minute, second], SLOTS);
    Appended(body, d, 'T', hour, minute, second, []);
  }

  /** What is written of an instant: its date and time to the second, with a `T` and a `Z` and without a fraction. */
  lemma FormatExact(t: Instant, s: bytes) returns (d: Date, hour: nat, minute: nat, second: nat)
    requires FormatTimestamp(t) == Some(s)
    ensures second <= 59 && ClockText(s, d, 'T', hour, minute, second, "Z")
    ensures InstantIs(t - t % 1_000_000_000, d, hour, minute, second, 0)
  {
    var day, k := FormatSteps(t, s);
    d, hour, minute, second := DateOf(day), k / 3600, k / 60 % 60, k % 60;
    WrittenAt(t, d, k, hour, minute, second);
  }

  lemma WrittenAt(t: nat, d: Date, k: nat, hour: nat, minute: nat, second: nat)
    requires ValidDate(d) && DayNumber(d) == t / DAY && k == SecondOfDay(t)
    requires hour == k / 3600 && minute == k / 60 % 60 && second == k % 60
    ensures second <= 59 && ClockText(FormatDate(d, hour, minute, second), d, 'T', hour, minute, second, "Z")
    ensures InstantIs(t - t % 1_000_000_000, d, hour, minute, second, 0)
  {
    ClockHands(k);
    DateWritten(d, hour, minute, second);
    AssembleClock(t, d, k, hour, minute, second);
    AssembleExact(t - t % SECOND, d, hour, minute, second, 0);
  }

  lemma ClockHands(k: nat)
    requires k < 86400
    ensures k / 3600 < 24 && k / 60 % 60 < 60 && k % 60 < 60
  {
  }
}
