/** Reading the real-time clock (rtc_read_time in kernel/arch/x86_64/cmos.c) from the values that its
    registers hold. */
module ClockRegisters {
  import opened Calendar

  /** The registers 0, 2, 4, 7, 8, 9 and 11, each a byte. */
  datatype Registers = Registers(second: nat, minute: nat, hour: nat, day: nat, month: nat, year: nat, status: nat)

  /** Status bit 2: numbers are binary, not binary coded decimals. */
  predicate Binary(status: nat) { status / 4 % 2 == 1 }

  /** Status bit 1: hours run from 0 to 23. */
  predicate FullHours(status: nat) { status / 2 % 2 == 1 }

  function BcdToBinary(value: nat): nat {
    value % 16 + value / 16 * 10
  }

  /** The hour: its highest bit stays apart from the number and means afternoon in 12-hour mode. */
  function HourOf(register: nat, status: nat): nat {
    var hour := if Binary(status) then register else BcdToBinary(register % 128) + register / 128 * 128;
    if !FullHours(status) && hour / 128 % 2 == 1 then (hour % 128 + 12) % 24 else hour
  }

  function ReadTime(r: Registers): Time {
    var number := (v: nat) => if Binary(r.status) then v else BcdToBinary(v);
    Time(2000 + number(r.year), number(r.month), number(r.day), HourOf(r.hour, r.status), number(r.minute), number(r.second))
  }

  // ---------------------------------------------------------------- what the clock shows

  /** How the clock stores a number below 100. */
  function Stored(v: nat, status: nat): nat {
    if Binary(status) then v else v / 10 * 16 + v % 10
  }

  /** How it stores an hour: in 12-hour mode midnight and noon are twelve o'clock. */
  function StoredHour(hour: nat, status: nat): nat {
    if FullHours(status) then Stored(hour, status)
    else Stored(if hour % 12 == 0 then 12 else hour % 12, status) + if hour >= 12 then 128 else 0
  }

  function Shown(t: Time, status: nat): Registers
    requires Valid(t) && 0 <= t.second < 60 && 2000 <= t.year < 2100
  {
    Registers(Stored(t.second, status), Stored(t.minute, status), StoredHour(t.hour, status),
      Stored(t.day, status), Stored(t.month, status), Stored(t.year - 2000, status), status)
  }

  lemma NumberBack(v: nat, status: nat)
    requires v < 100
    ensures (if Binary(status) then Stored(v, status) else BcdToBinary(Stored(v, status))) == v
  {
  }

  lemma HourBack(hour: nat, status: nat)
    requires hour < 24
    ensures HourOf(StoredHour(hour, status), status) ==
      if !FullHours(status) && hour % 12 == 0 then (hour + 12) % 24 else hour
  {
    hide Stored, BcdToBinary, Binary, FullHours, HourOf;
    assert hour % 12 == if hour >= 12 then hour - 12 else hour;
    var h := if FullHours(status) then hour else if hour % 12 == 0 then 12 else hour % 12;
    StoredBelow(h, status);
    NumberBack(h, status);
    var afternoon := !FullHours(status) && hour >= 12;
    var s := Stored(h, status);
    assert StoredHour(hour, status) == s + if afternoon then 128 else 0;
    HourParts(s, h, afternoon, status);
    if afternoon {
      assert (h + 12) % 24 == if hour == 12 then 0 else hour;
    }
  }

  lemma HourParts(s: nat, h: nat, afternoon: bool, status: nat)
    requires s < 64 && h < 24 && h == if Binary(status) then s else BcdToBinary(s)
    ensures HourOf(s + if afternoon then 128 else 0, status) ==
      if afternoon && !FullHours(status) then (h + 12) % 24 else h + if afternoon then 128 else 0
  {
    hide BcdToBinary, Binary, FullHours;
  }

  lemma StoredBelow(h: nat, status: nat)
    requires h < 24
    ensures Stored(h, status) < 64
  {
  }

  /** The time that the clock shows is the time that is read, except in 12-hour mode between twelve and
      one o'clock, where noon and midnight change places. */
  lemma ReadShown(t: Time, status: nat)
    requires Valid(t) && 0 <= t.second < 60 && 2000 <= t.year < 2100
    ensures ReadTime(Shown(t, status)) ==
      if !FullHours(status) && t.hour % 12 == 0 then t.(hour := (t.hour + 12) % 24) else t
    ensures ReadTime(Shown(t, status)) == t <==> FullHours(status) || t.hour % 12 != 0
  {
    hide StoredHour, HourOf, Binary, FullHours, Stored, BcdToBinary;
    HourBack(t.hour, status);
    NumberBack(t.second, status);
    NumberBack(t.minute, status);
    NumberBack(t.day, status);
    NumberBack(t.month, status);
    NumberBack(t.year - 2000, status);
  }
}
