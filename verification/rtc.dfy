/** MC146818-style CMOS real-time clock: the register protocol of `rtc_read`
    and the decoding of the raw register bank into a time snapshot (BCD or
    binary fields, 12- or 24-hour clock, century register or year heuristic,
    weekday normalisation), plus the weekday and month names.

    The register file is an input: `Registers` holds what port 0x71 returns
    for each register index. The busy wait on the update-in-progress flag is
    a precondition: the model starts at the moment the flag reads clear. */
module Rtc {
  import opened Hw

  const CMOS_ADDR: uint16 := 0x70
  const CMOS_DATA: uint16 := 0x71
  /** Address-port bit that keeps NMI disabled while a register is read. */
  const NMI_DISABLE: uint8 := 0x80

  const RTC_SECONDS: uint8 := 0x00
  const RTC_MINUTES: uint8 := 0x02
  const RTC_HOURS: uint8 := 0x04
  const RTC_WEEKDAY: uint8 := 0x06
  const RTC_DAY: uint8 := 0x07
  const RTC_MONTH: uint8 := 0x08
  const RTC_YEAR: uint8 := 0x09
  const RTC_CENTURY: uint8 := 0x32
  const RTC_STATUS_A: uint8 := 0x0A
  const RTC_STATUS_B: uint8 := 0x0B
  const RTC_STATUS_C: uint8 := 0x0C

  /** The registers `rtc_read` reads, in the order it reads them. */
  const READ_ORDER: seq<uint8> :=
    [RTC_SECONDS, RTC_MINUTES, RTC_HOURS, RTC_WEEKDAY, RTC_DAY, RTC_MONTH,
     RTC_YEAR, RTC_CENTURY, RTC_STATUS_B]

  /** `rtc_time_t` (include/kernel.h). */
  datatype RtcTime = RtcTime(second: uint8, minute: uint8, hour: uint8, day: uint8,
                             month: uint8, year: uint16, weekday: uint8)

  /** The raw values one `rtc_read` observes. */
  datatype Bank = Bank(second: uint8, minute: uint8, hour: uint8, weekday: uint8, day: uint8,
                       month: uint8, year: uint8, century: uint8, statusB: uint8)

  // ---------------------------------------------------------------------
  // Field decoding
  // ---------------------------------------------------------------------

  /** Status B bit 2: fields are plain binary rather than BCD. */
  predicate BinaryMode(statusB: uint8) { (statusB / 4) % 2 == 1 }

  /** Status B bit 1: the hour register counts 0-23 rather than 1-12 plus a PM bit. */
  predicate Hour24Mode(statusB: uint8) { (statusB / 2) % 2 == 1 }

  /** Bit 7 of the hour register: PM in 12-hour mode. */
  predicate PmBit(raw: uint8) { raw >= 0x80 }

  predicate IsBcd(v: uint8) { v % 16 < 10 && v / 16 < 10 }

  /** `bcd_to_bin`: low nibble plus ten times the high nibble. */
  function BcdToBin(v: uint8): (r: uint8)
    ensures r <= 165
    ensures IsBcd(v) ==> r < 100
  {
    v % 16 + (v / 16) * 10
  }

  /** The BCD form of a number below 100, as the clock chip stores it. */
  function BinToBcd(n: nat): (v: uint8)
    requires n < 100
    ensures IsBcd(v)
  {
    (n / 10) * 16 + n % 10
  }

  /** BCD decoding inverts BCD encoding, in both directions. */
  lemma BcdRoundTrip(n: nat, v: uint8)
    requires n < 100
    ensures BcdToBin(BinToBcd(n)) == n
    ensures IsBcd(v) ==> BinToBcd(BcdToBin(v)) == v
  {
    Digits(n / 10, n % 10, 10);
    Digits(n / 10, n % 10, 16);
    Digits(v / 16, v % 16, 16);
    if IsBcd(v) {
      Digits(v / 16, v % 16, 10);
    }
  }

  /** A two-digit number in base `d` splits back into its digits. */
  lemma Digits(q: nat, r: nat, d: nat)
    requires r < d && (d == 10 || d == 16)
    ensures (q * d + r) / d == q && (q * d + r) % d == r
  {
  }

  lemma BcdExamples()
    ensures BcdToBin(0x59) == 59 && BcdToBin(0x23) == 23 && BcdToBin(0x00) == 0
  {
  }

  function DecodeField(raw: uint8, statusB: uint8): uint8
  {
    if BinaryMode(statusB) then raw else BcdToBin(raw)
  }

  /** The hour as `rtc_read` computes it: in BCD mode the whole byte, PM bit
      included, goes through `bcd_to_bin` and the PM bit is then ORed back;
      in 12-hour mode a set PM bit gives `((hour & 0x7F) + 12) % 24`. */
  function DecodeHour(raw: uint8, statusB: uint8): (h: uint8)
    ensures !Hour24Mode(statusB) && PmBit(raw) ==> h < 24
  {
    var h0 := if BinaryMode(statusB) then raw else OrTopBit(BcdToBin(raw), PmBit(raw));
    if !Hour24Mode(statusB) && h0 >= 0x80 then (h0 % 0x80 + 12) % 24 else h0
  }

  /** Without bit 7 the hour is the decoded field, in either hour mode; in
      24-hour mode a set bit 7 is kept as it is, with no 12-hour adjustment. */
  lemma DecodeHourPlain(raw: uint8, statusB: uint8)
    ensures !PmBit(raw) ==> DecodeHour(raw, statusB) == DecodeField(raw, statusB)
    ensures Hour24Mode(statusB) && PmBit(raw) ==> DecodeHour(raw, statusB) >= 0x80
    ensures Hour24Mode(statusB) ==> DecodeHour(raw, statusB) % 0x80 == DecodeField(raw, statusB) % 0x80
  {
  }

  /** Full year: century register when non-zero, otherwise 2000 below 70 and
      1900 from 70 on. */
  function ResolveYear(year: uint8, century: uint8): (y: uint16)
    ensures century != 0 && year < 100 ==> y / 100 == century && y % 100 == year
    ensures century == 0 && year < 100 ==> 1970 <= y <= 2069 && y % 100 == year
  {
    if century != 0 then year + century * 100
    else year + (if year < 70 then 2000 else 1900)
  }

  lemma YearExamples()
    ensures ResolveYear(85, 0) == 1985 && ResolveYear(30, 0) == 2030 && ResolveYear(24, 20) == 2024
  {
  }

  /** Weekday 0 becomes 7 (Sunday); every other value is kept. */
  function NormalizeWeekday(w: uint8): (r: uint8)
    ensures r != 0
    ensures w != 0 ==> r == w
  {
    if w == 0 then 7 else w
  }

  /** The snapshot `rtc_read` produces from one register bank. */
  function Decode(b: Bank): (t: RtcTime)
    ensures t.weekday != 0
    ensures b.century == 0 && DecodeField(b.year, b.statusB) < 100 ==> 1970 <= t.year <= 2069
  {
    RtcTime(DecodeField(b.second, b.statusB), DecodeField(b.minute, b.statusB),
            DecodeHour(b.hour, b.statusB), DecodeField(b.day, b.statusB),
            DecodeField(b.month, b.statusB),
            ResolveYear(DecodeField(b.year, b.statusB), DecodeField(b.century, b.statusB)),
            NormalizeWeekday(DecodeField(b.weekday, b.statusB)))
  }

  // ---------------------------------------------------------------------
  // Reference encoding: what the chip stores for a given time
  // ---------------------------------------------------------------------

  /** The two format bits of status B. */
  datatype Format = Format(bcd: bool, hour24: bool)

  function StatusBOf(f: Format): (s: uint8)
    ensures BinaryMode(s) == !f.bcd && Hour24Mode(s) == f.hour24
  {
    (if f.bcd then 0 else 4) + (if f.hour24 then 2 else 0)
  }

  predicate ValidTime(t: RtcTime, withCentury: bool)
  {
    && t.second < 60 && t.minute < 60 && t.hour < 24
    && 1 <= t.day <= 31 && 1 <= t.month <= 12 && 1 <= t.weekday <= 7
    && (if withCentury then 100 <= t.year < 10000 else 1970 <= t.year <= 2069)
  }

  function EncodeField(n: nat, f: Format): (v: uint8)
    requires n < 100
  {
    if f.bcd then BinToBcd(n) else n
  }

  /** The 12-hour clock face: 0 and 12 show as 12. */
  function Hour12(h: nat): (r: nat)
    requires h < 24
    ensures 1 <= r <= 12
    ensures r % 12 + (if h >= 12 then 12 else 0) == h
  {
    if h % 12 == 0 then 12 else h % 12
  }

  /** The hour register: 0-23, or 1-12 with bit 7 set for PM. */
  function EncodeHour(h: nat, f: Format): uint8
    requires h < 24
  {
    SmallBcd(Hour12(h));
    if f.hour24 then EncodeField(h, f)
    else EncodeField(Hour12(h), f) + (if h >= 12 then 0x80 else 0)
  }

  /** BCD of a clock-face hour is below 0x13. */
  lemma SmallBcd(n: nat)
    requires n <= 12
    ensures BinToBcd(n) == (if n < 10 then n else n + 6)
  {
    if n >= 10 {
      assert n / 10 == 1 && n % 10 == n - 10;
    } else {
      assert n / 10 == 0 && n % 10 == n;
    }
  }

  /** A set PM bit reads as a BCD tens digit of 8. */
  lemma BcdPlusPm(v: uint8)
    requires v < 0x80
    ensures BcdToBin(v + 0x80) == BcdToBin(v) + 80
  {
    assert (v + 0x80) % 16 == v % 16;
    assert (v + 0x80) / 16 == v / 16 + 8;
  }

  /** The register bank that holds `t` in format `f`; without a century
      register the century byte reads 0. */
  function Encode(t: RtcTime, f: Format, withCentury: bool): Bank
    requires ValidTime(t, withCentury)
  {
    Bank(EncodeField(t.second, f), EncodeField(t.minute, f), EncodeHour(t.hour, f),
         EncodeField(t.weekday, f), EncodeField(t.day, f), EncodeField(t.month, f),
         EncodeField(t.year % 100, f),
         if withCentury then EncodeField(t.year / 100, f) else 0,
         StatusBOf(f))
  }

  lemma FieldRoundTrip(n: nat, f: Format)
    requires n < 100
    ensures DecodeField(EncodeField(n, f), StatusBOf(f)) == n
  {
    if f.bcd { BcdRoundTrip(n, 0); }
  }

  /** The year split into year-of-century and century registers is
      reassembled; without a century register, years 1970-2069 survive. */
  lemma YearRoundTrip(y: nat, f: Format, withCentury: bool)
    requires if withCentury then 100 <= y < 10000 else 1970 <= y <= 2069
    ensures ResolveYear(DecodeField(EncodeField(y % 100, f), StatusBOf(f)),
                        if withCentury then DecodeField(EncodeField(y / 100, f), StatusBOf(f))
                        else DecodeField(0, StatusBOf(f))) == y
  {
    FieldRoundTrip(y % 100, f);
    assert DecodeField(0, StatusBOf(f)) == 0;
    if withCentury {
      FieldRoundTrip(y / 100, f);
    } else if y >= 2000 {
      assert y % 100 == y - 2000;
    } else {
      assert y % 100 == y - 1900;
    }
  }

  /** Every field other than the hour decodes back to what was stored. */
  lemma {:induction false} DecodeRoundTripExceptHour(t: RtcTime, f: Format, withCentury: bool)
    requires ValidTime(t, withCentury)
    ensures var d := Decode(Encode(t, f, withCentury));
            d.second == t.second && d.minute == t.minute && d.day == t.day
            && d.month == t.month && d.year == t.year && d.weekday == t.weekday
  {
    FieldRoundTrip(t.second, f);
    FieldRoundTrip(t.minute, f);
    FieldRoundTrip(t.day, f);
    FieldRoundTrip(t.month, f);
    FieldRoundTrip(t.weekday, f);
    YearRoundTrip(t.year, f, withCentury);
  }

  /** In 24-hour mode, BCD or binary, decoding recovers the stored time. */
  lemma {:induction false} DecodeRoundTrip24(t: RtcTime, f: Format, withCentury: bool)
    requires ValidTime(t, withCentury) && f.hour24
    ensures Decode(Encode(t, f, withCentury)) == t
  {
    DecodeRoundTripExceptHour(t, f, withCentury);
    FieldRoundTrip(t.hour, f);
  }

  /** In binary 12-hour mode the hour decodes correctly exactly when it is
      not 0 or 12: midnight (12 AM) comes back as 12 and noon (12 PM) as 0. */
  lemma DecodeHourBinary12(h: nat)
    requires h < 24
    ensures var f := Format(false, false);
            DecodeHour(EncodeHour(h, f), StatusBOf(f)) == h <==> h % 12 != 0
    ensures DecodeHour(EncodeHour(0, Format(false, false)), StatusBOf(Format(false, false))) == 12
    ensures DecodeHour(EncodeHour(12, Format(false, false)), StatusBOf(Format(false, false))) == 0
  {
    Binary12Hour(h);
    Binary12Hour(0);
    Binary12Hour(12);
  }

  /** What binary 12-hour decoding makes of the encoding of hour `h`: the
      clock-face hour, plus 12 modulo 24 in the afternoon. */
  lemma Binary12Hour(h: nat)
    requires h < 24
    ensures var f := Format(false, false);
            DecodeHour(EncodeHour(h, f), StatusBOf(f))
            == if h >= 12 then (Hour12(h) + 12) % 24 else Hour12(h)
  {
    var f := Format(false, false);
    var s := StatusBOf(f);
    assert s == 4 && BinaryMode(s) && !Hour24Mode(s);
    var raw := EncodeHour(h, f);
    assert raw == Hour12(h) + (if h >= 12 then 0x80 else 0);
    if h >= 12 {
      assert raw % 0x80 == Hour12(h);
    }
  }

  /** In BCD 12-hour mode no PM hour decodes correctly: the PM bit is
      decoded as a BCD tens digit of 8 before it is masked off, so the
      clock-face value h12 comes back as (h12 + 20) mod 24 (1 PM as 21,
      noon as 8). */
  lemma DecodeHourBcd12Pm(h: nat)
    requires 12 <= h < 24
    ensures var f := Format(true, false);
            DecodeHour(EncodeHour(h, f), StatusBOf(f)) == (Hour12(h) + 20) % 24 != h
  {
    var f := Format(true, false);
    var h12 := Hour12(h);
    SmallBcd(h12);
    var e := BinToBcd(h12);
    var raw := EncodeHour(h, f);
    assert raw == e + 0x80;
    BcdPm(h12);
    PmHourOff(h);
  }

  /** A PM clock-face hour in BCD comes back shifted by 20 hours. */
  lemma BcdPm(h12: nat)
    requires 1 <= h12 <= 12
    ensures DecodeHour(BinToBcd(h12) + 0x80, StatusBOf(Format(true, false))) == (h12 + 20) % 24
  {
    var raw := BinToBcd(h12) + 0x80;
    BcdPmValue(h12);
    assert StatusBOf(Format(true, false)) == 0;
    DecodeBcdPmHour(raw, h12 + 80);
    DayWrap(h12);
  }

  /** Decoded as a whole byte, a PM clock-face hour gains 80. */
  lemma BcdPmValue(h12: nat)
    requires 1 <= h12 <= 12
    ensures BinToBcd(h12) < 0x80 && BcdToBin(BinToBcd(h12) + 0x80) == h12 + 80
  {
    var e := BinToBcd(h12);
    SmallBcd(h12);
    BcdPlusPm(e);
    BcdRoundTrip(h12, 0);
  }

  lemma DayWrap(a: nat)
    ensures (a + 92) % 24 == (a + 20) % 24
  {
  }

  /** A BCD 12-hour PM byte whose whole-byte BCD value is `b`. */
  lemma DecodeBcdPmHour(raw: uint8, b: nat)
    requires raw >= 0x80 && BcdToBin(raw) == b && b < 0x80
    ensures DecodeHour(raw, 0) == (b + 12) % 24
  {
    assert OrTopBit(b, true) % 0x80 == b;
  }

  /** The shifted hour is never the right one. */
  lemma PmHourOff(h: nat)
    requires 12 <= h < 24
    ensures (Hour12(h) + 20) % 24 != h
  {
  }

  /** Concrete case: 1 PM in BCD 12-hour mode (0x81) reads as 21:00. */
  lemma BcdOnePmExample()
    ensures DecodeHour(0x81, StatusBOf(Format(true, false))) == 21
  {
  }

  // ---------------------------------------------------------------------
  // Corrected hour decoding
  // ---------------------------------------------------------------------

  /** The hour as evidently intended: the PM bit is masked off before BCD
      decoding, and 12 AM / 12 PM map to 0 / 12. In 24-hour mode it is the
      same as `DecodeHour`. */
  function DecodeHourFixed(raw: uint8, statusB: uint8): (h: uint8)
    ensures Hour24Mode(statusB) ==> h == DecodeHour(raw, statusB)
    ensures !Hour24Mode(statusB) ==> h < 24
  {
    if Hour24Mode(statusB) then DecodeHour(raw, statusB)
    else
      var h12 := DecodeField(raw % 0x80, statusB);
      if PmBit(raw) then h12 % 12 + 12 else h12 % 12
  }

  function DecodeFixed(b: Bank): (t: RtcTime)
    ensures t.weekday != 0
  {
    Decode(b).(hour := DecodeHourFixed(b.hour, b.statusB))
  }

  /** 24-hour mode: the hour byte is below 0x80, so the unchanged decoding applies. */
  lemma HourFixed24(h: nat, f: Format)
    requires h < 24 && f.hour24
    ensures DecodeHourFixed(EncodeHour(h, f), StatusBOf(f)) == h
  {
    var s := StatusBOf(f);
    var raw := EncodeHour(h, f);
    FieldRoundTrip(h, f);
    assert raw == EncodeField(h, f) && DecodeField(raw, s) == h;
    assert !PmBit(raw) by {
      if f.bcd { assert raw / 16 <= 2; }
    }
  }
  /** 12-hour mode: masking the PM bit leaves the clock-face hour. */
  lemma HourFixed12(h: nat, f: Format)
    requires h < 24 && !f.hour24
    ensures DecodeHourFixed(EncodeHour(h, f), StatusBOf(f)) == h
  {
    var h12 := Hour12(h);
    var e := EncodeField(h12, f);
    Hour12Parts(h, f);
    FieldRoundTrip(h12, f);
    DecodeHourFixed12(EncodeHour(h, f), StatusBOf(f), e, h12);
  }

  /** The 12-hour register is the clock-face field plus the PM bit. */
  lemma Hour12Parts(h: nat, f: Format)
    requires h < 24 && !f.hour24
    ensures var e := EncodeField(Hour12(h), f);
            e < 0x80 && EncodeHour(h, f) % 0x80 == e && (PmBit(EncodeHour(h, f)) <==> h >= 12)
  {
    EncodeHourSplit(h, f);
    MaskPm(EncodeField(Hour12(h), f), h >= 12);
  }

  /** The 12-hour register is the clock-face field, at most 0x12, plus the
      PM bit. */
  lemma EncodeHourSplit(h: nat, f: Format)
    requires h < 24 && !f.hour24
    ensures EncodeField(Hour12(h), f) <= 0x12
    ensures EncodeHour(h, f) == EncodeField(Hour12(h), f) + (if h >= 12 then 0x80 else 0)
  {
    SmallBcd(Hour12(h));
  }

  lemma MaskPm(e: nat, pm: bool)
    requires e < 0x80
    ensures (e + (if pm then 0x80 else 0)) % 0x80 == e
  {
  }

  /** The corrected 12-hour decoding of a register whose low seven bits
      decode to the clock-face hour `h12`. */
  lemma DecodeHourFixed12(raw: uint8, s: uint8, e: uint8, h12: nat)
    requires !Hour24Mode(s) && raw % 0x80 == e && DecodeField(e, s) == h12
    requires 1 <= h12 <= 12
    ensures DecodeHourFixed(raw, s) == if PmBit(raw) then h12 % 12 + 12 else h12 % 12
  {
  }

  /** The corrected hour decoding inverts the hour encoding in all formats. */
  lemma HourFixedRoundTrip(h: nat, f: Format)
    requires h < 24
    ensures DecodeHourFixed(EncodeHour(h, f), StatusBOf(f)) == h
  {
    if f.hour24 { HourFixed24(h, f); } else { HourFixed12(h, f); }
  }

  /** With the corrected hour, decoding inverts encoding in all four formats. */
  lemma {:induction false} DecodeFixedRoundTrip(t: RtcTime, f: Format, withCentury: bool)
    requires ValidTime(t, withCentury)
    ensures DecodeFixed(Encode(t, f, withCentury)) == t
  {
    DecodeRoundTripExceptHour(t, f, withCentury);
    HourFixedRoundTrip(t.hour, f);
  }

  /** BCD and binary registers holding the same time decode alike. */
  lemma ModeIndependent(t: RtcTime, hour24: bool, withCentury: bool)
    requires ValidTime(t, withCentury)
    ensures DecodeFixed(Encode(t, Format(true, hour24), withCentury))
         == DecodeFixed(Encode(t, Format(false, hour24), withCentury))
  {
    DecodeFixedRoundTrip(t, Format(true, hour24), withCentury);
    DecodeFixedRoundTrip(t, Format(false, hour24), withCentury);
  }

  // ---------------------------------------------------------------------
  // Register protocol
  // ---------------------------------------------------------------------

  /** What port 0x71 returns for each register index 0..127. */
  type Registers = r: seq<uint8> | |r| == 128 witness seq(128, _ => 0)

  /** `cmos_read`: select the register with NMI disabled, then read it. */
  function CmosRead(regs: Registers, reg: uint8): (r: (uint8, PortWrite))
    requires reg < 0x80
    ensures r.1 == Out(CMOS_ADDR, reg + 0x80) && r.0 == regs[reg]
  {
    (regs[reg], Out(CMOS_ADDR, OrTopBit(reg, true)))
  }

  /** Status A bit 7: the chip is in the middle of an update. */
  predicate Updating(regs: Registers) { PmBit(regs[RTC_STATUS_A]) }

  function BankOf(regs: Registers): Bank
  {
    Bank(regs[RTC_SECONDS], regs[RTC_MINUTES], regs[RTC_HOURS], regs[RTC_WEEKDAY],
         regs[RTC_DAY], regs[RTC_MONTH], regs[RTC_YEAR], regs[RTC_CENTURY], regs[RTC_STATUS_B])
  }

  /** The port writes of `cmos_read` over a list of registers. */
  function ReadWrites(regs: Registers, order: seq<uint8>): (w: seq<PortWrite>)
    requires forall i :: 0 <= i < |order| ==> order[i] < 0x80
    ensures |w| == |order|
    ensures forall i :: 0 <= i < |order| ==> w[i] == Out(CMOS_ADDR, order[i] + 0x80)
  {
    if order == [] then [] else [CmosRead(regs, order[0]).1] + ReadWrites(regs, order[1..])
  }

  /** `rtc_read`, entered when the update flag reads clear: one status-A
      poll with the bare index, then each register of `READ_ORDER` selected
      with bit 7 set; the snapshot is the decoded bank. */
  function Read(regs: Registers): (r: (RtcTime, seq<PortWrite>))
    requires !Updating(regs)
    ensures r.0 == Decode(BankOf(regs))
    ensures |r.1| == 1 + |READ_ORDER| && r.1[0] == Out(CMOS_ADDR, RTC_STATUS_A)
    ensures forall i :: 1 <= i < |r.1| ==> r.1[i] == Out(CMOS_ADDR, READ_ORDER[i - 1] + 0x80)
    ensures forall i :: 0 <= i < |r.1| ==> r.1[i].port == CMOS_ADDR
  {
    (Decode(BankOf(regs)), [Out(CMOS_ADDR, RTC_STATUS_A)] + ReadWrites(regs, READ_ORDER))
  }

  /** The driver's globals: the snapshot `rtc_handler` keeps up to date and
      the flag every read sets. */
  datatype Driver = Driver(current: RtcTime, updated: bool)

  const Boot: Driver := Driver(RtcTime(0, 0, 0, 0, 0, 0, 0), false)

  /** `rtc_handler`: acknowledge through status C (bare index, then a read
      of the data port), then read the clock into the driver's snapshot. */
  function Handler(d: Driver, regs: Registers): (r: (Driver, seq<PortWrite>))
    requires !Updating(regs)
    ensures r.0.current == Decode(BankOf(regs)) && r.0.updated
    ensures r.1 == [Out(CMOS_ADDR, RTC_STATUS_C)] + Read(regs).1
  {
    var reading := Read(regs);
    (Driver(reading.0, true), [Out(CMOS_ADDR, RTC_STATUS_C)] + reading.1)
  }

  /** `rtc_init`: set status B bit 4 (update-ended interrupt), keeping the
      other bits, then take the first reading into the snapshot. */
  function Init(d: Driver, regs: Registers): (r: (Registers, Driver, seq<PortWrite>))
    requires !Updating(regs)
    ensures r.0[RTC_STATUS_B] == OrBit4(regs[RTC_STATUS_B])
    ensures forall i :: 0 <= i < 128 && i != RTC_STATUS_B as int ==> r.0[i] == regs[i]
    ensures r.1 == Driver(Read(regs).0, true)
    ensures |r.2| == 3 + |Read(regs).1|
    ensures r.2[..3] == [Out(CMOS_ADDR, 0x8B), Out(CMOS_ADDR, 0x8B), Out(CMOS_DATA, OrBit4(regs[RTC_STATUS_B]))]
  {
    var status := CmosRead(regs, RTC_STATUS_B);
    var regs' := regs[RTC_STATUS_B := OrBit4(status.0)];
    InterruptBitKeepsFormat(status.0);
    var reading := Read(regs');
    (regs', Driver(reading.0, true),
     [status.1, Out(CMOS_ADDR, OrTopBit(RTC_STATUS_B, true)), Out(CMOS_DATA, OrBit4(status.0))] + reading.1)
  }

  /** Setting bit 4 of status B leaves the format bits 1 and 2 as they were. */
  lemma InterruptBitKeepsFormat(s: uint8)
    ensures BinaryMode(OrBit4(s)) == BinaryMode(s)
    ensures Hour24Mode(OrBit4(s)) == Hour24Mode(s)
  {
    if OrBit4(s) != s {
      assert OrBit4(s) == s + 16;
      assert (s + 16) / 4 == s / 4 + 4;
      assert (s + 16) / 2 == s / 2 + 8;
    }
  }

  // ---------------------------------------------------------------------
  // Names
  // ---------------------------------------------------------------------

  const WEEKDAY_NAMES: seq<string> := ["Mon", "Tue", "Wed", "Thu", "Fri", "Sat", "Sun"]
  const MONTH_NAMES: seq<string> :=
    ["Jan", "Feb", "Mar", "Apr", "May", "Jun", "Jul", "Aug", "Sep", "Oct", "Nov", "Dec"]

  /** `rtc_weekday_str`: 1..7 name Monday..Sunday, anything else is "???". */
  function WeekdayName(wd: uint8): (s: string)
    ensures |s| == 3
    ensures s == "???" <==> !(1 <= wd <= 7)
    ensures 1 <= wd <= 7 ==> s == WEEKDAY_NAMES[wd - 1]
  {
    if wd < 1 || wd > 7 then "???" else WEEKDAY_NAMES[wd - 1]
  }

  /** `rtc_month_str`: 1..12 name January..December, anything else is "???". */
  function MonthName(m: uint8): (s: string)
    ensures |s| == 3
    ensures s == "???" <==> !(1 <= m <= 12)
    ensures 1 <= m <= 12 ==> s == MONTH_NAMES[m - 1]
  {
    if m < 1 || m > 12 then "???" else MONTH_NAMES[m - 1]
  }

  /** Distinct weekdays and months get distinct names. */
  lemma NamesDistinct(a: uint8, b: uint8)
    ensures 1 <= a <= 7 && 1 <= b <= 7 && a != b ==> WeekdayName(a) != WeekdayName(b)
    ensures 1 <= a <= 12 && 1 <= b <= 12 && a != b ==> MonthName(a) != MonthName(b)
  {
  }

  /** A snapshot decoded from a weekday register 0..7 always has a name. */
  lemma DecodedWeekdayHasName(b: Bank)
    requires DecodeField(b.weekday, b.statusB) <= 7
    ensures WeekdayName(Decode(b).weekday) != "???"
  {
  }
}
