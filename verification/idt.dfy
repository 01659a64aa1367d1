/** The interrupt descriptor table, the two cascaded 8259A interrupt
    controllers, and the dispatch of exceptions and hardware interrupts to
    the drivers.

    The gate layout is the one of section 6.11 of the Intel 64 and IA-32
    Architectures Software Developer's Manual, Volume 3A; the controller
    model follows the initialization and operation command words of the
    Intel 8259A datasheet. The addresses of the assembly entry stubs, the
    byte read from the keyboard port and the CMOS register file are inputs. */
module Idt {
  import opened Hw
  import Timer
  import Keyboard
  import Rtc
  import Gdt
  import Libc

  // ---------------------------------------------------------------------
  // Gates
  // ---------------------------------------------------------------------

  const GATE_COUNT: nat := 256
  const GATE_SIZE: nat := 8
  /** `sizeof(idt) - 1`. */
  const TABLE_LIMIT: uint16 := 2047
  const KERNEL_CODE: uint16 := 0x08
  /** Present, ring 0, 32-bit interrupt gate. */
  const INTERRUPT_GATE: uint8 := 0x8E

  /** `idt_entry_t`, field by field in memory order. */
  datatype Gate = Gate(offsetLow: uint16, selector: uint16, zero: uint8, typeAttr: uint8,
                       offsetHigh: uint16)

  /** A zeroed entry: not present. */
  const EMPTY: Gate := Gate(0, 0, 0, 0, 0)

  /** `idt_ptr_t`: the operand of `lidt`. */
  datatype TablePointer = TablePointer(limit: uint16, base: uint32)

  /** The handler address the CPU reassembles from the two offset halves. */
  function Offset(g: Gate): nat { g.offsetLow + 0x1_0000 * g.offsetHigh }

  predicate Present(g: Gate) { g.typeAttr >= 0x80 }
  function Dpl(g: Gate): nat { (g.typeAttr / 0x20) % 4 }
  /** The gate type nibble; 0xE is a 32-bit interrupt gate, which clears
      the interrupt flag on entry. */
  function GateType(g: Gate): nat { g.typeAttr % 0x10 }
  /** Bit 4 of the type byte is 0 for every system descriptor. */
  predicate SystemDescriptor(g: Gate) { (g.typeAttr / 0x10) % 2 == 0 }

  /** `idt_set`: split the handler address over its two halves. */
  function SetGate(offset: uint32, selector: uint16, flags: uint8): (g: Gate)
    ensures Offset(g) == offset && g.selector == selector && g.typeAttr == flags && g.zero == 0
  {
    var q := offset / 0x1_0000;
    assert q < 0x1_0000;
    Gate(offset % 0x1_0000, selector, 0, flags, q % 0x1_0000)
  }

  /** The vectors `idt_init` fills, in the order it fills them: exceptions
      0-8, 13 and 14, then IRQ0, IRQ1 and IRQ8 after the remap. */
  const INSTALL_ORDER: seq<nat> := [0, 1, 2, 3, 4, 5, 6, 7, 8, 13, 14, 0x20, 0x21, 0x28]

  /** The position of vector `v` in `INSTALL_ORDER`, or -1. */
  function StubIndex(v: nat): (k: int)
    ensures -1 <= k < |INSTALL_ORDER|
    ensures k >= 0 ==> INSTALL_ORDER[k] == v
    ensures k < 0 ==> v !in INSTALL_ORDER
  {
    if v <= 8 then v
    else if v == 13 then 9
    else if v == 14 then 10
    else if v == 0x20 then 11
    else if v == 0x21 then 12
    else if v == 0x28 then 13
    else -1
  }

  /** `idt_init`: a zeroed table, then one present ring-0 interrupt gate
      through the kernel code segment for each vector in `INSTALL_ORDER`,
      pointing at the matching stub. */
  method Init(tableAddress: uint32, stubs: seq<uint32>) returns (table: seq<Gate>, ptr: TablePointer)
    requires |stubs| == |INSTALL_ORDER|
    ensures |table| == GATE_COUNT
    ensures ptr == TablePointer(TABLE_LIMIT, tableAddress) && TABLE_LIMIT == GATE_COUNT * GATE_SIZE - 1
    ensures forall k :: 0 <= k < |INSTALL_ORDER| ==>
              table[INSTALL_ORDER[k]] == SetGate(stubs[k], KERNEL_CODE, INTERRUPT_GATE)
    ensures forall v :: 0 <= v < GATE_COUNT && v !in INSTALL_ORDER ==> table[v] == EMPTY
  {
    ptr := TablePointer(TABLE_LIMIT, tableAddress);
    table := seq(GATE_COUNT, _ => EMPTY);
    var k := 0;
    while k < |INSTALL_ORDER|
      invariant k <= |INSTALL_ORDER| && |table| == GATE_COUNT
      invariant forall v :: 0 <= v < GATE_COUNT ==>
                  table[v] == if 0 <= StubIndex(v) < k
                              then SetGate(stubs[StubIndex(v)], KERNEL_CODE, INTERRUPT_GATE)
                              else EMPTY
    {
      table := table[INSTALL_ORDER[k] := SetGate(stubs[k], KERNEL_CODE, INTERRUPT_GATE)];
      k := k + 1;
    }
    forall k | 0 <= k < |INSTALL_ORDER|
      ensures table[INSTALL_ORDER[k]] == SetGate(stubs[k], KERNEL_CODE, INTERRUPT_GATE)
    {
      assert StubIndex(INSTALL_ORDER[k]) == k;
    }
  }

  /** Every installed gate is a present ring-0 32-bit interrupt gate whose
      selector names the GDT's ring-0 code segment. */
  lemma InstalledGate(offset: uint32)
    ensures var g := SetGate(offset, KERNEL_CODE, INTERRUPT_GATE);
            && Present(g) && Dpl(g) == 0 && GateType(g) == 0xE && SystemDescriptor(g)
            && Offset(g) == offset
            && g.selector as nat == Gdt.Selector(1, 0)
            && Gdt.Executable(Gdt.INSTALLED[g.selector / 8].access)
  {
    Gdt.KernelCodeSelector();
  }

  // ---------------------------------------------------------------------
  // The 8259A pair
  // ---------------------------------------------------------------------

  const PIC1_CMD: uint16 := 0x20
  const PIC1_DATA: uint16 := 0x21
  const PIC2_CMD: uint16 := 0xA0
  const PIC2_DATA: uint16 := 0xA1
  /** OCW2 non-specific end of interrupt. */
  const EOI: uint8 := 0x20

  /** Which initialization command word a controller expects next. */
  datatype Phase = Ready | WantIcw2 | WantIcw3 | WantIcw4

  /** One controller: its initialization progress, the vector base (ICW2),
      the cascade byte (ICW3: the slave inputs for a master, the identity
      for a slave), the mode byte (ICW4), the interrupt mask (OCW1) and the
      number of end-of-interrupt commands received. */
  datatype Chip = Chip(phase: Phase, needIcw4: bool, single: bool, base: uint8, cascade: uint8,
                       mode: uint8, mask: uint8, eois: nat)

  datatype Pic = Pic(master: Chip, slave: Chip)

  /** Bit `i` of a byte. */
  predicate Bit(x: uint8, i: nat)
    requires i < 8
  {
    (x / Pow2(i)) % 2 == 1
  }

  function Pow2(i: nat): (p: nat)
    ensures p >= 1
  {
    if i == 0 then 1 else 2 * Pow2(i - 1)
  }

  /** A write to the command port (`command`) or the data port of one
      controller. ICW1 (bit 4 set) restarts initialization and clears the
      mask and the mode; the data port then takes ICW2, ICW3 (only in
      cascade mode) and ICW4 (only when ICW1 asked for it), and after
      that sets the mask. On the command port with bit 4 clear, 0x20 is a
      non-specific end of interrupt; the other operation words are not
      modelled and change nothing here. */
  function ChipWrite(c: Chip, command: bool, v: uint8): (r: Chip)
    ensures command && v / 0x10 % 2 == 1 ==> r.phase == WantIcw2 && r.mask == 0
    ensures c.phase == Ready && !command ==> r == c.(mask := v)
    ensures command && v == EOI ==> r == c.(eois := c.eois + 1)
  {
    if command then
      if (v / 0x10) % 2 == 1 then
        c.(phase := WantIcw2, needIcw4 := v % 2 == 1, single := (v / 2) % 2 == 1,
           mask := 0, mode := 0)
      else if v == EOI then c.(eois := c.eois + 1)
      else c
    else
      match c.phase
      case WantIcw2 =>
        c.(base := v - v % 8,
           phase := if !c.single then WantIcw3 else if c.needIcw4 then WantIcw4 else Ready)
      case WantIcw3 => c.(cascade := v, phase := if c.needIcw4 then WantIcw4 else Ready)
      case WantIcw4 => c.(mode := v, phase := Ready)
      case Ready => c.(mask := v)
  }

  /** Port 0x20/0x21 reach the master, 0xA0/0xA1 the slave; other ports
      leave both alone. */
  function PicWrite(p: Pic, w: PortWrite): (r: Pic)
    ensures !IsPicPort(w.port) ==> r == p
  {
    if w.port == PIC1_CMD || w.port == PIC1_DATA then
      p.(master := ChipWrite(p.master, w.port == PIC1_CMD, w.value))
    else if w.port == PIC2_CMD || w.port == PIC2_DATA then
      p.(slave := ChipWrite(p.slave, w.port == PIC2_CMD, w.value))
    else p
  }

  predicate IsPicPort(port: uint16) { port in {PIC1_CMD, PIC1_DATA, PIC2_CMD, PIC2_DATA} }

  /** The controllers after a sequence of port writes. */
  function Run(p: Pic, ws: seq<PortWrite>): Pic
    decreases |ws|
  {
    if ws == [] then p else Run(PicWrite(p, ws[0]), ws[1..])
  }

  lemma {:induction false} RunAppend(p: Pic, ws: seq<PortWrite>, vs: seq<PortWrite>)
    ensures Run(p, ws + vs) == Run(Run(p, ws), vs)
    decreases |ws|
  {
    if ws == [] {
      assert ws + vs == vs;
    } else {
      assert (ws + vs)[1..] == ws[1..] + vs;
      RunAppend(PicWrite(p, ws[0]), ws[1..], vs);
    }
  }

  /** Writes to other devices do not touch the controllers. */
  lemma {:induction false} RunOtherPorts(p: Pic, ws: seq<PortWrite>)
    requires forall i :: 0 <= i < |ws| ==> !IsPicPort(ws[i].port)
    ensures Run(p, ws) == p
    decreases |ws|
  {
    if ws != [] {
      RunOtherPorts(p, ws[1..]);
    }
  }

  /** One write of a trace, taken from position `k`. */
  lemma RunStep(p: Pic, ws: seq<PortWrite>, k: nat)
    requires k < |ws|
    ensures Run(p, ws[k..]) == Run(PicWrite(p, ws[k]), ws[k + 1..])
  {
    assert ws[k..][1..] == ws[k + 1..];
  }

  /** The ten writes of `pic_init` with the final master mask as a
      parameter: ICW1 to both, ICW2 (vector bases 0x20 and 0x28), ICW3
      (slave on master input 2, slave identity 2), ICW4 (8086 mode), then
      the masks. */
  function PicInitWith(masterMask: uint8): seq<PortWrite>
  {
    [Out(PIC1_CMD, 0x11), Out(PIC2_CMD, 0x11),
     Out(PIC1_DATA, 0x20), Out(PIC2_DATA, 0x28),
     Out(PIC1_DATA, 0x04), Out(PIC2_DATA, 0x02),
     Out(PIC1_DATA, 0x01), Out(PIC2_DATA, 0x01),
     Out(PIC1_DATA, masterMask), Out(PIC2_DATA, 0xFE)]
  }

  /** `pic_init` as written: master mask 0xFC, slave mask 0xFE. */
  function PicInit(): (ws: seq<PortWrite>)
    ensures |ws| == 10 && ws[8] == Out(PIC1_DATA, 0xFC) && ws[9] == Out(PIC2_DATA, 0xFE)
  {
    PicInitWith(0xFC)
  }

  /** Both controllers ready in cascade 8086 mode, bases 0x20 and 0x28, the
      slave on master input 2, master mask `mm` and slave mask 0xFE; the
      end-of-interrupt counts are those of `p`. */
  function Configured(p: Pic, mm: uint8): Pic
  {
    Pic(Chip(Ready, true, false, 0x20, 0x04, 0x01, mm, p.master.eois),
        Chip(Ready, true, false, 0x28, 0x02, 0x01, 0xFE, p.slave.eois))
  }

  /** Whatever state the controllers were in, the initialization sequence
      leaves both ready in cascade 8086 mode with bases 0x20 and 0x28, the
      slave on master input 2, and the two masks written last. */
  lemma PicInitConfigures(p: Pic, masterMask: uint8)
    ensures Run(p, PicInitWith(masterMask)) == Configured(p, masterMask)
  {
    var ws := PicInitWith(masterMask);
    assert ws[0..] == ws;
    var m3 := ChipWrite(ChipWrite(ChipWrite(p.master, true, 0x11), false, 0x20), false, 0x04);
    var s3 := ChipWrite(ChipWrite(ChipWrite(p.slave, true, 0x11), false, 0x28), false, 0x02);
    InitWords(p, masterMask);
    InitMasks(Pic(m3, s3), masterMask);
    ChipInit(p.master, 0x20, 0x04, masterMask);
    ChipInit(p.slave, 0x28, 0x02, 0xFE);
  }

  /** ICW1 to ICW3, the first six writes. */
  lemma InitWords(p: Pic, masterMask: uint8)
    ensures var m3 := ChipWrite(ChipWrite(ChipWrite(p.master, true, 0x11), false, 0x20), false, 0x04);
            var s3 := ChipWrite(ChipWrite(ChipWrite(p.slave, true, 0x11), false, 0x28), false, 0x02);
            Run(p, PicInitWith(masterMask)[0..]) == Run(Pic(m3, s3), PicInitWith(masterMask)[6..])
  {
    var ws := PicInitWith(masterMask);
    var m1 := ChipWrite(p.master, true, 0x11);
    var s1 := ChipWrite(p.slave, true, 0x11);
    var m2 := ChipWrite(m1, false, 0x20);
    var s2 := ChipWrite(s1, false, 0x28);
    RunPair(p, ws, 0);
    RunPair(Pic(m1, s1), ws, 2);
    RunPair(Pic(m2, s2), ws, 4);
  }

  /** ICW4 and the two masks, the last four writes. */
  lemma InitMasks(q: Pic, masterMask: uint8)
    ensures Run(q, PicInitWith(masterMask)[6..])
         == Pic(ChipWrite(ChipWrite(q.master, false, 0x01), false, masterMask),
                ChipWrite(ChipWrite(q.slave, false, 0x01), false, 0xFE))
  {
    var ws := PicInitWith(masterMask);
    var m4 := ChipWrite(q.master, false, 0x01);
    var s4 := ChipWrite(q.slave, false, 0x01);
    RunPair(q, ws, 6);
    RunPair(Pic(m4, s4), ws, 8);
    assert ws[10..] == [];
  }

  /** A write to the master followed by one to the slave, taken from
      position `k` of a trace. */
  lemma RunPair(p: Pic, ws: seq<PortWrite>, k: nat)
    requires k + 1 < |ws|
    requires ws[k].port in {PIC1_CMD, PIC1_DATA} && ws[k + 1].port in {PIC2_CMD, PIC2_DATA}
    ensures Run(p, ws[k..]) == Run(Pic(ChipWrite(p.master, ws[k].port == PIC1_CMD, ws[k].value),
                                       ChipWrite(p.slave, ws[k + 1].port == PIC2_CMD, ws[k + 1].value)),
                                   ws[k + 2..])
  {
    RunStep(p, ws, k);
    RunStep(PicWrite(p, ws[k]), ws, k + 1);
  }

  /** One controller after ICW1 0x11 (edge triggered, cascade, ICW4
      needed), ICW2 `base`, ICW3 `cascade`, ICW4 0x01 (8086 mode) and a
      mask. */
  lemma ChipInit(c: Chip, base: uint8, cascade: uint8, mask: uint8)
    requires base % 8 == 0
    ensures ChipWrite(ChipWrite(ChipWrite(ChipWrite(ChipWrite(c, true, 0x11), false, base),
                                          false, cascade), false, 0x01), false, mask)
         == Chip(Ready, true, false, base, cascade, 0x01, mask, c.eois)
  {
  }

  /** The vector the CPU receives for an interrupt line. */
  function Vector(p: Pic, irq: nat): nat
    requires irq < 16
  {
    if irq < 8 then p.master.base + irq else p.slave.base + (irq - 8)
  }

  /** Whether a device interrupt on line `irq` reaches the CPU: its own
      mask bit is clear and, for a slave line, so is the master's bit for
      the input the slave is wired to (its identity from ICW3). That master
      input carries only the slave's requests, so it is no device line of
      its own. */
  predicate Delivered(p: Pic, irq: nat)
    requires irq < 16
  {
    if irq < 8 then irq != p.slave.cascade % 8 && !Bit(p.master.mask, irq)
    else !Bit(p.slave.mask, irq - 8) && !Bit(p.master.mask, p.slave.cascade % 8)
  }

  /** As written, mask 0xFC keeps master input 2, the cascade from the
      slave, masked: only the timer and the keyboard get through, and the
      clock's IRQ8 never does, although the slave itself lets it out. */
  lemma PicInitBlocksCascade(p: Pic, irq: nat)
    requires irq < 16
    ensures Bit(0xFC, 2) && !Bit(0xFE, 0)
    ensures Delivered(Run(p, PicInit()), irq) <==> irq == 0 || irq == 1
  {
    PicInitConfigures(p, 0xFC);
    ConfiguredRouting(p, 0xFC, irq);
    MaskPattern(irq % 8);
    MaskPattern(2);
    MaskPattern(0);
  }

  /** After initialization with master mask `mm`, line `irq` arrives on
      vector 0x20 + irq; a master line other than the cascade input 2 is
      delivered when its bit of `mm` is clear, and of the slave lines only
      IRQ8, and only when bit 2 of `mm` is clear. */
  lemma ConfiguredRouting(p: Pic, mm: uint8, irq: nat)
    requires irq < 16
    ensures var q := Configured(p, mm);
            && Vector(q, irq) == 0x20 + irq
            && (Delivered(q, irq) <==> if irq < 8 then irq != 2 && !Bit(mm, irq) else irq == 8 && !Bit(mm, 2))
  {
    MaskPattern(irq % 8);
  }

  /** The three masks the initialization writes, bit by bit: 0xFE opens
      only input 0, 0xFC inputs 0 and 1, 0xF8 inputs 0 to 2. */
  lemma MaskPattern(i: nat)
    requires i < 8
    ensures Bit(0xFE, i) <==> i >= 1
    ensures Bit(0xFC, i) <==> i >= 2
    ensures Bit(0xF8, i) <==> i >= 3
  {
    Pow2Values();
    if i == 0 {
    } else if i == 1 {
    } else if i == 2 {
    } else if i == 3 {
    } else if i == 4 {
    } else if i == 5 {
    } else if i == 6 {
    } else {
      assert i == 7;
    }
  }

  lemma Pow2Values()
    ensures Pow2(0) == 1 && Pow2(1) == 2 && Pow2(2) == 4 && Pow2(3) == 8
    ensures Pow2(4) == 16 && Pow2(5) == 32 && Pow2(6) == 64 && Pow2(7) == 128
  {
    assert Pow2(1) == 2 * Pow2(0);
    assert Pow2(3) == 2 * Pow2(2);
    assert Pow2(5) == 2 * Pow2(4);
    assert Pow2(7) == 2 * Pow2(6);
  }

  /** `pic_init` as evidently intended: master mask 0xF8 also opens the
      cascade input. */
  function PicInitFixed(): (ws: seq<PortWrite>)
    ensures |ws| == 10
    ensures ws[..8] == PicInit()[..8] && ws[9..] == PicInit()[9..]
    ensures ws[8] == Out(PIC1_DATA, 0xF8)
  {
    PicInitWith(0xF8)
  }

  /** With the cascade open exactly IRQ0, IRQ1 and IRQ8 are delivered, on
      vectors 0x20, 0x21 and 0x28, each of which has a gate. */
  lemma PicInitFixedDelivers(p: Pic, irq: nat)
    requires irq < 16
    ensures var q := Run(p, PicInitFixed());
            && (Delivered(q, irq) <==> irq == 0 || irq == 1 || irq == 8)
            && (Delivered(q, irq) ==> Vector(q, irq) == 0x20 + irq && Vector(q, irq) in INSTALL_ORDER)
  {
    FixedConfigures(p);
    FixedRouting(p, irq);
    InstalledIrqGates();
  }

  lemma FixedConfigures(p: Pic)
    ensures Run(p, PicInitFixed()) == Configured(p, 0xF8)
  {
    PicInitConfigures(p, 0xF8);
  }

  lemma FixedRouting(p: Pic, irq: nat)
    requires irq < 16
    ensures Delivered(Configured(p, 0xF8), irq) <==> irq == 0 || irq == 1 || irq == 8
    ensures Vector(Configured(p, 0xF8), irq) == 0x20 + irq
  {
    ConfiguredRouting(p, 0xF8, irq);
    MaskPattern(irq % 8);
    MaskPattern(2);
  }

  /** The three interrupt lines the kernel handles have gates. */
  lemma InstalledIrqGates()
    ensures 0x20 in INSTALL_ORDER && 0x21 in INSTALL_ORDER && 0x28 in INSTALL_ORDER
  {
    assert INSTALL_ORDER[11] == 0x20 && INSTALL_ORDER[12] == 0x21 && INSTALL_ORDER[13] == 0x28;
  }

  // ---------------------------------------------------------------------
  // Dispatch
  // ---------------------------------------------------------------------

  /** The state of the three interrupt-driven drivers. */
  datatype Drivers = Drivers(timer: Timer.Timer, kbd: Keyboard.Kbd, rtc: Rtc.Driver)

  const BootDrivers: Drivers := Drivers(Timer.Boot, Keyboard.Boot, Rtc.Boot)

  /** What a handler reads from the hardware: the keyboard data byte and
      the CMOS register file. */
  datatype Inputs = Inputs(scancode: uint8, cmos: Rtc.Registers)

  /** A handler's preconditions on the inputs: the RTC is not mid-update
      when IRQ8 reads it (the source spins until it is not). */
  predicate Serviceable(irq: nat, io: Inputs)
  {
    irq == 8 ==> !Rtc.Updating(io.cmos)
  }

  /** End of interrupt: the slave first for lines 8-15, then the master. */
  function EoiWrites(irq: nat): (ws: seq<PortWrite>)
    ensures |ws| == if irq >= 8 then 2 else 1
    ensures ws[|ws| - 1] == Out(PIC1_CMD, EOI)
    ensures irq >= 8 ==> ws[0] == Out(PIC2_CMD, EOI)
  {
    if irq >= 8 then [Out(PIC2_CMD, EOI), Out(PIC1_CMD, EOI)] else [Out(PIC1_CMD, EOI)]
  }

  /** `irq_handler(irq)`: IRQ0 counts a tick, IRQ1 runs the keyboard
      handler, IRQ8 the clock handler; every other line only gets its end
      of interrupt. Returns the drivers and the port writes made. */
  function IrqHandler(d: Drivers, irq: nat, io: Inputs): (r: (Drivers, seq<PortWrite>))
    requires Keyboard.Valid(d.kbd) && Serviceable(irq, io)
    ensures Keyboard.Valid(r.0.kbd)
    ensures irq == 0 ==> r.0.timer == Timer.Ticks(d.timer, 1)
    ensures irq == 1 ==> r.0.kbd == Keyboard.Handle(d.kbd, io.scancode)
    ensures irq == 8 ==> r.0.rtc.current == Rtc.Decode(Rtc.BankOf(io.cmos)) && r.0.rtc.updated
    ensures irq != 0 ==> r.0.timer == d.timer
    ensures irq != 1 ==> r.0.kbd == d.kbd
    ensures irq != 8 ==> r.0.rtc == d.rtc && r.1 == EoiWrites(irq)
    ensures |r.1| >= |EoiWrites(irq)| && r.1[|r.1| - |EoiWrites(irq)|..] == EoiWrites(irq)
  {
    var w := DriverWork(d, irq, io);
    var eoi := EoiWrites(irq);
    assert (w.1 + eoi)[|w.1|..] == eoi;
    assert irq != 8 ==> w.1 + eoi == eoi;
    (w.0, w.1 + eoi)
  }

  /** The `switch` of `irq_handler`. */
  function DriverWork(d: Drivers, irq: nat, io: Inputs): (r: (Drivers, seq<PortWrite>))
    requires Keyboard.Valid(d.kbd) && Serviceable(irq, io)
    ensures Keyboard.Valid(r.0.kbd)
    ensures irq == 0 ==> r.0.timer.ticks == (d.timer.ticks + 1) % UINT32_MODULUS && r.1 == []
    ensures irq != 0 ==> r.0.timer == d.timer
    ensures irq != 1 ==> r.0.kbd == d.kbd
    ensures irq == 8 ==> r.0.rtc.updated && r.0.rtc.current == Rtc.Decode(Rtc.BankOf(io.cmos))
    ensures irq != 8 ==> r.0.rtc == d.rtc && r.1 == []
  {
    if irq == 0 then (d.(timer := Timer.SleepZero(d.timer)), [])
    else if irq == 1 then (d.(kbd := Keyboard.Handle(d.kbd, io.scancode)), [])
    else if irq == 8 then
      var h := Rtc.Handler(d.rtc, io.cmos);
      (d.(rtc := h.0), h.1)
    else (d, [])
  }

  /** The clock handler's CMOS traffic does not disturb the controllers,
      and the end of interrupt reaches the slave exactly for lines 8-15 and
      the master always. */
  lemma HandlerAcknowledges(p: Pic, d: Drivers, irq: nat, io: Inputs)
    requires Keyboard.Valid(d.kbd) && Serviceable(irq, io)
    ensures var q := Run(p, IrqHandler(d, irq, io).1);
            && q.master == p.master.(eois := p.master.eois + 1)
            && q.slave == if irq >= 8 then p.slave.(eois := p.slave.eois + 1) else p.slave
  {
    var ws := IrqHandler(d, irq, io).1;
    var n := |ws| - |EoiWrites(irq)|;
    assert ws == ws[..n] + EoiWrites(irq);
    if irq == 8 {
      var cmos := Rtc.Handler(d.rtc, io.cmos).1;
      assert ws[..n] == cmos;
      CmosPortsOnly(d.rtc, io.cmos);
      RunOtherPorts(p, ws[..n]);
    } else {
      assert ws[..n] == [];
    }
    var e := EoiWrites(irq);
    assert e[0..] == e;
    assert Run(p, ws[..n]) == p;
    if irq >= 8 {
      RunStep(p, e, 0);
      var p1 := PicWrite(p, e[0]);
      RunStep(p1, e, 1);
      assert e[2..] == [];
      assert Run(p, e) == PicWrite(p1, e[1]);
    } else {
      RunStep(p, e, 0);
      assert e[1..] == [];
      assert Run(p, e) == PicWrite(p, e[0]);
    }
    RunAppend(p, ws[..n], EoiWrites(irq));
  }

  /** The clock handler only writes the CMOS index port. */
  lemma CmosPortsOnly(d: Rtc.Driver, regs: Rtc.Registers)
    requires !Rtc.Updating(regs)
    ensures forall i :: 0 <= i < |Rtc.Handler(d, regs).1| ==> Rtc.Handler(d, regs).1[i].port == Rtc.CMOS_ADDR
  {
  }

  // ---------------------------------------------------------------------
  // Exceptions and the machine
  // ---------------------------------------------------------------------

  const EXCEPTION_NAMES: seq<string> :=
    ["Division By Zero", "Debug", "NMI", "Breakpoint",
     "Overflow", "Bound Range Exceeded", "Invalid Opcode",
     "Device Not Available", "Double Fault", "Coprocessor Segment",
     "Invalid TSS", "Segment Not Present", "Stack-Segment Fault",
     "General Protection Fault", "Page Fault"]

  const PANIC_TITLE: string := "=== ArcticOS KERNEL PANIC ==="
  const PANIC_FOOTER: string := "System halted. Restart required."

  /** The text lines of the panic screen `isr_handler(num)` draws: the
      title, "Exception: <num>", the exception's name when it has one, and
      the footer. */
  function PanicLines(num: nat): (lines: seq<string>)
    requires num < 0x8000_0000
    ensures |lines| == if num < |EXCEPTION_NAMES| then 4 else 3
    ensures lines[0] == PANIC_TITLE && lines[|lines| - 1] == PANIC_FOOTER
    ensures num < |EXCEPTION_NAMES| ==> lines[2] == EXCEPTION_NAMES[num]
  {
    var text := Libc.Sprintf("Exception: %d" + [Libc.NUL], [Libc.Word(num)]);
    var line := if text.Some? then Libc.Text(text.value) else [];
    [PANIC_TITLE, line]
    + (if num < |EXCEPTION_NAMES| then [EXCEPTION_NAMES[num]] else [])
    + [PANIC_FOOTER]
  }

  /** The second panic line is the exception number in decimal. */
  lemma PanicNumber(num: nat)
    requires num < 0x8000_0000
    ensures PanicLines(num)[1] == "Exception: " + Libc.Itoa(num, 10)
  {
    Libc.TextOfLiteral("Exception: %d");
    assert "Exception: %d" == "Exception: " + "%d";
    RenderSplit("Exception: ", Libc.Word(num));
  }

  lemma RenderSplit(prefix: string, arg: Libc.Arg)
    requires '%' !in prefix && arg.Word? && arg.w < 0x8000_0000
    ensures Libc.Render(prefix + "%d", [arg]) == Libc.Some(prefix + Libc.Itoa(arg.w, 10))
    decreases |prefix|
  {
    if prefix == [] {
      assert prefix + "%d" == "%d" && "%d"[2..] == [];
      assert Libc.AsInt32(arg.w) == arg.w;
      assert Libc.Decimal(arg.w) == Libc.Some(Libc.Itoa(arg.w, 10));
      assert Libc.Render([], []) == Libc.Some([]);
      assert prefix + Libc.Itoa(arg.w, 10) == Libc.Itoa(arg.w, 10) + [];
    } else {
      var f := prefix + "%d";
      assert f[0] == prefix[0] && f[1..] == prefix[1..] + "%d";
      RenderSplit(prefix[1..], arg);
      assert prefix + Libc.Itoa(arg.w, 10) == [prefix[0]] + (prefix[1..] + Libc.Itoa(arg.w, 10));
    }
  }

  /** The machine: interrupts being serviced, or halted behind the panic
      screen with interrupts disabled. */
  datatype Machine = Running(drivers: Drivers) | Halted(screen: seq<string>)

  const Boot: Machine := Running(BootDrivers)

  /** What enters through a gate: a CPU exception with its number, or a
      hardware interrupt line with the inputs its handler reads. */
  datatype Event = Exception(num: nat) | Irq(irq: nat, io: Inputs)

  predicate Acceptable(e: Event)
  {
    match e
    case Exception(num) => num < 0x8000_0000
    case Irq(irq, io) => Serviceable(irq, io)
  }

  predicate Sane(m: Machine) { m.Running? ==> Keyboard.Valid(m.drivers.kbd) }

  /** One event. A halted machine has interrupts disabled and sits in
      `hlt` forever, so nothing changes it. */
  function Step(m: Machine, e: Event): (r: Machine)
    requires Sane(m) && Acceptable(e)
    ensures Sane(r)
    ensures m.Halted? ==> r == m
    ensures m.Running? && e.Exception? ==> r == Halted(PanicLines(e.num))
    ensures m.Running? && e.Irq? ==> r == Running(IrqHandler(m.drivers, e.irq, e.io).0)
  {
    match m
    case Halted(_) => m
    case Running(d) =>
      match e
      case Exception(num) => Halted(PanicLines(num))
      case Irq(irq, io) => Running(IrqHandler(d, irq, io).0)
  }

  function RunEvents(m: Machine, es: seq<Event>): (r: Machine)
    requires Sane(m) && forall i :: 0 <= i < |es| ==> Acceptable(es[i])
    ensures Sane(r)
    decreases |es|
  {
    if es == [] then m else RunEvents(Step(m, es[0]), es[1..])
  }

  /** Halting is absorbing: no later event changes the panic screen. */
  lemma {:induction false} HaltedAbsorbs(screen: seq<string>, es: seq<Event>)
    requires forall i :: 0 <= i < |es| ==> Acceptable(es[i])
    ensures RunEvents(Halted(screen), es) == Halted(screen)
    decreases |es|
  {
    if es != [] {
      HaltedAbsorbs(screen, es[1..]);
    }
  }

  /** The first exception decides the final state of a running machine. */
  lemma {:induction false} FirstExceptionHalts(m: Machine, es: seq<Event>, k: nat)
    requires Sane(m) && m.Running? && forall i :: 0 <= i < |es| ==> Acceptable(es[i])
    requires k < |es| && es[k].Exception? && forall i :: 0 <= i < k ==> es[i].Irq?
    ensures RunEvents(m, es) == Halted(PanicLines(es[k].num))
    decreases k
  {
    if k == 0 {
      HaltedAbsorbs(PanicLines(es[0].num), es[1..]);
    } else {
      FirstExceptionHalts(Step(m, es[0]), es[1..], k - 1);
    }
  }

  /** `n` timer interrupts; the inputs are whatever the ports hold, which
      the timer handler does not read. */
  function TimerIrqs(n: nat, io: Inputs): (es: seq<Event>)
    ensures |es| == n && forall i :: 0 <= i < n ==> es[i] == Irq(0, io)
  {
    seq(n, _ => Irq(0, io))
  }

  /** N timer interrupts advance the tick counter as `Timer.Ticks` does
      (by N modulo 2^32, by `Timer.TicksAdd`) and leave the keyboard and
      the clock alone. */
  lemma {:induction false} TimerIrqsCount(d: Drivers, n: nat, io: Inputs)
    requires Keyboard.Valid(d.kbd)
    ensures forall i :: 0 <= i < n ==> Acceptable(TimerIrqs(n, io)[i])
    ensures RunEvents(Running(d), TimerIrqs(n, io)) == Running(d.(timer := Timer.Ticks(d.timer, n)))
    decreases n
  {
    if n > 0 {
      var es := TimerIrqs(n, io);
      assert es[1..] == TimerIrqs(n - 1, io);
      var d1 := d.(timer := Timer.Ticks(d.timer, 1));
      TimerIrqStep(d, es[0]);
      TimerIrqsCount(d1, n - 1, io);
      TicksCompose(d.timer, n - 1);
    }
  }

  /** One timer interrupt counts one tick and changes nothing else. */
  lemma TimerIrqStep(d: Drivers, e: Event)
    requires Keyboard.Valid(d.kbd) && e.Irq? && e.irq == 0
    ensures Acceptable(e) && Step(Running(d), e) == Running(d.(timer := Timer.Ticks(d.timer, 1)))
  {
    var r := IrqHandler(d, 0, e.io).0;
    assert r.timer == Timer.Ticks(d.timer, 1) && r.kbd == d.kbd && r.rtc == d.rtc;
  }

  lemma {:induction false} TicksCompose(t: Timer.Timer, n: nat)
    ensures Timer.Ticks(Timer.Ticks(t, 1), n) == Timer.Ticks(t, n + 1)
  {
    if n > 0 {
      TicksCompose(t, n - 1);
    }
  }
}
