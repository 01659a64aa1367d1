/** The 8253/8254 programmable interval timer on channel 0: reload-value
    programming, the 32-bit tick counter advanced by IRQ0, and the blocking
    sleep.

    The `hlt` wait in the sleep loop is modelled as "the next timer
    interrupt happens": each loop iteration performs one `Tick`. Other
    interrupts wake the loop too, but they do not change the counter, so
    they only add iterations that re-test the same condition. */
module Timer {
  import opened Hw

  const PIT_CHANNEL0: uint16 := 0x40
  const PIT_COMMAND: uint16 := 0x43
  const PIT_BASE_FREQ: nat := 1193180
  /** Channel 0, low byte then high byte, mode 3 (square wave), binary. */
  const PIT_MODE: uint8 := 0x36

  /** The driver's two globals: the counter and the ms-to-ticks factor. */
  datatype Timer = Timer(ticks: uint32, ticksPerMs: uint32)

  /** Both globals start at zero. */
  const Boot: Timer := Timer(0, 0)

  function Divisor(freq: uint32): uint32
    requires freq > 0
  {
    PIT_BASE_FREQ / freq
  }

  /** `timer_init(freq)`: program the reload value low byte first, then set
      ticks-per-ms to `freq / 1000`, raised to 1 when that is 0. The counter
      is left alone. A zero frequency divides by zero in the source. */
  function Init(t: Timer, freq: uint32): (r: (Timer, seq<PortWrite>))
    requires freq > 0
    ensures r.0.ticks == t.ticks
    ensures r.0.ticksPerMs >= 1
    ensures freq >= 1000 ==> r.0.ticksPerMs * 1000 <= freq < (r.0.ticksPerMs + 1) * 1000
    ensures freq < 1000 ==> r.0.ticksPerMs == 1
    ensures |r.1| == 3 && r.1[0] == Out(PIT_COMMAND, PIT_MODE)
    ensures r.1[1].port == PIT_CHANNEL0 && r.1[2].port == PIT_CHANNEL0
    ensures Reload(r.1[1].value, r.1[2].value) == Divisor(freq) % 0x1_0000
  {
    var divisor := Divisor(freq);
    var tpm := freq / 1000;
    ByteSplit(divisor);
    (Timer(t.ticks, if tpm == 0 then 1 else tpm),
     [Out(PIT_COMMAND, PIT_MODE), Out(PIT_CHANNEL0, divisor % 0x100),
      Out(PIT_CHANNEL0, (divisor / 0x100) % 0x100)])
  }

  /** `d & 0xFF` and `(d >> 8) & 0xFF` are the two low bytes of `d`. */
  lemma ByteSplit(d: nat)
    ensures d % 0x100 + 0x100 * ((d / 0x100) % 0x100) == d % 0x1_0000
  {
    var q := d / 0x1_0000;
    var r := d % 0x1_0000;
    assert d == q * 0x1_0000 + r;
    assert d / 0x100 == q * 0x100 + r / 0x100;
    assert d % 0x100 == r % 0x100;
  }

  /** The 16-bit reload value the PIT latches from a low and a high byte. */
  function Reload(lo: uint8, hi: uint8): (v: uint16)
    ensures v % 0x100 == lo && v / 0x100 == hi
  {
    lo + 0x100 * hi
  }

  /** The PIT receives the exact divisor precisely for frequencies of 19 Hz
      and above; below that the high byte is truncated. */
  lemma DivisorFits(freq: uint32)
    requires freq > 0
    ensures Divisor(freq) < 0x1_0000 <==> freq >= 19
  {
    if freq >= 19 {
      assert Divisor(freq) <= Divisor(19) by { DivMonotone(PIT_BASE_FREQ, 19, freq); }
    } else {
      assert Divisor(freq) >= Divisor(18) by { DivMonotone(PIT_BASE_FREQ, freq, 18); }
    }
  }

  lemma DivMonotone(n: nat, a: nat, b: nat)
    requires 0 < a <= b
    ensures n / b <= n / a
  {
    var qa, qb := n / a, n / b;
    assert n == qa * a + n % a && n % a < a;
    assert n == qb * b + n % b;
    if qb > qa {
      MulMonotone(qa + 1, qb, a);
      MulMonotone(a, b, qb);
      assert false;
    }
  }

  lemma MulMonotone(x: nat, y: nat, z: nat)
    requires x <= y
    ensures x * z <= y * z
  {
  }

  /** What the kernel's `timer_init(100)` programs: reload 11931 (0x2E9B),
      one tick counted per millisecond although a tick lasts 10 ms. */
  lemma InitAt100Hz(t: Timer)
    ensures Init(t, 100).1 == [Out(0x43, 0x36), Out(0x40, 0x9B), Out(0x40, 0x2E)]
    ensures Init(t, 100).0.ticksPerMs == 1
  {
  }

  /** `pit_tick` / `timer_tick_internal` / `timer_sleep(0)`: the counter
      goes up by one, wrapping at 2^32. */
  function Tick(t: Timer): (r: Timer)
    ensures r.ticksPerMs == t.ticksPerMs
    ensures r.ticks == (t.ticks + 1) % UINT32_MODULUS
    ensures t.ticks < UINT32_MODULUS - 1 ==> r.ticks == t.ticks + 1
  {
    t.(ticks := Wrap32(t.ticks + 1))
  }

  /** `timer_get_ticks`: the counter, with nothing changed. */
  function GetTicks(t: Timer): (n: uint32)
    ensures n == t.ticks
  {
    t.ticks
  }

  /** `n` timer interrupts in a row. */
  function Ticks(t: Timer, n: nat): (r: Timer)
    ensures r.ticksPerMs == t.ticksPerMs
  {
    if n == 0 then t else Tick(Ticks(t, n - 1))
  }

  /** After N timer interrupts the counter reads N more, modulo 2^32. */
  lemma {:induction false} TicksAdd(t: Timer, n: nat)
    ensures GetTicks(Ticks(t, n)) == (GetTicks(t) + n) % UINT32_MODULUS
  {
    if n > 0 {
      TicksAdd(t, n - 1);
      ModAddOne(t.ticks + n - 1);
    }
  }

  lemma ModAddOne(x: nat)
    ensures (x % UINT32_MODULUS + 1) % UINT32_MODULUS == (x + 1) % UINT32_MODULUS
  {
  }

  /** `timer_sleep` with a zero argument is exactly one tick. */
  function SleepZero(t: Timer): (r: Timer)
    ensures r == Ticks(t, 1)
  {
    t.(ticks := Wrap32(t.ticks + 1))
  }

  /** The wake-up value `ticks + ms * ticks_per_ms`, computed in 32 bits. */
  function SleepTarget(t: Timer, ms: uint32): (target: uint32)
    ensures target == (t.ticks + ms * t.ticksPerMs) % UINT32_MODULUS
  {
    var delay := ms * t.ticksPerMs;
    ModAddMod(t.ticks, delay);
    Wrap32(t.ticks + Wrap32(delay))
  }

  lemma ModAddMod(a: nat, p: nat)
    ensures (a + p % UINT32_MODULUS) % UINT32_MODULUS == (a + p) % UINT32_MODULUS
  {
    var q := p / UINT32_MODULUS;
    assert p == q * UINT32_MODULUS + p % UINT32_MODULUS;
    ModShift(a + p % UINT32_MODULUS, q);
  }

  lemma ModShift(x: nat, q: nat)
    ensures (x + q * UINT32_MODULUS) % UINT32_MODULUS == x % UINT32_MODULUS
  {
    if q > 0 {
      ModShift(x, q - 1);
      assert x + q * UINT32_MODULUS == (x + (q - 1) * UINT32_MODULUS) + UINT32_MODULUS;
    }
  }

  /** `timer_sleep(ms)` for `ms > 0`, as written: wait while the counter is
      below the 32-bit target. Returns the number of timer interrupts waited
      and the timer afterwards; the loop itself never writes the counter. */
  method Sleep(t: Timer, ms: uint32) returns (waited: nat, r: Timer)
    requires ms > 0
    ensures r.ticksPerMs == t.ticksPerMs
    ensures r == Ticks(t, waited)
    ensures var target := SleepTarget(t, ms);
            waited == (if t.ticks >= target then 0 else target - t.ticks)
    ensures r.ticks >= SleepTarget(t, ms)
  {
    var target := SleepTarget(t, ms);
    waited := 0;
    r := t;
    while r.ticks < target
      invariant r == Ticks(t, waited)
      invariant r.ticks == t.ticks + waited
      invariant t.ticks < target ==> r.ticks <= target
      invariant t.ticks >= target ==> waited == 0
      decreases target - r.ticks
    {
      r := Tick(r);
      waited := waited + 1;
    }
  }

  /** Near the top of the counter range the 32-bit target wraps below the
      current count and the sleep returns at once. */
  lemma SleepWrapExample()
    ensures SleepTarget(Timer(0xFFFF_FFF0, 1), 100) == 0x54
    ensures Timer(0xFFFF_FFF0, 1).ticks >= SleepTarget(Timer(0xFFFF_FFF0, 1), 100)
  {
  }

  /** The sleep as evidently intended: wait until `ms * ticks_per_ms` ticks
      have elapsed since the call, measuring elapsed time modulo 2^32 so the
      counter's wrap does not matter. */
  method SleepFixed(t: Timer, ms: uint32) returns (waited: nat, r: Timer)
    requires ms > 0
    ensures r.ticksPerMs == t.ticksPerMs
    ensures r == Ticks(t, waited)
    ensures waited == Wrap32(ms * t.ticksPerMs)
    ensures Wrap32(r.ticks - t.ticks) == waited
  {
    var delay := Wrap32(ms * t.ticksPerMs);
    waited := 0;
    r := t;
    while Wrap32(r.ticks - t.ticks) < delay
      invariant r == Ticks(t, waited)
      invariant waited <= delay
      invariant Wrap32(r.ticks - t.ticks) == waited
      decreases delay - waited
    {
      TicksAdd(t, waited + 1);
      r := Tick(r);
      waited := waited + 1;
      ElapsedAfterTick(t.ticks, waited);
    }
  }

  /** Elapsed ticks since `start` after `n` more, when `n` fits in 32 bits. */
  lemma ElapsedAfterTick(start: uint32, n: nat)
    requires n < UINT32_MODULUS
    ensures Wrap32((start + n) % UINT32_MODULUS - start) == n
  {
  }

  /** At 100 Hz, `timer_sleep(ms)` waits `ms` ticks of 10 ms each, so a
      sleep that does not wrap lasts ten times the requested time. */
  lemma SleepAt100Hz(t: Timer, ms: uint32)
    requires ms > 0 && t.ticksPerMs == Init(t, 100).0.ticksPerMs
    requires t.ticks + ms < UINT32_MODULUS
    ensures SleepTarget(t, ms) == t.ticks + ms
  {
  }
}
