/** PS/2 keyboard driver: a 64-slot character ring written by the IRQ1
    handler and read by foreground code, and the scancode set 1 (US layout)
    translator with shift and caps-lock state.

    The ring is kept as the source keeps it, an array plus head (write) and
    tail (read) indices; `Contents` is the FIFO queue it represents. */
module Keyboard {
  import opened Hw

  const BUFFER_SIZE: nat := 64
  /** One slot always stays free so that a full ring differs from an empty one. */
  const CAPACITY: nat := BUFFER_SIZE - 1

  const KBD_DATA_PORT: uint16 := 0x60
  const RELEASE_BIT: uint8 := 0x80
  const SC_ESCAPE: uint8 := 0x01
  const SC_LSHIFT: uint8 := 0x2A
  const SC_RSHIFT: uint8 := 0x36
  const SC_CAPSLOCK: uint8 := 0x3A

  const NUL: char := 0 as char
  const BACKSPACE: char := 8 as char
  const ESC: char := 27 as char

  // ---------------------------------------------------------------------
  // Scancode tables, one function per 128-entry table, defined row by
  // row; positions the initialiser does not list are 0 (no character).
  // ---------------------------------------------------------------------

  /** No character: Escape, the modifiers (Ctrl, both Shifts, Alt, Caps
      Lock), the function and lock keys, and everything past the keypad. */
  function NormalMap(key: nat): (c: char)
    requires key < 128
    ensures c == NUL <==>
              key < 0x02 || key == 0x1D || key == 0x2A || key == 0x36 || key == 0x38
              || 0x3A <= key < 0x47 || key >= 0x54
  {
    if key < 0x02 then NUL                                  // none, Escape
    else if key < 0x0E then "1234567890-="[key - 0x02]
    else if key == 0x0E then BACKSPACE
    else if key == 0x0F then '\t'
    else if key < 0x1C then "qwertyuiop[]"[key - 0x10]
    else if key == 0x1C then '\n'
    else if key == 0x1D then NUL                            // left Ctrl
    else if key < 0x2A then "asdfghjkl;'`"[key - 0x1E]
    else if key == 0x2A then NUL                            // left Shift
    else if key == 0x2B then '\\'
    else if key < 0x36 then "zxcvbnm,./"[key - 0x2C]
    else if key < 0x3B then [NUL, '*', NUL, ' ', NUL][key - 0x36]  // RShift, *, Alt, Space, CapsLock
    else if key < 0x47 then NUL                             // F1-F10, NumLock, ScrollLock
    else if key < 0x54 then "789-456+1230."[key - 0x47]     // numeric keypad
    else NUL
  }

  /** No character: as in the normal map, and everything from Caps Lock
      on, the keypad included. */
  function ShiftMap(key: nat): (c: char)
    requires key < 128
    ensures c == NUL <==>
              key < 0x02 || key == 0x1D || key == 0x2A || key == 0x36 || key == 0x38 || key >= 0x3A
  {
    if key < 0x02 then NUL
    else if key < 0x0E then "!@#$%^&*()_+"[key - 0x02]
    else if key == 0x0E then BACKSPACE
    else if key == 0x0F then '\t'
    else if key < 0x1C then "QWERTYUIOP{}"[key - 0x10]
    else if key == 0x1C then '\n'
    else if key == 0x1D then NUL
    else if key < 0x2A then "ASDFGHJKL:\"~"[key - 0x1E]
    else if key == 0x2A then NUL
    else if key == 0x2B then '|'
    else if key < 0x36 then "ZXCVBNM<>?"[key - 0x2C]
    else if key < 0x3A then [NUL, '*', NUL, ' '][key - 0x36]
    else NUL                                                // keypad has no shifted entries
  }

  predicate IsLower(c: char) { 'a' <= c <= 'z' }
  predicate IsUpper(c: char) { 'A' <= c <= 'Z' }
  predicate IsLetter(c: char) { IsLower(c) || IsUpper(c) }

  function ToUpper(c: char): (u: char)
    requires IsLower(c)
    ensures IsUpper(u)
  {
    (c as int - 32) as char
  }

  /** Caps lock inverts the case of a letter and leaves anything else alone. */
  function ApplyCaps(caps: bool, c: char): (r: char)
    ensures !caps || !IsLetter(c) ==> r == c
    ensures caps && IsLower(c) ==> IsUpper(r) && r as int + 32 == c as int
    ensures caps && IsUpper(c) ==> IsLower(r) && r as int == c as int + 32
  {
    if caps && IsLower(c) then (c as int - 32) as char
    else if caps && IsUpper(c) then (c as int + 32) as char
    else c
  }

  /** The letter keys are exactly those whose unshifted entry is a lower-case
      letter; their shifted entry is its upper case, and no other entry of
      either table is a letter. */
  lemma TableLetters(key: nat)
    requires key < 128
    ensures !IsUpper(NormalMap(key)) && !IsLower(ShiftMap(key))
    ensures IsLower(NormalMap(key)) <==> IsUpper(ShiftMap(key))
    ensures IsLower(NormalMap(key)) ==> ShiftMap(key) == ToUpper(NormalMap(key))
  {
    if key < 0x10 { TableLettersRow(key, 0x00, 0x10); }
    else if key < 0x1E { TableLettersRow(key, 0x10, 0x1E); }
    else if key < 0x2C { TableLettersLowerRow(key, 0x1E, 0x2C); }
    else if key < 0x3A { TableLettersLowerRow(key, 0x2C, 0x3A); }
    else { TableLettersKeypad(key); }
  }

  /** `TableLetters` for the keys lo <= key < hi: one table row, checked
      one position at a time. */
  lemma TableLettersRow(key: nat, lo: nat, hi: nat)
    requires lo <= key < hi <= 128
    requires (lo, hi) in {(0x00, 0x10), (0x10, 0x1E)}
    ensures !IsUpper(NormalMap(key)) && !IsLower(ShiftMap(key))
    ensures IsLower(NormalMap(key)) <==> IsUpper(ShiftMap(key))
    ensures IsLower(NormalMap(key)) ==> ShiftMap(key) == ToUpper(NormalMap(key))
  {
    var i := key - lo;
    if i == 0 {} else if i == 1 {} else if i == 2 {} else if i == 3 {} else if i == 4 {}
    else if i == 5 {} else if i == 6 {} else if i == 7 {} else if i == 8 {} else if i == 9 {}
    else if i == 10 {} else if i == 11 {} else if i == 12 {} else {}
  }

  /** The same for the two lower rows of letters. */
  lemma TableLettersLowerRow(key: nat, lo: nat, hi: nat)
    requires lo <= key < hi <= 128
    requires (lo, hi) in {(0x1E, 0x2C), (0x2C, 0x3A)}
    ensures !IsUpper(NormalMap(key)) && !IsLower(ShiftMap(key))
    ensures IsLower(NormalMap(key)) <==> IsUpper(ShiftMap(key))
    ensures IsLower(NormalMap(key)) ==> ShiftMap(key) == ToUpper(NormalMap(key))
  {
    var i := key - lo;
    if i == 0 {} else if i == 1 {} else if i == 2 {} else if i == 3 {} else if i == 4 {}
    else if i == 5 {} else if i == 6 {} else if i == 7 {} else if i == 8 {} else if i == 9 {}
    else if i == 10 {} else if i == 11 {} else if i == 12 {} else {}
  }

  /** `TableLetters` for the keys from 0x3A on: function keys and the
      keypad, no letters, and nothing in the shifted table. */
  lemma TableLettersKeypad(key: nat)
    requires 0x3A <= key < 128
    ensures !IsLetter(NormalMap(key)) && ShiftMap(key) == NUL
  {
    if key < 0x47 {} else if key == 0x47 {} else if key == 0x48 {} else if key == 0x49 {}
    else if key == 0x4A {} else if key == 0x4B {} else if key == 0x4C {} else if key == 0x4D {}
    else if key == 0x4E {} else if key == 0x4F {} else if key == 0x50 {} else if key == 0x51 {}
    else if key == 0x52 {} else if key == 0x53 {}
  }

  // ---------------------------------------------------------------------
  // Driver state
  // ---------------------------------------------------------------------

  /** The ring buffer, its indices and the two modifier flags. */
  datatype Kbd = Kbd(buffer: seq<char>, head: int, tail: int, shift: bool, caps: bool)

  predicate Valid(k: Kbd)
  {
    |k.buffer| == BUFFER_SIZE && 0 <= k.head < BUFFER_SIZE && 0 <= k.tail < BUFFER_SIZE
  }

  /** Number of characters held: the distance from tail to head around the ring. */
  function Count(k: Kbd): nat
    requires Valid(k)
  {
    if k.head >= k.tail then k.head - k.tail else k.head + BUFFER_SIZE - k.tail
  }

  /** The buffer index `i` places after the tail, around the ring. */
  function Slot(k: Kbd, i: nat): (j: nat)
    requires Valid(k) && i < BUFFER_SIZE
    ensures j < BUFFER_SIZE && j == (k.tail + i) % BUFFER_SIZE
  {
    if k.tail + i < BUFFER_SIZE then k.tail + i else k.tail + i - BUFFER_SIZE
  }

  /** The FIFO queue the ring represents, oldest character first. */
  function Contents(k: Kbd): (q: seq<char>)
    requires Valid(k)
    ensures |q| == Count(k) <= CAPACITY
  {
    seq(Count(k), i requires 0 <= i < Count(k) => k.buffer[Slot(k, i)])
  }

  /** The state at power-on: static storage is zero. */
  const Boot: Kbd := Kbd(seq(BUFFER_SIZE, _ => NUL), 0, 0, false, false)

  /** `keyboard_init`: indices and modifiers reset; buffer storage untouched. */
  function Init(k: Kbd): (r: Kbd)
    requires Valid(k)
    ensures Valid(r) && Contents(r) == []
    ensures !r.shift && !r.caps && r.buffer == k.buffer
  {
    k.(head := 0, tail := 0, shift := false, caps := false)
  }

  /** `keyboard_has_char`. */
  function HasChar(k: Kbd): (b: bool)
    requires Valid(k)
    ensures b <==> Contents(k) != []
  {
    k.head != k.tail
  }

  /** The queue-level meaning of a push: dropped when 63 characters are held. */
  function QueuePush(q: seq<char>, c: char): seq<char>
  {
    if |q| == CAPACITY then q else q + [c]
  }

  /** `buffer_push`. */
  function Push(k: Kbd, c: char): (r: Kbd)
    requires Valid(k)
    ensures Valid(r)
    ensures Contents(r) == QueuePush(Contents(k), c)
    ensures r.tail == k.tail && r.shift == k.shift && r.caps == k.caps
    ensures |Contents(k)| == CAPACITY ==> r == k
  {
    var next := (k.head + 1) % BUFFER_SIZE;
    if next == k.tail then
      k
    else
      var r := k.(buffer := k.buffer[k.head := c], head := next);
      PushContents(k, c, r);
      r
  }

  lemma PushContents(k: Kbd, c: char, r: Kbd)
    requires Valid(k) && (k.head + 1) % BUFFER_SIZE != k.tail
    requires r == k.(buffer := k.buffer[k.head := c], head := (k.head + 1) % BUFFER_SIZE)
    ensures Valid(r) && Count(k) < CAPACITY && Contents(r) == Contents(k) + [c]
  {
    var n := Count(k);
    assert Slot(k, n) == k.head;
    assert Count(r) == n + 1;
    forall i | 0 <= i < n
      ensures Contents(r)[i] == Contents(k)[i]
    {
      assert Slot(r, i) == Slot(k, i) != k.head;
    }
  }

  /** `keyboard_getchar` once its wait loop has seen a character: returns the
      oldest character and advances the tail. */
  function GetChar(k: Kbd): (r: (char, Kbd))
    requires Valid(k) && HasChar(k)
    ensures Valid(r.1)
    ensures r.0 == Contents(k)[0] && Contents(r.1) == Contents(k)[1..]
    ensures r.1.head == k.head && r.1.buffer == k.buffer
    ensures r.1.shift == k.shift && r.1.caps == k.caps
  {
    var r := k.(tail := (k.tail + 1) % BUFFER_SIZE);
    PopContents(k, r);
    (k.buffer[k.tail], r)
  }

  lemma PopContents(k: Kbd, r: Kbd)
    requires Valid(k) && HasChar(k) && r == k.(tail := (k.tail + 1) % BUFFER_SIZE)
    ensures Valid(r) && Contents(k)[0] == k.buffer[k.tail] && Contents(r) == Contents(k)[1..]
  {
    assert Count(r) == Count(k) - 1;
    forall i | 0 <= i < Count(r)
      ensures Contents(r)[i] == Contents(k)[i + 1]
    {
      assert Slot(r, i) == Slot(k, i + 1);
    }
  }

  // ---------------------------------------------------------------------
  // IRQ1 handler
  // ---------------------------------------------------------------------

  /** `keyboard_handler` applied to the scancode it reads from port 0x60. */
  function Handle(k: Kbd, sc: uint8): (r: Kbd)
    requires Valid(k)
    ensures Valid(r)
  {
    var released := sc >= RELEASE_BIT;
    var key := sc % RELEASE_BIT;
    if key == SC_LSHIFT || key == SC_RSHIFT then
      k.(shift := !released)
    else if key == SC_CAPSLOCK && !released then
      k.(caps := !k.caps)
    else if key == SC_ESCAPE && !released then
      Push(k, ESC)
    else if released then
      k
    else
      // With the release bit masked off, `key` is always a valid table index.
      var c := Selected(k.shift, key);
      if c == NUL then k else Push(k, ApplyCaps(k.caps, c))
  }

  /** The shift keys set shift-held to "pressed" and never enqueue. */
  lemma ShiftKeys(k: Kbd, sc: uint8)
    requires Valid(k) && sc % 0x80 in {SC_LSHIFT, SC_RSHIFT}
    ensures Handle(k, sc) == k.(shift := sc < 0x80)
  {
  }

  /** Caps lock toggles on press only; its release changes nothing. */
  lemma CapsLockKey(k: Kbd)
    requires Valid(k)
    ensures Handle(k, SC_CAPSLOCK) == k.(caps := !k.caps)
    ensures Handle(k, SC_CAPSLOCK + 0x80) == k
  {
  }

  /** Escape enqueues ESC whatever the modifiers. */
  lemma EscapeKey(k: Kbd)
    requires Valid(k)
    ensures Contents(Handle(k, SC_ESCAPE)) == QueuePush(Contents(k), ESC)
    ensures Handle(k, SC_ESCAPE).shift == k.shift && Handle(k, SC_ESCAPE).caps == k.caps
  {
  }

  /** A release other than a shift key, and a key whose selected table entry
      is 0, leave queue and modifiers as they were. */
  lemma IgnoredCodes(k: Kbd, sc: uint8)
    requires Valid(k) && sc % 0x80 != SC_LSHIFT && sc % 0x80 != SC_RSHIFT
    requires sc >= 0x80 || (sc != SC_CAPSLOCK && sc != SC_ESCAPE
                            && Selected(k.shift, sc) == NUL)
    ensures Handle(k, sc) == k
  {
    if sc >= 0x80 {
      IgnoredRelease(k, sc);
    } else {
      HandlePress(k, sc);
    }
  }

  lemma IgnoredRelease(k: Kbd, sc: uint8)
    requires Valid(k) && sc >= 0x80 && sc % 0x80 != SC_LSHIFT && sc % 0x80 != SC_RSHIFT
    ensures Handle(k, sc) == k
  {
  }

  /** The character a key press selects: from the shifted table while shift
      is held, from the plain table otherwise. */
  function Selected(shift: bool, key: nat): char
    requires key < 128
  {
    if shift then ShiftMap(key) else NormalMap(key)
  }

  /** A press of any key other than shift, caps lock and escape pushes its
      selected character, after caps lock, unless that character is 0. */
  lemma HandlePress(k: Kbd, sc: uint8)
    requires Valid(k) && sc < 0x80
    requires sc !in {SC_LSHIFT, SC_RSHIFT, SC_CAPSLOCK, SC_ESCAPE}
    ensures Handle(k, sc)
         == if Selected(k.shift, sc) == NUL then k else Push(k, ApplyCaps(k.caps, Selected(k.shift, sc)))
  {
    assert sc % RELEASE_BIT == sc;
    assert sc != SC_LSHIFT && sc != SC_RSHIFT && sc != SC_CAPSLOCK && sc != SC_ESCAPE;
  }

  /** For a letter key the enqueued letter is upper case exactly when one of
      shift and caps lock is active. */
  lemma LetterCase(k: Kbd, sc: uint8)
    requires Valid(k) && sc < 0x80 && IsLower(NormalMap(sc))
    ensures Contents(Handle(k, sc))
         == QueuePush(Contents(k), if k.shift != k.caps then ToUpper(NormalMap(sc)) else NormalMap(sc))
    ensures Handle(k, sc).shift == k.shift && Handle(k, sc).caps == k.caps
  {
    TableLetters(sc);
    assert sc !in {SC_LSHIFT, SC_RSHIFT, SC_CAPSLOCK, SC_ESCAPE} by {
      assert NormalMap(SC_LSHIFT) == NUL && NormalMap(SC_RSHIFT) == NUL;
      assert NormalMap(SC_CAPSLOCK) == NUL && NormalMap(SC_ESCAPE) == NUL;
    }
    HandlePress(k, sc);
    var c := Selected(k.shift, sc);
    assert c != NUL;
    assert ApplyCaps(k.caps, c) == if k.shift != k.caps then ToUpper(NormalMap(sc)) else NormalMap(sc);
  }

  /** Changing caps lock commutes with a push. */
  lemma PushIgnoresCaps(k: Kbd, c: char, caps: bool)
    requires Valid(k)
    ensures Push(k.(caps := caps), c) == Push(k, c).(caps := caps)
  {
  }

  /** Caps lock has no effect on a key whose selected entry is not a letter. */
  lemma CapsIgnoresNonLetters(k: Kbd, sc: uint8)
    requires Valid(k) && sc != SC_CAPSLOCK
    requires sc < 0x80 ==> !IsLetter(Selected(k.shift, sc))
    ensures Handle(k.(caps := !k.caps), sc) == Handle(k, sc).(caps := !k.caps)
  {
    var k2 := k.(caps := !k.caps);
    var key := sc % 0x80;
    if key == SC_LSHIFT || key == SC_RSHIFT {
    } else if sc == SC_ESCAPE {
      PushIgnoresCaps(k, ESC, !k.caps);
    } else if sc >= 0x80 {
    } else {
      HandlePress(k, sc);
      HandlePress(k2, sc);
      var c := Selected(k.shift, sc);
      assert ApplyCaps(k2.caps, c) == c == ApplyCaps(k.caps, c);
      PushIgnoresCaps(k, c, !k.caps);
    }
  }

  // ---------------------------------------------------------------------
  // FIFO behaviour of interleaved pushes (interrupt side) and reads
  // ---------------------------------------------------------------------

  /** An interrupt-side push or a foreground read. A read on an empty queue
      is still waiting in `keyboard_getchar`, so it takes no step. */
  datatype QueueOp = Produce(c: char) | Consume

  /** The ring after a sequence of operations, and the characters read. */
  function Run(k: Kbd, ops: seq<QueueOp>): (r: (Kbd, seq<char>))
    requires Valid(k)
    ensures Valid(r.0)
    decreases |ops|
  {
    if ops == [] then (k, [])
    else match ops[0]
      case Produce(c) => Run(Push(k, c), ops[1..])
      case Consume =>
        if HasChar(k) then
          var rest := Run(GetChar(k).1, ops[1..]);
          (rest.0, [GetChar(k).0] + rest.1)
        else
          Run(k, ops[1..])
  }

  /** Reference behaviour: a bounded FIFO of at most 63 characters. Returns
      the final queue, the characters read and the characters accepted. */
  function QueueRun(q: seq<char>, ops: seq<QueueOp>): (r: (seq<char>, seq<char>, seq<char>))
    decreases |ops|
  {
    if ops == [] then (q, [], [])
    else match ops[0]
      case Produce(c) =>
        var rest := QueueRun(QueuePush(q, c), ops[1..]);
        (rest.0, rest.1, if |q| == CAPACITY then rest.2 else [c] + rest.2)
      case Consume =>
        if q == [] then QueueRun(q, ops[1..])
        else
          var rest := QueueRun(q[1..], ops[1..]);
          (rest.0, [q[0]] + rest.1, rest.2)
  }

  /** The ring implements the bounded FIFO. */
  lemma {:induction false} RunRefinesQueue(k: Kbd, ops: seq<QueueOp>)
    requires Valid(k)
    ensures Contents(Run(k, ops).0) == QueueRun(Contents(k), ops).0
    ensures Run(k, ops).1 == QueueRun(Contents(k), ops).1
    decreases |ops|
  {
    if ops != [] {
      match ops[0]
      case Produce(c) =>
        RunRefinesQueue(Push(k, c), ops[1..]);
      case Consume =>
        if HasChar(k) {
          RunRefinesQueue(GetChar(k).1, ops[1..]);
        } else {
          RunRefinesQueue(k, ops[1..]);
        }
    }
  }

  /** Characters come out in the order they were accepted, nothing is lost
      except on a full queue, and the queue never exceeds its capacity. */
  lemma {:induction false} QueueIsFifo(q: seq<char>, ops: seq<QueueOp>)
    requires |q| <= CAPACITY
    ensures QueueRun(q, ops).1 + QueueRun(q, ops).0 == q + QueueRun(q, ops).2
    ensures |QueueRun(q, ops).0| <= CAPACITY
    decreases |ops|
  {
    if ops != [] {
      match ops[0]
      case Produce(c) =>
        QueueIsFifo(QueuePush(q, c), ops[1..]);
      case Consume =>
        if q == [] {
          QueueIsFifo(q, ops[1..]);
        } else {
          QueueIsFifo(q[1..], ops[1..]);
          var rest := QueueRun(q[1..], ops[1..]);
          calc {
            ([q[0]] + rest.1) + rest.0;
            [q[0]] + (rest.1 + rest.0);
            [q[0]] + (q[1..] + rest.2);
            ([q[0]] + q[1..]) + rest.2;
            { assert [q[0]] + q[1..] == q; }
            q + rest.2;
          }
        }
    }
  }

  /** Pushes with no reads in between.  */
  function PushAll(k: Kbd, cs: seq<char>): (r: Kbd)
    requires Valid(k)
    ensures Valid(r)
    decreases |cs|
  {
    if cs == [] then k else PushAll(Push(k, cs[0]), cs[1..])
  }

  /** Pushing any number of characters with no reads keeps exactly the ones
      that fit, in push order: 100 pushes into an empty queue keep the
      first 63. */
  lemma {:induction false} PushAllKeepsPrefix(k: Kbd, cs: seq<char>)
    requires Valid(k)
    ensures var room := CAPACITY - |Contents(k)|;
            Contents(PushAll(k, cs)) == Contents(k) + cs[..if |cs| < room then |cs| else room]
    decreases |cs|
  {
    if cs != [] {
      PushAllKeepsPrefix(Push(k, cs[0]), cs[1..]);
      if |Contents(k)| == CAPACITY {
        assert cs[..0] == [];
      } else {
        var room := CAPACITY - |Contents(k)|;
        var m := if |cs| < room then |cs| else room;
        assert cs[..m] == [cs[0]] + cs[1..][..m - 1];
      }
    }
  }
}
