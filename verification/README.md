# ArcticOS kernel core in Dafny

ArcticOS is a small 32-bit x86 hobby kernel. This project models its core:
- **Drivers:** the PS/2 keyboard (scancode set 1 into a 64-slot ring buffer), the CMOS real-time clock, and the PIT timer.
- **CPU tables:** the global descriptor table and the interrupt descriptor table. This includes the 8259 PIC set-up and interrupt dispatch.
- **The kernel's libc:** C strings, integer conversions and a small `ksprintf`.
- **Three applications:** the text editor, the shell terminal and the analogue clock.

Each C file is one Dafny module:
- `Hw` holds machine integers and the port-write trace.
- `Keyboard`, `Rtc`, `Timer`, `Gdt`, `Idt`, `Libc`, `Editor`, `Terminal` and `Clock` follow the source files.

The model replaces the hardware with data:
- **Port output.** An operation that writes ports returns the list of `outb` writes it performs, in order.
- **Port input.** What an operation reads from a port becomes a parameter: the scancode, or the CMOS register bank.
- **Busy-waits.** A loop that waits for the hardware becomes a precondition saying the wait is already over.
- **Global state.** A driver's globals become a datatype that each operation takes and returns.
- **The framebuffer.** Drawing is left out. The terminal keeps its cell grid and the editor keeps its lines; the screen is drawn from those.
- **Integers.** C integer widths are subset types of `int`, and 32-bit wrap-around is written out where the code relies on it.
- **Characters.** A C `char` is a Dafny `char` whose code stands for the byte, so only codes below 256 occur; the `(u8)` casts of `kstrcmp` and `kmemset` read that code.

Each operation is paired with something independent to check it against:
- the keyboard ring buffer against an abstract FIFO queue;
- RTC decoding against an encoder of valid times;
- `kitoa` against `katoi`;
- `kstrcmp` against lexicographic order;
- the PIC writes against a model of the two controllers' registers;
- editor edits against the joined text they must preserve;
- the sine table against the properties of a quarter wave.

## Model

| member | source | states |
|---|---|---|
| Hw.Wrap32 | drivers/timer.c:39 | a C `u32` result: the unique value below 2^32 congruent to the mathematical one |
| Hw.OrTopBit | drivers/rtc.c:22 | OR with 0x80 sets bit 7 and keeps the low seven bits; the top bit is set iff it was set or requested |
| Hw.OrBit4 | drivers/rtc.c:39 | OR with 0x10 sets bit 4 and leaves every other bit of the status byte as it was |
| Gdt.Set | kernel/gdt.c:20-27 | the granularity byte keeps the limit's bits 16-19 in its low nibble and `gran`'s high nibble in its high nibble, so the OR loses neither; the access byte is stored as given |
| Gdt.SetReadsBack | kernel/gdt.c:20-27 | reading a descriptor back gives the base, the low 20 bits of the limit, the high nibble of the granularity byte as flags, and the access byte |
| Gdt.FlatCovers | kernel/gdt.c:34-37 | a flat segment has base 0, 4 KiB granularity, and its last addressable byte is 0xFFFFFFFF |
| Gdt.Init | kernel/gdt.c:29-38 | the table is the null descriptor followed by flat segments with access 0x9A, 0x92, 0xFA, 0xF2 and granularity 0xCF; the pointer's limit is 5*8-1 |
| Gdt.InstalledFlat | kernel/gdt.c:34-37 | every non-null installed descriptor spans all 4 GiB from 0 |
| Gdt.SegmentRoles | kernel/gdt.c:33-37 | descriptors 1-4 are present, non-system, readable or writable, non-conforming, 32-bit, page-granular and not long; odd ones execute; 1-2 are ring 0 and 3-4 ring 3 |
| Gdt.KernelCodeSelector | kernel/gdt.c:34 | selector 0x08 names a present ring-0 code segment |
| Timer.Init | drivers/timer.c:15-22 | writes mode 0x36, then the divisor's low and high bytes to channel 0; `ticks_per_ms` is the whole number of ticks per ms, at least 1 |
| Timer.Reload | drivers/timer.c:18-19 | the two data bytes reassemble into the 16-bit reload value |
| Timer.DivisorFits | drivers/timer.c:16-19 | the divisor fits the 16-bit counter exactly when the frequency is at least 19 Hz |
| Timer.InitAt100Hz | drivers/timer.c:15-22 | at 100 Hz the writes are 0x36, 0x9B, 0x2E and `ticks_per_ms` is 1 |
| Timer.Tick | drivers/timer.c:11-13 | the counter advances by one modulo 2^32; the factor is unchanged |
| Timer.GetTicks | drivers/timer.c:24-26 | the counter as it stands, with nothing changed |
| Timer.TicksAdd | drivers/timer.c:11-13 | n ticks advance the counter by n modulo 2^32 |
| Timer.SleepZero | drivers/timer.c:34-37 | `timer_sleep(0)` is exactly one tick |
| Timer.Sleep | drivers/timer.c:33-43 | the wait lasts until the counter reaches the 32-bit target, and lasts zero ticks when the count already is at or past it |
| Timer.SleepWrapExample | drivers/timer.c:39-42 | a 100-tick sleep at count 0xFFFFFFF0 gets target 0x54, so it returns at once |
| Timer.SleepFixed | drivers/timer.c:39-42 | the corrected sleep waits exactly `ms * ticks_per_ms` ticks (mod 2^32) whatever the starting count |
| Timer.SleepAt100Hz | drivers/timer.c:20 | after `timer_init(100)` a sleep of ms milliseconds waits ms ticks of 10 ms |
| Keyboard.ApplyCaps | drivers/keyboard.c:113-114 | Caps Lock swaps the case of letters and leaves every other character alone |
| Keyboard.NormalMap | drivers/keyboard.c:34-57 | exactly Escape, Ctrl, both Shifts, Alt, Caps Lock, the function and lock keys and the codes past the keypad give no character |
| Keyboard.ShiftMap | drivers/keyboard.c:59-77 | exactly the same keys give no character, and so does every key from Caps Lock on, the keypad included |
| Keyboard.TableLetters | drivers/keyboard.c:34-77 | the normal map has no capitals and the shifted map no lower-case letters; a key gives a lower-case letter exactly when its shifted entry is that letter's capital |
| Keyboard.Init | drivers/keyboard.c:122-129 | the ring is empty, both modifiers are off, and the storage is untouched |
| Keyboard.HasChar | drivers/keyboard.c:134-136 | true exactly when the queue is non-empty |
| Keyboard.Push | drivers/keyboard.c:23-29 | the queue gains `c` at its end unless 63 characters are already held; then nothing changes |
| Keyboard.GetChar | drivers/keyboard.c:138-144 | returns the oldest character and removes exactly it from the queue |
| Keyboard.Handle | drivers/keyboard.c:88-117 | the ring stays well-formed for every scancode; the per-case lemmas below state the effect |
| Keyboard.ShiftKeys | drivers/keyboard.c:94-97 | either shift key sets the shift state to whether it was pressed, and changes nothing else |
| Keyboard.CapsLockKey | drivers/keyboard.c:98-101 | pressing Caps Lock toggles it; releasing it does nothing |
| Keyboard.EscapeKey | drivers/keyboard.c:102-105 | pressing Esc queues character 27 |
| Keyboard.IgnoredCodes | drivers/keyboard.c:107-111 | releases and keys whose map entry is 0 leave the driver unchanged |
| Keyboard.IgnoredRelease | drivers/keyboard.c:107 | a release other than a shift key changes nothing |
| Keyboard.HandlePress | drivers/keyboard.c:107-116 | any other press queues the mapped character after Caps Lock, or nothing when the entry is 0 |
| Keyboard.LetterCase | drivers/keyboard.c:110-116 | a letter key queues the capital exactly when one of Shift and Caps Lock is active |
| Keyboard.PushIgnoresCaps | drivers/keyboard.c:23-29 | the buffer does not depend on the Caps Lock state |
| Keyboard.CapsIgnoresNonLetters | drivers/keyboard.c:113-114 | for non-letter keys Caps Lock makes no difference |
| Keyboard.RunRefinesQueue | drivers/keyboard.c:23-29 | any interleaving of pushes and reads acts on the ring exactly as on a bounded FIFO queue |
| Keyboard.QueueIsFifo | drivers/keyboard.c:138-143 | what was read followed by what remains equals what was there followed by what was accepted |
| Keyboard.PushAllKeepsPrefix | drivers/keyboard.c:23-29 | when keys arrive faster than they are read, the oldest ones are kept and the rest dropped |
| Rtc.BcdToBin | drivers/rtc.c:31-33 | a BCD byte with two valid digits decodes below 100; any byte decodes to at most 165 |
| Rtc.BcdRoundTrip | drivers/rtc.c:31-33 | decoding inverts BCD encoding for 0-99, and encoding inverts decoding for valid BCD bytes |
| Rtc.BcdExamples | drivers/rtc.c:31-33 | 0x59, 0x23 and 0x00 decode to 59, 23 and 0 |
| Rtc.DecodeHour | drivers/rtc.c:62-73 | in 12-hour mode a PM reading lands in 0-23 |
| Rtc.DecodeHourPlain | drivers/rtc.c:62-73 | without the PM bit the hour decodes like any field; in 24-hour mode a set top bit is kept |
| Rtc.ResolveYear | drivers/rtc.c:76-80 | with a century register the year is century*100 + year; without it a two-digit year lands in 1970-2069 |
| Rtc.YearExamples | drivers/rtc.c:76-80 | 85 gives 1985, 30 gives 2030, and 24 with century 20 gives 2024 |
| Rtc.NormalizeWeekday | drivers/rtc.c:82 | a weekday of 0 becomes 7 (Sunday); any other value is kept |
| Rtc.Decode | drivers/rtc.c:58-82 | the weekday is never 0, and without a century the year lands in 1970-2069 |
| Rtc.FieldRoundTrip | drivers/rtc.c:59-66 | every value 0-99 encoded in BCD or binary decodes back |
| Rtc.YearRoundTrip | drivers/rtc.c:75-80 | every year the chip can hold, with or without a century register, decodes back |
| Rtc.DecodeRoundTripExceptHour | drivers/rtc.c:58-82 | second, minute, day, month, year and weekday of any valid time decode back in every mode |
| Rtc.DecodeRoundTrip24 | drivers/rtc.c:58-82 | in 24-hour mode any valid time decodes back exactly |
| Rtc.DecodeHourBinary12 | drivers/rtc.c:71-73 | in binary 12-hour mode an hour decodes back exactly when it is not 0 or 12; midnight reads 12 and noon reads 0 |
| Rtc.Binary12Hour | drivers/rtc.c:71-73 | binary 12-hour decoding gives the clock-face hour, plus 12 modulo 24 for PM |
| Rtc.DecodeHourBcd12Pm | drivers/rtc.c:62 | in BCD 12-hour mode every PM hour decodes wrong, as the clock-face hour plus 20 modulo 24 |
| Rtc.BcdPm | drivers/rtc.c:62 | a BCD PM byte for clock-face hour h12 reads as (h12 + 20) mod 24 |
| Rtc.BcdOnePmExample | drivers/rtc.c:62 | 1 PM in BCD 12-hour mode (0x81) reads as 21 |
| Rtc.DecodeHourFixed | drivers/rtc.c:62-73 | the corrected hour agrees with the original in 24-hour mode and is below 24 in 12-hour mode |
| Rtc.DecodeFixed | drivers/rtc.c:58-82 | the corrected decoder never yields weekday 0 |
| Rtc.HourFixedRoundTrip | drivers/rtc.c:62-73 | with the PM bit masked first, every hour decodes back in all four BCD/binary and 12/24-hour formats |
| Rtc.DecodeFixedRoundTrip | drivers/rtc.c:58-82 | the corrected decoder returns every valid time exactly, in every format |
| Rtc.ModeIndependent | drivers/rtc.c:59-68 | the corrected reading of a time does not depend on the BCD/binary setting |
| Rtc.CmosRead | drivers/rtc.c:21-24 | selects the register with bit 7 set (NMI off) and returns its contents |
| Rtc.Read | drivers/rtc.c:44-84 | polls status A once, then selects the nine registers in source order with NMI off, and returns their decoded time |
| Rtc.Handler | drivers/rtc.c:86-91 | acknowledges through status C, then performs a full read and records it as fresh |
| Rtc.Init | drivers/rtc.c:35-42 | sets only bit 4 of status B, through three writes, then reads the time |
| Rtc.InterruptBitKeepsFormat | drivers/rtc.c:39 | enabling the update interrupt changes neither the BCD nor the 24-hour setting |
| Rtc.WeekdayName | drivers/rtc.c:93-97 | 1-7 name Mon-Sun in order; anything else gives "???" |
| Rtc.MonthName | drivers/rtc.c:99-104 | 1-12 name Jan-Dec in order; anything else gives "???" |
| Rtc.NamesDistinct | drivers/rtc.c:93-104 | different valid days, and different valid months, get different names |
| Rtc.DecodedWeekdayHasName | drivers/rtc.c:82 | a decoded weekday of at most 7 always has a real name |
| Idt.SetGate | kernel/idt.c:30-36 | the two offset halves reassemble to the handler address; the selector and flags are stored and the reserved byte is 0 |
| Idt.Init | kernel/idt.c:38-63 | the 256 gates are empty except 0-8, 13, 14, 0x20, 0x21 and 0x28, each pointing at its stub through selector 0x08 with flags 0x8E |
| Idt.InstalledGate | kernel/idt.c:45-60 | every installed gate is a present ring-0 32-bit interrupt gate into the kernel code segment |
| Idt.PicInit | kernel/idt.c:71-87 | ten writes, ending with master mask 0xFC and slave mask 0xFE |
| Idt.PicInitConfigures | kernel/idt.c:71-87 | the ICW sequence leaves both controllers ready, with bases 0x20/0x28, cascade 4/2, 8086 mode, and the given masks |
| Idt.ChipInit | kernel/idt.c:73-86 | ICW1-ICW4 and a mask program one controller's registers, whatever its state before |
| Idt.PicInitBlocksCascade | kernel/idt.c:84-86 | with mask 0xFC the cascade line stays masked, so only IRQ0 and IRQ1 reach the CPU and IRQ8 never does |
| Idt.ConfiguredRouting | kernel/idt.c:75-86 | IRQ n arrives at vector 0x20+n; a slave IRQ is delivered only when its own bit and the master's bit 2 are both clear |
| Idt.MaskPattern | kernel/idt.c:85-86 | 0xFE masks every line but 0, 0xFC every line but 0-1, 0xF8 every line but 0-2 |
| Idt.PicInitFixed | kernel/idt.c:85 | the corrected sequence differs from the original only in master mask 0xF8 |
| Idt.PicInitFixedDelivers | kernel/idt.c:84-86 | with the corrected mask exactly IRQ0, IRQ1 and IRQ8 are delivered, each to a vector with an installed gate |
| Idt.InstalledIrqGates | kernel/idt.c:58-60 | vectors 0x20, 0x21 and 0x28 have gates |
| Idt.EoiWrites | kernel/idt.c:119-121 | the master always gets an EOI, last; IRQs 8 and up get one to the slave first |
| Idt.IrqHandler | kernel/idt.c:112-122 | IRQ0 ticks the timer, IRQ1 runs the keyboard handler, IRQ8 re-reads the RTC; no other driver changes, and the EOIs come last |
| Idt.DriverWork | kernel/idt.c:112-117 | IRQ0 advances the tick count by one modulo 2^32, IRQ8 stores a fresh decoded reading, each other driver is left alone, and only IRQ8 writes ports |
| Idt.HandlerAcknowledges | kernel/idt.c:118-121 | after any IRQ the master has one more EOI, and the slave one more exactly for IRQs 8 and up |
| Idt.CmosPortsOnly | kernel/idt.c:116 | the RTC handler writes only the CMOS index port, so it leaves the PIC alone |
| Idt.PanicLines | kernel/idt.c:97-107 | the panic screen shows the title, the number, the exception's name when it is below 15, and the footer |
| Idt.PanicNumber | kernel/idt.c:102 | the second line is "Exception: " and the number in decimal |
| Idt.Step | kernel/idt.c:97-122 | an exception halts with the panic screen; an IRQ runs its handler; nothing changes a halted machine |
| Idt.HaltedAbsorbs | kernel/idt.c:108-109 | once halted, no sequence of events changes the machine |
| Idt.FirstExceptionHalts | kernel/idt.c:97-110 | the first exception in a run decides the final state, whatever follows |
| Idt.TimerIrqsCount | kernel/idt.c:114 | n timer interrupts advance the tick count by n and touch nothing else |
| Libc.StrLen | libc/libc.c:4-8 | the count of characters before the first NUL |
| Libc.StrCpy | libc/libc.c:10-14 | the text and its NUL land at the destination; no other byte changes |
| Libc.StrCat | libc/libc.c:16-20 | the destination's text becomes the old text followed by the source's text; bytes past the new NUL are unchanged |
| Libc.LessTrichotomy | libc/libc.c:22-25 | the reference order is strict and total on texts |
| Libc.StrCmp | libc/libc.c:22-25 | zero, negative or positive exactly when the texts are equal, ordered, or reverse-ordered, bytes compared unsigned |
| Libc.StrNCmp | libc/libc.c:27-31 | the same comparison on the first n characters; 0 for n <= 0 |
| Libc.MemSet | libc/libc.c:33-37 | the n bytes from the start hold the value's low byte; every other byte is unchanged |
| Libc.MemCpy | libc/libc.c:39-44 | the n target bytes equal the source's; the rest of the target is unchanged |
| Libc.DigitChar | libc/libc.c:53 | 0-9 give '0'-'9' and larger digits give lower-case letters |
| Libc.Digits | libc/libc.c:51-55 | the digits of v have no leading zero, are empty only for 0, and are all below the base |
| Libc.ValueOfDigits | libc/libc.c:51-55 | the digits of v read back in the same base give v |
| Libc.Itoa | libc/libc.c:46-60 | a leading '-' appears exactly for negative decimal values; a negative value in another base gives the empty string |
| Libc.Utoa | libc/libc.c:62-74 | a non-empty digit string without leading zero whose value in the base is the input |
| Libc.DigitLoop | libc/libc.c:51-55 | the remainder loop produces the digits least significant first |
| Libc.CopyReversed | libc/libc.c:57-59 | the copy-out loop reverses the scratch buffer |
| Libc.KItoa | libc/libc.c:46-60 | the loops produce exactly the signed digit string |
| Libc.KUtoa | libc/libc.c:62-74 | the loops produce exactly the unsigned digit string |
| Libc.DigitRun | libc/libc.c:79 | the longest prefix made of decimal digits |
| Libc.Atoi | libc/libc.c:76-81 | text without a leading '-' gives a non-negative value |
| Libc.KAtoi | libc/libc.c:76-81 | the loop computes the value of the leading digit run, negated after a leading '-' |
| Libc.DecimalRoundTrip | libc/libc.c:46-81 | `katoi` recovers every 32-bit value except INT32_MIN from its `kitoa` decimal string |
| Libc.ConversionExamples | libc/libc.c:46-60 | -42 gives "-42" in base 10, "" in base 16, and 0 gives "0" |
| Libc.UnsignedExamples | libc/libc.c:62-74 | 255 in base 16 is "ff" |
| Libc.ThousandExample | libc/libc.c:62-74 | 1000 in base 10 is "1000" |
| Libc.AsInt32 | libc/libc.c:129 | reading a 32-bit word as `i32` keeps values below 2^31 and is congruent modulo 2^32 |
| Libc.Padded | libc/libc.c:123-139 | the field is the number's digits, left-padded with '0' to the width digit |
| Libc.Render | libc/libc.c:88-143 | a format without '%' never fails; only a conversion can leave the result undefined |
| Libc.Sprintf | libc/libc.c:83-146 | the output exists exactly when the format's text renders, and is that rendering followed by NUL |
| Libc.RenderLiteral | libc/libc.c:89 | format text without '%' is copied unchanged |
| Libc.RenderEscape | libc/libc.c:140 | '%' followed by an unknown character writes that character |
| Libc.RenderPadded | libc/libc.c:123-139 | `%0wd` and `%0wu` write the padded field and continue with the next argument |
| Libc.RenderConversion | libc/libc.c:99-112 | `%u` and `%x` write the unsigned decimal or hex digits of the argument |
| Libc.RenderDecimal | libc/libc.c:92-98 | `%d` writes `kitoa` of the argument read as `i32` in base 10 and continues with the next argument; for INT32_MIN there is no result |
| Libc.RenderString | libc/libc.c:113-118 | `%s` writes the argument's text up to its NUL and continues with the next argument |
| Libc.RenderChar | libc/libc.c:119-122 | `%c` writes the argument's low byte and continues with the next argument |
| Libc.TwoDigits | libc/libc.c:123-139 | `%02d` of a value below 100 is exactly its two decimal digits |
| Editor.InitValid | apps/editor.c:166-194 | the start-up buffer holds ten lines, the first 27 characters long and the tenth empty, and every line fits its row |
| Editor.InsertAsWritten | apps/editor.c:95-106 | as written: the character goes in at the cursor whenever the cursor is left of column 72, however long the line |
| Editor.Insert | apps/editor.c:95-106 | the corrected insert puts `c` at the cursor only when the line has room; the write stays inside the row and every line keeps fitting |
| Editor.Delete | apps/editor.c:108-139 | backspace removes the character before the cursor, or merges the line into the previous one when both fit, or only marks the text modified |
| Editor.Newline | apps/editor.c:141-161 | the line splits at the cursor, later lines move down by one, and the cursor goes to the start of the new line, unless 200 lines exist |
| Editor.EnsureVisible | apps/editor.c:82-90 | only the scroll changes, and the cursor row ends up among the 25 visible rows, scrolling as little as possible |
| Editor.NewlineKeepsText | apps/editor.c:141-161 | splitting a line does not change the text |
| Editor.MergeKeepsText | apps/editor.c:111-129 | backspace at the start of a line does not change the text |
| Editor.NewlineThenDelete | apps/editor.c:108-161 | backspace right after Enter restores the buffer and cursor |
| Editor.InsertThenDelete | apps/editor.c:95-139 | backspace right after a typed character restores the buffer and cursor |
| Editor.AfterInsert | apps/editor.c:243-251 | once the cursor has passed column 71 the line splits there and the cursor moves to the start of the next line, unless 200 lines exist; otherwise text and cursor are kept; either way the cursor ends visible and lines that fit their rows keep fitting |
| Editor.Key | apps/editor.c:216-252 | with the corrected insert: only ESC ends the loop; only Enter, Return, backspace and printable keys change the text; after those the cursor is visible |
| Editor.KeyAsWritten | apps/editor.c:243-251 | the as-written loop differs from the corrected one only on printable keys |
| Editor.Keys | apps/editor.c:216-252 | with the corrected insert, any key sequence keeps every line within its row (the source does not, see Findings) |
| Editor.KeysFromInitBounded | apps/editor.c:166-252 | from start-up, every line fits its row whatever is typed |
| Editor.TypingGrowsLine | apps/editor.c:95-106 | typing n characters at the start of the 27-character welcome line makes it 27 + n long |
| Editor.InsertOverflow | apps/editor.c:96-101 | after 46 such characters the next insert writes byte 73 of a 73-byte row; the corrected insert refuses it |
| Terminal.Clear | apps/terminal.c:21-29 | every cell is a blank in the default colours and the cursor is at the top left |
| Terminal.Scroll | apps/terminal.c:44-56 | every row moves up one, the last row is blank, and the cursor goes to the start of the last row |
| Terminal.NewLine | apps/terminal.c:58-62 | the cursor goes to the start of the next row, scrolling on the last one |
| Terminal.Put | apps/terminal.c:72-76 | writes the character with its colour into the cursor's cell, wrapping first at column 80; the background and every other cell are kept |
| Terminal.TabStop | apps/terminal.c:68 | the next multiple of 4 strictly after the column |
| Terminal.SpacesInRow | apps/terminal.c:69 | n spaces that fit the row fill exactly the next n cells |
| Terminal.Tab | apps/terminal.c:67-70 | a tab fills the cells up to the next multiple of 4 with spaces and changes nothing else |
| Terminal.TabFromFullRowNeverEnds | apps/terminal.c:67-72 | from column 80, however many spaces are written, the cursor never reaches the tab stop, because each space wraps first |
| Terminal.Putchar | apps/terminal.c:64-77 | the grid and cursor stay in range; '\r' only returns to column 0 |
| Terminal.PutsInRow | apps/terminal.c:79-81 | printable text that fits writes its characters into consecutive cells and nothing else |
| Terminal.Puts | apps/terminal.c:79-81 | the grid and cursor stay in range for any text without tabs |
| Terminal.PutsLn | apps/terminal.c:83-86 | ends at the start of a row |
| Terminal.ReadKey | apps/terminal.c:100-125 | Enter or Return ends with the line and its length; Ctrl-C ends with -1 and an empty line; backspace drops the last character and steps back; printable keys append while there is room; nothing else changes the line |
| Terminal.ReadLine | apps/terminal.c:89-128 | until entered the line stays well-formed; once entered the cursor is at the start of a row and the result is -1 or the text's length |
| Terminal.ReadLineResult | apps/terminal.c:89-128 | the returned line is printable, NUL-terminated text of at most max - 1 characters whose length is the return value, or -1 with an empty line |
| Terminal.TypeThenErase | apps/terminal.c:110-125 | a typed character and a backspace restore the line and the cursor |
| Terminal.UptimeOf | apps/terminal.c:213-219 | minutes and seconds are below 60 |
| Terminal.UptimeAddsUp | apps/terminal.c:214-219 | hours, minutes and seconds add up to the whole seconds in the tick count |
| Clock.RowsSteps | apps/clock.c:5-12 | the 90 written values rise from 0 to 1000 |
| Clock.TableIsQuarterWave | apps/clock.c:5-12 | the intended 91-entry table rises from 0 to 1000 |
| Clock.WrittenTableDrops | apps/clock.c:5-12 | the declared table's unfilled entry 90 is 0, so it is not a quarter wave; the other entries agree |
| Clock.CRem | apps/clock.c:15 | C's remainder has the dividend's sign and is smaller than the divisor |
| Clock.CDiv | apps/clock.c:28 | C's quotient truncates toward zero |
| Clock.Normalize | apps/clock.c:15 | the angle reduced into 0-359, differing from the input by whole turns |
| Clock.Fold | apps/clock.c:16-19 | for a quarter-wave table the folded value is positive on (0, 180), negative on (180, 360), and within ±1000 |
| Clock.Isin | apps/clock.c:14-20 | within ±1000, positive exactly on the upper half turn and negative exactly on the lower |
| Clock.IsinAsWritten | apps/clock.c:5-20 | the source's `isin` with the table as declared: within ±1000, zero exactly at the four quarter turns, positive exactly strictly inside (0, 90) and (90, 180), negative exactly strictly inside (180, 270) and (270, 360) |
| Clock.AsWrittenDiffers | apps/clock.c:14-20 | with the declared table the sine is right except at 90 and 270 degrees, where it is 0 |
| Clock.Icos | apps/clock.c:22-24 | with the intended table, cosine is sine a quarter turn ahead and lies within ±1000 |
| Clock.IsinPeriodic | apps/clock.c:14-20 | the sine repeats every 360 degrees |
| Clock.IsinOdd | apps/clock.c:14-20 | the sine is odd |
| Clock.IsinHalfTurn | apps/clock.c:14-20 | half a turn negates the sine |
| Clock.IsinMirror | apps/clock.c:14-20 | sin(180 - x) = sin(x) |
| Clock.IsinMonotone | apps/clock.c:14-16 | the sine rises over the first quarter turn |
| Clock.TrigExamples | apps/clock.c:14-24 | with the intended table, sin 0, 30, 90, 180, 270, -90 and cos 0, ±90 have their exact values |
| Clock.DisplayHour | apps/clock.c:93 | the shown hour is one later, and 23 becomes 0 |
| Clock.HandAngles | apps/clock.c:106-108 | for a valid time each angle is below 360 and falls in its second's, minute's or hour's sector |
| Clock.HandAnglesInRange | apps/clock.c:106-108 | each hand angle is below 360, and reading it back gives the hour on the 12-hour face, the minute and the second |
| Clock.HandTip | apps/clock.c:27-29 | with the intended table, a hand's tip is within its length of the centre in both axes |
| Clock.HandTipQuarters | apps/clock.c:27-29 | with the intended table, at 0, 90, 180 and 270 degrees the hand points straight up, right, down and left at full length |
| Clock.HandTipAsWritten | apps/clock.c:27-29 | with the table as declared, a hand's tip is still within its length of the centre in both axes |
| Clock.VanishingHands | apps/clock.c:27-29 | with the declared table, hands at 12, 3, 6 and 9 o'clock have zero length |
| Clock.QuarterSines | apps/clock.c:28-29 | with the intended table, the sines and cosines the hand drawing asks for at the four quarter turns |
| Clock.PairValue | apps/clock.c:96 | the two characters are decimal digits whose value is v |
| Clock.TimeRender | apps/clock.c:96 | the `%02d:%02d:%02d` rendering is two digits each for hour, minute and second, joined by colons |
| Clock.TimeString | apps/clock.c:95-96 | the read-out is exactly "hh:mm:ss" followed by NUL |

## Left out

- Timer.Init: requires a frequency above 0, because `timer_init(0)` divides by zero and the C behaviour is undefined.
- Rtc.Read: requires that status A reports no update in progress, and records one status-A poll. The source polls until the update ends, which depends on the chip's timing.
- Rtc.Read: does not model the `rtc_updated` flag that foreground reads also set; `Rtc.Handler` and `Rtc.Init` record it.
- Rtc.DecodeHourFixed: also maps binary 12-hour midnight and noon to 0 and 12. drivers/rtc.c:71-73 adds 12 only when the PM bit is set and keeps an AM reading as it is, so 0x0C reads as 12 and 0x8C as 0, while an MC146818 in binary 12-hour mode holds 12 AM as 0x0C and 12 PM as 0x8C. The code does not say which convention it expects, so `Rtc.DecodeHourBinary12` keeps the as-written mapping.
- Gdt.Init: the `gdt_load` call is not modelled. It is assembly that runs `lgdt` and reloads the segment registers.
- Idt.Init: the `idt_load` call (assembly, `lidt`) is not modelled. Stub addresses are parameters.
- Keyboard.Init: the loop that drains pending bytes from port 0x60 is not modelled. Its length depends on the controller.
- Keyboard.GetChar: requires a character to be waiting; the `hlt` loop that waits for one is the precondition.
- Keyboard.Handle: the source's test `key >= 128` can never fire after masking with 0x7F, so it has no counterpart.
- `keyboard_get_buffer` is not modelled. It only exposes the buffer's address.
- Libc.Itoa: requires a base from 2 to 36, and decimal values other than INT32_MIN. In the source base 1 loops forever and base 0 divides by zero; a negative base stops after one step of C's truncating `%` and `/`, so `kitoa(5, buf, -2)` gives "1"; bases above 36 produce digits past 'z'; and negating INT32_MIN overflows.
- Libc.KAtoi: the accumulator is unbounded. The source's `int` overflows, which is undefined, on runs of more than nine or ten digits.
- Libc.StrNCmp: `n` is an `int32`; the decrement of the most negative `n` (undefined in C) is not modelled.
- Libc.MemCpy: overlapping buffers are not modelled. Source and destination are separate sequences.
- Libc.Sprintf: output-buffer overflow is not modelled, since the result is a sequence. The cases C leaves undefined give no result: a missing or mistyped argument, a '%' at the end of the format, and `%d` of INT32_MIN.
- Idt.PanicLines: the exception number is a natural below 2^31. A negative `int` would read outside the names table in the source.
- Idt.ChipWrite: models only ICW1-ICW4, mask writes and the non-specific EOI of an 8259 in 8086 mode. Other operation command words are not used by the kernel.
- Terminal.Putchar: requires the cursor to be left of column 80 for a tab. From column 80 the source's tab loop never ends, as `Terminal.TabFromFullRowNeverEnds` shows.
- Terminal.Puts: requires text without tabs, for the same reason. `Terminal.PutsLn` inherits this.
- Terminal.ReadKey: the cursor underline drawn and erased at each key is left out, along with the read of the cell at column 80 that erasing it makes when a row is full.
- Terminal.ReadKey: requires a buffer size of at least 1.
- The terminal's command table and dispatcher are not modelled. Neither are the individual commands, apart from the uptime arithmetic. They format strings and call into the rest of the kernel.
- Drawing is left out: the framebuffer, the terminal's cell rendering, the editor's line rendering and status bar, the clock face and hand lines, and the desktop.
- Clock.HandTip: uses the intended table, where entry 90 is 1000; with the table as declared the tip at every quarter turn is the centre, which `Clock.HandTipAsWritten` and `Clock.VanishingHands` state. It computes only the tip's offsets; the line-drawing loop around them is left out. The length is at most 2147483, so that the product with a sine fits an `int`.
- Clock.HandTipQuarters: states the quarter-turn tips with the intended table; the source's table gives (0, 0) there.
- Clock.QuarterSines: states the intended sines; with the table as declared every one of them is 0.
- Clock.TrigExamples: states the intended values; with the table as declared `isin(90)`, `isin(270)`, `isin(-90)` and `icos(0)` are 0, as `Clock.AsWrittenDiffers` states.
- The clock's main loop is not modelled: the redraw-on-change test, the date line and the 100 ms wait. That wait compares the 32-bit tick count with a target that can wrap, like `Timer.Sleep`.
- Clock.Icos: uses the intended table, so `Icos(0)` is 1000 where the source's `icos(0)` is 0. It requires an angle at most 2^31 - 91, because `deg + 90` overflows `int` beyond that.
- Editor.Key: uses the corrected insert, so a printable key on a 72-character line is refused where apps/editor.c:244 inserts it; `Editor.KeyAsWritten` is the loop step as written.
- Editor.Keys: runs the corrected `Editor.Key`, so its bound on line lengths is the intended property; the source breaks it, as `Editor.InsertOverflow` states.
- Editor.Key: the two control codes for "start of line" and "end of line" (2 and 6) are modelled, but the keyboard driver has no Ctrl key handling and never produces them.
- Timer.SleepAt100Hz: at the kernel's 100 Hz, `ticks_per_ms` is floored to 1, so a sleep lasts ten times what was asked. The model states this as written and offers no correction, since the intended rate is not evident from the code.

## Findings

| source | as written | input that shows it | evidently intended | confidence | as-written member | corrected member |
|---|---|---|---|---|---|---|
| drivers/rtc.c:62 | the BCD conversion of the hour runs on the whole byte, PM bit included, so bit 7 is read as a tens digit of 8 | BCD 12-hour mode, hour register 0x81 (1 PM): reads as 21 | mask bit 7 before converting, so that 1 PM reads as 13 | not executed | Rtc.BcdOnePmExample, Rtc.DecodeHourBcd12Pm | Rtc.DecodeHourFixed, Rtc.HourFixedRoundTrip, Rtc.DecodeFixedRoundTrip |
| drivers/rtc.c:71-73 | in binary 12-hour mode, PM adds 12 to the clock-face hour modulo 24, and AM keeps the clock-face hour, so 12 AM reads as 12 and 12 PM as 0 | binary 12-hour mode, hour register 0x0C (12 AM): reads as 12 | midnight reads 0 and noon reads 12, as an MC146818 means 0x0C and 0x8C; low confidence, since the code does not say which convention it expects | not executed | Rtc.DecodeHourBinary12 | Rtc.HourFixedRoundTrip |
| drivers/timer.c:39-42 | the wake-up target is an absolute 32-bit count that wraps, and the loop waits while the count is below it | ticks 0xFFFFFFF0, `ticks_per_ms` 1, sleep 100 ms: the target is 0x54 and the sleep returns at once | wait until the requested number of ticks has elapsed, measured modulo 2^32 | not executed | Timer.SleepWrapExample | Timer.SleepFixed |
| kernel/idt.c:85 | the master mask 0xFC keeps IRQ2, the cascade from the slave, masked | after `pic_init`, IRQ8 from the RTC: never delivered, although the comment enables IRQ0, IRQ1 and IRQ8 | master mask 0xF8 | not executed | Idt.PicInitBlocksCascade | Idt.PicInitFixed, Idt.PicInitFixedDelivers |
| apps/editor.c:95-106 | an insert is refused only when the cursor is at column 72, not when the line is full, so a line grows past its 73-byte row | at start-up, type 46 characters at the start of the 27-character welcome line; the 47th insert writes byte 73 of row 0 | refuse the insert when the line already holds 72 characters | not executed | Editor.InsertOverflow, Editor.TypingGrowsLine, Editor.InsertAsWritten | Editor.Insert, Editor.KeysFromInitBounded |
| apps/clock.c:5-12 | `sin_table[91]` has 90 initialisers, so entry 90 is 0 | `isin(90)` is 0, and the hands at 12, 3, 6 and 9 o'clock are drawn with zero length | entry 90 is 1000, the sine of 90 degrees | not executed | Clock.WrittenTableDrops, Clock.AsWrittenDiffers, Clock.VanishingHands | Clock.TableIsQuarterWave, Clock.Isin, Clock.IsinMonotone |
