/** The kernel's freestanding C library: NUL-terminated strings, memory
    fill and copy, conversions between integers and text, and the small
    `printf`-style formatter.

    Memory is a sequence of characters whose codes are the byte values, so
    the `(u8)` cast of a character is its code. A C string is a buffer that
    contains a NUL; its text is everything before the first NUL. */
module Libc {
  import opened Hw

  const NUL: char := 0 as char
  const INT32_MIN: int := -0x8000_0000

  datatype Option<T> = None | Some(value: T)

  // ---------------------------------------------------------------------
  // Strings
  // ---------------------------------------------------------------------

  /** Position of the first NUL. */
  function Len(s: seq<char>): (n: nat)
    requires NUL in s
    ensures n < |s| && s[n] == NUL
    ensures forall i :: 0 <= i < n ==> s[i] != NUL
  {
    if s[0] == NUL then 0
    else
      assert s == [s[0]] + s[1..];
      1 + Len(s[1..])
  }

  /** The text of a C string: the characters before its first NUL. */
  function Text(s: seq<char>): (t: seq<char>)
    requires NUL in s
    ensures NUL !in t && t + [NUL] <= s
  {
    s[..Len(s)]
  }

  /** A NUL written after text without one ends it there. */
  lemma TextOfLiteral(t: seq<char>)
    requires NUL !in t
    ensures NUL in t + [NUL] && Text(t + [NUL]) == t
  {
    var s := t + [NUL];
    assert s[|t|] == NUL;
    var n := Len(s);
    assert forall i :: 0 <= i < |t| ==> s[i] == t[i];
    assert n == |t|;
    assert s[..|t|] == t;
  }

  /** `kstrlen`: count characters up to the first NUL. */
  method StrLen(s: seq<char>) returns (n: nat)
    requires NUL in s
    ensures n == |Text(s)|
    ensures s[n] == NUL && NUL !in s[..n]
  {
    n := 0;
    while s[n] != NUL
      invariant n <= Len(s)
      decreases Len(s) - n
    {
      n := n + 1;
    }
  }

  /** A C string holds the text up to its first NUL, whatever follows. */
  lemma TextOf(s: seq<char>, t: seq<char>)
    requires NUL !in t && t + [NUL] <= s
    ensures NUL in s && Text(s) == t
  {
    assert s[|t|] == NUL;
    assert forall i :: 0 <= i < |t| ==> s[i] == t[i];
    assert Len(s) == |t|;
    assert s[..|t|] == t;
  }

  /** `kstrcpy(dst + start, src)`: the source's text and its NUL are
      written from `start` on; nothing else changes, and the copy reads back
      as the source's text. The destination must have room: `start` plus
      the text plus its NUL. */
  method StrCpy(dst: seq<char>, start: nat, src: seq<char>) returns (r: seq<char>)
    requires NUL in src && start + |Text(src)| < |dst|
    ensures |r| == |dst|
    ensures r[start..start + |Text(src)| + 1] == Text(src) + [NUL]
    ensures r[..start] == dst[..start] && r[start + |Text(src)| + 1..] == dst[start + |Text(src)| + 1..]
    ensures NUL in r[start..] && Text(r[start..]) == Text(src)
  {
    var t := Text(src);
    r := dst;
    var k := 0;
    while src[k] != NUL
      invariant k <= |t| && |r| == |dst|
      invariant forall j :: start <= j < start + k ==> r[j] == t[j - start]
      invariant forall j :: 0 <= j < |dst| && !(start <= j < start + k) ==> r[j] == dst[j]
      decreases |t| - k
    {
      assert src[k] == t[k];
      r := r[start + k := src[k]];
      k := k + 1;
    }
    assert k == |t|;
    r := r[start + k := NUL];
    var copied := r[start..start + |t| + 1];
    assert copied == t + [NUL] by {
      forall i | 0 <= i < |t| + 1
        ensures copied[i] == (t + [NUL])[i]
      {
        assert copied[i] == r[start + i];
      }
    }
    assert r[start..][..|t| + 1] == copied;
    TextOf(r[start..], t);
  }

  /** `kstrcat(dst, src)`: the source's text is appended to the
      destination's, so the result reads as the two texts joined. The
      destination must have room for both and a NUL. */
  method StrCat(dst: seq<char>, src: seq<char>) returns (r: seq<char>)
    requires NUL in dst && NUL in src && |Text(dst)| + |Text(src)| < |dst|
    ensures |r| == |dst|
    ensures NUL in r && Text(r) == Text(dst) + Text(src)
    ensures r[|Text(dst)| + |Text(src)| + 1..] == dst[|Text(dst)| + |Text(src)| + 1..]
  {
    var n := StrLen(dst);
    r := StrCpy(dst, n, src);
    Joined(r, Text(dst), Text(src));
  }

  /** A text followed by another text and a NUL reads as the two joined. */
  lemma Joined(r: seq<char>, a: seq<char>, b: seq<char>)
    requires NUL !in a && NUL !in b && |a| + |b| < |r|
    requires r[..|a|] == a && r[|a|..|a| + |b| + 1] == b + [NUL]
    ensures NUL in r && Text(r) == a + b
  {
    assert r[..|a| + |b| + 1] == r[..|a|] + r[|a|..|a| + |b| + 1];
    assert NUL !in a + b;
    TextOf(r, a + b);
  }

  /** Lexicographic order on texts, characters compared as unsigned bytes;
      a proper prefix comes first. */
  predicate Less(x: seq<char>, y: seq<char>)
  {
    if |y| == 0 then false
    else if |x| == 0 then true
    else x[0] < y[0] || (x[0] == y[0] && Less(x[1..], y[1..]))
  }

  /** `Less` is a strict total order: exactly one of x < y, x == y, y < x. */
  lemma {:induction false} LessTrichotomy(x: seq<char>, y: seq<char>)
    ensures Less(x, y) ==> !Less(y, x) && x != y
    ensures x == y || Less(x, y) || Less(y, x)
  {
    if |x| > 0 && |y| > 0 {
      LessTrichotomy(x[1..], y[1..]);
      if x[0] == y[0] && x[1..] == y[1..] {
        assert x == [x[0]] + x[1..] && y == [y[0]] + y[1..];
      }
    }
  }

  /** A common prefix does not change the order. */
  lemma {:induction false} LessCommonPrefix(p: seq<char>, x: seq<char>, y: seq<char>)
    ensures Less(p + x, p + y) == Less(x, y)
  {
    if |p| == 0 {
      assert p + x == x && p + y == y;
    } else {
      assert (p + x)[0] == p[0] == (p + y)[0];
      assert (p + x)[1..] == p[1..] + x;
      assert (p + y)[1..] == p[1..] + y;
      LessCommonPrefix(p[1..], x, y);
    }
  }

  /** Two texts that agree before position `i` and part there (one ends or
      the characters differ) compare as they do at `i`. */
  lemma LessAt(x: seq<char>, y: seq<char>, i: nat)
    requires i <= |x| && i <= |y| && x[..i] == y[..i]
    requires i == |x| || i == |y| || x[i] != y[i]
    ensures Less(x, y) <==> (i == |x| && i < |y|) || (i < |x| && i < |y| && x[i] < y[i])
    ensures x == y <==> i == |x| && i == |y|
  {
    var p, xs, ys := x[..i], x[i..], y[i..];
    assert x == p + xs && y == p + ys;
    LessCommonPrefix(p, xs, ys);
    assert Less(x, y) == Less(xs, ys);
    if i < |x| && i < |y| {
      assert xs[0] == x[i] && ys[0] == y[i];
      assert Less(xs, ys) <==> x[i] < y[i];
    }
    if x == y {
      assert |x| == |y|;
    }
  }

  /** Position `i` of a C string up to its NUL, seen in its text. */
  lemma TextAt(s: seq<char>, i: nat)
    requires NUL in s && i <= Len(s)
    ensures Text(s)[..i] == s[..i]
    ensures i == |Text(s)| <==> s[i] == NUL
    ensures i < |Text(s)| ==> Text(s)[i] == s[i]
  {
  }

  /** The comparison `kstrcmp` and `kstrncmp` return once their loop stops
      at position `i`: the difference of the two bytes there. */
  lemma CompareAt(a: seq<char>, b: seq<char>, i: nat, x: seq<char>, y: seq<char>)
    requires NUL in a && NUL in b && i <= Len(a) && i <= Len(b) && a[..i] == b[..i]
    requires a[i] == NUL || a[i] != b[i]
    requires x == Text(a) && y == Text(b)
    ensures var r := a[i] as int - b[i] as int;
            && (r == 0 <==> x == y)
            && (r < 0 <==> Less(x, y))
            && (r > 0 <==> Less(y, x))
  {
    TextAt(a, i);
    TextAt(b, i);
    LessAt(x, y, i);
    LessAt(y, x, i);
  }

  /** `kstrcmp`: 0 for equal texts, otherwise the byte difference at the
      first position where they part. */
  method StrCmp(a: seq<char>, b: seq<char>) returns (r: int)
    requires NUL in a && NUL in b
    ensures r == 0 <==> Text(a) == Text(b)
    ensures r < 0 <==> Less(Text(a), Text(b))
    ensures r > 0 <==> Less(Text(b), Text(a))
  {
    var i := 0;
    while a[i] != NUL && a[i] == b[i]
      invariant i <= Len(a) && i <= Len(b)
      invariant a[..i] == b[..i]
      decreases Len(a) - i
    {
      i := i + 1;
    }
    r := a[i] as int - b[i] as int;
    CompareAt(a, b, i, Text(a), Text(b));
  }

  /** The first `n` characters of a text, or all of it when it is shorter. */
  function Prefix(t: seq<char>, n: nat): (p: seq<char>)
    ensures p <= t && |p| == if n < |t| then n else |t|
  {
    if n < |t| then t[..n] else t
  }

  /** `kstrncmp`: compares at most `n` characters. The counter is
      decremented by every loop test, the failing one included, so a
      non-positive `n` always yields 0. */
  method StrNCmp(a: seq<char>, b: seq<char>, n: int32) returns (r: int)
    requires NUL in a && NUL in b
    ensures n <= 0 ==> r == 0
    ensures n > 0 ==> (r == 0 <==> Prefix(Text(a), n) == Prefix(Text(b), n))
    ensures n > 0 ==> (r < 0 <==> Less(Prefix(Text(a), n), Prefix(Text(b), n)))
    ensures n > 0 ==> (r > 0 <==> Less(Prefix(Text(b), n), Prefix(Text(a), n)))
  {
    var k: int := n;
    var i := 0;
    while k != 0 && a[i] != NUL && a[i] == b[i]
      invariant i <= Len(a) && i <= Len(b)
      invariant a[..i] == b[..i]
      invariant n > 0 ==> 0 <= k == n - i
      invariant n <= 0 ==> k <= n
      decreases Len(a) - i
    {
      k := k - 1;
      i := i + 1;
    }
    // The failing test has decremented `k` too.
    k := k - 1;
    if k < 0 {
      r := 0;
      if n > 0 {
        TextAt(a, i);
        TextAt(b, i);
        PrefixesAgree(Text(a), Text(b), n);
      }
    } else {
      r := a[i] as int - b[i] as int;
      TextAt(a, i);
      TextAt(b, i);
      CompareAt(a, b, i, Text(a), Text(b));
      PrefixesPart(Text(a), Text(b), i, n);
    }
  }

  /** Texts that agree on their first `n` positions have equal prefixes. */
  lemma PrefixesAgree(x: seq<char>, y: seq<char>, n: nat)
    requires n <= |x| && n <= |y| && x[..n] == y[..n]
    ensures Prefix(x, n) == Prefix(y, n) && !Less(Prefix(x, n), Prefix(y, n))
  {
    LessTrichotomy(Prefix(x, n), Prefix(y, n));
  }

  /** Texts that part at a position below `n` compare as their prefixes do. */
  lemma PrefixesPart(x: seq<char>, y: seq<char>, i: nat, n: nat)
    requires i < n && i <= |x| && i <= |y| && x[..i] == y[..i]
    requires i == |x| || i == |y| || x[i] != y[i]
    ensures var px, py := Prefix(x, n), Prefix(y, n);
            && (px == py <==> x == y)
            && (Less(px, py) <==> Less(x, y))
            && (Less(py, px) <==> Less(y, x))
  {
    var px, py := Prefix(x, n), Prefix(y, n);
    assert px[..i] == x[..i] && py[..i] == y[..i];
    assert i < |px| ==> px[i] == x[i];
    assert i < |py| ==> py[i] == y[i];
    LessAt(x, y, i);
    LessAt(y, x, i);
    LessAt(px, py, i);
    LessAt(py, px, i);
  }

  // ---------------------------------------------------------------------
  // Memory
  // ---------------------------------------------------------------------

  /** `kmemset(mem + start, val, n)`: bytes [start, start + n) become
      `(u8)val`; nothing else changes. */
  method MemSet(mem: seq<uint8>, start: nat, val: int, n: nat) returns (r: seq<uint8>)
    requires start + n <= |mem|
    ensures |r| == |mem|
    ensures forall i :: start <= i < start + n ==> r[i] == val % 0x100
    ensures forall i :: 0 <= i < |mem| && !(start <= i < start + n) ==> r[i] == mem[i]
  {
    r := mem;
    var k := 0;
    while k < n
      invariant k <= n && |r| == |mem|
      invariant forall i :: start <= i < start + k ==> r[i] == val % 0x100
      invariant forall i :: 0 <= i < |mem| && !(start <= i < start + k) ==> r[i] == mem[i]
    {
      r := r[start + k := val % 0x100];
      k := k + 1;
    }
  }

  /** `kmemcpy(dst + dstart, src + sstart, n)` between distinct buffers:
      positions [dstart, dstart + n) receive the source bytes in order;
      nothing else changes. */
  method MemCpy<T>(dst: seq<T>, dstart: nat, src: seq<T>, sstart: nat, n: nat) returns (r: seq<T>)
    requires dstart + n <= |dst| && sstart + n <= |src|
    ensures |r| == |dst|
    ensures r[dstart..dstart + n] == src[sstart..sstart + n]
    ensures r[..dstart] == dst[..dstart] && r[dstart + n..] == dst[dstart + n..]
  {
    r := dst;
    var k := 0;
    while k < n
      invariant k <= n && |r| == |dst|
      invariant forall j :: dstart <= j < dstart + k ==> r[j] == src[sstart + (j - dstart)]
      invariant forall j :: 0 <= j < |dst| && !(dstart <= j < dstart + k) ==> r[j] == dst[j]
    {
      r := r[dstart + k := src[sstart + k]];
      k := k + 1;
    }
    var copied, source := r[dstart..dstart + n], src[sstart..sstart + n];
    forall i | 0 <= i < n
      ensures copied[i] == source[i]
    {
      assert copied[i] == r[dstart + i] && source[i] == src[sstart + i];
    }
  }

  // ---------------------------------------------------------------------
  // Integers to text
  // ---------------------------------------------------------------------

  /** Bases the conversions are used with; 0 divides by zero and 1 never
      terminates. */
  predicate ValidBase(base: int) { 2 <= base <= 36 }

  /** The digit for 0 <= d < 36: '0'-'9', then 'a', 'b', ... */
  function DigitChar(d: nat): (c: char)
    requires d < 36
    ensures d < 10 ==> '0' <= c <= '9' && c as int - '0' as int == d
    ensures d >= 10 ==> 'a' <= c <= 'z'
  {
    if d < 10 then ('0' as int + d) as char else ('a' as int + d - 10) as char
  }

  /** The value of a digit character, the inverse of `DigitChar`. */
  function DigitOf(c: char): (d: nat)
    requires IsDigitChar(c)
    ensures d < 36 && DigitChar(d) == c
  {
    if c <= '9' then c as int - '0' as int else c as int - 'a' as int + 10
  }

  lemma DigitRoundTrip(d: nat)
    requires d < 36
    ensures DigitOf(DigitChar(d)) == d
  {
  }

  predicate IsDigitChar(c: char) { '0' <= c <= '9' || 'a' <= c <= 'z' }
  predicate IsDecimal(c: char) { '0' <= c <= '9' }

  /** The digits of `v` in `base`, most significant first, no leading zero;
      empty for 0. */
  function Digits(v: nat, base: int): (ds: seq<char>)
    requires ValidBase(base)
    ensures |ds| > 0 <==> v > 0
    ensures v > 0 ==> ds[0] != '0'
    ensures forall i :: 0 <= i < |ds| ==> IsDigitChar(ds[i]) && DigitOf(ds[i]) < base
    ensures base == 10 ==> forall i :: 0 <= i < |ds| ==> IsDecimal(ds[i])
  {
    if v == 0 then [] else Digits(v / base, base) + [DigitChar(v % base)]
  }

  /** The number a digit string denotes in `base`, read left to right. */
  function Value(ds: seq<char>, base: int): (v: nat)
    requires ValidBase(base)
    requires forall i :: 0 <= i < |ds| ==> IsDigitChar(ds[i]) && DigitOf(ds[i]) < base
  {
    if ds == [] then 0
    else
      var high := Value(ds[..|ds| - 1], base);
      MulNonNegative(high, base);
      high * base + DigitOf(ds[|ds| - 1])
  }

  lemma MulNonNegative(x: nat, y: nat)
    ensures x * y >= 0
  {
  }

  /** Reading the digits of `v` back gives `v`. */
  lemma {:induction false} ValueOfDigits(v: nat, base: int)
    requires ValidBase(base)
    ensures Value(Digits(v, base), base) == v
  {
    if v > 0 {
      var q, d := v / base, v % base;
      DigitsStep(v, base);
      ValueOfDigits(q, base);
      ValueSnoc(Digits(q, base), d, base);
      DivMod(v, base);
      calc {
        Value(Digits(v, base), base);
        Value(Digits(q, base) + [DigitChar(d)], base);
        Value(Digits(q, base), base) * base + d;
        q * base + d;
      }
    }
  }

  /** Appending a digit multiplies by the base and adds it. */
  lemma ValueSnoc(ds: seq<char>, d: nat, base: int)
    requires ValidBase(base) && d < base
    requires forall i :: 0 <= i < |ds| ==> IsDigitChar(ds[i]) && DigitOf(ds[i]) < base
    ensures forall i :: 0 <= i < |ds + [DigitChar(d)]| ==>
              IsDigitChar((ds + [DigitChar(d)])[i]) && DigitOf((ds + [DigitChar(d)])[i]) < base
    ensures Value(ds + [DigitChar(d)], base) == Value(ds, base) * base + d
  {
    var e := ds + [DigitChar(d)];
    assert e[..|e| - 1] == ds;
    DigitRoundTrip(d);
  }

  lemma DivMod(v: nat, base: int)
    requires ValidBase(base)
    ensures v == (v / base) * base + v % base
  {
  }

  /** `kitoa(val, buf, base)`: "0" for zero; a '-' and the digits of `-val`
      for a negative value in base 10; nothing at all for a negative value
      in any other base; otherwise the digits of `val`. Negating the most
      negative value overflows in the source. */
  function Itoa(val: int32, base: int): (s: string)
    requires ValidBase(base) && (base == 10 ==> val != INT32_MIN)
    ensures (|s| > 0 && s[0] == '-') <==> val < 0 && base == 10
    ensures s == [] <==> val < 0 && base != 10
    ensures val >= 0 ==> forall i :: 0 <= i < |s| ==> IsDigitChar(s[i])
  {
    if val == 0 then "0"
    else if val < 0 && base == 10 then "-" + Digits(-val, 10)
    else if val < 0 then ""
    else Digits(val, base)
  }

  /** `kutoa(val, buf, base)`: "0" for zero, otherwise the digits of `val`. */
  function Utoa(val: uint32, base: int): (s: string)
    requires ValidBase(base)
    ensures |s| > 0 && (|s| > 1 ==> s[0] != '0')
    ensures forall i :: 0 <= i < |s| ==> IsDigitChar(s[i]) && DigitOf(s[i]) < base
    ensures Value(s, base) == val
  {
    ValueOfDigits(val, base);
    if val == 0 then "0" else Digits(val, base)
  }

  function Reverse<T>(s: seq<T>): (r: seq<T>)
    ensures |r| == |s|
    ensures forall i :: 0 <= i < |s| ==> r[i] == s[|s| - 1 - i]
  {
    if s == [] then [] else Reverse(s[1..]) + [s[0]]
  }

  /** The conversion loop shared by `kitoa` and `kutoa`: digits are
      produced least significant first into `tmp`. */
  method DigitLoop(val: nat, base: int) returns (tmp: seq<char>)
    requires ValidBase(base)
    ensures Reverse(tmp) == Digits(val, base)
  {
    var v: nat := val;
    tmp := [];
    assert Reverse(tmp) == [];
    while v > 0
      invariant Digits(val, base) == Digits(v, base) + Reverse(tmp)
      decreases v
    {
      var q, d := v / base, v % base;
      DigitsStep(v, base);
      ReverseSnoc(tmp, DigitChar(d));
      tmp := tmp + [DigitChar(d)];
      v := q;
    }
  }

  lemma DigitsStep(v: nat, base: int)
    requires ValidBase(base) && v > 0
    ensures Digits(v, base) == Digits(v / base, base) + [DigitChar(v % base)]
    ensures v / base < v
  {
    DivShrinks(v, base);
  }

  lemma DivShrinks(v: nat, base: int)
    requires ValidBase(base) && v > 0
    ensures v / base < v
  {
    var q := v / base;
    DivMod(v, base);
    MulNonNegative(q, base - 2);
    assert q * base == q * (base - 2) + 2 * q;
  }

  lemma ReverseSnoc<T>(s: seq<T>, x: T)
    ensures Reverse(s + [x]) == [x] + Reverse(s)
  {
  }

  /** The copy-out loop: `buf[j++] = tmp[--i]`. */
  method CopyReversed(tmp: seq<char>) returns (buf: seq<char>)
    ensures buf == Reverse(tmp)
  {
    var i := |tmp|;
    buf := [];
    while i > 0
      invariant 0 <= i <= |tmp|
      invariant buf == Reverse(tmp[i..])
    {
      assert tmp[i - 1..] == [tmp[i - 1]] + tmp[i..];
      i := i - 1;
      buf := buf + [tmp[i]];
    }
    assert tmp[0..] == tmp;
  }

  /** `kitoa` as the source computes it: digits into `tmp`, the sign after
      them, then `tmp` copied out backwards. */
  method KItoa(val: int32, base: int) returns (s: string)
    requires ValidBase(base) && (base == 10 ==> val != INT32_MIN)
    ensures s == Itoa(val, base)
  {
    if val == 0 {
      return "0";
    }
    var v: int := val;
    var neg := false;
    if val < 0 && base == 10 {
      neg := true;
      v := -val;
    }
    var tmp: seq<char> := [];
    if v > 0 {
      tmp := DigitLoop(v, base);
    }
    if neg {
      assert Reverse(tmp + ['-']) == ['-'] + Reverse(tmp);
      tmp := tmp + ['-'];
    }
    s := CopyReversed(tmp);
  }

  /** `kutoa` as the source computes it. */
  method KUtoa(val: uint32, base: int) returns (s: string)
    requires ValidBase(base)
    ensures s == Utoa(val, base)
  {
    if val == 0 {
      return "0";
    }
    var tmp := DigitLoop(val, base);
    s := CopyReversed(tmp);
  }

  // ---------------------------------------------------------------------
  // Text to integers
  // ---------------------------------------------------------------------

  /** The longest run of decimal digits at the start of `s`. */
  function DigitRun(s: seq<char>): (ds: seq<char>)
    ensures ds <= s
    ensures forall i :: 0 <= i < |ds| ==> IsDecimal(ds[i])
    ensures |ds| < |s| ==> !IsDecimal(s[|ds|])
  {
    if |s| > 0 && IsDecimal(s[0]) then [s[0]] + DigitRun(s[1..]) else []
  }

  /** `katoi`: an optional '-', then the value of the digits that follow.
      The source accumulates in a 32-bit `int`; this is the value it
      computes whenever that does not overflow. */
  function Atoi(s: seq<char>): (v: int)
    requires NUL in s
    ensures |s| > 0 && s[0] != '-' ==> v >= 0
  {
    var magnitude: int := if s[0] == '-' then Value(DigitRun(s[1..]), 10) else Value(DigitRun(s), 10);
    if s[0] == '-' then -magnitude else magnitude
  }

  /** A run of digits ended by a non-digit is the digit run there. */
  lemma {:induction false} DigitRunOf(ds: seq<char>, rest: seq<char>)
    requires forall i :: 0 <= i < |ds| ==> IsDecimal(ds[i])
    requires |rest| > 0 && !IsDecimal(rest[0])
    ensures DigitRun(ds + rest) == ds
  {
    if |ds| > 0 {
      assert (ds + rest)[1..] == ds[1..] + rest;
      DigitRunOf(ds[1..], rest);
    }
  }

  /** `katoi` as the source computes it, digit by digit. */
  method KAtoi(s: seq<char>) returns (v: int)
    requires NUL in s
    ensures v == Atoi(s)
  {
    var neg := false;
    var i := 0;
    if s[0] == '-' {
      neg := true;
      i := 1;
    }
    var start := i;
    var r := 0;
    while IsDecimal(s[i])
      invariant start <= i <= Len(s)
      invariant forall j :: start <= j < i ==> IsDecimal(s[j])
      invariant r == Value(s[start..i], 10)
      decreases Len(s) - i
    {
      ValueNext(s, start, i);
      r := r * 10 + (s[i] as int - '0' as int);
      i := i + 1;
    }
    RunEnds(s, start, i);
    if neg {
      assert s[1..] == s[start..];
      v := -r;
    } else {
      assert s == s[start..];
      v := r;
    }
  }

  /** The digit run from `start` is the digits up to the first non-digit. */
  lemma RunEnds(s: seq<char>, start: nat, i: nat)
    requires start <= i < |s| && !IsDecimal(s[i])
    requires forall j :: start <= j < i ==> IsDecimal(s[j])
    ensures DigitRun(s[start..]) == s[start..i]
  {
    assert s[start..] == s[start..i] + s[i..];
    DigitRunOf(s[start..i], s[i..]);
  }

  predicate DecimalString(ds: seq<char>)
  {
    forall j :: 0 <= j < |ds| ==> IsDigitChar(ds[j]) && DigitOf(ds[j]) < 10
  }

  /** One more decimal digit of a run: ten times the value so far plus the
      digit. */
  lemma ValueNext(s: seq<char>, start: nat, i: nat)
    requires start <= i < |s| && forall j :: start <= j <= i ==> IsDecimal(s[j])
    ensures DecimalString(s[start..i]) && DecimalString(s[start..i + 1])
    ensures Value(s[start..i + 1], 10) == Value(s[start..i], 10) * 10 + (s[i] as int - '0' as int)
  {
    assert s[start..i + 1][..i - start] == s[start..i];
  }

  /** `katoi` reads back what `kitoa` writes in base 10. */
  lemma DecimalRoundTrip(v: int32)
    requires v != INT32_MIN
    ensures Atoi(Itoa(v, 10) + [NUL]) == v
  {
    if v == 0 {
      assert DigitRun("0" + [NUL]) == "0" by { DigitRunOf("0", [NUL]); }
      assert Value("0", 10) == 0;
    } else if v < 0 {
      NegativeRoundTrip(v);
    } else {
      DigitsRoundTrip(v);
    }
  }

  lemma NegativeRoundTrip(v: int32)
    requires INT32_MIN < v < 0
    ensures Atoi(Itoa(v, 10) + [NUL]) == v
  {
    var s := Itoa(v, 10) + [NUL];
    var ds := Digits(-v, 10);
    assert s[1..] == ds + [NUL];
    DigitRunOf(ds, [NUL]);
    ValueOfDigits(-v, 10);
  }

  lemma DigitsRoundTrip(v: nat)
    requires 0 < v < 0x8000_0000
    ensures Atoi(Itoa(v, 10) + [NUL]) == v
  {
    var ds := Digits(v, 10);
    assert Itoa(v, 10) + [NUL] == ds + [NUL];
    DigitRunOf(ds, [NUL]);
    ValueOfDigits(v, 10);
  }

  /** Signed conversions: a sign in decimal, nothing for a negative value
      in any other base, "0" for zero. */
  lemma ConversionExamples()
    ensures Itoa(-42, 10) == "-42" && Itoa(-42, 16) == "" && Itoa(0, 16) == "0"
  {
    assert Digits(42, 10) == Digits(4, 10) + ['2'];
  }

  /** Unsigned conversions: lower-case hexadecimal digits, no padding. */
  lemma UnsignedExamples()
    ensures Utoa(255, 16) == "ff"
  {
    assert Digits(255, 16) == Digits(15, 16) + ['f'];
  }

  lemma ThousandExample()
    ensures Utoa(1000, 10) == "1000"
  {
    assert Digits(10, 10) == Digits(1, 10) + ['0'];
    assert Digits(100, 10) == Digits(10, 10) + ['0'];
    assert Digits(1000, 10) == Digits(100, 10) + ['0'];
  }

  // ---------------------------------------------------------------------
  // Formatting
  // ---------------------------------------------------------------------

  /** One variadic argument: a 32-bit word (read as `i32` or `u32` by the
      conversion) or a pointer to a C string. */
  datatype Arg = Word(w: uint32) | Str(s: seq<char>)

  /** The `i32` a 32-bit word holds in two's complement. */
  function AsInt32(w: uint32): (v: int32)
    ensures w < 0x8000_0000 ==> v == w
    ensures (v - w) % UINT32_MODULUS == 0
  {
    if w < 0x8000_0000 then w else w - UINT32_MODULUS
  }

  function Prepend(p: seq<char>, rest: Option<seq<char>>): (r: Option<seq<char>>)
    ensures r.Some? <==> rest.Some?
    ensures r.Some? ==> r.value == p + rest.value
  {
    if rest.None? then None else Some(p + rest.value)
  }

  /** `%d` of a word: `kitoa` in base 10; the most negative value has no
      defined rendering. */
  function Decimal(w: uint32): Option<string>
  {
    if AsInt32(w) == INT32_MIN then None else Some(Itoa(AsInt32(w), 10))
  }

  /** `%0Wd` / `%0Wu`: the width is the character after '0' minus '0' (any
      character, not only a digit), the type character after it selects
      unsigned for 'u' and signed for anything else, and zeros are written
      before the rendering, sign included, until the width is reached. */
  function Padded(widthChar: char, typeChar: char, w: uint32): (r: Option<string>)
    ensures var width := widthChar as int - '0' as int;
            var body := if typeChar == 'u' then Some(Utoa(w, 10)) else Decimal(w);
            && (r.Some? <==> body.Some?)
            && (r.Some? ==> |r.value| == Max(width, |body.value|)
                            && r.value[|r.value| - |body.value|..] == body.value
                            && forall i :: 0 <= i < |r.value| - |body.value| ==> r.value[i] == '0')
  {
    var width := widthChar as int - '0' as int;
    var body := if typeChar == 'u' then Some(Utoa(w, 10)) else Decimal(w);
    if body.None? then None
    else Some(seq(Max(width - |body.value|, 0), _ => '0') + body.value)
  }

  function Max(a: int, b: int): int { if a < b then b else a }

  /** What `ksprintf` writes for format text `f`, before the terminating
      NUL. `None` where the source is undefined: an argument of the wrong
      kind or missing, a '%' conversion that runs past the end of the
      format, or `%d` of the most negative value. */
  function Render(f: seq<char>, args: seq<Arg>): (r: Option<seq<char>>)
    ensures r.None? ==> '%' in f
    decreases |f|
  {
    if f == [] then Some([])
    else if f[0] != '%' then Prepend([f[0]], Render(f[1..], args))
    else if |f| == 1 then None
    else
      var c := f[1];
      if c == 'd' || c == 'u' || c == 'x' || c == 'c' then
        if args == [] || !args[0].Word? then None
        else
          var w := args[0].w;
          var body := if c == 'd' then Decimal(w)
                      else if c == 'u' then Some(Utoa(w, 10))
                      else if c == 'x' then Some(Utoa(w, 16))
                      else Some([(w % 0x100) as char]);
          if body.None? then None else Prepend(body.value, Render(f[2..], args[1..]))
      else if c == 's' then
        if args == [] || !args[0].Str? || NUL !in args[0].s then None
        else Prepend(Text(args[0].s), Render(f[2..], args[1..]))
      else if c == '0' then
        if |f| < 4 || args == [] || !args[0].Word? then None
        else
          var body := Padded(f[2], f[3], args[0].w);
          if body.None? then None else Prepend(body.value, Render(f[4..], args[1..]))
      else Prepend([c], Render(f[2..], args))
  }

  /** `ksprintf(buf, fmt, ...)`: the formatted text and its terminating NUL. */
  function Sprintf(fmt: seq<char>, args: seq<Arg>): (r: Option<seq<char>>)
    requires NUL in fmt
    ensures r.Some? <==> Render(Text(fmt), args).Some?
    ensures r.Some? ==> r.value == Render(Text(fmt), args).value + [NUL]
    ensures r.Some? ==> |r.value| > 0 && r.value[|r.value| - 1] == NUL
    ensures r.Some? ==> NUL in r.value
  {
    var body := Render(Text(fmt), args);
    if body.None? then None else Some(body.value + [NUL])
  }

  /** Text without '%' is copied as it is, whatever the arguments. */
  lemma {:induction false} RenderLiteral(f: seq<char>, args: seq<Arg>)
    requires '%' !in f
    ensures Render(f, args) == Some(f)
  {
    if f != [] {
      assert '%' !in f[1..];
      RenderLiteral(f[1..], args);
      assert f == [f[0]] + f[1..];
    }
  }

  /** "%%" gives one '%', and so does '%' before any character that is not a
      conversion. */
  lemma RenderEscape(c: char, f: seq<char>, args: seq<Arg>)
    requires c !in "ducsx0"
    ensures Render(['%', c] + f, args) == Prepend([c], Render(f, args))
  {
    assert (['%', c] + f)[2..] == f;
  }

  /** A zero-padded conversion consumes one argument and splices its
      padded rendering in. */
  lemma RenderPadded(wc: char, tc: char, f: seq<char>, w: uint32, args: seq<Arg>)
    requires Padded(wc, tc, w).Some?
    ensures Render(['%', '0', wc, tc] + f, [Word(w)] + args)
         == Prepend(Padded(wc, tc, w).value, Render(f, args))
  {
    var g, a := ['%', '0', wc, tc] + f, [Word(w)] + args;
    assert g[0] == '%' && g[1] == '0' && g[2] == wc && g[3] == tc && g[4..] == f;
    assert a[0] == Word(w) && a[1..] == args;
  }

  /** A conversion consumes one argument and splices its rendering in. */
  lemma RenderConversion(c: char, f: seq<char>, w: uint32, args: seq<Arg>)
    requires c in "ux"
    ensures Render(['%', c] + f, [Word(w)] + args)
         == Prepend(Utoa(w, if c == 'u' then 10 else 16), Render(f, args))
  {
    var g, a := ['%', c] + f, [Word(w)] + args;
    assert g[0] == '%' && g[1] == c && g[2..] == f;
    assert a[0] == Word(w) && a[1..] == args;
  }

  /** `%d` consumes one word and splices in `kitoa` of it in base 10; the
      most negative value has no defined rendering. */
  lemma RenderDecimal(f: seq<char>, w: uint32, args: seq<Arg>)
    ensures AsInt32(w) != INT32_MIN ==>
              Render(['%', 'd'] + f, [Word(w)] + args)
              == Prepend(Itoa(AsInt32(w), 10), Render(f, args))
    ensures AsInt32(w) == INT32_MIN ==> Render(['%', 'd'] + f, [Word(w)] + args).None?
  {
    var g, a := ['%', 'd'] + f, [Word(w)] + args;
    assert g[0] == '%' && g[1] == 'd' && g[2..] == f;
    assert a[0] == Word(w) && a[1..] == args;
  }

  /** `%s` consumes one string and splices in its text up to the NUL. */
  lemma RenderString(s: seq<char>, f: seq<char>, args: seq<Arg>)
    requires NUL in s
    ensures Render(['%', 's'] + f, [Str(s)] + args) == Prepend(Text(s), Render(f, args))
  {
    var g, a := ['%', 's'] + f, [Str(s)] + args;
    assert g[0] == '%' && g[1] == 's' && g[2..] == f;
    assert a[0] == Str(s) && a[1..] == args;
  }

  /** `%c` consumes one word and writes its low byte. */
  lemma RenderChar(f: seq<char>, w: uint32, args: seq<Arg>)
    ensures Render(['%', 'c'] + f, [Word(w)] + args)
         == Prepend([(w % 0x100) as char], Render(f, args))
  {
    var g, a := ['%', 'c'] + f, [Word(w)] + args;
    assert g[0] == '%' && g[1] == 'c' && g[2..] == f;
    assert a[0] == Word(w) && a[1..] == args;
  }

  /** `%02d` of 0..99 is exactly two decimal digits. */
  lemma TwoDigits(v: nat)
    requires v < 100
    ensures Padded('2', 'd', v) == Some([DigitChar(v / 10), DigitChar(v % 10)])
  {
    var body := SmallDecimal(v);
    if v < 10 {
      PadOne(v, DigitChar(v % 10));
      assert DigitChar(v / 10) == '0';
    } else {
      PadNone(v, body);
    }
  }

  /** Zero-padding a one-character rendering to width 2. */
  lemma PadOne(w: uint32, d: char)
    requires Decimal(w) == Some([d])
    ensures Padded('2', 'd', w) == Some(['0', d])
  {
    var t := Padded('2', 'd', w).value;
    assert |t| == 2 && t[1..] == [d] && t[0] == '0';
    assert t == ['0', d];
  }

  /** A two-character rendering needs no padding at width 2. */
  lemma PadNone(w: uint32, body: string)
    requires Decimal(w) == Some(body) && |body| == 2
    ensures Padded('2', 'd', w) == Some(body)
  {
    var t := Padded('2', 'd', w).value;
    assert |t| == 2 && t[0..] == body;
  }

  /** The decimal rendering of 0..99: one digit below 10, two from 10. */
  lemma SmallDecimal(v: nat) returns (body: string)
    requires v < 100
    ensures Decimal(v) == Some(body)
    ensures v < 10 ==> body == [DigitChar(v % 10)]
    ensures v >= 10 ==> body == [DigitChar(v / 10), DigitChar(v % 10)]
  {
    assert AsInt32(v) == v && Digits(0, 10) == [];
    body := Itoa(v, 10);
    if v == 0 {
    } else if v < 10 {
      assert Digits(v, 10) == Digits(0, 10) + [DigitChar(v)];
    } else {
      assert Digits(v, 10) == Digits(v / 10, 10) + [DigitChar(v % 10)];
      assert Digits(v / 10, 10) == Digits(0, 10) + [DigitChar(v / 10)];
    }
  }
}
