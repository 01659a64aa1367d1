/** The clock application's arithmetic: the integer sine and cosine (a
    quarter-wave table of sines scaled by 1000, folded to the whole circle),
    the hand angles, where a hand's tip lands, and the digital read-out.
    Drawing, the redraw loop and the 100 ms wait are outside the model. */
module Clock {
  import opened Hw
  import Libc
  import Timer

  /** The ninety initialisers written for `sin_table`: sin(d) * 1000,
      rounded, for d = 0..89 degrees, in the source's rows of fifteen. */
  const SIN_ROW0: seq<int> := [0, 17, 35, 52, 70, 87, 105, 122, 139, 156, 174, 191, 208, 225, 242]
  const SIN_ROW1: seq<int> := [259, 276, 292, 309, 326, 342, 358, 375, 391, 407, 423, 438, 454, 469, 485]
  const SIN_ROW2: seq<int> := [500, 515, 530, 545, 559, 574, 588, 602, 616, 629, 643, 656, 669, 682, 695]
  const SIN_ROW3: seq<int> := [707, 719, 731, 743, 755, 766, 777, 788, 799, 809, 819, 829, 839, 848, 857]
  const SIN_ROW4: seq<int> := [866, 875, 883, 891, 899, 906, 914, 921, 927, 934, 940, 946, 951, 956, 961]
  const SIN_ROW5: seq<int> := [966, 970, 974, 978, 982, 985, 988, 990, 993, 995, 996, 998, 999, 999, 1000]
  const SIN_FIRST_HALF: seq<int> := SIN_ROW0 + SIN_ROW1 + SIN_ROW2
  const SIN_SECOND_HALF: seq<int> := SIN_ROW3 + SIN_ROW4 + SIN_ROW5
  const SIN_ROWS: seq<int> := SIN_FIRST_HALF + SIN_SECOND_HALF

  /** `sin_table[91]` as declared: C fills the entry left without an
      initialiser, index 90, with 0. */
  const SIN_TABLE_AS_WRITTEN: seq<int> := SIN_ROWS + [0]

  /** The table as intended: sin(90) * 1000 = 1000 at index 90. */
  const SIN_TABLE: seq<int> := SIN_ROWS + [1000]

  const INT32_MAX: int := 0x7FFF_FFFF

  // ---------------------------------------------------------------------
  // The table
  // ---------------------------------------------------------------------

  predicate Sorted(s: seq<int>)
  {
    forall i, j :: 0 <= i <= j < |s| ==> s[i] <= s[j]
  }

  /** Each entry at most the next one. */
  predicate Steps(s: seq<int>)
  {
    forall i :: 0 <= i < |s| - 1 ==> s[i] <= s[i + 1]
  }

  /** Two non-decreasing runs that meet in order make one. */
  lemma StepsAppend(a: seq<int>, b: seq<int>)
    requires Steps(a) && Steps(b) && a != [] && b != [] && a[|a| - 1] <= b[0]
    ensures Steps(a + b)
  {
    var s := a + b;
    forall i | 0 <= i < |s| - 1
      ensures s[i] <= s[i + 1]
    {
      if i + 1 < |a| {
        assert s[i] == a[i] && s[i + 1] == a[i + 1];
      } else if i >= |a| {
        assert s[i] == b[i - |a|] && s[i + 1] == b[i + 1 - |a|];
      } else {
        assert s[i] == a[|a| - 1] && s[i + 1] == b[0];
      }
    }
  }

  /** Neighbours in order means every pair in order. */
  lemma {:induction false} StepsSorted(s: seq<int>)
    requires Steps(s)
    ensures Sorted(s)
  {
    if |s| > 1 {
      var t := s[1..];
      assert Steps(t) by {
        forall i | 0 <= i < |t| - 1
          ensures t[i] <= t[i + 1]
        {
          assert t[i] == s[i + 1] && t[i + 1] == s[i + 2];
        }
      }
      StepsSorted(t);
      forall i, j | 0 <= i <= j < |s|
        ensures s[i] <= s[j]
      {
        if i > 0 {
          assert s[i] == t[i - 1] && s[j] == t[j - 1];
        } else if j > 0 {
          assert s[j] == t[j - 1] && t[0] == s[1];
        }
      }
    }
  }

  /** The written rows rise from 0 to 1000. */
  lemma RowsSteps()
    ensures |SIN_ROWS| == 90 && Steps(SIN_ROWS)
    ensures SIN_ROWS[0] == 0 && SIN_ROWS[1] == 17 && SIN_ROWS[89] == 1000
  {
    FirstHalfSteps();
    SecondHalfSteps();
    StepsAppend(SIN_FIRST_HALF, SIN_SECOND_HALF);
    assert SIN_ROWS[89] == SIN_SECOND_HALF[44];
  }

  lemma FirstHalfSteps()
    ensures |SIN_FIRST_HALF| == 45 && Steps(SIN_FIRST_HALF)
    ensures SIN_FIRST_HALF[0] == 0 && SIN_FIRST_HALF[1] == 17 && SIN_FIRST_HALF[44] == 695
  {
    assert Steps(SIN_ROW0) && Steps(SIN_ROW1) && Steps(SIN_ROW2);
    StepsAppend(SIN_ROW0, SIN_ROW1);
    StepsAppend(SIN_ROW0 + SIN_ROW1, SIN_ROW2);
  }

  lemma SecondHalfSteps()
    ensures |SIN_SECOND_HALF| == 45 && Steps(SIN_SECOND_HALF)
    ensures SIN_SECOND_HALF[0] == 707 && SIN_SECOND_HALF[44] == 1000
  {
    assert Steps(SIN_ROW3) && Steps(SIN_ROW4) && Steps(SIN_ROW5);
    StepsAppend(SIN_ROW3, SIN_ROW4);
    StepsAppend(SIN_ROW3 + SIN_ROW4, SIN_ROW5);
  }

  /** A quarter-wave table of sines scaled by 1000: 91 entries rising from
      0 to at most 1000, positive after the first. */
  predicate QuarterWave(t: seq<int>)
  {
    |t| == 91 && Sorted(t) && t[0] == 0 && t[1] > 0 && t[90] <= 1000
  }

  /** The intended table is a quarter wave that reaches 1000. */
  lemma TableIsQuarterWave()
    ensures QuarterWave(SIN_TABLE) && SIN_TABLE[90] == 1000
  {
    RowsSteps();
    StepsAppend(SIN_ROWS, [1000]);
    StepsSorted(SIN_TABLE);
  }

  /** The table as declared is not one: its last entry drops back to 0. */
  lemma WrittenTableDrops()
    ensures |SIN_TABLE_AS_WRITTEN| == 91
    ensures SIN_TABLE_AS_WRITTEN[89] == 1000 && SIN_TABLE_AS_WRITTEN[90] == 0
    ensures !QuarterWave(SIN_TABLE_AS_WRITTEN)
    ensures forall i :: 0 <= i < 90 ==> SIN_TABLE_AS_WRITTEN[i] == SIN_TABLE[i]
  {
    RowsSteps();
    assert SIN_TABLE_AS_WRITTEN[89] > SIN_TABLE_AS_WRITTEN[90];
  }

  // ---------------------------------------------------------------------
  // Sine and cosine
  // ---------------------------------------------------------------------

  /** C's `%` on `int`, which truncates toward zero: the remainder takes
      the sign of the dividend. */
  function CRem(a: int, b: int): (r: int)
    requires b > 0
    ensures -b < r < b && (a >= 0 ==> r >= 0) && (a < 0 ==> r <= 0)
  {
    if a >= 0 then a % b else -((-a) % b)
  }

  /** C's `/` on `int`, truncating toward zero. */
  function CDiv(a: int, b: int): (q: int)
    requires b > 0
    ensures a >= 0 ==> q >= 0
    ensures a <= 0 ==> q <= 0
  {
    if a >= 0 then a / b else -((-a) / b)
  }

  /** Truncating quotient and remainder recompose the dividend. */
  lemma CDivSplit(a: int, b: int)
    requires b > 0
    ensures CDiv(a, b) * b + CRem(a, b) == a
  {
    if a < 0 {
      var n := -a;
      assert n == (n / b) * b + n % b;
      assert (-(n / b)) * b == -((n / b) * b);
    }
  }

  /** `((deg % 360) + 360) % 360`: the angle brought into 0..359, a whole
      number of turns away from `deg`. */
  function Normalize(deg: int32): (d: nat)
    ensures d < 360 && d - deg == 360 * ((d - deg) / 360)
  {
    var q := CDiv(deg, 360);
    var r := CRem(deg, 360);
    CDivSplit(deg, 360);
    assert deg == 360 * q + r;
    (r + 360) % 360
  }

  /** The normalized angle is the angle plus a whole number of turns. */
  lemma Turns(deg: int32) returns (k: int)
    ensures Normalize(deg) == deg + 360 * k
  {
    k := (Normalize(deg) - deg) / 360;
  }

  /** Two angles in 0..359 a whole number of turns apart are equal. */
  lemma SameAngle(x: int, y: int, k: int)
    requires 0 <= x < 360 && 0 <= y < 360 && x - y == 360 * k
    ensures x == y
  {
  }

  lemma NormalizeSmall(deg: int32)
    requires 0 <= deg < 360
    ensures Normalize(deg) == deg
  {
    var d := Normalize(deg);
    SameAngle(d, deg, (d - deg) / 360);
  }

  /** The body of `isin` after normalising, for a 91-entry table: the
      second quarter mirrors the first, the lower half turn negates the
      upper. With a quarter-wave table the result lies in [-1000, 1000]
      and its sign is the half turn's. */
  function Fold(table: seq<int>, d: nat): (r: int)
    requires |table| == 91 && d < 360
    ensures QuarterWave(table) ==> -1000 <= r <= 1000
    ensures QuarterWave(table) ==> (r > 0 <==> 0 < d < 180) && (r < 0 <==> 180 < d)
  {
    var i := if d <= 90 then d else if d <= 180 then 180 - d else if d <= 270 then d - 180 else 360 - d;
    assert QuarterWave(table) ==> table[0] <= table[i] <= table[90];
    assert QuarterWave(table) && i > 0 ==> table[1] <= table[i];
    if d <= 180 then table[i] else -table[i]
  }

  /** The fold makes any table odd about 0 degrees... */
  lemma FoldOdd(table: seq<int>, d: nat)
    requires |table| == 91 && d < 360 && table[0] == 0
    ensures Fold(table, (360 - d) % 360) == -Fold(table, d)
  {
  }

  /** ...antiperiodic over half a turn... */
  lemma FoldHalfTurn(table: seq<int>, d: nat)
    requires |table| == 91 && d < 360 && table[0] == 0
    ensures Fold(table, (d + 180) % 360) == -Fold(table, d)
  {
  }

  /** ...and symmetric about 90. */
  lemma FoldMirror(table: seq<int>, d: nat)
    requires |table| == 91 && d < 360 && table[0] == 0
    ensures Fold(table, (540 - d) % 360) == Fold(table, d)
  {
  }

  /** `isin(deg)` with the intended table: sin(deg) * 1000 by lookup. It
      lies in [-1000, 1000], is positive strictly inside the upper half
      turn, negative strictly inside the lower one and zero at 0 and 180
      degrees. */
  function Isin(deg: int32): (r: int)
    ensures -1000 <= r <= 1000
    ensures r > 0 <==> 0 < Normalize(deg) < 180
    ensures r < 0 <==> 180 < Normalize(deg)
  {
    TableIsQuarterWave();
    Fold(SIN_TABLE, Normalize(deg))
  }

  /** `isin(deg)` with `sin_table` as declared: still within [-1000, 1000],
      but zero at every quarter turn, so it is positive only strictly
      inside the two upper octants and negative only strictly inside the
      two lower ones. */
  function IsinAsWritten(deg: int32): (r: int)
    ensures -1000 <= r <= 1000
    ensures r == 0 <==> Normalize(deg) % 90 == 0
    ensures r > 0 <==> 0 < Normalize(deg) < 180 && Normalize(deg) != 90
    ensures r < 0 <==> 180 < Normalize(deg) && Normalize(deg) != 270
  {
    WrittenEntries();
    FoldZeroEnds(SIN_TABLE_AS_WRITTEN, Normalize(deg));
    Fold(SIN_TABLE_AS_WRITTEN, Normalize(deg))
  }

  /** A 91-entry table that is 0 at both ends and positive between, folded
      over the circle: zero at the quarter turns, and elsewhere the sign of
      the half turn. */
  lemma FoldZeroEnds(t: seq<int>, d: nat)
    requires |t| == 91 && d < 360
    requires forall i :: 0 <= i <= 90 ==> 0 <= t[i] <= 1000 && (t[i] == 0 <==> i == 0 || i == 90)
    ensures var r := Fold(t, d);
            && -1000 <= r <= 1000
            && (r == 0 <==> d % 90 == 0)
            && (r > 0 <==> 0 < d < 180 && d != 90)
            && (r < 0 <==> 180 < d && d != 270)
  {
    var i := if d <= 90 then d else if d <= 180 then 180 - d else if d <= 270 then d - 180 else 360 - d;
    assert Fold(t, d) == if d <= 180 then t[i] else -t[i];
  }

  lemma WrittenEntries()
    ensures |SIN_TABLE_AS_WRITTEN| == 91
    ensures forall i :: 0 <= i <= 90 ==>
              0 <= SIN_TABLE_AS_WRITTEN[i] <= 1000 && (SIN_TABLE_AS_WRITTEN[i] == 0 <==> i == 0 || i == 90)
  {
    WrittenTableDrops();
    forall i | 0 <= i <= 90
      ensures 0 <= SIN_TABLE_AS_WRITTEN[i] <= 1000 && (SIN_TABLE_AS_WRITTEN[i] == 0 <==> i == 0 || i == 90)
    {
      WrittenEntry(i);
    }
  }

  /** One entry of the declared table: 0 at both ends, positive between. */
  lemma WrittenEntry(i: nat)
    requires i <= 90
    ensures |SIN_TABLE_AS_WRITTEN| == 91
    ensures 0 <= SIN_TABLE_AS_WRITTEN[i] <= 1000
    ensures SIN_TABLE_AS_WRITTEN[i] == 0 <==> i == 0 || i == 90
  {
    WrittenTableDrops();
    TableIsQuarterWave();
    if i < 90 {
      assert SIN_TABLE_AS_WRITTEN[i] == SIN_TABLE[i];
      assert SIN_TABLE[0] <= SIN_TABLE[i] <= SIN_TABLE[90];
      if i > 0 {
        assert SIN_TABLE[1] <= SIN_TABLE[i];
      }
    }
  }

  /** The declared table differs from the intended one only in its last
      entry, so the two sines agree except straight up and straight down,
      where the written one is 0 instead of 1000 and -1000. */
  lemma AsWrittenDiffers(deg: int32)
    ensures IsinAsWritten(deg) == Isin(deg) <==> Normalize(deg) != 90 && Normalize(deg) != 270
    ensures Normalize(deg) == 90 || Normalize(deg) == 270 ==> IsinAsWritten(deg) == 0
  {
    WrittenTableDrops();
    TableIsQuarterWave();
  }

  /** `icos(deg)`: the sine a quarter turn ahead. The addition is a C `int`
      one, so `deg` must leave room for it. */
  function Icos(deg: int32): (r: int)
    requires deg <= INT32_MAX - 90
    ensures -1000 <= r <= 1000
    ensures r == Isin(deg + 90)
  {
    Isin(deg + 90)
  }

  /** Whole turns do not change the sine. */
  lemma IsinPeriodic(deg: int32)
    requires deg <= INT32_MAX - 360
    ensures Isin(deg + 360) == Isin(deg)
  {
    var k1 := Turns(deg);
    var k2 := Turns(deg + 360);
    SameAngle(Normalize(deg + 360), Normalize(deg), k2 + 1 - k1);
  }

  /** The sine is odd: sin(-x) = -sin(x). */
  lemma IsinOdd(deg: int32)
    requires deg > -0x8000_0000
    ensures Isin(-deg) == -Isin(deg)
  {
    NegatedAngle(deg);
    TableIsQuarterWave();
    FoldOdd(SIN_TABLE, Normalize(deg));
  }

  lemma NegatedAngle(deg: int32)
    requires deg > -0x8000_0000
    ensures Normalize(-deg) == (360 - Normalize(deg)) % 360
  {
    var d1, d2 := Normalize(deg), Normalize(-deg);
    var k1 := Turns(deg);
    var k2 := Turns(-deg);
    if d1 == 0 {
      SameAngle(d2, 0, k1 + k2);
    } else {
      SameAngle(d2, 360 - d1, k1 + k2 - 1);
    }
  }

  /** Half a turn negates the sine: sin(x + 180) = -sin(x). */
  lemma IsinHalfTurn(deg: int32)
    requires deg <= INT32_MAX - 180
    ensures Isin(deg + 180) == -Isin(deg)
  {
    HalfTurnAngle(deg);
    TableIsQuarterWave();
    FoldHalfTurn(SIN_TABLE, Normalize(deg));
  }

  lemma HalfTurnAngle(deg: int32)
    requires deg <= INT32_MAX - 180
    ensures Normalize(deg + 180) == (Normalize(deg) + 180) % 360
  {
    var d1, d2 := Normalize(deg), Normalize(deg + 180);
    var k1 := Turns(deg);
    var k2 := Turns(deg + 180);
    if d1 < 180 {
      SameAngle(d2, d1 + 180, k2 - k1);
    } else {
      SameAngle(d2, d1 - 180, k2 - k1 + 1);
    }
  }

  /** The sine mirrors about 90 degrees: sin(180 - x) = sin(x). */
  lemma IsinMirror(deg: int32)
    requires deg >= 180 - INT32_MAX
    ensures Isin(180 - deg) == Isin(deg)
  {
    MirroredAngle(deg);
    TableIsQuarterWave();
    FoldMirror(SIN_TABLE, Normalize(deg));
  }

  lemma MirroredAngle(deg: int32)
    requires deg >= 180 - INT32_MAX
    ensures Normalize(180 - deg) == (540 - Normalize(deg)) % 360
  {
    var d1, d2 := Normalize(deg), Normalize(180 - deg);
    var k1 := Turns(deg);
    var k2 := Turns(180 - deg);
    if d1 <= 180 {
      SameAngle(d2, 180 - d1, k1 + k2);
    } else {
      SameAngle(d2, 540 - d1, k1 + k2 - 1);
    }
  }

  /** Over the first quarter turn the sine does not decrease. */
  lemma IsinMonotone(a: int32, b: int32)
    requires 0 <= a <= b <= 90
    ensures Isin(a) <= Isin(b)
  {
    NormalizeSmall(a);
    NormalizeSmall(b);
    TableIsQuarterWave();
  }

  /** Table values at the angles the clock face relies on. */
  lemma TrigExamples()
    ensures Isin(0) == 0 && Isin(30) == 500 && Isin(90) == 1000
    ensures Isin(180) == 0 && Isin(270) == -1000 && Isin(-90) == -1000
    ensures Icos(0) == 1000 && Icos(-90) == 0 && Icos(90) == 0
  {
    TableIsQuarterWave();
    RowsSteps();
    NormalizeSmall(0);
    NormalizeSmall(30);
    NormalizeSmall(90);
    NormalizeSmall(180);
    NormalizeSmall(270);
    assert Normalize(-90) == 270;
    assert SIN_TABLE[30] == SIN_ROWS[30] == 500;
  }

  // ---------------------------------------------------------------------
  // The face
  // ---------------------------------------------------------------------

  /** The hour shown: the RTC's hour moved one zone east, `(hour + 1) % 24`. */
  function DisplayHour(hour: uint8): (h: nat)
    ensures h < 24
    ensures hour < 23 ==> h == hour + 1
    ensures hour == 23 ==> h == 0
  {
    (hour + 1) % 24
  }

  /** The three hand angles in degrees clockwise from twelve o'clock:
      second, minute (creeping a degree per ten seconds) and hour (creeping
      a degree per two minutes). */
  datatype Angles = Angles(second: nat, minute: nat, hour: nat)

  function HandAngles(hour: nat, minute: uint8, second: uint8): (a: Angles)
    ensures second < 60 ==> a.second < 360 && a.second / 6 == second
    ensures second < 60 && minute < 60 ==> a.minute < 360 && a.minute / 6 == minute
    ensures minute < 60 ==> a.hour < 360 && a.hour / 30 == hour % 12
  {
    Angles(second * 6, minute * 6 + second / 10, (hour % 12) * 30 + minute / 2)
  }

  /** For a valid time every hand angle is a proper angle, and the hour
      hand points at the hour mark before it. */
  lemma HandAnglesInRange(hour: nat, minute: uint8, second: uint8)
    requires hour < 24 && minute < 60 && second < 60
    ensures var a := HandAngles(hour, minute, second);
            && a.second < 360 && a.minute < 360 && a.hour < 360
            && a.hour / 30 == hour % 12 && a.minute / 6 == minute && a.second / 6 == second
  {
  }

  /** Where `draw_hand` puts the tip of a hand `len` pixels long at
      `angle`: the offset from the centre, with screen y growing downward
      and C's truncating division. */
  function HandTip(angle: int32, len: nat): (tip: (int, int))
    requires angle >= -0x8000_0000 + 90 && 1000 * len <= INT32_MAX
    ensures -(len as int) <= tip.0 <= len && -(len as int) <= tip.1 <= len
  {
    var c, s := Icos(angle - 90), Isin(angle - 90);
    Scale(c, len);
    Scale(s, len);
    (CDiv(c * len, 1000), CDiv(s * len, 1000))
  }

  lemma Scale(v: int, len: nat)
    requires -1000 <= v <= 1000
    ensures -(len as int) <= CDiv(v * len, 1000) <= len
  {
    var p := v * len;
    if v >= 0 {
      Timer.MulMonotone(v, 1000, len);
      assert 0 <= p <= 1000 * len;
      assert CDiv(p, 1000) == p / 1000;
    } else {
      Timer.MulMonotone(-v, 1000, len);
      assert (-v) * len == -p;
      assert 0 <= -p <= 1000 * len;
      assert CDiv(p, 1000) == -((-p) / 1000);
    }
  }

  /** Scaling the full value 1000 gives back the length exactly. */
  lemma ScaleFull(len: nat)
    ensures CDiv(1000 * len, 1000) == len
    ensures CDiv(-1000 * len, 1000) == -(len as int)
    ensures CDiv(0 * len, 1000) == 0
  {
    assert (1000 * len) / 1000 == len;
    assert -1000 * len == -(1000 * len);
  }

  /** The hands point up at 0 degrees, right at 90, down at 180 and left at
      270. */
  lemma HandTipQuarters(len: nat)
    requires 1000 * len <= INT32_MAX
    ensures HandTip(0, len).0 == 0 && HandTip(0, len).1 == -(len as int)
    ensures HandTip(90, len).0 == len && HandTip(90, len).1 == 0
    ensures HandTip(180, len).0 == 0 && HandTip(180, len).1 == len
    ensures HandTip(270, len).0 == -(len as int) && HandTip(270, len).1 == 0
  {
    ScaleFull(len);
    QuarterSines();
  }

  /** `draw_hand`'s tip with `sin_table` as declared. */
  function HandTipAsWritten(angle: int32, len: nat): (tip: (int, int))
    requires angle >= -0x8000_0000 + 90 && 1000 * len <= INT32_MAX
    ensures -(len as int) <= tip.0 <= len && -(len as int) <= tip.1 <= len
  {
    Scale(IsinAsWritten(angle - 90 + 90), len);
    Scale(IsinAsWritten(angle - 90), len);
    (CDiv(IsinAsWritten(angle - 90 + 90) * len, 1000), CDiv(IsinAsWritten(angle - 90) * len, 1000))
  }

  /** With the table as declared, the hands drawn at 12, 3, 6 and 9
      o'clock have no length at all: both offsets of the tip are 0. */
  lemma VanishingHands(len: nat)
    requires 1000 * len <= INT32_MAX
    ensures HandTipAsWritten(0, len) == (0, 0)
    ensures HandTipAsWritten(90, len) == (0, 0)
    ensures HandTipAsWritten(180, len) == (0, 0)
    ensures HandTipAsWritten(270, len) == (0, 0)
  {
    NormalizeSmall(0);
    NormalizeSmall(90);
    NormalizeSmall(180);
    NormalizeSmall(270);
    assert Normalize(-90) == 270;
    ScaleFull(len);
  }

  /** Sine and cosine of the four quarter turns as `draw_hand` asks for
      them, a quarter turn back from the hand's angle. */
  lemma QuarterSines()
    ensures Icos(-90) == 0 && Isin(-90) == -1000
    ensures Icos(0) == 1000 && Isin(0) == 0
    ensures Icos(90) == 0 && Isin(90) == 1000
    ensures Icos(180) == -1000 && Isin(180) == 0
  {
    TrigExamples();
    NormalizeSmall(270);
    assert Icos(180) == Isin(270);
  }

  // ---------------------------------------------------------------------
  // The digital read-out
  // ---------------------------------------------------------------------

  const TIME_FORMAT: string := "%02d:%02d:%02d"

  /** Two decimal digits of a value below 100. */
  function Pair(v: nat): string
    requires v < 100
  {
    [Libc.DigitChar(v / 10), Libc.DigitChar(v % 10)]
  }

  /** One `%02d` field of a value below 100 is its two digits. */
  lemma RenderField(f: string, v: nat, args: seq<Libc.Arg>)
    requires v < 100
    ensures Libc.Render("%02d" + f, [Libc.Word(v)] + args)
         == Libc.Prepend(Pair(v), Libc.Render(f, args))
  {
    Libc.TwoDigits(v);
    assert "%02d" + f == ['%', '0', '2', 'd'] + f;
    Libc.RenderPadded('2', 'd', f, v, args);
  }

  lemma RenderColon(f: string, args: seq<Libc.Arg>)
    ensures Libc.Render(":" + f, args) == Libc.Prepend(":", Libc.Render(f, args))
  {
    assert (":" + f)[0] == ':' && (":" + f)[1..] == f;
  }

  /** The two digits read back as the value. */
  lemma PairValue(v: nat)
    requires v < 100
    ensures forall i :: 0 <= i < 2 ==> Libc.IsDigitChar(Pair(v)[i]) && Libc.DigitOf(Pair(v)[i]) < 10
    ensures Libc.Value(Pair(v), 10) == v
  {
    var p := Pair(v);
    Libc.DigitRoundTrip(v / 10);
    Libc.DigitRoundTrip(v % 10);
    assert p[..1] == [p[0]] && p[..1][..0] == [];
    assert Libc.Value(p[..1], 10) == Libc.DigitOf(p[0]) == v / 10;
    assert Libc.Value(p, 10) == (v / 10) * 10 + v % 10;
  }

  /** The format renders a valid time as "HH:MM:SS". */
  lemma TimeRender(h: nat, m: nat, s: nat)
    requires h < 100 && m < 100 && s < 100
    ensures Libc.Render(TIME_FORMAT, [Libc.Word(h), Libc.Word(m), Libc.Word(s)])
         == Libc.Some(Pair(h) + ":" + Pair(m) + ":" + Pair(s))
  {
    var ph, pm, ps := Pair(h), Pair(m), Pair(s);
    MinutesSeconds(m, s);
    RenderColon("%02d:%02d", [Libc.Word(m), Libc.Word(s)]);
    RenderField(":%02d:%02d", h, [Libc.Word(m), Libc.Word(s)]);
    assert [Libc.Word(h)] + [Libc.Word(m), Libc.Word(s)] == [Libc.Word(h), Libc.Word(m), Libc.Word(s)];
    FormatSplit();
    Regroup(ph, pm, ps);
  }

  lemma FormatSplit()
    ensures "%02d" + ":%02d:%02d" == TIME_FORMAT
  {
  }

  lemma Regroup(a: string, b: string, c: string)
    ensures a + (":" + (b + ":" + c)) == a + ":" + b + ":" + c
  {
  }

  /** The last two fields, "MM:SS". */
  lemma MinutesSeconds(m: nat, s: nat)
    requires m < 100 && s < 100
    ensures Libc.Render("%02d:%02d", [Libc.Word(m), Libc.Word(s)]) == Libc.Some(Pair(m) + ":" + Pair(s))
  {
    var pm, ps := Pair(m), Pair(s);
    RenderField("", s, []);
    assert Libc.Render("", []) == Libc.Some([]);
    assert [Libc.Word(s)] + [] == [Libc.Word(s)] && "%02d" + "" == "%02d" && ps + [] == ps;
    RenderColon("%02d", [Libc.Word(s)]);
    RenderField(":%02d", m, [Libc.Word(s)]);
    assert [Libc.Word(m)] + [Libc.Word(s)] == [Libc.Word(m), Libc.Word(s)];
    assert "%02d" + ":%02d" == "%02d:%02d";
    assert pm + (":" + ps) == pm + ":" + ps;
  }

  /** `ksprintf(time_str, "%02d:%02d:%02d", ...)` of a valid time is
      "HH:MM:SS" and its NUL. */
  lemma TimeString(h: nat, m: nat, s: nat)
    requires h < 100 && m < 100 && s < 100
    ensures Libc.Sprintf(TIME_FORMAT + [Libc.NUL], [Libc.Word(h), Libc.Word(m), Libc.Word(s)])
         == Libc.Some(Pair(h) + ":" + Pair(m) + ":" + Pair(s) + [Libc.NUL])
  {
    Libc.TextOfLiteral(TIME_FORMAT);
    TimeRender(h, m, s);
  }
}
