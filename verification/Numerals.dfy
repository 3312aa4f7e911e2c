// itoa of mp3/student-distrib/lib.c: the digits of a value, low first and then reversed.
module Numerals {
  import opened Bytes
  import opened CStrings
  import opened Limits

  const ZERO: Byte := 48

  /** lookup[d]: 0 to 9, then A to Z. */
  function Digit(d: int): Byte
    requires 0 <= d < 36
  {
    if d < 10 then (48 + d) as Byte else (55 + d) as Byte
  }

  /** The digits are those of the source's table. */
  lemma DigitsAre(d: int)
    requires 0 <= d < 36
    ensures Digit(d) as int == "0123456789ABCDEFGHIJKLMNOPQRSTUVWXYZ"[d] as int
  {
  }

  /** What a character stands for as a digit; 36 when it is none. */
  function DigitValue(c: Byte): (d: nat)
    ensures d <= 36
  {
    if 48 <= c <= 57 then c as int - 48 else if 65 <= c <= 90 then c as int - 55 else 36
  }

  /** The number a string of digits stands for, read as people read it. */
  function ReadBack(s: seq<Byte>, radix: nat): nat {
    if s == [] then 0 else ReadBack(s[..|s| - 1], radix) * radix + DigitValue(s[|s| - 1])
  }

  predicate IsNumeral(s: seq<Byte>, radix: nat) {
    && s != [] && (forall k | 0 <= k < |s| :: DigitValue(s[k]) < radix)
    && (s[0] == ZERO ==> |s| == 1)
  }

  lemma Divided(v: nat, radix: nat)
    requires 2 <= radix
    ensures 0 <= v / radix && v == (v / radix) * radix + v % radix && 0 <= v % radix < radix
    ensures 2 * (v / radix) <= v && (v > 0 ==> v / radix < v)
  {
    var q := v / radix;
    assert v == q * radix + v % radix;
    assert q * radix >= q * 2;
  }

  lemma DividedOnlyWay(v: nat, radix: nat, q: nat, d: nat)
    requires 2 <= radix && v == q * radix + d && d < radix
    ensures q == v / radix && d == v % radix
  {
    var p, e := v / radix, v % radix;
    Divided(v, radix);
    OneDivision(radix, p, e, q, d);
  }

  /** The digits as itoa first emits them. */
  function LowFirst(v: nat, radix: nat): seq<Byte>
    requires 2 <= radix <= 36
    decreases v
  {
    Divided(v, radix);
    if v == 0 then [] else [Digit(v % radix)] + LowFirst(v / radix, radix)
  }

  /** The numeral that itoa leaves. */
  function Numeral(v: nat, radix: nat): seq<Byte>
    requires 2 <= radix <= 36
  {
    if v == 0 then [ZERO] else Reversed(LowFirst(v, radix))
  }

  lemma {:induction false} ReversedReadsBack(v: nat, radix: nat)
    requires 2 <= radix <= 36 && v > 0
    ensures IsNumeral(Reversed(LowFirst(v, radix)), radix) && Reversed(LowFirst(v, radix))[0] != ZERO
    ensures ReadBack(Reversed(LowFirst(v, radix)), radix) == v
    decreases v
  {
    Divided(v, radix);
    var low, d := LowFirst(v / radix, radix), Digit(v % radix);
    assert LowFirst(v, radix)[1..] == low;
    var s := Reversed(low) + [d];
    assert Reversed(LowFirst(v, radix)) == s;
    assert s[..|s| - 1] == Reversed(low);
    if v / radix > 0 {
      ReversedReadsBack(v / radix, radix);
      assert s[0] == Reversed(low)[0];
    } else {
      assert low == [] && Reversed(low) == [];
    }
  }

  /** The numeral reads back as the value and has no leading zero unless it is 0. */
  lemma NumeralReadsBack(v: nat, radix: nat)
    requires 2 <= radix <= 36
    ensures IsNumeral(Numeral(v, radix), radix) && ReadBack(Numeral(v, radix), radix) == v
    ensures Numeral(v, radix)[0] == ZERO <==> v == 0
  {
    if v > 0 {
      ReversedReadsBack(v, radix);
    } else {
      assert [ZERO][..0] == [];
      assert ReadBack([ZERO][..0], radix) * radix == 0;
    }
  }

  lemma {:induction false} PositiveWhenNoLeadingZero(s: seq<Byte>, radix: nat)
    requires 2 <= radix <= 36 && IsNumeral(s, radix) && s[0] != ZERO
    ensures ReadBack(s, radix) > 0
  {
    if |s| == 1 {
      assert s[..0] == [];
    } else {
      PositiveWhenNoLeadingZero(s[..|s| - 1], radix);
      Times(0, ReadBack(s[..|s| - 1], radix), radix);
    }
  }

  /** There is no other numeral for the value. */
  lemma {:induction false} OnlyOneNumeral(s: seq<Byte>, radix: nat)
    requires 2 <= radix <= 36 && IsNumeral(s, radix)
    ensures s == Numeral(ReadBack(s, radix), radix)
  {
    var v, n := ReadBack(s, radix), |s| - 1;
    if s[0] == ZERO {
      assert s[..0] == [] && s == [ZERO];
    } else {
      PositiveWhenNoLeadingZero(s, radix);
      DividedOnlyWay(v, radix, ReadBack(s[..n], radix), DigitValue(s[n]));
      assert Digit(DigitValue(s[n])) == s[n];
      assert LowFirst(v, radix)[1..] == LowFirst(v / radix, radix);
      if n == 0 {
        assert s[..0] == [];
      } else {
        OnlyOneNumeral(s[..n], radix);
      }
      assert s == s[..n] + [s[n]];
    }
  }

  lemma {:induction false} NoNulInDigits(v: nat, radix: nat)
    requires 2 <= radix <= 36
    ensures forall k | 0 <= k < |LowFirst(v, radix)| :: LowFirst(v, radix)[k] != NUL
    decreases v
  {
    if v > 0 {
      Divided(v, radix);
      NoNulInDigits(v / radix, radix);
    }
  }

  /** One more digit emitted. */
  lemma EmitNext(now: seq<Byte>, n: nat, v: nat, radix: nat, low: seq<Byte>)
    requires 2 <= radix <= 36 && v > 0 && n < |now| && now[..n] + LowFirst(v, radix) == low
    ensures v / radix >= 0 && v / radix < v && 0 <= v % radix < 36
    ensures |low| > n && now[n := Digit(v % radix)][..n + 1] + LowFirst(v / radix, radix) == low
  {
    Divided(v, radix);
    var next := now[n := Digit(v % radix)];
    assert next[..n + 1] == now[..n] + [Digit(v % radix)];
  }

  /** The NUL goes right behind the digits. */
  lemma EmitEnd(now: seq<Byte>, n: nat, v: nat, radix: nat)
    requires 2 <= radix <= 36 && n < |now| && now[..n] == LowFirst(v, radix) && now[n] == NUL
    ensures TextLength(now) == n
  {
    NoNulInDigits(v, radix);
    assert forall k | 0 <= k < n :: now[k] == now[..n][k];
    TextLengthIs(now, n);
  }

  function PowerOf2(n: nat): nat {
    if n == 0 then 1 else 2 * PowerOf2(n - 1)
  }

  lemma {:induction false} DigitsFit(v: nat, radix: nat, n: nat)
    requires 2 <= radix <= 36 && v < PowerOf2(n)
    ensures |LowFirst(v, radix)| <= n
  {
    if v > 0 {
      Divided(v, radix);
      hide Digit;
      DigitsFit(v / radix, radix, n - 1);
    }
  }

  /** 33 bytes are room enough for every 32-bit value in every radix. */
  lemma RoomForAll(v: nat, radix: nat)
    requires v < 0x1_0000_0000 && 2 <= radix <= 36
    ensures 1 <= |Numeral(v, radix)| <= 32
  {
    assert PowerOf2(8) == 0x100;
    assert PowerOf2(16) == 0x1_0000;
    assert PowerOf2(24) == 0x100_0000;
    assert PowerOf2(32) == 0x1_0000_0000;
    DigitsFit(v, radix, 32);
    NumeralReadsBack(v, radix);
  }

  /** itoa, for a buffer with room for the digits and their NUL. */
  method Itoa(value: nat, buf: array<Byte>, radix: nat)
    requires value < 0x1_0000_0000 && 2 <= radix <= 36
    requires |Numeral(value, radix)| + 1 <= buf.Length
    modifies buf
    ensures var t := Numeral(value, radix);
      buf[..|t|] == t && buf[|t|] == NUL && buf[|t| + 1..] == old(buf[|t| + 1..])
  {
    if value == 0 {
      buf[0] := ZERO;
      buf[1] := NUL;
      return;
    }
    ghost var low, was := LowFirst(value, radix), buf[..];
    var n, newval := 0, value;
    while newval > 0
      invariant 0 <= n < buf.Length && 0 <= newval && buf[..][..n] + LowFirst(newval, radix) == low
      invariant n <= |low| < buf.Length && buf[..][|low| + 1..] == was[|low| + 1..]
      decreases newval
    {
      hide LowFirst, Digit;
      EmitNext(buf[..], n, newval, radix, low);
      buf[n] := Digit(newval % radix);
      n := n + 1;
      newval := newval / radix;
    }
    buf[n] := NUL;
    EmitEnd(buf[..], n, value, radix);
    Strrev(buf);
  }
}
