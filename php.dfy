/** Models of the PHP built-ins the writer relies on: dechex, decbin, bindec,
    hex2bin, str_repeat, str_split, array_reverse and implode. Hex and binary
    numbers are PHP strings of ASCII digits, modelled as `string`; the bytes
    hex2bin produces are `seq<byte>`. */
module Php {
  import opened Bytes

  predicate IsHexChar(c: char)
  {
    '0' <= c <= '9' || 'a' <= c <= 'f' || 'A' <= c <= 'F'
  }

  /** The value of one digit; hex2bin accepts both letter cases. */
  function DigitValue(c: char): (d: nat)
    requires IsHexChar(c)
    ensures d < 16
  {
    if '0' <= c <= '9' then c as int - '0' as int
    else if 'a' <= c <= 'f' then c as int - 'a' as int + 10
    else c as int - 'A' as int + 10
  }

  /** The digit dechex and decbin print for d: '0'-'9', then lower-case 'a'-'f'. */
  function DigitChar(d: nat): (c: char)
    requires d < 16
    ensures IsHexChar(c) && DigitValue(c) == d
  {
    if d < 10 then ('0' as int + d) as char else ('a' as int + d - 10) as char
  }

  /** s is a string of digits of the given base (2 for binary, 16 for hex). */
  predicate IsDigits(s: string, base: nat)
  {
    forall i | 0 <= i < |s| :: IsHexChar(s[i]) && DigitValue(s[i]) < base
  }

  /** dechex / decbin: the digits of v in the base, most significant first,
      without leading zeros; 0 prints as "0". */
  function Digits(v: nat, base: nat): (s: string)
    requires 2 <= base <= 16
    ensures 1 <= |s| && IsDigits(s, base)
    decreases v
  {
    if v < base then [DigitChar(v)]
    else
      DigitStep(v, base);
      var last := [DigitChar(v % base)];
      DigitsAppend(Digits(v / base, base), last, base);
      Digits(v / base, base) + last
  }

  function DecHex(v: nat): string
  {
    Digits(v, 16)
  }

  function DecBin(v: nat): string
  {
    Digits(v, 2)
  }

  /** The number a digit string denotes, read most significant digit first. */
  function Value(s: string, base: nat): nat
    requires IsDigits(s, base)
  {
    if s == [] then 0 else Value(s[..|s| - 1], base) * base + DigitValue(s[|s| - 1])
  }

  /** bindec, on the binary strings the writer gives it. */
  function BinDec(s: string): nat
    requires IsDigits(s, 2)
  {
    Value(s, 2)
  }

  /** hex2bin: every two hex digits become one byte. PHP rejects an odd
      length or a non-hex character; the writer never passes either. */
  function Hex2Bin(s: string): (r: seq<byte>)
    requires IsDigits(s, 16) && |s| % 2 == 0
    ensures |r| == |s| / 2
  {
    if s == [] then [] else [HexByte(s[0], s[1])] + Hex2Bin(s[2..])
  }

  /** The byte two hex digits stand for, high digit first. */
  function HexByte(hi: char, lo: char): byte
    requires IsHexChar(hi) && IsHexChar(lo)
  {
    (DigitValue(hi) * 16 + DigitValue(lo)) as byte
  }

  /** str_repeat of a one-character string. A count of zero or less yields
      the empty string: PHP up to 7.3 returns NULL for a negative count,
      which concatenates as "". */
  function StrRepeat(c: char, times: int): (r: string)
    ensures |r| == if times <= 0 then 0 else times
    ensures forall i | 0 <= i < |r| :: r[i] == c
    decreases times
  {
    if times <= 0 then [] else [c] + StrRepeat(c, times - 1)
  }

  /** str_split: pieces of n characters, the last one possibly shorter.
      str_split("") is [""] (PHP before 8.2). */
  function StrSplit(s: string, n: nat): (parts: seq<string>)
    requires n >= 1
    ensures |parts| >= 1
    decreases |s|
  {
    if |s| <= n then [s] else [s[..n]] + StrSplit(s[n..], n)
  }

  /** array_reverse. */
  function ArrayReverse<T>(a: seq<T>): (r: seq<T>)
    ensures |r| == |a|
    ensures forall i | 0 <= i < |a| :: r[i] == a[|a| - 1 - i]
  {
    if a == [] then [] else ArrayReverse(a[1..]) + [a[0]]
  }

  /** implode('', parts). */
  function Implode(parts: seq<string>): string
  {
    if parts == [] then [] else parts[0] + Implode(parts[1..])
  }

  // ---------------------------------------------------------------------
  // Arithmetic facts about digit strings

  lemma MulMono(x: nat, y: nat, b: nat)
    requires x <= y
    ensures x * b <= y * b
  {
  }

  lemma MulAddBound(x: nat, p: nat, b: nat, d: nat)
    requires x < p && d < b
    ensures x * b + d < b * p
  {
    MulMono(x + 1, p, b);
  }

  /** A digit string of length n denotes a number below base^n. */
  lemma {:induction false} ValueBound(s: string, base: nat)
    requires IsDigits(s, base)
    ensures Value(s, base) < Pow(base, |s|)
  {
    if s != [] {
      var p := s[..|s| - 1];
      ValueBound(p, base);
      var x, d := Value(p, base), DigitValue(s[|s| - 1]);
      assert Value(s, base) == x * base + d;
      assert Pow(base, |s|) == base * Pow(base, |p|);
      MulAddBound(x, Pow(base, |p|), base, d);
    }
  }

  lemma ShiftRing(x: nat, p: nat, y: nat, b: nat, d: nat)
    ensures (x * p + y) * b + d == x * (b * p) + (y * b + d)
  {
  }

  /** Reading a + b is reading a, shifted by |b| digits, plus reading b. */
  lemma {:induction false} ValueAppend(a: string, b: string, base: nat)
    requires IsDigits(a, base) && IsDigits(b, base)
    ensures IsDigits(a + b, base)
    ensures Value(a + b, base) == Value(a, base) * Pow(base, |b|) + Value(b, base)
  {
    if b == [] {
      assert a + b == a;
    } else {
      var b' := b[..|b| - 1];
      assert (a + b)[..|a + b| - 1] == a + b';
      ValueAppend(a, b', base);
      var x, p, y, d := Value(a, base), Pow(base, |b'|), Value(b', base), DigitValue(b[|b| - 1]);
      assert Value(a + b, base) == Value(a + b', base) * base + d;
      assert Value(b, base) == y * base + d;
      assert Pow(base, |b|) == base * p;
      ShiftRing(x, p, y, base, d);
    }
  }

  /** Leading zeros do not change the number. */
  lemma {:induction false} ZerosValue(z: nat, s: string, base: nat)
    requires 2 <= base && IsDigits(s, base)
    ensures IsDigits(StrRepeat('0', z) + s, base)
    ensures Value(StrRepeat('0', z) + s, base) == Value(s, base)
  {
    var zs := StrRepeat('0', z);
    assert IsDigits(zs, base);
    ZerosAreZero(z, base);
    ValueAppend(zs, s, base);
  }

  lemma {:induction false} ZerosAreZero(z: nat, base: nat)
    requires 2 <= base
    ensures IsDigits(StrRepeat('0', z), base) && Value(StrRepeat('0', z), base) == 0
  {
    if z > 0 {
      ZerosAreZero(z - 1, base);
      var zs := StrRepeat('0', z);
      assert zs[..|zs| - 1] == StrRepeat('0', z - 1);
    }
  }

  lemma DivModDef(v: nat, b: nat)
    requires b >= 1
    ensures (v / b) * b + v % b == v
  {
  }

  /** dechex and decbin print the number they are given. */
  lemma {:induction false} DigitsValue(v: nat, base: nat)
    requires 2 <= base <= 16
    ensures Value(Digits(v, base), base) == v
    decreases v
  {
    if v >= base {
      DigitsValue(v / base, base);
      var s := Digits(v, base);
      assert s[..|s| - 1] == Digits(v / base, base);
      assert Value(s, base) == Value(Digits(v / base, base), base) * base + v % base;
      DivModDef(v, base);
    }
  }

  lemma {:induction false} DivBound(v: nat, b: nat, p: nat)
    requires b >= 1 && v < b * p
    ensures v / b < p
  {
    if v / b >= p {
      MulMono(p, v / b, b);
      DivModDef(v, b);
    }
  }

  /** Printing v in base b takes its last digit v % b and goes on with the
      smaller v / b. */
  lemma DigitStep(v: nat, b: nat)
    requires v >= b >= 2
    ensures v % b < b && v / b < v
  {
    DivSmaller(v, b);
  }

  lemma DivSmaller(v: nat, b: nat)
    requires v >= 1 && b >= 2
    ensures v / b < v
  {
    DivModDef(v, b);
    MulMono(2, b, v / b);
  }

  /** A number below base^n prints in at most n digits. */
  lemma {:induction false} DigitsLength(v: nat, base: nat, n: nat)
    requires 2 <= base <= 16 && 1 <= n && v < Pow(base, n)
    ensures |Digits(v, base)| <= n
    decreases v
  {
    if v >= base && n >= 2 {
      assert Pow(base, n) == base * Pow(base, n - 1);
      DivBound(v, base, Pow(base, n - 1));
      DivSmaller(v, base);
      DigitsLength(v / base, base, n - 1);
      assert |Digits(v, base)| == |Digits(v / base, base)| + 1;
    }
  }

  lemma DigitsDrop(a: string, n: nat, base: nat)
    requires IsDigits(a, base) && n <= |a|
    ensures IsDigits(a[n..], base)
  {
    forall i | 0 <= i < |a| - n
      ensures IsHexChar(a[n..][i]) && DigitValue(a[n..][i]) < base
    {
      assert a[n..][i] == a[n + i];
    }
  }

  lemma DigitsAppend(a: string, b: string, base: nat)
    requires IsDigits(a, base) && IsDigits(b, base)
    ensures IsDigits(a + b, base)
  {
    forall i | 0 <= i < |a + b|
      ensures IsHexChar((a + b)[i]) && DigitValue((a + b)[i]) < base
    {
      if i < |a| {
        assert (a + b)[i] == a[i];
      } else {
        assert (a + b)[i] == b[i - |a|];
      }
    }
  }

  // ---------------------------------------------------------------------
  // Facts about hex2bin

  /** Four hex digits decode to two bytes. */
  lemma HexQuad(s: string)
    requires |s| == 4 && IsHexChar(s[0]) && IsHexChar(s[1]) && IsHexChar(s[2]) && IsHexChar(s[3])
    ensures IsDigits(s, 16)
    ensures Hex2Bin(s) == [HexByte(s[0], s[1]), HexByte(s[2], s[3])]
  {
    assert s[2..][0] == s[2] && s[2..][1] == s[3];
    assert s[2..][2..] == [];
  }

  lemma {:induction false} Hex2BinAppend(a: string, b: string)
    requires IsDigits(a, 16) && |a| % 2 == 0 && IsDigits(b, 16) && |b| % 2 == 0
    ensures IsDigits(a + b, 16)
    ensures Hex2Bin(a + b) == Hex2Bin(a) + Hex2Bin(b)
    decreases |a|
  {
    if a == [] {
      assert a + b == b;
    } else {
      StepDigits(a, b);
      Hex2BinStep(a, b);
      Hex2BinAppend(a[2..], b);
      Hex2BinUnfold(a);
      AppendAssoc([HexByte(a[0], a[1])], Hex2Bin(a[2..]), Hex2Bin(b));
    }
  }

  /** The digit strings one step of hex2bin over a concatenation meets. */
  lemma StepDigits(a: string, b: string)
    requires IsDigits(a, 16) && |a| % 2 == 0 && a != [] && IsDigits(b, 16) && |b| % 2 == 0
    ensures |a| >= 2 && IsHexChar(a[0]) && IsHexChar(a[1])
    ensures IsDigits(a[2..], 16) && IsDigits(a[2..] + b, 16) && IsDigits(a + b, 16)
    ensures |a[2..]| % 2 == 0 && |a + b| % 2 == 0 && |a[2..] + b| % 2 == 0
  {
    DigitsDrop(a, 2, 16);
    DigitsAppend(a[2..], b, 16);
    DigitsAppend(a, b, 16);
  }

  /** One step of hex2bin over a concatenation: the first two digits of a
      make the first byte. */
  lemma Hex2BinStep(a: string, b: string)
    requires |a| >= 2 && IsHexChar(a[0]) && IsHexChar(a[1])
    requires IsDigits(a[2..] + b, 16) && IsDigits(a + b, 16)
    requires |a + b| % 2 == 0 && |a[2..] + b| % 2 == 0
    ensures Hex2Bin(a + b) == [HexByte(a[0], a[1])] + Hex2Bin(a[2..] + b)
  {
    var s := a + b;
    Hex2BinUnfold(s);
    assert s[0] == a[0] && s[1] == a[1];
    assert s[2..] == a[2..] + b;
  }

  /** hex2bin takes the first two digits, then the rest. */
  lemma Hex2BinUnfold(s: string)
    requires IsDigits(s, 16) && |s| % 2 == 0 && s != []
    ensures |s| >= 2 && IsHexChar(s[0]) && IsHexChar(s[1]) && IsDigits(s[2..], 16)
    ensures Hex2Bin(s) == [HexByte(s[0], s[1])] + Hex2Bin(s[2..])
  {
    DigitsDrop(s, 2, 16);
  }

  /** Two hex digits: their value is the one byte hex2bin makes of them. */
  lemma HexPair(t: string)
    requires IsDigits(t, 16) && |t| == 2
    ensures Value(t, 16) < 256 && Hex2Bin(t) == [Value(t, 16) as byte]
  {
    assert t[..1][..0] == [];
    assert Value(t[..1], 16) == DigitValue(t[0]);
    assert t[2..] == [];
  }

  /** hex2bin of 2k hex digits is the k-byte big-endian encoding of their value. */
  lemma {:induction false} Hex2BinBE(s: string, k: nat)
    requires IsDigits(s, 16) && |s| == 2 * k
    ensures Hex2Bin(s) == BE(Value(s, 16), k)
  {
    if k > 0 {
      var p, t := s[..2 * k - 2], s[2 * k - 2..];
      Twice(k - 1);
      assert s == p + t;
      assert |t| == 2;
      Hex2BinBE(p, k - 1);
      Hex2BinAppend(p, t);
      ValueAppend(p, t, 16);
      HexPair(t);
      var x, y := Value(p, 16), Value(t, 16);
      assert Pow(16, 2) == 256;
      assert Value(s, 16) == x * 256 + y;
      DivModSplit(x, y);
      assert BE(x * 256 + y, k) == BE(x, k - 1) + [y as byte];
    }
  }

  // ---------------------------------------------------------------------
  // Facts about reversing and splitting

  lemma {:induction false} ReverseBE(v: nat, k: nat)
    ensures ArrayReverse(BE(v, k)) == LE(v, k)
  {
    if k > 0 {
      ReverseBE(v / 256, k - 1);
      var be, le := BE(v, k), LE(v, k);
      assert forall i | 0 <= i < k :: ArrayReverse(be)[i] == le[i] by {
        forall i | 0 <= i < k
          ensures ArrayReverse(be)[i] == le[i]
        {
          if i > 0 {
            assert ArrayReverse(BE(v / 256, k - 1))[i - 1] == LE(v / 256, k - 1)[i - 1];
          }
        }
      }
    }
  }

  lemma ReverseReverse<T>(a: seq<T>)
    ensures ArrayReverse(ArrayReverse(a)) == a
  {
  }

  lemma {:induction false} ImplodeAppend(x: seq<string>, y: seq<string>)
    ensures Implode(x + y) == Implode(x) + Implode(y)
  {
    if x == [] {
      assert x + y == y;
    } else {
      assert (x + y)[1..] == x[1..] + y;
      ImplodeAppend(x[1..], y);
    }
  }

  /** Gluing the pieces of str_split back together gives the string. */
  lemma {:induction false} ImplodeSplit(s: string, n: nat)
    requires n >= 1
    ensures Implode(StrSplit(s, n)) == s
    decreases |s|
  {
    if |s| > n {
      ImplodeSplit(s[n..], n);
      assert s == s[..n] + s[n..];
    }
  }

  /** Splitting a gluing of non-empty n-character pieces gives the pieces back. */
  lemma {:induction false} SplitImplode(parts: seq<string>, n: nat)
    requires n >= 1 && |parts| >= 1
    requires forall i | 0 <= i < |parts| :: |parts[i]| == n
    ensures StrSplit(Implode(parts), n) == parts
  {
    if |parts| == 1 {
      assert parts[1..] == [];
      assert Implode(parts) == parts[0];
    } else {
      SplitImplode(parts[1..], n);
      var rest := Implode(parts[1..]);
      assert |rest| >= n by {
        assert rest == parts[1] + Implode(parts[2..]);
      }
      assert Implode(parts) == parts[0] + rest;
      assert (parts[0] + rest)[..n] == parts[0];
      assert (parts[0] + rest)[n..] == rest;
    }
  }

  /** A non-empty string of even length splits into pieces of exactly two characters. */
  lemma {:induction false} SplitPairs(s: string)
    requires |s| >= 1 && |s| % 2 == 0
    ensures forall i | 0 <= i < |StrSplit(s, 2)| :: |StrSplit(s, 2)[i]| == 2
    decreases |s|
  {
    if |s| > 2 {
      SplitPairs(s[2..]);
    }
  }

  /** The pieces of a digit string are digit strings. */
  lemma {:induction false} SplitDigits(s: string, n: nat, base: nat)
    requires n >= 1 && IsDigits(s, base)
    ensures forall i | 0 <= i < |StrSplit(s, n)| :: IsDigits(StrSplit(s, n)[i], base)
    decreases |s|
  {
    if |s| > n {
      SplitDigits(s[n..], n, base);
    }
  }
}
