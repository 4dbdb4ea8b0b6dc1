/** Bytes and fixed-width integer encodings.
    ZIP stores every multi-byte integer little-endian; the PHP writer builds
    those bytes through big-endian hex strings, so both byte orders appear. */
module Bytes {

  newtype byte = x: int | 0 <= x < 0x100

  lemma AppendAssoc<T>(a: seq<T>, b: seq<T>, c: seq<T>)
    ensures a + b + c == a + (b + c)
  {
  }

  function Pow(b: nat, e: nat): (r: nat)
    ensures b >= 1 ==> r >= 1
  {
    if e == 0 then 1 else b * Pow(b, e - 1)
  }

  /** Two hex digits make one byte: 16^(2k) == 256^k. */
  lemma {:induction false} PowHexBytes(k: nat)
    ensures Pow(16, 2 * k) == Pow(256, k)
  {
    if k > 0 {
      PowHexBytes(k - 1);
      assert Pow(16, 2 * k) == 16 * (16 * Pow(16, 2 * (k - 1)));
    }
  }

  /** The field widths of the format: two and four bytes. */
  lemma FieldWidths()
    ensures Pow(256, 2) == 0x1_0000 && Pow(256, 4) == 0x1_0000_0000
  {
    assert Pow(256, 2) == 0x1_0000;
    assert Pow(256, 4) == Pow(256, 2) * Pow(256, 2);
  }

  /** An even number is even; stated once so that proofs about hex strings
      need not rediscover it. */
  lemma Twice(n: nat)
    ensures (2 * n) % 2 == 0
  {
  }

  /** `a * 256 + d` splits back into `a` and `d` by division. */
  lemma DivModSplit(a: nat, d: nat)
    requires d < 256
    ensures (a * 256 + d) / 256 == a && (a * 256 + d) % 256 == d
  {
  }

  /** The k-byte little-endian encoding of v; bits above 8k are dropped. */
  function LE(v: nat, k: nat): (r: seq<byte>)
    ensures |r| == k
  {
    if k == 0 then [] else [(v % 256) as byte] + LE(v / 256, k - 1)
  }

  /** Zero is encoded as zero bytes only. */
  lemma {:induction false} LEZero(k: nat, j: nat)
    requires j < k
    ensures LE(0, k)[j] == 0
  {
    if j > 0 {
      LEZero(k - 1, j - 1);
    }
  }

  /** The k-byte big-endian encoding of v; bits above 8k are dropped. */
  function BE(v: nat, k: nat): (r: seq<byte>)
    ensures |r| == k
  {
    if k == 0 then [] else BE(v / 256, k - 1) + [(v % 256) as byte]
  }

  /** The number a little-endian byte string stands for. */
  function LEValue(s: seq<byte>): nat
  {
    if s == [] then 0 else s[0] as nat + 256 * LEValue(s[1..])
  }

  /** Decoding a k-byte little-endian field gives back every v that fits in it. */
  lemma {:induction false} LERoundTrip(v: nat, k: nat)
    requires v < Pow(256, k)
    ensures LEValue(LE(v, k)) == v
  {
    if k > 0 {
      assert Pow(256, k) == 256 * Pow(256, k - 1);
      DivModSplit(v / 256, v % 256);
      LERoundTrip(v / 256, k - 1);
      assert LE(v, k)[1..] == LE(v / 256, k - 1);
    }
  }

  /** Every byte string is the little-endian encoding of its value. */
  lemma {:induction false} LEOfValue(s: seq<byte>)
    ensures LE(LEValue(s), |s|) == s
  {
    if s != [] {
      LEOfValue(s[1..]);
      var v := LEValue(s);
      DivModSplit(LEValue(s[1..]), s[0] as nat);
      assert v == LEValue(s[1..]) * 256 + s[0] as nat;
      assert LE(v, |s|) == [s[0]] + LE(LEValue(s[1..]), |s| - 1);
      assert s == [s[0]] + s[1..];
    }
  }

  /** A little-endian field of j + m bytes holding `lo + 256^j * hi` is the
      j-byte field of `lo` followed by the m-byte field of `hi`. */
  lemma {:induction false} LESplit(lo: nat, hi: nat, j: nat, m: nat)
    requires lo < Pow(256, j)
    ensures LE(lo + Pow(256, j) * hi, j + m) == LE(lo, j) + LE(hi, m)
  {
    if j == 0 {
      assert LE(lo, 0) == [];
    } else {
      var v := lo + Pow(256, j) * hi;
      var q := lo / 256 + Pow(256, j - 1) * hi;
      calc {
        v;
        lo / 256 * 256 + lo % 256 + 256 * Pow(256, j - 1) * hi;
        q * 256 + lo % 256;
      }
      DivModSplit(q, lo % 256);
      LESplit(lo / 256, hi, j - 1, m);
    }
  }
}
