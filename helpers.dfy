/** The static helpers of the Zipstream class (leadingZeros, swapEndianness,
    unixTimestamp2MSDOShex, filesize) and the hex strings that
    outputFileHeader and outputCentralDirectory assemble before hex2bin,
    each proved against the byte layouts of module Layout. */
module Helpers {
  import opened Bytes
  import opened Php
  import opened Layout

  /** leadingZeros: n padded on the left with '0' to `zeros` characters;
      a string already that long comes back unchanged. */
  function LeadingZeros(n: string, zeros: int): (r: string)
    ensures |r| == if |n| < zeros then zeros else |n|
    ensures r[|r| - |n|..] == n
    ensures forall i | 0 <= i < |r| - |n| :: r[i] == '0'
  {
    StrRepeat('0', zeros - |n|) + n
  }

  /** swapEndianness: reverses the order of the two-character groups. */
  function SwapEndianness(hex: string): string
  {
    Implode(ArrayReverse(StrSplit(hex, 2)))
  }

  /** unixTimestamp2MSDOShex, from the fields date('Y m d H i s') gives: the
      six fields as a 32-character binary string of widths 7, 4, 5, 5, 6, 5,
      read as a number, printed in hex, padded to 8 digits and byte-swapped.
      Before 1980 every field is reset, the year to 1980 and the rest to 0. */
  function UnixTimestamp2MSDOShex(t: DateTime): string
  {
    var f := if t.year < 1980 then DateTime(1980, 0, 0, 0, 0, 0) else t;
    var bintime := BinTime(f.year - 1980, f.month, f.day, f.hour, f.minute, f.second / 2);
    var hextime := DecHex(BinDec(bintime));
    SwapEndianness(LeadingZeros(hextime, 8))
  }

  /** The 32-character binary string of the six fields, each printed in
      binary and padded to its width. */
  function BinTime(y: nat, mo: nat, d: nat, h: nat, mi: nat, s2: nat): (r: string)
    ensures IsDigits(r, 2)
  {
    BinaryFields(y, mo, d, h, mi, s2);
    LeadingZeros(DecBin(y), 7) + LeadingZeros(DecBin(mo), 4) + LeadingZeros(DecBin(d), 5)
      + LeadingZeros(DecBin(h), 5) + LeadingZeros(DecBin(mi), 6) + LeadingZeros(DecBin(s2), 5)
  }

  /** The header hex string outputFileHeader builds and keeps for the
      central directory: version 1.0, no flags, no compression, the MS-DOS
      time, the byte-swapped CRC, the size twice, the name length and no
      extra field. */
  function HeaderHex(dataLength: nat, outputFilename: seq<byte>, t: DateTime, crc32: string): string
  {
    var size := SwapEndianness(LeadingZeros(DecHex(dataLength), 8));
    "0a00" + "0000" + "0000" + UnixTimestamp2MSDOShex(t) + SwapEndianness(crc32)
      + size + size + SwapEndianness(LeadingZeros(DecHex(|outputFilename|), 4)) + "0000"
  }

  /** The hex string of one central directory record, up to its file name. */
  function CentralRecordHex(header: string, offset: nat): string
  {
    "504b0102" + "1e03" + header + "0000" + "0000" + "0000" + "0000ed81"
      + SwapEndianness(LeadingZeros(DecHex(offset), 8))
  }

  /** The hex string of the end of central directory record. */
  function EndOfCentralDirectoryHex(count: nat, centralDirectorySize: nat, byteOffset: nat): string
  {
    "504b0506" + "00000000"
      + SwapEndianness(LeadingZeros(DecHex(count), 4))
      + SwapEndianness(LeadingZeros(DecHex(count), 4))
      + SwapEndianness(LeadingZeros(DecHex(centralDirectorySize), 8))
      + SwapEndianness(LeadingZeros(DecHex(byteOffset), 8))
      + "0000"
  }

  /** filesize: the archive length predicted from the number of files, the
      total length of their names and the total length of their data. */
  function Filesize(fileCount: nat, totalFilenameBytes: nat, totalDataSize: nat): nat
  {
    var fixedHeaderSize := 2 + 2 + 2 + 4 + 4 + 4 + 4 + 2 + 2;
    var localHeaderSize := 4 + fixedHeaderSize;
    var centralDirectoryEntrySize := 4 + 2 + fixedHeaderSize + 2 + 2 + 2 + 4 + 4;
    var eocdSize := 4 + 4 + 2 + 2 + 4 + 4 + 2;
    fileCount * localHeaderSize + fileCount * centralDirectoryEntrySize + totalFilenameBytes * 2 + totalDataSize + eocdSize
  }

  // ---------------------------------------------------------------------
  // leadingZeros

  /** Padding with zeros keeps a digit string a digit string of the same value. */
  lemma LeadingZerosValue(n: string, zeros: int, base: nat)
    requires 2 <= base && IsDigits(n, base)
    ensures IsDigits(LeadingZeros(n, zeros), base)
    ensures Value(LeadingZeros(n, zeros), base) == Value(n, base)
  {
    var z: nat := if zeros - |n| > 0 then zeros - |n| else 0;
    assert StrRepeat('0', zeros - |n|) == StrRepeat('0', z);
    ZerosValue(z, n, base);
  }

  /** v printed in the base and padded to w digits, for any v that fits in w digits. */
  lemma PaddedDigits(v: nat, base: nat, w: nat)
    requires 2 <= base <= 16 && 1 <= w && v < Pow(base, w)
    ensures IsDigits(LeadingZeros(Digits(v, base), w), base)
    ensures |LeadingZeros(Digits(v, base), w)| == w
    ensures Value(LeadingZeros(Digits(v, base), w), base) == v
  {
    DigitsLength(v, base, w);
    DigitsValue(v, base);
    LeadingZerosValue(Digits(v, base), w, base);
  }

  // ---------------------------------------------------------------------
  // swapEndianness

  lemma ImplodeOne(x: string)
    ensures Implode([x]) == x
  {
    assert [x][1..] == [];
  }

  /** Gluing k two-digit hex pieces gives 2k hex digits. */
  lemma {:induction false} ImplodePairs(parts: seq<string>)
    requires forall i | 0 <= i < |parts| :: |parts[i]| == 2 && IsDigits(parts[i], 16)
    ensures IsDigits(Implode(parts), 16) && |Implode(parts)| == 2 * |parts|
  {
    if parts != [] {
      ImplodePairs(parts[1..]);
      Hex2BinAppend(parts[0], Implode(parts[1..]));
    }
  }

  /** Reversing the two-digit pieces reverses the bytes hex2bin makes. */
  lemma {:induction false} ReversedPairs(parts: seq<string>)
    requires forall i | 0 <= i < |parts| :: |parts[i]| == 2 && IsDigits(parts[i], 16)
    ensures IsDigits(Implode(parts), 16) && |Implode(parts)| == 2 * |parts|
    ensures IsDigits(Implode(ArrayReverse(parts)), 16) && |Implode(ArrayReverse(parts))| == 2 * |parts|
    ensures Hex2Bin(Implode(ArrayReverse(parts))) == ArrayReverse(Hex2Bin(Implode(parts)))
  {
    ImplodePairs(parts);
    if parts != [] {
      var rest := parts[1..];
      ReversedPairs(rest);
      ImplodePairs(rest);
      var back := Implode(ArrayReverse(rest));
      ImplodeAppend(ArrayReverse(rest), [parts[0]]);
      ImplodeOne(parts[0]);
      assert Implode(ArrayReverse(parts)) == back + parts[0];
      PairMovedToEnd(parts[0], Implode(rest), back, |rest|);
    }
  }

  /** Moving the first two-digit piece to the end of a reversed rest
      reverses the whole. */
  lemma PairMovedToEnd(first: string, rest: string, back: string, n: nat)
    requires |first| == 2 && IsDigits(first, 16)
    requires IsDigits(rest, 16) && |rest| == 2 * n
    requires IsDigits(back, 16) && |back| == 2 * n
    requires Hex2Bin(back) == ArrayReverse(Hex2Bin(rest))
    ensures IsDigits(back + first, 16) && |back + first| % 2 == 0
    ensures Hex2Bin(back + first) == ArrayReverse(Hex2Bin(first + rest))
  {
    Twice(n);
    Hex2BinAppend(back, first);
    Hex2BinAppend(first, rest);
    HexPair(first);
    var front := Hex2Bin(first) + Hex2Bin(rest);
    assert front[1..] == Hex2Bin(rest);
    assert ArrayReverse(front) == ArrayReverse(Hex2Bin(rest)) + [front[0]];
  }

  /** On an even-length hex string swapEndianness keeps it hex, keeps its
      length and reverses the bytes it stands for. */
  lemma SwapHex(hex: string)
    requires IsDigits(hex, 16) && |hex| % 2 == 0
    ensures IsDigits(SwapEndianness(hex), 16) && |SwapEndianness(hex)| == |hex|
    ensures Hex2Bin(SwapEndianness(hex)) == ArrayReverse(Hex2Bin(hex))
  {
    var parts := StrSplit(hex, 2);
    ImplodeSplit(hex, 2);
    SplitDigits(hex, 2, 16);
    if hex == [] {
      assert parts == [[]];
      ImplodeOne([]);
    } else {
      SplitPairs(hex);
      ReversedPairs(parts);
    }
  }

  /** swapEndianness undoes itself on every even-length string. */
  lemma SwapInvolutive(hex: string)
    requires |hex| % 2 == 0
    ensures SwapEndianness(SwapEndianness(hex)) == hex
  {
    var parts := StrSplit(hex, 2);
    ImplodeSplit(hex, 2);
    if hex == [] {
      assert parts == [[]];
      ImplodeOne([]);
    } else {
      SplitPairs(hex);
      var reversed := ArrayReverse(parts);
      SplitImplode(reversed, 2);
      ReverseReverse(parts);
    }
  }

  /** The case tests.php checks: the local header signature as a number,
      0x04034b50, becomes its bytes in file order. */
  lemma SwapSignature()
    ensures SwapEndianness("04034b50") == "504b0304"
  {
    SignatureSplit();
    assert ArrayReverse(["04", "03", "4b", "50"]) == ["50", "4b", "03", "04"];
    SignatureImplode();
  }

  lemma SignatureSplit()
    ensures StrSplit("04034b50", 2) == ["04", "03", "4b", "50"]
  {
    var s := "04034b50";
    assert s[..2] == "04" && s[2..] == "034b50";
    assert s[2..][..2] == "03" && s[2..][2..] == "4b50";
    assert s[2..][2..][..2] == "4b" && s[2..][2..][2..] == "50";
  }

  lemma SignatureImplode()
    ensures Implode(["50", "4b", "03", "04"]) == "504b0304"
  {
    ImplodeOne("04");
    assert Implode(["03", "04"]) == "03" + "04";
  }

  // ---------------------------------------------------------------------
  // The hex pipeline behind every size, length, count and offset field

  /** swapEndianness(leadingZeros(dechex(v), 2k)) is exactly the k-byte
      little-endian encoding of v, for every v that fits in k bytes. */
  lemma LittleEndianHex(v: nat, k: nat)
    requires 1 <= k && v < Pow(256, k)
    ensures |SwapEndianness(LeadingZeros(DecHex(v), 2 * k))| == 2 * k
    ensures EvenHex(SwapEndianness(LeadingZeros(DecHex(v), 2 * k)))
    ensures Hex2Bin(SwapEndianness(LeadingZeros(DecHex(v), 2 * k))) == LE(v, k)
  {
    PowHexBytes(k);
    PaddedDigits(v, 16, 2 * k);
    var padded := LeadingZeros(DecHex(v), 2 * k);
    Hex2BinBE(padded, k);
    SwapHex(padded);
    ReverseBE(v, k);
  }

  // ---------------------------------------------------------------------
  // unixTimestamp2MSDOShex

  /** The binary string of the six date fields: a 32-digit binary string
      whenever every field fits its width, read as the packed number. */
  lemma BinaryFields(y: nat, mo: nat, d: nat, h: nat, mi: nat, s2: nat)
    ensures IsDigits(LeadingZeros(DecBin(y), 7) + LeadingZeros(DecBin(mo), 4) + LeadingZeros(DecBin(d), 5)
      + LeadingZeros(DecBin(h), 5) + LeadingZeros(DecBin(mi), 6) + LeadingZeros(DecBin(s2), 5), 2)
  {
    var a, b, c := LeadingZeros(DecBin(y), 7), LeadingZeros(DecBin(mo), 4), LeadingZeros(DecBin(d), 5);
    var e, f, g := LeadingZeros(DecBin(h), 5), LeadingZeros(DecBin(mi), 6), LeadingZeros(DecBin(s2), 5);
    LeadingZerosValue(DecBin(y), 7, 2);
    LeadingZerosValue(DecBin(mo), 4, 2);
    LeadingZerosValue(DecBin(d), 5, 2);
    LeadingZerosValue(DecBin(h), 5, 2);
    LeadingZerosValue(DecBin(mi), 6, 2);
    LeadingZerosValue(DecBin(s2), 5, 2);
    DigitsAppend(a, b, 2);
    DigitsAppend(a + b, c, 2);
    DigitsAppend(a + b + c, e, 2);
    DigitsAppend(a + b + c + e, f, 2);
    DigitsAppend(a + b + c + e + f, g, 2);
  }

  lemma PackedFields(y: nat, mo: nat, d: nat, h: nat, mi: nat, s2: nat)
    requires y < 128 && mo < 16 && d < 32 && h < 32 && mi < 64 && s2 < 32
    ensures BinDec(BinTime(y, mo, d, h, mi, s2)) == y * 0x200_0000 + mo * 0x20_0000 + d * 0x1_0000 + h * 0x800 + mi * 0x20 + s2
  {
    var a, b, c := LeadingZeros(DecBin(y), 7), LeadingZeros(DecBin(mo), 4), LeadingZeros(DecBin(d), 5);
    var e, f, g := LeadingZeros(DecBin(h), 5), LeadingZeros(DecBin(mi), 6), LeadingZeros(DecBin(s2), 5);
    assert Pow(2, 4) == 16 && Pow(2, 5) == 32 && Pow(2, 6) == 64 && Pow(2, 7) == 128;
    PaddedDigits(y, 2, 7);
    PaddedDigits(mo, 2, 4);
    PaddedDigits(d, 2, 5);
    PaddedDigits(h, 2, 5);
    PaddedDigits(mi, 2, 6);
    PaddedDigits(s2, 2, 5);
    ValueAppend(a, b, 2);
    ValueAppend(a + b, c, 2);
    ValueAppend(a + b + c, e, 2);
    ValueAppend(a + b + c + e, f, 2);
    ValueAppend(a + b + c + e + f, g, 2);
  }

  /** unixTimestamp2MSDOShex is dechex of the packed MS-DOS date and time,
      padded to eight digits and byte-swapped. */
  lemma MSDOSHexValue(t: DateTime)
    requires Representable(t)
    ensures UnixTimestamp2MSDOShex(t) == SwapEndianness(LeadingZeros(DecHex(DosDateTime(t)), 8))
  {
    var f := if t.year < 1980 then DateTime(1980, 0, 0, 0, 0, 0) else t;
    var y, mo, d, h, mi, s2 := f.year - 1980, f.month, f.day, f.hour, f.minute, f.second / 2;
    DosPacking(t);
    PackedFields(y, mo, d, h, mi, s2);
    assert BinDec(BinTime(y, mo, d, h, mi, s2)) == DosDateTime(t);
  }

  /** The six fields after the reset before 1980, packed at the bit
      positions of APPNOTE.TXT section 4.4.6, are the MS-DOS date and time. */
  lemma DosPacking(t: DateTime)
    requires Representable(t)
    ensures var f := if t.year < 1980 then DateTime(1980, 0, 0, 0, 0, 0) else t;
      0 <= f.year - 1980 < 128 && f.month < 16 && f.day < 32 && f.hour < 32 && f.minute < 64 && f.second / 2 < 32 &&
      (f.year - 1980) * 0x200_0000 + f.month * 0x20_0000 + f.day * 0x1_0000 + f.hour * 0x800 + f.minute * 0x20
        + f.second / 2 == DosDateTime(t)
  {
  }

  /** For every representable date the hex string is eight hex digits that
      hex2bin turns into the 32-bit MS-DOS date and time, little-endian. */
  lemma MSDOSHexLayout(t: DateTime)
    requires Representable(t)
    ensures EvenHex(UnixTimestamp2MSDOShex(t)) && |UnixTimestamp2MSDOShex(t)| == 8
    ensures Hex2Bin(UnixTimestamp2MSDOShex(t)) == LE(DosDateTime(t), 4)
  {
    MSDOSHexValue(t);
    FieldWidths();
    LittleEndianHex(DosDateTime(t), 4);
  }

  /** Any date before 1980, whatever its other fields, is stored as all zeros. */
  lemma MSDOSHexBefore1980(t: DateTime)
    requires t.year < 1980
    ensures UnixTimestamp2MSDOShex(t) == "00000000"
  {
    assert Representable(t);
    assert DosDateTime(t) == 0;
    MSDOSHexLayout(t);
    ZeroHex(UnixTimestamp2MSDOShex(t));
  }

  /** Eight hex digits that decode to four zero bytes are all '0'. */
  lemma ZeroHex(r: string)
    requires EvenHex(r) && |r| == 8 && Hex2Bin(r) == LE(0, 4)
    ensures r == "00000000"
  {
    forall i | 0 <= i < 8
      ensures r[i] == '0'
    {
      LEZero(4, i / 2);
      HexByteDigits(r, i / 2);
    }
  }

  /** A hex byte is zero only when both of its digits are '0'. */
  lemma HexByteDigits(r: string, j: nat)
    requires IsDigits(r, 16) && |r| % 2 == 0 && j < |r| / 2 && Hex2Bin(r)[j] == 0
    ensures r[2 * j] == '0' && r[2 * j + 1] == '0'
    decreases j
  {
    if j > 0 {
      HexByteDigits(r[2..], j - 1);
    }
  }

  // ---------------------------------------------------------------------
  // The records, hex string against byte layout

  /** Shorthand: an even-length hex string. */
  predicate EvenHex(s: string)
  {
    IsDigits(s, 16) && |s| % 2 == 0
  }

  /** hex2bin of a concatenation of even-length hex strings, seven, eight
      and nine pieces at a time (the shapes of the three records). */
  lemma HexConcat7(a: string, b: string, c: string, d: string, e: string, f: string, g: string)
    requires EvenHex(a) && EvenHex(b) && EvenHex(c) && EvenHex(d) && EvenHex(e) && EvenHex(f) && EvenHex(g)
    ensures EvenHex(a + b + c + d + e + f + g)
    ensures Hex2Bin(a + b + c + d + e + f + g)
      == Hex2Bin(a) + Hex2Bin(b) + Hex2Bin(c) + Hex2Bin(d) + Hex2Bin(e) + Hex2Bin(f) + Hex2Bin(g)
  {
    var p2 := a + b;
    Hex2BinAppend(a, b);
    var p3 := p2 + c;
    Hex2BinAppend(p2, c);
    var p4 := p3 + d;
    Hex2BinAppend(p3, d);
    var p5 := p4 + e;
    Hex2BinAppend(p4, e);
    var p6 := p5 + f;
    Hex2BinAppend(p5, f);
    Hex2BinAppend(p6, g);
  }

  lemma HexConcat8(a: string, b: string, c: string, d: string, e: string, f: string, g: string, h: string)
    requires EvenHex(a) && EvenHex(b) && EvenHex(c) && EvenHex(d) && EvenHex(e) && EvenHex(f) && EvenHex(g)
    requires EvenHex(h)
    ensures EvenHex(a + b + c + d + e + f + g + h)
    ensures Hex2Bin(a + b + c + d + e + f + g + h)
      == Hex2Bin(a) + Hex2Bin(b) + Hex2Bin(c) + Hex2Bin(d) + Hex2Bin(e) + Hex2Bin(f) + Hex2Bin(g) + Hex2Bin(h)
  {
    HexConcat7(a, b, c, d, e, f, g);
    Hex2BinAppend(a + b + c + d + e + f + g, h);
  }

  lemma HexConcat9(a: string, b: string, c: string, d: string, e: string, f: string, g: string, h: string, i: string)
    requires EvenHex(a) && EvenHex(b) && EvenHex(c) && EvenHex(d) && EvenHex(e) && EvenHex(f) && EvenHex(g)
    requires EvenHex(h) && EvenHex(i)
    ensures EvenHex(a + b + c + d + e + f + g + h + i)
    ensures Hex2Bin(a + b + c + d + e + f + g + h + i)
      == Hex2Bin(a) + Hex2Bin(b) + Hex2Bin(c) + Hex2Bin(d) + Hex2Bin(e)
       + Hex2Bin(f) + Hex2Bin(g) + Hex2Bin(h) + Hex2Bin(i)
  {
    HexConcat8(a, b, c, d, e, f, g, h);
    Hex2BinAppend(a + b + c + d + e + f + g + h, i);
  }

  /** The CRC as hash() prints it, byte-swapped, is its 4-byte little-endian field. */
  lemma CrcHexLayout(crc32: string)
    requires IsDigits(crc32, 16) && |crc32| == 8
    ensures EvenHex(SwapEndianness(crc32)) && |SwapEndianness(crc32)| == 8
    ensures Hex2Bin(SwapEndianness(crc32)) == LE(Value(crc32, 16), 4)
  {
    SwapHex(crc32);
    Hex2BinBE(crc32, 4);
    ReverseBE(Value(crc32, 16), 4);
  }

  /** The header's hex string, over any hex strings for its fields. */
  lemma HeaderPieces(time: string, crc: string, size: string, len: string,
                     dataLength: nat, nameLength: nat, dateTime: nat, crc32: nat)
    requires EvenHex(time) && |time| == 8 && Hex2Bin(time) == LE(dateTime, 4)
    requires EvenHex(crc) && |crc| == 8 && Hex2Bin(crc) == LE(crc32, 4)
    requires EvenHex(size) && |size| == 8 && Hex2Bin(size) == LE(dataLength, 4)
    requires EvenHex(len) && |len| == 4 && Hex2Bin(len) == LE(nameLength, 2)
    ensures EvenHex("0a00" + "0000" + "0000" + time + crc + size + size + len + "0000")
    ensures |"0a00" + "0000" + "0000" + time + crc + size + size + len + "0000"| == 52
    ensures Hex2Bin("0a00" + "0000" + "0000" + time + crc + size + size + len + "0000")
      == HeaderFields(dataLength, nameLength, dateTime, crc32)
  {
    VersionNeededHex();
    ZeroWordHex();
    HexConcat9("0a00", "0000", "0000", time, crc, size, size, len, "0000");
  }

  /** The header hex string decodes to the 26 shared header fields. */
  lemma HeaderHexLayout(dataLength: nat, outputFilename: seq<byte>, t: DateTime, crc32: string)
    requires dataLength < 0x1_0000_0000 && |outputFilename| < 0x1_0000 && Representable(t)
    requires IsDigits(crc32, 16) && |crc32| == 8
    ensures EvenHex(HeaderHex(dataLength, outputFilename, t, crc32))
    ensures |HeaderHex(dataLength, outputFilename, t, crc32)| == 52
    ensures Hex2Bin(HeaderHex(dataLength, outputFilename, t, crc32))
      == HeaderFields(dataLength, |outputFilename|, DosDateTime(t), Value(crc32, 16))
  {
    FieldWidths();
    LittleEndianHex(dataLength, 4);
    LittleEndianHex(|outputFilename|, 2);
    MSDOSHexLayout(t);
    CrcHexLayout(crc32);
    HeaderPieces(UnixTimestamp2MSDOShex(t), SwapEndianness(crc32), SwapEndianness(LeadingZeros(DecHex(dataLength), 8)),
      SwapEndianness(LeadingZeros(DecHex(|outputFilename|), 4)),
      dataLength, |outputFilename|, DosDateTime(t), Value(crc32, 16));
  }

  /** What outputFileHeader prints first: the signature and the header. */
  lemma LocalHeaderHexLayout(header: string)
    requires EvenHex(header)
    ensures EvenHex("504b0304" + header)
    ensures Hex2Bin("504b0304" + header) == LocalFileHeaderSignature + Hex2Bin(header)
  {
    LocalSignatureHex();
    Hex2BinAppend("504b0304", header);
  }

  /** A central record's hex string, over any hex string for its offset. */
  lemma CentralRecordPieces(header: string, off: string, offset: nat, name: seq<byte>)
    requires EvenHex(header) && EvenHex(off) && Hex2Bin(off) == LE(offset, 4)
    ensures EvenHex("504b0102" + "1e03" + header + "0000" + "0000" + "0000" + "0000ed81" + off)
    ensures Hex2Bin("504b0102" + "1e03" + header + "0000" + "0000" + "0000" + "0000ed81" + off) + name
      == CentralRecord(Hex2Bin(header), offset, name)
  {
    CentralSignatureHex();
    VersionMadeByHex();
    ZeroWordHex();
    AttributesHex();
    HexConcat8("504b0102", "1e03", header, "0000", "0000", "0000", "0000ed81", off);
  }

  /** The hex string of a central directory record decodes to the record
      of APPNOTE.TXT section 4.3.12 up to its name, around the stored header. */
  lemma CentralRecordHexLayout(header: string, offset: nat, name: seq<byte>)
    requires EvenHex(header) && offset < 0x1_0000_0000
    ensures EvenHex(CentralRecordHex(header, offset))
    ensures Hex2Bin(CentralRecordHex(header, offset)) + name
      == CentralRecord(Hex2Bin(header), offset, name)
  {
    FieldWidths();
    LittleEndianHex(offset, 4);
    CentralRecordPieces(header, SwapEndianness(LeadingZeros(DecHex(offset), 8)), offset, name);
  }

  /** The trailer's hex string, over any hex strings for its fields. */
  lemma EndOfCentralDirectoryPieces(c: string, size: string, off: string,
                                    count: nat, centralDirectorySize: nat, byteOffset: nat)
    requires EvenHex(c) && Hex2Bin(c) == LE(count, 2)
    requires EvenHex(size) && Hex2Bin(size) == LE(centralDirectorySize, 4)
    requires EvenHex(off) && Hex2Bin(off) == LE(byteOffset, 4)
    ensures EvenHex("504b0506" + "00000000" + c + c + size + off + "0000")
    ensures Hex2Bin("504b0506" + "00000000" + c + c + size + off + "0000")
      == EndOfCentralDirectory(count, centralDirectorySize, byteOffset)
  {
    EndSignatureHex();
    ZeroWordsHex();
    ZeroWordHex();
    HexConcat7("504b0506", "00000000", c, c, size, off, "0000");
    RegroupSecond(EndOfCentralDirectorySignature, LE(0, 2), LE(0, 2), LE(count, 2), LE(count, 2),
      LE(centralDirectorySize, 4), LE(byteOffset, 4), LE(0, 2));
  }

  /** Regrouping the second piece of a concatenation of eight. */
  lemma RegroupSecond<T>(a: seq<T>, b1: seq<T>, b2: seq<T>, c: seq<T>, d: seq<T>, e: seq<T>, f: seq<T>, g: seq<T>)
    ensures a + (b1 + b2) + c + d + e + f + g == a + b1 + b2 + c + d + e + f + g
  {
    assert a + (b1 + b2) == a + b1 + b2;
  }

  /** The hex string of the trailer decodes to the record of APPNOTE.TXT section 4.3.16. */
  lemma EndOfCentralDirectoryHexLayout(count: nat, centralDirectorySize: nat, byteOffset: nat)
    requires count < 0x1_0000 && centralDirectorySize < 0x1_0000_0000 && byteOffset < 0x1_0000_0000
    ensures EvenHex(EndOfCentralDirectoryHex(count, centralDirectorySize, byteOffset))
    ensures Hex2Bin(EndOfCentralDirectoryHex(count, centralDirectorySize, byteOffset))
      == EndOfCentralDirectory(count, centralDirectorySize, byteOffset)
  {
    FieldWidths();
    LittleEndianHex(count, 2);
    LittleEndianHex(centralDirectorySize, 4);
    LittleEndianHex(byteOffset, 4);
    EndOfCentralDirectoryPieces(SwapEndianness(LeadingZeros(DecHex(count), 4)),
      SwapEndianness(LeadingZeros(DecHex(centralDirectorySize), 8)),
      SwapEndianness(LeadingZeros(DecHex(byteOffset), 8)), count, centralDirectorySize, byteOffset);
  }

  // The hex literals the writer uses, decoded.

  lemma VersionNeededHex()
    ensures IsDigits("0a00", 16) && Hex2Bin("0a00") == LE(VersionNeeded, 2)
  {
    HexQuad("0a00");
  }

  lemma ZeroWordHex()
    ensures IsDigits("0000", 16) && Hex2Bin("0000") == LE(0, 2)
  {
    HexQuad("0000");
  }

  lemma VersionMadeByHex()
    ensures IsDigits("1e03", 16) && Hex2Bin("1e03") == LE(VersionMadeBy, 2)
  {
    HexQuad("1e03");
  }

  lemma ZeroWordsHex()
    ensures IsDigits("00000000", 16) && Hex2Bin("00000000") == LE(0, 2) + LE(0, 2)
  {
    ZeroWordHex();
    assert "00000000" == "0000" + "0000";
    Hex2BinAppend("0000", "0000");
  }

  lemma AttributesHex()
    ensures IsDigits("0000ed81", 16) && Hex2Bin("0000ed81") == LE(ExternalAttributes, 4)
  {
    ZeroWordHex();
    HexQuad("ed81");
    assert "0000ed81" == "0000" + "ed81";
    Hex2BinAppend("0000", "ed81");
    FieldWidths();
    LESplit(0, 0x81ED, 2, 2);
    assert Hex2Bin("ed81") == LE(0x81ED, 2);
  }

  lemma LocalSignatureHex()
    ensures IsDigits("504b0304", 16) && Hex2Bin("504b0304") == LocalFileHeaderSignature
  {
    HexQuad("504b");
    HexQuad("0304");
    assert "504b0304" == "504b" + "0304";
    Hex2BinAppend("504b", "0304");
  }

  lemma CentralSignatureHex()
    ensures IsDigits("504b0102", 16) && Hex2Bin("504b0102") == CentralFileHeaderSignature
  {
    HexQuad("504b");
    HexQuad("0102");
    assert "504b0102" == "504b" + "0102";
    Hex2BinAppend("504b", "0102");
  }

  lemma EndSignatureHex()
    ensures IsDigits("504b0506", 16) && Hex2Bin("504b0506") == EndOfCentralDirectorySignature
  {
    HexQuad("504b");
    HexQuad("0506");
    assert "504b0506" == "504b" + "0506";
    Hex2BinAppend("504b", "0506");
  }
}
