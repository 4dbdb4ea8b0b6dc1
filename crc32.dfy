/** CRC-32 as ZIP uses it (section 4.4.7 of PKWARE's APPNOTE.TXT): the
    ISO 3309 / IEEE 802.3 checksum that PHP calls 'crc32b', computed
    bit-reflected with the polynomial 0xEDB88320, an initial register of
    all ones and a final inversion. */
module Crc {
  import opened Bytes
  import opened Php

  /** The IEEE 802.3 polynomial 0x04C11DB7 with its bits reversed. */
  const Polynomial: bv32 := 0xEDB8_8320

  /** One shift of the reflected register. */
  function BitStep(c: bv32): bv32
  {
    if c & 1 == 1 then (c >> 1) ^ Polynomial else c >> 1
  }

  function BitSteps(c: bv32, n: nat): bv32
    decreases n
  {
    if n == 0 then c else BitSteps(BitStep(c), n - 1)
  }

  /** Feeding one byte: xor it into the low bits, then shift eight times. */
  function ByteStep(c: bv32, b: byte): bv32
  {
    BitSteps(c ^ (b as bv32), 8)
  }

  /** The register after feeding `data`, in order, from register `c`. */
  function Update(c: bv32, data: seq<byte>): bv32
    decreases |data|
  {
    if data == [] then c else Update(ByteStep(c, data[0]), data[1..])
  }

  function Crc32(data: seq<byte>): bv32
  {
    Update(0xFFFF_FFFF, data) ^ 0xFFFF_FFFF
  }

  /** The checksum can be computed chunk by chunk, as hash_file does over a
      file: feeding a and then b is feeding a + b. */
  lemma {:induction false} UpdateAppend(c: bv32, a: seq<byte>, b: seq<byte>)
    ensures Update(c, a + b) == Update(Update(c, a), b)
    decreases |a|
  {
    if a != [] {
      assert (a + b)[0] == a[0];
      assert (a + b)[1..] == a[1..] + b;
      UpdateAppend(ByteStep(c, a[0]), a[1..], b);
    } else {
      assert a + b == b;
    }
  }

  /** The checksum of the empty string is 0. */
  lemma EmptyCrc()
    ensures Crc32([]) == 0
  {
  }

  /** The register after each of the ASCII digits "123456789". */
  lemma CheckRegisters()
    ensures ByteStep(0xFFFF_FFFF, 0x31) == 0x7C23_1048
    ensures ByteStep(0x7C23_1048, 0x32) == 0xB0AC_BB32
    ensures ByteStep(0xB0AC_BB32, 0x33) == 0x77B7_9C2D
    ensures ByteStep(0x77B7_9C2D, 0x34) == 0x641C_1F5C
    ensures ByteStep(0x641C_1F5C, 0x35) == 0x340A_C5E3
  {
  }

  lemma CheckRegistersRest()
    ensures ByteStep(0x340A_C5E3, 0x36) == 0xF68D_2C9E
    ensures ByteStep(0xF68D_2C9E, 0x37) == 0xAFFC_9660
    ensures ByteStep(0xAFFC_9660, 0x38) == 0x651F_2550
    ensures ByteStep(0x651F_2550, 0x39) == 0x340B_C6D9
  {
  }

  lemma UpdateCons(c: bv32, b: byte, rest: seq<byte>, next: bv32)
    requires ByteStep(c, b) == next
    ensures Update(c, [b] + rest) == Update(next, rest)
  {
    assert ([b] + rest)[1..] == rest;
  }

  /** The standard check value: the CRC-32 of the ASCII digits "123456789". */
  lemma CheckValue()
    ensures Crc32([0x31, 0x32, 0x33, 0x34, 0x35, 0x36, 0x37, 0x38, 0x39]) == 0xCBF4_3926
  {
    CheckRegisters();
    CheckRegistersRest();
    UpdateCons(0x651F_2550, 0x39, [], 0x340B_C6D9);
    UpdateCons(0xAFFC_9660, 0x38, [0x39], 0x651F_2550);
    UpdateCons(0xF68D_2C9E, 0x37, [0x38, 0x39], 0xAFFC_9660);
    UpdateCons(0x340A_C5E3, 0x36, [0x37, 0x38, 0x39], 0xF68D_2C9E);
    UpdateCons(0x641C_1F5C, 0x35, [0x36, 0x37, 0x38, 0x39], 0x340A_C5E3);
    UpdateCons(0x77B7_9C2D, 0x34, [0x35, 0x36, 0x37, 0x38, 0x39], 0x641C_1F5C);
    UpdateCons(0xB0AC_BB32, 0x33, [0x34, 0x35, 0x36, 0x37, 0x38, 0x39], 0x77B7_9C2D);
    UpdateCons(0x7C23_1048, 0x32, [0x33, 0x34, 0x35, 0x36, 0x37, 0x38, 0x39], 0xB0AC_BB32);
    UpdateCons(0xFFFF_FFFF, 0x31, [0x32, 0x33, 0x34, 0x35, 0x36, 0x37, 0x38, 0x39], 0x7C23_1048);
  }

  /** The eight hex digits, most significant first, with leading zeros,
      that hash() prints for a 32-bit checksum. */
  function Hex8(v: nat): (r: string)
    requires v < 0x1_0000_0000
    ensures IsDigits(r, 16) && |r| == 8 && Value(r, 16) == v
  {
    PowHexBytes(4);
    FieldWidths();
    DigitsLength(v, 16, 8);
    DigitsValue(v, 16);
    ZerosValue(8 - |DecHex(v)|, DecHex(v), 16);
    StrRepeat('0', 8 - |DecHex(v)|) + DecHex(v)
  }

  /** hash('crc32b', data). */
  function HashCrc32b(data: seq<byte>): (r: string)
    ensures IsDigits(r, 16) && |r| == 8 && Value(r, 16) == Crc32(data) as nat
  {
    Hex8(Crc32(data) as nat)
  }
}
