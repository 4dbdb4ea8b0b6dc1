/** The byte layouts of PKWARE's APPNOTE.TXT that the writer produces,
    stated directly from little-endian fields: the local file header
    (section 4.3.7), the central directory file header (section 4.3.12) and
    the end of central directory record (section 4.3.16), with the MS-DOS
    date and time of section 4.4.6. These are the reference the hex-string
    code of the writer is proved against. */
module Layout {
  import opened Bytes

  /** A moment as PHP's date('Y m d H i s') breaks it down. */
  datatype DateTime = DateTime(year: int, month: nat, day: nat, hour: nat, minute: nat, second: nat)

  /** The writer's own limits on a date: years before 1980 are all stored as
      zero; later years must fit the 7-bit year field (up to 2107) and every
      other field its bit width. Dates from PHP's date() always have
      month <= 12, day <= 31, hour <= 23, minute <= 59, second <= 59. */
  predicate Representable(t: DateTime)
  {
    t.year < 1980 ||
    (t.year <= 2107 && t.month < 16 && t.day < 32 && t.hour < 32 && t.minute < 64 && t.second < 64)
  }

  /** The 16-bit MS-DOS time: hour in bits 11-15, minute in bits 5-10 and
      seconds divided by two in bits 0-4; zero before 1980. */
  function DosTime(t: DateTime): nat
  {
    if t.year < 1980 then 0 else t.hour * 0x800 + t.minute * 0x20 + t.second / 2
  }

  /** The 16-bit MS-DOS date: years since 1980 in bits 9-15, month in bits
      5-8 and day in bits 0-4; zero before 1980. */
  function DosDate(t: DateTime): nat
  {
    if t.year < 1980 then 0 else (t.year - 1980) * 0x200 + t.month * 0x20 + t.day
  }

  /** The 32-bit field that holds both: the date in the high half. */
  function DosDateTime(t: DateTime): nat
  {
    DosTime(t) + 0x1_0000 * DosDate(t)
  }

  const LocalFileHeaderSignature: seq<byte> := [0x50, 0x4B, 0x03, 0x04]
  const CentralFileHeaderSignature: seq<byte> := [0x50, 0x4B, 0x01, 0x02]
  const EndOfCentralDirectorySignature: seq<byte> := [0x50, 0x4B, 0x05, 0x06]

  /** Version needed to extract: 1.0, enough for stored entries. */
  const VersionNeeded: nat := 10
  /** Version made by: host 3 (UNIX) in the high byte, specification 3.0 in the low byte. */
  const VersionMadeBy: nat := 0x031E
  /** External attributes: UNIX mode 0100755 (regular file, rwxr-xr-x) in the high half. */
  const ExternalAttributes: nat := 0x81ED_0000

  /** The 26 bytes shared by the local header (after its signature) and
      the central directory header: version needed, flags 0, method 0
      (stored), time and date, CRC-32, compressed and uncompressed size (both
      the data size), file name length and extra field length 0. */
  function HeaderFields(size: nat, nameLength: nat, dateTime: nat, crc: nat): seq<byte>
  {
    LE(VersionNeeded, 2) + LE(0, 2) + LE(0, 2) + LE(dateTime, 4) + LE(crc, 4)
      + LE(size, 4) + LE(size, 4) + LE(nameLength, 2) + LE(0, 2)
  }

  /** A local file header (APPNOTE.TXT section 4.3.7) up to and including its file name. */
  function LocalHeader(fields: seq<byte>, name: seq<byte>): seq<byte>
  {
    LocalFileHeaderSignature + fields + name
  }

  /** A central directory file header (APPNOTE.TXT section 4.3.12): signature, version
      made by, the shared fields, comment length 0, disk number 0, internal
      attributes 0, the external attributes, the offset of the entry's local
      header and the file name. */
  function CentralRecord(fields: seq<byte>, offset: nat, name: seq<byte>): seq<byte>
  {
    CentralFileHeaderSignature + LE(VersionMadeBy, 2) + fields + LE(0, 2) + LE(0, 2) + LE(0, 2)
      + LE(ExternalAttributes, 4) + LE(offset, 4) + name
  }

  /** The end of central directory record (APPNOTE.TXT section 4.3.16) of a single-disk
      archive without a comment. */
  function EndOfCentralDirectory(count: nat, size: nat, offset: nat): seq<byte>
  {
    EndOfCentralDirectorySignature + LE(0, 2) + LE(0, 2) + LE(count, 2) + LE(count, 2)
      + LE(size, 4) + LE(offset, 4) + LE(0, 2)
  }

  /** The fixed sizes of the three records. */
  lemma RecordLengths(size: nat, nameLength: nat, dateTime: nat, crc: nat, offset: nat, name: seq<byte>, count: nat, cdSize: nat)
    ensures |HeaderFields(size, nameLength, dateTime, crc)| == 26
    ensures |LocalHeader(HeaderFields(size, nameLength, dateTime, crc), name)| == 30 + |name|
    ensures |CentralRecord(HeaderFields(size, nameLength, dateTime, crc), offset, name)| == 46 + |name|
    ensures |EndOfCentralDirectory(count, cdSize, offset)| == 22
  {
  }

  /** Inside the 32-bit field the time comes first: little-endian, the low
      (time) half is stored before the high (date) half. */
  lemma {:induction false} DosTimeBeforeDate(t: DateTime)
    requires Representable(t)
    ensures DosTime(t) < 0x1_0000 && DosDate(t) < 0x1_0000
    ensures LE(DosDateTime(t), 4) == LE(DosTime(t), 2) + LE(DosDate(t), 2)
  {
    FieldWidths();
    LESplit(DosTime(t), DosDate(t), 2, 2);
  }
}
