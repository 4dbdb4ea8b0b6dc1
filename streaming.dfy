/** The Zipstream writer itself: a central directory that grows by one
    entry per file, a running byte offset, and the output it prints to. */
module Streaming {
  import opened Bytes
  import opened Php
  import opened Layout
  import opened Crc
  import opened Helpers
  import opened Archive

  datatype Option<T> = None | Some(value: T)

  /** The value when there is one, else the fallback: how the writer picks
      a default name or time for a parameter that was left out. */
  function GetOr<T>(o: Option<T>, fallback: T): (r: T)
    ensures o.Some? ==> r == o.value
    ensures o.None? ==> r == fallback
  {
    if o.Some? then o.value else fallback
  }

  /** One central directory entry as the writer keeps it: the header hex
      string, the offset of the local header and the file name. */
  datatype Entry = Entry(header: string, offset: nat, fname: seq<byte>)

  /** outputFile reads and prints the file in blocks of 2 MiB. */
  const BlockSize: nat := 1024 * 1024 * 2

  /** The entry outputFileHeader records for a file whose header starts at `offset`. */
  function EntryOf(f: FileInput, offset: nat): Entry
  {
    Entry(HeaderHex(|f.data|, f.name, f.time, HashCrc32b(f.data)), offset, f.name)
  }

  /** An entry's local header, rebuilt from what the entry stores, is in
      `out` at the entry's offset. */
  predicate EntryPlaced(e: Entry, out: seq<byte>)
  {
    EvenHex(e.header) && |e.header| == 52 && At(out, e.offset, LocalHeader(Hex2Bin(e.header), e.fname))
  }

  /** The writer's invariant over its directory: every entry is where it
      says, inside the counted bytes, and entries follow each other in
      insertion order without overlapping. */
  predicate Placed(cd: seq<Entry>, out: seq<byte>, byteOffset: nat)
  {
    (forall i | 0 <= i < |cd| :: EntryPlaced(cd[i], out)) &&
    (forall i | 0 <= i < |cd| :: cd[i].offset + 30 + |cd[i].fname| <= byteOffset) &&
    (forall i, j | 0 <= i < j < |cd| :: cd[i].offset + 30 + |cd[i].fname| <= cd[j].offset)
  }

  /** Every stored header is an even-length hex string, so hex2bin takes it. */
  predicate Headers(cd: seq<Entry>)
  {
    forall i | 0 <= i < |cd| :: EvenHex(cd[i].header)
  }

  /** The central directory records outputCentralDirectory prints, as bytes. */
  function CentralDirectoryBytes(cd: seq<Entry>): seq<byte>
    requires Headers(cd)
  {
    if cd == [] then []
    else
      var last := cd[|cd| - 1];
      assert EvenHex(last.header);
      assert Headers(cd[..|cd| - 1]);
      CentralDirectoryBytes(cd[..|cd| - 1]) + CentralRecord(Hex2Bin(last.header), last.offset, last.fname)
  }

  /** The directory the writer holds after adding `files` one by one. */
  function Directory(files: seq<FileInput>): (cd: seq<Entry>)
    ensures |cd| == |files|
  {
    if files == [] then []
    else
      var prefix := files[..|files| - 1];
      Directory(prefix) + [EntryOf(files[|files| - 1], |LocalPart(prefix)|)]
  }

  /** Printing more keeps every entry where it was. */
  lemma PlacedExtends(cd: seq<Entry>, out: seq<byte>, more: seq<byte>, byteOffset: nat)
    requires Placed(cd, out, byteOffset)
    ensures Placed(cd, out + more, byteOffset)
  {
    forall i | 0 <= i < |cd|
      ensures EntryPlaced(cd[i], out + more)
    {
      AtExtends(out, more, cd[i].offset, LocalHeader(Hex2Bin(cd[i].header), cd[i].fname));
    }
  }

  /** A new entry placed at the end of the counted bytes keeps the directory placed. */
  lemma PlacedAppend(cd: seq<Entry>, out: seq<byte>, byteOffset: nat, e: Entry, newByteOffset: nat)
    requires Placed(cd, out, byteOffset) && EntryPlaced(e, out)
    requires e.offset == byteOffset && byteOffset + 30 + |e.fname| <= newByteOffset
    ensures Placed(cd + [e], out, newByteOffset)
  {
    var cd' := cd + [e];
    forall i | 0 <= i < |cd'|
      ensures EntryPlaced(cd'[i], out) && cd'[i].offset + 30 + |cd'[i].fname| <= newByteOffset
    {
      if i < |cd| {
        assert cd'[i] == cd[i];
      }
    }
    forall i, j | 0 <= i < j < |cd'|
      ensures cd'[i].offset + 30 + |cd'[i].fname| <= cd'[j].offset
    {
      assert cd'[i] == cd[i];
      if j < |cd| {
        assert cd'[j] == cd[j];
      }
    }
  }

  lemma TakeConcat<T>(s: seq<T>, i: nat, j: nat)
    requires i <= j <= |s|
    ensures s[..j] == s[..i] + s[i..j]
  {
  }

  lemma TakeAll<T>(s: seq<T>)
    ensures s[..|s|] == s
  {
  }

  /** What outputFileHeader prints: the signature, the decoded header and
      the name, which is the local file header of APPNOTE.TXT section 4.3.7. */
  lemma LocalHeaderBytes(dataLength: nat, name: seq<byte>, t: DateTime, crc32: string)
    requires dataLength < 0x1_0000_0000 && |name| < 0x1_0000 && Representable(t)
    requires IsDigits(crc32, 16) && |crc32| == 8
    ensures EvenHex(HeaderHex(dataLength, name, t, crc32)) && |HeaderHex(dataLength, name, t, crc32)| == 52
    ensures Hex2Bin(HeaderHex(dataLength, name, t, crc32)) == HeaderFields(dataLength, |name|, DosDateTime(t), Value(crc32, 16))
    ensures EvenHex("504b0304" + HeaderHex(dataLength, name, t, crc32))
    ensures Hex2Bin("504b0304" + HeaderHex(dataLength, name, t, crc32)) + name
      == LocalHeader(Hex2Bin(HeaderHex(dataLength, name, t, crc32)), name)
  {
    var headerHex := HeaderHex(dataLength, name, t, crc32);
    HeaderHexLayout(dataLength, name, t, crc32);
    LocalHeaderHexLayout(headerHex);
  }

  /** The local header of a new entry, printed at the end of the counted
      bytes, keeps the directory placed once the data is counted too. */
  lemma HeaderPlaced(cd: seq<Entry>, before: seq<byte>, byteOffset: nat, e: Entry, dataLength: nat)
    requires Placed(cd, before, byteOffset) && byteOffset == |before|
    requires EvenHex(e.header) && |e.header| == 52 && e.offset == byteOffset
    ensures Placed(cd + [e], before + LocalHeader(Hex2Bin(e.header), e.fname),
                   byteOffset + 30 + |e.fname| + dataLength)
  {
    var local := LocalHeader(Hex2Bin(e.header), e.fname);
    PlacedExtends(cd, before, local, byteOffset);
    AtEnd(before, local);
    PlacedAppend(cd, before + local, byteOffset, e, byteOffset + 30 + |e.fname| + dataLength);
  }

  /** Every entry can be written as a central record: its header is hex
      and its offset fits the 32-bit field. */
  predicate Recordable(cd: seq<Entry>)
  {
    forall i | 0 <= i < |cd| :: EvenHex(cd[i].header) && cd[i].offset < 0x1_0000_0000
  }

  lemma PlacedRecordable(cd: seq<Entry>, out: seq<byte>, byteOffset: nat)
    requires Placed(cd, out, byteOffset) && byteOffset < 0x1_0000_0000
    ensures Recordable(cd) && Headers(cd)
  {
  }

  lemma RecordableAt(cd: seq<Entry>, k: nat)
    requires Recordable(cd) && k < |cd|
    ensures EvenHex(cd[k].header) && cd[k].offset < 0x1_0000_0000
  {
  }

  /** Every recorded offset indexes its own local header signature. */
  lemma SignatureAt(cd: seq<Entry>, out: seq<byte>, byteOffset: nat, i: nat)
    requires Placed(cd, out, byteOffset) && i < |cd|
    ensures At(out, cd[i].offset, LocalFileHeaderSignature)
  {
    var e := cd[i];
    var header := LocalHeader(Hex2Bin(e.header), e.fname);
    assert out[e.offset..e.offset + 4] == header[..4];
  }

  lemma HeadersTake(cd: seq<Entry>, k: nat)
    requires Headers(cd) && k <= |cd|
    ensures Headers(cd[..k])
  {
    assert forall i | 0 <= i < k :: cd[..k][i] == cd[i];
  }

  lemma CentralDirectoryAppend(cd: seq<Entry>, e: Entry)
    requires Headers(cd) && EvenHex(e.header)
    ensures Headers(cd + [e])
    ensures CentralDirectoryBytes(cd + [e])
      == CentralDirectoryBytes(cd) + CentralRecord(Hex2Bin(e.header), e.offset, e.fname)
  {
    var cd' := cd + [e];
    assert forall i | 0 <= i < |cd| :: cd'[i] == cd[i];
    assert cd'[..|cd'| - 1] == cd;
  }

  lemma CentralDirectoryStep(cd: seq<Entry>, k: nat)
    requires k < |cd| && Headers(cd)
    ensures Headers(cd[..k]) && Headers(cd[..k + 1])
    ensures CentralDirectoryBytes(cd[..k + 1])
      == CentralDirectoryBytes(cd[..k]) + CentralRecord(Hex2Bin(cd[k].header), cd[k].offset, cd[k].fname)
  {
    HeadersTake(cd, k);
    assert cd[..k + 1] == cd[..k] + [cd[k]];
    CentralDirectoryAppend(cd[..k], cd[k]);
  }

  lemma DirectoryStep(files: seq<FileInput>, i: nat)
    requires i < |files|
    ensures Directory(files[..i + 1]) == Directory(files[..i]) + [EntryOf(files[i], |LocalPart(files[..i])|)]
  {
    var upto := files[..i + 1];
    assert upto[..|upto| - 1] == files[..i];
  }

  /** The header an entry stores decodes to the file's 26 header bytes. */
  lemma EntryHeader(f: FileInput, offset: nat)
    requires Storable(f)
    ensures EvenHex(EntryOf(f, offset).header) && |EntryOf(f, offset).header| == 52
    ensures Hex2Bin(EntryOf(f, offset).header) == Fields(f)
  {
    HeaderHexLayout(|f.data|, f.name, f.time, HashCrc32b(f.data));
  }

  /** The records printed for the directory of `files` are the central part
      of their archive. */
  lemma {:induction false} DirectoryBytes(files: seq<FileInput>)
    requires forall i | 0 <= i < |files| :: Storable(files[i])
    ensures Headers(Directory(files))
    ensures CentralDirectoryBytes(Directory(files)) == CentralPart(files)
  {
    if files != [] {
      var prefix := files[..|files| - 1];
      var last := files[|files| - 1];
      var offset := |LocalPart(prefix)|;
      assert forall i | 0 <= i < |prefix| :: prefix[i] == files[i];
      DirectoryBytes(prefix);
      EntryHeader(last, offset);
      var e := EntryOf(last, offset);
      assert Directory(files) == Directory(prefix) + [e];
      CentralDirectoryAppend(Directory(prefix), e);
    }
  }

  /** The bytes outputCentralDirectory prints for one entry: its record
      hex string decoded, then the name. */
  method CentralRecordOutput(entry: Entry) returns (output: seq<byte>)
    requires EvenHex(entry.header) && entry.offset < 0x1_0000_0000
    ensures output == CentralRecord(Hex2Bin(entry.header), entry.offset, entry.fname)
  {
    CentralRecordHexLayout(entry.header, entry.offset, entry.fname);
    output := [];
    output := output + Hex2Bin(CentralRecordHex(entry.header, entry.offset));
    output := output + entry.fname;
  }

  /** The bytes of the trailer outputCentralDirectory prints last. */
  method EndOfCentralDirectoryOutput(count: nat, centralDirectorySize: nat, byteOffset: nat) returns (output: seq<byte>)
    requires count < 0x1_0000 && centralDirectorySize < 0x1_0000_0000 && byteOffset < 0x1_0000_0000
    ensures output == EndOfCentralDirectory(count, centralDirectorySize, byteOffset)
  {
    EndOfCentralDirectoryHexLayout(count, centralDirectorySize, byteOffset);
    output := Hex2Bin(EndOfCentralDirectoryHex(count, centralDirectorySize, byteOffset));
  }

  class Zipstream {
    var centralDirectory: seq<Entry>
    var byteOffset: nat
    /** Everything printed so far, in order. */
    var out: seq<byte>

    predicate Valid()
      reads this
    {
      Placed(centralDirectory, out, byteOffset) && byteOffset <= |out|
    }

    /** Ready for the next file: every printed byte is counted, which stops
        holding once the central directory has been printed. */
    predicate Open()
      reads this
    {
      Valid() && byteOffset == |out|
    }

    constructor()
      ensures centralDirectory == [] && byteOffset == 0 && out == []
      ensures Open()
    {
      centralDirectory := [];
      byteOffset := 0;
      out := [];
    }

    method Print(data: seq<byte>)
      modifies this
      ensures out == old(out) + data
      ensures centralDirectory == old(centralDirectory) && byteOffset == old(byteOffset)
    {
      out := out + data;
    }

    method OutputFileHeader(dataLength: nat, outputFilename: seq<byte>, t: DateTime, crc32: string)
      requires Open()
      requires dataLength < 0x1_0000_0000 && |outputFilename| < 0x1_0000 && Representable(t)
      requires IsDigits(crc32, 16) && |crc32| == 8
      modifies this
      ensures out == old(out)
        + LocalHeader(HeaderFields(dataLength, |outputFilename|, DosDateTime(t), Value(crc32, 16)), outputFilename)
      ensures centralDirectory
        == old(centralDirectory) + [Entry(HeaderHex(dataLength, outputFilename, t, crc32), old(byteOffset), outputFilename)]
      ensures byteOffset == old(byteOffset) + 30 + |outputFilename| + dataLength
      ensures Placed(centralDirectory, out, byteOffset) && byteOffset == |out| + dataLength
    {
      var headerHex := HeaderHex(dataLength, outputFilename, t, crc32);
      LocalHeaderBytes(dataLength, outputFilename, t, crc32);
      RecordHeader(headerHex, outputFilename, dataLength);
    }

    /** The second half of outputFileHeader, once the header hex string is
        built: print the signature, the header and the name, record the
        entry and count the header, the name and the data still to come. */
    method RecordHeader(headerHex: string, outputFilename: seq<byte>, dataLength: nat)
      requires Open()
      requires EvenHex(headerHex) && |headerHex| == 52 && EvenHex("504b0304" + headerHex)
      requires Hex2Bin("504b0304" + headerHex) + outputFilename == LocalHeader(Hex2Bin(headerHex), outputFilename)
      modifies this
      ensures out == old(out) + LocalHeader(Hex2Bin(headerHex), outputFilename)
      ensures centralDirectory == old(centralDirectory) + [Entry(headerHex, old(byteOffset), outputFilename)]
      ensures byteOffset == old(byteOffset) + 30 + |outputFilename| + dataLength
      ensures Placed(centralDirectory, out, byteOffset) && byteOffset == |out| + dataLength
    {
      ghost var before := out;
      Print(Hex2Bin("504b0304" + headerHex));
      Print(outputFilename);
      AppendAssoc(before, Hex2Bin("504b0304" + headerHex), outputFilename);
      var entry := Entry(headerHex, byteOffset, outputFilename);
      HeaderPlaced(centralDirectory, before, byteOffset, entry, dataLength);
      centralDirectory := centralDirectory + [entry];
      byteOffset := byteOffset + dataLength + |outputFilename| + 4 + |headerHex| / 2;
    }

    method AddStream(data: seq<byte>, outputFilename: seq<byte>, unixtime: Option<DateTime>, now: DateTime)
      requires Open()
      requires |outputFilename| < 0x1_0000 && |data| < 0x1_0000_0000
      requires Representable(GetOr(unixtime, now))
      modifies this
      ensures out == old(out) + LocalEntry(FileInput(outputFilename, data, GetOr(unixtime, now)))
      ensures centralDirectory
        == old(centralDirectory) + [EntryOf(FileInput(outputFilename, data, GetOr(unixtime, now)), old(byteOffset))]
      ensures Open()
    {
      var time := now;
      if unixtime.Some? {
        time := unixtime.value;
      }
      assert time == GetOr(unixtime, now);
      var crc32 := HashCrc32b(data);
      ghost var start := out;
      ghost var f := FileInput(outputFilename, data, time);
      ghost var local := LocalHeader(Fields(f), outputFilename);
      OutputFileHeader(|data|, outputFilename, time, crc32);
      ghost var before := out;
      Print(data);
      PlacedExtends(centralDirectory, before, data, byteOffset);
      AppendAssoc(start, local, data);
    }

    method AddString(data: seq<byte>, outputFilename: seq<byte>, unixtime: Option<DateTime>, now: DateTime)
      requires Open()
      requires |outputFilename| < 0x1_0000 && |data| < 0x1_0000_0000
      requires Representable(GetOr(unixtime, now))
      modifies this
      ensures out == old(out) + LocalEntry(FileInput(outputFilename, data, GetOr(unixtime, now)))
      ensures centralDirectory
        == old(centralDirectory) + [EntryOf(FileInput(outputFilename, data, GetOr(unixtime, now)), old(byteOffset))]
      ensures Open()
    {
      AddStream(data, outputFilename, unixtime, now);
    }

    /** The read loop of outputFile: the file is printed a block of at most
        2 MiB at a time, and the blocks together are the whole file. */
    method PrintInBlocks(contents: seq<byte>)
      modifies this
      ensures out == old(out) + contents
      ensures centralDirectory == old(centralDirectory) && byteOffset == old(byteOffset)
    {
      var filesize := |contents|;
      var i := 0;
      while i < filesize
        invariant 0 <= i
        invariant out == old(out) + contents[..if i < filesize then i else filesize]
        invariant centralDirectory == old(centralDirectory) && byteOffset == old(byteOffset)
        decreases filesize - i
      {
        var end := if i + BlockSize < filesize then i + BlockSize else filesize;
        var block := contents[i..end];
        Print(block);
        TakeConcat(contents, i, end);
        AppendAssoc(old(out), contents[..i], block);
        i := i + BlockSize;
      }
      TakeAll(contents);
    }

    /** Adds a file from disk. `contents` is the file's data, `fileMtime`
        what filemtime gives (None when it fails) and `now` the clock. */
    method OutputFile(contents: seq<byte>, realFilename: seq<byte>, outputFilename: Option<seq<byte>>,
                      unixtime: Option<DateTime>, fileMtime: Option<DateTime>, now: DateTime)
      requires Open()
      requires |contents| < 0x1_0000_0000
      requires |GetOr(outputFilename, realFilename)| < 0x1_0000
      requires Representable(GetOr(unixtime, GetOr(fileMtime, now)))
      modifies this
      ensures out == old(out)
        + LocalEntry(FileInput(GetOr(outputFilename, realFilename), contents, GetOr(unixtime, GetOr(fileMtime, now))))
      ensures centralDirectory == old(centralDirectory)
        + [EntryOf(FileInput(GetOr(outputFilename, realFilename), contents, GetOr(unixtime, GetOr(fileMtime, now))),
                   old(byteOffset))]
      ensures Open()
    {
      var name := realFilename;
      if outputFilename.Some? {
        name := outputFilename.value;
      }
      var time := now;
      if unixtime.Some? {
        time := unixtime.value;
      } else if fileMtime.Some? {
        time := fileMtime.value;
      }
      assert name == GetOr(outputFilename, realFilename);
      assert time == GetOr(unixtime, GetOr(fileMtime, now));
      var filesize := |contents|;
      var crc32 := HashCrc32b(contents);
      ghost var start := out;
      ghost var f := FileInput(name, contents, time);
      ghost var local := LocalHeader(Fields(f), name);
      OutputFileHeader(filesize, name, time, crc32);
      ghost var before := out;
      PrintInBlocks(contents);
      PlacedExtends(centralDirectory, before, contents, byteOffset);
      AppendAssoc(start, local, contents);
    }

    method AddFile(contents: seq<byte>, realFilename: seq<byte>, outputFilename: Option<seq<byte>>,
                   unixtime: Option<DateTime>, fileMtime: Option<DateTime>, now: DateTime)
      requires Open()
      requires |contents| < 0x1_0000_0000
      requires |GetOr(outputFilename, realFilename)| < 0x1_0000
      requires Representable(GetOr(unixtime, GetOr(fileMtime, now)))
      modifies this
      ensures out == old(out)
        + LocalEntry(FileInput(GetOr(outputFilename, realFilename), contents, GetOr(unixtime, GetOr(fileMtime, now))))
      ensures centralDirectory == old(centralDirectory)
        + [EntryOf(FileInput(GetOr(outputFilename, realFilename), contents, GetOr(unixtime, GetOr(fileMtime, now))),
                   old(byteOffset))]
      ensures Open()
    {
      OutputFile(contents, realFilename, outputFilename, unixtime, fileMtime, now);
    }

    /** The loop of outputCentralDirectory: one central directory record
        per entry, in order, adding up their lengths. */
    method PrintCentralRecords() returns (centralDirectorySize: nat)
      requires Valid() && byteOffset < 0x1_0000_0000
      modifies this
      ensures centralDirectory == old(centralDirectory) && byteOffset == old(byteOffset)
      ensures Headers(centralDirectory)
      ensures out == old(out) + CentralDirectoryBytes(centralDirectory)
      ensures centralDirectorySize == |CentralDirectoryBytes(centralDirectory)|
    {
      ghost var cd := centralDirectory;
      ghost var start := out;
      PlacedRecordable(cd, out, byteOffset);
      centralDirectorySize := 0;
      var k := 0;
      while k < |centralDirectory|
        invariant 0 <= k <= |cd|
        invariant centralDirectory == cd && byteOffset == old(byteOffset)
        invariant out == start + CentralDirectoryBytes(cd[..k])
        invariant centralDirectorySize == |CentralDirectoryBytes(cd[..k])|
      {
        var entry := centralDirectory[k];
        RecordableAt(cd, k);
        var output := CentralRecordOutput(entry);
        Print(output);
        centralDirectorySize := centralDirectorySize + |output|;
        CentralDirectoryStep(cd, k);
        AppendAssoc(start, CentralDirectoryBytes(cd[..k]), output);
        k := k + 1;
      }
      TakeAll(cd);
    }

    /** Prints one central directory record per entry, in order, then the
        end of central directory record. */
    method OutputCentralDirectory()
      requires Valid()
      requires |centralDirectory| < 0x1_0000 && byteOffset < 0x1_0000_0000
      requires |CentralDirectoryBytes(centralDirectory)| < 0x1_0000_0000
      modifies this
      ensures centralDirectory == old(centralDirectory) && byteOffset == old(byteOffset)
      ensures Valid()
      ensures out == old(out) + CentralDirectoryBytes(centralDirectory)
        + EndOfCentralDirectory(|centralDirectory|, |CentralDirectoryBytes(centralDirectory)|, byteOffset)
    {
      ghost var start := out;
      var centralDirectorySize := PrintCentralRecords();
      var trailer := EndOfCentralDirectoryOutput(|centralDirectory|, centralDirectorySize, byteOffset);
      Print(trailer);
      PlacedExtends(centralDirectory, start, CentralDirectoryBytes(centralDirectory) + trailer, byteOffset);
      AppendAssoc(start, CentralDirectoryBytes(centralDirectory), trailer);
    }

    method Close()
      requires Valid()
      requires |centralDirectory| < 0x1_0000 && byteOffset < 0x1_0000_0000
      requires |CentralDirectoryBytes(centralDirectory)| < 0x1_0000_0000
      modifies this
      ensures centralDirectory == old(centralDirectory) && byteOffset == old(byteOffset)
      ensures Valid()
      ensures out == old(out) + CentralDirectoryBytes(centralDirectory)
        + EndOfCentralDirectory(|centralDirectory|, |CentralDirectoryBytes(centralDirectory)|, byteOffset)
    {
      OutputCentralDirectory();
    }

    method Finish()
      requires Valid()
      requires |centralDirectory| < 0x1_0000 && byteOffset < 0x1_0000_0000
      requires |CentralDirectoryBytes(centralDirectory)| < 0x1_0000_0000
      modifies this
      ensures centralDirectory == old(centralDirectory) && byteOffset == old(byteOffset)
      ensures Valid()
      ensures out == old(out) + CentralDirectoryBytes(centralDirectory)
        + EndOfCentralDirectory(|centralDirectory|, |CentralDirectoryBytes(centralDirectory)|, byteOffset)
    {
      OutputCentralDirectory();
    }

    method Finalize()
      requires Valid()
      requires |centralDirectory| < 0x1_0000 && byteOffset < 0x1_0000_0000
      requires |CentralDirectoryBytes(centralDirectory)| < 0x1_0000_0000
      modifies this
      ensures centralDirectory == old(centralDirectory) && byteOffset == old(byteOffset)
      ensures Valid()
      ensures out == old(out) + CentralDirectoryBytes(centralDirectory)
        + EndOfCentralDirectory(|centralDirectory|, |CentralDirectoryBytes(centralDirectory)|, byteOffset)
    {
      OutputCentralDirectory();
    }
  }

  lemma AllFiles(files: seq<FileInput>, i: nat)
    requires i == |files|
    ensures LocalPart(files[..i]) == LocalPart(files) && Directory(files[..i]) == Directory(files)
  {
    assert files[..i] == files;
  }

  /** Adding the next file with addString extends the local part by its
      entry and the directory by its record. */
  method AddNext(z: Zipstream, files: seq<FileInput>, i: nat)
    requires i < |files| && Storable(files[i])
    requires z.Open() && z.out == LocalPart(files[..i]) && z.centralDirectory == Directory(files[..i])
    modifies z
    ensures z.Open()
    ensures z.out == LocalPart(files[..i + 1])
    ensures z.centralDirectory == Directory(files[..i + 1])
  {
    var f := files[i];
    LocalPartStep(files, i);
    DirectoryStep(files, i);
    assert FileInput(f.name, f.data, GetOr(Some(f.time), f.time)) == f;
    z.AddString(f.data, f.name, Some(f.time), f.time);
  }

  /** A client loop that adds each file with addString to a fresh writer:
      it has then printed the local part of the archive and recorded the
      directory of the files. */
  method AddAll(z: Zipstream, files: seq<FileInput>)
    requires z.Open() && z.out == [] && z.centralDirectory == []
    requires forall i | 0 <= i < |files| :: Storable(files[i])
    modifies z
    ensures z.Open()
    ensures z.out == LocalPart(files)
    ensures z.centralDirectory == Directory(files)
  {
    var i := 0;
    while i < |files|
      invariant 0 <= i <= |files|
      invariant z.Open()
      invariant z.out == LocalPart(files[..i])
      invariant z.centralDirectory == Directory(files[..i])
    {
      AddNext(z, files, i);
      i := i + 1;
    }
    AllFiles(files, i);
  }

  /** A client that adds each file with addString and then finishes: what it
      prints is exactly the archive of those files, and its length is what
      filesize predicts. */
  method StreamArchive(files: seq<FileInput>) returns (archive: seq<byte>)
    requires forall i | 0 <= i < |files| :: Storable(files[i])
    requires |files| < 0x1_0000 && |LocalPart(files)| < 0x1_0000_0000 && |CentralPart(files)| < 0x1_0000_0000
    ensures archive == Zip(files)
    ensures |archive| == Filesize(|files|, TotalNameBytes(files), TotalDataBytes(files))
  {
    var z := new Zipstream();
    AddAll(z, files);
    DirectoryBytes(files);
    z.Finish();
    archive := z.out;
    ZipSize(files);
  }

  /** The archive of a single file: its local entry at offset 0, one
      directory entry, and names and data counted once. */
  lemma SingleFile(f: FileInput)
    requires Storable(f)
    ensures LocalPart([f]) == LocalEntry(f)
    ensures Directory([f]) == [EntryOf(f, 0)]
    ensures |CentralPart([f])| == 46 + |f.name|
    ensures Headers(Directory([f]))
    ensures CentralDirectoryBytes(Directory([f])) == CentralPart([f])
    ensures TotalNameBytes([f]) == |f.name| && TotalDataBytes([f]) == |f.data|
  {
    var files := [f];
    assert files[..0] == [];
    DirectoryBytes(files);
    CentralPartLength(files);
  }

  /** A fresh writer given one file with outputFile, an explicit name and
      time, and then outputCentralDirectory: it prints the archive of that
      one file, whose length is filesize(1, name length, data length). */
  method OutputFileArchive(contents: seq<byte>, realFilename: seq<byte>, outputFilename: seq<byte>,
                           now: DateTime, fileMtime: Option<DateTime>) returns (archive: seq<byte>)
    requires |outputFilename| < 0x1_0000 && 30 + |outputFilename| + |contents| < 0x1_0000_0000
    requires Representable(now)
    ensures archive == Zip([FileInput(outputFilename, contents, now)])
    ensures |archive| == Filesize(1, |outputFilename|, |contents|)
  {
    var z := new Zipstream();
    z.OutputFile(contents, realFilename, Some(outputFilename), Some(now), fileMtime, now);
    ghost var f := FileInput(outputFilename, contents, now);
    SingleFile(f);
    assert z.out == LocalPart([f]);
    z.OutputCentralDirectory();
    archive := z.out;
    ZipSize([f]);
  }
}
