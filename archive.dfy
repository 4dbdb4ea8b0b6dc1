/** The whole archive the writer produces for a list of files, described
    directly as bytes: every local entry in order, then one central
    directory record per entry, then the trailer. This is the reference the
    streaming writer is proved to produce, and the arithmetic of filesize is
    proved against it. */
module Archive {
  import opened Bytes
  import opened Layout
  import opened Crc
  import opened Helpers

  /** One file as the writer receives it: the name it gets in the archive,
      its data and its last-modified moment. */
  datatype FileInput = FileInput(name: seq<byte>, data: seq<byte>, time: DateTime)

  /** What the format's fields can hold: a 16-bit name length, a 32-bit
      size and a representable MS-DOS date. */
  predicate Storable(f: FileInput)
  {
    |f.name| < 0x1_0000 && |f.data| < 0x1_0000_0000 && Representable(f.time)
  }

  /** The 26 header bytes of one stored file. */
  function Fields(f: FileInput): seq<byte>
  {
    HeaderFields(|f.data|, |f.name|, DosDateTime(f.time), Crc32(f.data) as nat)
  }

  /** A local file header followed by the data, stored as is. */
  function LocalEntry(f: FileInput): seq<byte>
  {
    LocalHeader(Fields(f), f.name) + f.data
  }

  function LocalPart(files: seq<FileInput>): seq<byte>
  {
    if files == [] then [] else LocalPart(files[..|files| - 1]) + LocalEntry(files[|files| - 1])
  }

  /** One central directory record per file, each pointing back at the
      offset of that file's local header. */
  function CentralPart(files: seq<FileInput>): seq<byte>
  {
    if files == [] then []
    else
      var prefix := files[..|files| - 1];
      var last := files[|files| - 1];
      CentralPart(prefix) + CentralRecord(Fields(last), |LocalPart(prefix)|, last.name)
  }

  function Zip(files: seq<FileInput>): seq<byte>
  {
    var local := LocalPart(files);
    var central := CentralPart(files);
    local + central + EndOfCentralDirectory(|files|, |central|, |local|)
  }

  function TotalNameBytes(files: seq<FileInput>): nat
  {
    if files == [] then 0 else TotalNameBytes(files[..|files| - 1]) + |files[|files| - 1].name|
  }

  function TotalDataBytes(files: seq<FileInput>): nat
  {
    if files == [] then 0 else TotalDataBytes(files[..|files| - 1]) + |files[|files| - 1].data|
  }

  lemma {:induction false} LocalPartLength(files: seq<FileInput>)
    ensures |LocalPart(files)| == 30 * |files| + TotalNameBytes(files) + TotalDataBytes(files)
  {
    if files != [] {
      var last := files[|files| - 1];
      LocalPartLength(files[..|files| - 1]);
      RecordLengths(|last.data|, |last.name|, DosDateTime(last.time), Crc32(last.data) as nat, 0, last.name, 0, 0);
    }
  }

  lemma {:induction false} CentralPartLength(files: seq<FileInput>)
    ensures |CentralPart(files)| == 46 * |files| + TotalNameBytes(files)
  {
    if files != [] {
      var prefix := files[..|files| - 1];
      var last := files[|files| - 1];
      CentralPartLength(prefix);
      RecordLengths(|last.data|, |last.name|, DosDateTime(last.time), Crc32(last.data) as nat,
        |LocalPart(prefix)|, last.name, 0, 0);
    }
  }

  /** filesize predicts the archive exactly: 30 bytes of local header and
      46 of central record per file, every name twice, the data once and
      22 bytes of trailer. */
  lemma {:induction false} ZipSize(files: seq<FileInput>)
    ensures |Zip(files)| == Filesize(|files|, TotalNameBytes(files), TotalDataBytes(files))
    ensures |Zip(files)| == 76 * |files| + 2 * TotalNameBytes(files) + TotalDataBytes(files) + 22
  {
    LocalPartLength(files);
    CentralPartLength(files);
    RecordLengths(0, 0, 0, 0, 0, [], |files|, |CentralPart(files)|);
  }

  /** The local part of a prefix of the files is a prefix of the local part. */
  lemma {:induction false} LocalPartPrefix(files: seq<FileInput>, n: nat)
    requires n <= |files|
    ensures |LocalPart(files[..n])| <= |LocalPart(files)|
    ensures LocalPart(files)[..|LocalPart(files[..n])|] == LocalPart(files[..n])
    decreases |files|
  {
    if n < |files| {
      var prefix := files[..|files| - 1];
      assert prefix[..n] == files[..n];
      LocalPartPrefix(prefix, n);
      assert LocalPart(files) == LocalPart(prefix) + LocalEntry(files[|files| - 1]);
    } else {
      assert files[..n] == files;
    }
  }

  /** `e` occurs in `x` at `offset`. */
  predicate At<T(==)>(x: seq<T>, offset: nat, e: seq<T>)
  {
    offset + |e| <= |x| && x[offset..offset + |e|] == e
  }

  /** What is found at an offset stays there when more is appended. */
  lemma AtExtends<T>(x: seq<T>, more: seq<T>, offset: nat, e: seq<T>)
    requires At(x, offset, e)
    ensures At(x + more, offset, e)
  {
    assert (x + more)[offset..offset + |e|] == x[offset..offset + |e|];
  }

  /** What is appended is found at the old end. */
  lemma AtEnd<T>(x: seq<T>, e: seq<T>)
    ensures At(x + e, |x|, e)
  {
    assert (x + e)[|x|..|x| + |e|] == e;
  }

  /** Inside a sequence that starts with a + e, the slice after a is e. */
  lemma {:induction false} PrefixSlice<T>(x: seq<T>, y: seq<T>, p: seq<T>, a: seq<T>, e: seq<T>)
    requires |y| <= |x| && x[..|y|] == y && |p| <= |y| && y[..|p|] == p && p == a + e
    ensures At(x, |a|, e)
  {
    forall k | 0 <= k < |e|
      ensures x[|a| + k] == e[k]
    {
      assert x[|a| + k] == x[..|y|][|a| + k] == y[|a| + k];
      assert y[|a| + k] == y[..|a + e|][|a| + k] == (a + e)[|a| + k];
    }
  }

  lemma {:induction false} LocalPartStep(files: seq<FileInput>, i: nat)
    requires i < |files|
    ensures LocalPart(files[..i + 1]) == LocalPart(files[..i]) + LocalEntry(files[i])
  {
    var upto := files[..i + 1];
    assert upto[..|upto| - 1] == files[..i];
  }

  lemma ZipStartsWithLocalPart(files: seq<FileInput>)
    ensures |LocalPart(files)| <= |Zip(files)| && Zip(files)[..|LocalPart(files)|] == LocalPart(files)
  {
  }

  /** The offset a central record stores is where its file's local entry
      sits in the archive. */
  lemma {:induction false} LocalEntryAt(files: seq<FileInput>, i: nat)
    requires i < |files|
    ensures At(Zip(files), |LocalPart(files[..i])|, LocalEntry(files[i]))
  {
    var zip, whole := Zip(files), LocalPart(files);
    var a, e := LocalPart(files[..i]), LocalEntry(files[i]);
    LocalPartPrefix(files, i + 1);
    LocalPartStep(files, i);
    ZipStartsWithLocalPart(files);
    PrefixSlice(zip, whole, LocalPart(files[..i + 1]), a, e);
  }
}
