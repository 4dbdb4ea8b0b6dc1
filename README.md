# PhpZipStream in Dafny

A model of the `Zipstream` class of PhpZipStream (`zipstream.php`), a
forward-only ZIP writer. Each file it is given goes out at once as a local
file header followed by the data, stored without compression. The writer
keeps one central directory entry per file and a running byte offset.
When the archive is finished, it prints the central directory and the end
of central directory record. The writer builds every header as a
big-endian hex string: it pads with `leadingZeros`, byte-swaps with
`swapEndianness` and only then applies `hex2bin`. The MS-DOS date and time
is assembled as a binary string by `unixTimestamp2MSDOShex`.

The model keeps that hex-string construction exactly as the code does it.
It then proves the bytes that come out against a separate reference: the
record layouts of PKWARE's APPNOTE.TXT, written directly as little-endian
fields. These are section 4.3.7 (local file header), section 4.3.12
(central directory header), section 4.3.16 (end of central directory
record) and section 4.4.6 (MS-DOS date and time).

Modules, in dependency order:

- `Bytes`: the `byte` type, and the little-endian (`LE`) and big-endian
  (`BE`) encodings of fixed-width integers, with their round trips.
- `Php`: the PHP built-ins the class relies on. These are `dechex`,
  `decbin`, `bindec`, `hex2bin`, `str_repeat`, `str_split`,
  `array_reverse` and `implode`, over `string`.
- `Crc`: CRC-32 as `hash('crc32b', …)` computes it, with its check value.
- `Layout`: the APPNOTE record layouts and the MS-DOS date and time packing.
- `Helpers`: the static methods `leadingZeros`, `swapEndianness`,
  `unixTimestamp2MSDOShex` and `filesize`, and the three header hex
  strings. Each is proved to decode to its `Layout` record.
- `Archive`: the whole archive that a list of files should become (`Zip`),
  and proofs that `filesize` predicts its length.
- `Streaming`: the class `Zipstream`, with the fields
  `centralDirectory`, `byteOffset` and `out`. `out` is everything printed
  so far.

Invariants the class keeps:

- `Placed` (inside `Valid`): every directory entry's local header is in
  `out` at the entry's offset, in insertion order, without overlap.
- `Open`: `Valid`, and every printed byte has been counted in `byteOffset`.
  `Open` holds between additions. It stops holding once the central
  directory has been printed.

The clients `StreamArchive` and `OutputFileArchive` show that a fresh
writer, fed files and then finished, prints exactly `Zip(files)`. That is
also the length `filesize` predicts.

Inputs the PHP code gets from its environment are parameters of the
model:

- the file's contents, standing for what `filesize` (zipstream.php:131),
  `hash_file` (zipstream.php:132) and `fread` (zipstream.php:139) read from
  the path;
- the result of `filemtime`, as an `Option` where `None` means `false`;
- the clock `time()`, as `now`;
- the fields of `date('Y m d H i s', t)`, as a `DateTime` of six integers.

`print` appends to `out`.

## Model

| member | source | states |
|---|---|---|
| Helpers.SwapEndianness | zipstream.php:44-48 | no contract of its own: implode of array_reverse of str_split(hex, 2); its properties are in SwapInvolutive, SwapHex, ReversedPairs and SwapSignature |
| Helpers.UnixTimestamp2MSDOShex | zipstream.php:50-67 | no contract of its own: the pre-1980 reset, the binary string, dechex(bindec(...)), padding to 8 and the byte swap; its properties are in MSDOSHexValue, MSDOSHexLayout and MSDOSHexBefore1980 |
| Helpers.BinTime | zipstream.php:59-64 | the six fields, each decbin'd and padded to 7, 4, 5, 5, 6 and 5 characters, concatenated: a binary digit string; its value is in PackedFields |
| Helpers.HeaderHex | zipstream.php:84-95 | no contract of its own: the header hex string outputFileHeader builds; its layout is in HeaderHexLayout |
| Helpers.CentralRecordHex | zipstream.php:198-206 | no contract of its own: the central record hex string up to the name; its layout is in CentralRecordHexLayout |
| Helpers.EndOfCentralDirectoryHex | zipstream.php:212-219 | no contract of its own: the trailer hex string; its layout is in EndOfCentralDirectoryHexLayout |
| Helpers.Filesize | zipstream.php:222-238 | no contract of its own: the field sizes added up as the code does; that it is the archive's length is in Archive.ZipSize |
| Php.Digits | zipstream.php:65 | the digits dechex and decbin print: at least one, all of the base; their value is in DigitsValue and their length in DigitsLength |
| Php.DecHex | zipstream.php:65 | no contract of its own: Digits in base 16 |
| Php.DecBin | zipstream.php:59-64 | no contract of its own: Digits in base 2 |
| Php.BinDec | zipstream.php:65 | no contract of its own: Value in base 2 |
| Php.Hex2Bin | zipstream.php:97 | one byte per two hex digits, high digit first: the result is half as long; its properties are in Hex2BinAppend and Hex2BinBE |
| Php.StrRepeat | zipstream.php:41 | c repeated n times: n characters, all c, and none for n <= 0; its use is in LeadingZeros |
| Php.StrSplit | zipstream.php:47 | pieces of n characters, the last possibly shorter, and at least one piece; its properties are in ImplodeSplit, SplitImplode and SplitPairs |
| Php.ArrayReverse | zipstream.php:47 | the same length, and element i of the result is the input's element at the mirrored index, counted from the end |
| Php.Implode | zipstream.php:47 | no contract of its own: the pieces glued in order; its properties are in ImplodeAppend and ImplodeSplit |
| Helpers.LeadingZeros | zipstream.php:40-42 | the result is `zeros` long, or the input's length if that is longer; it ends with the input and is '0' before it |
| Helpers.LeadingZerosValue | zipstream.php:40-42 | padding a digit string with zeros keeps it a digit string and keeps its value |
| Helpers.PaddedDigits | zipstream.php:41 | dechex or decbin of any v that fits in w digits, padded to w, is exactly w digits valued v |
| Helpers.SwapInvolutive | zipstream.php:44-48 | swapEndianness applied twice gives back any even-length string |
| Helpers.SwapHex | zipstream.php:44-48 | on an even-length hex string, swapEndianness keeps it hex and of the same length, and reverses the bytes hex2bin makes of it |
| Helpers.ReversedPairs | zipstream.php:47 | imploding the reversed two-digit pieces gives the reversed bytes of imploding them in order |
| Helpers.SwapSignature | tests.php:8-10 | swapEndianness('04034b50') is '504b0304' |
| Helpers.LittleEndianHex | zipstream.php:85 | swapEndianness(leadingZeros(dechex(v), 2k)) is 2k hex digits that hex2bin turns into the k-byte little-endian encoding of v, for every v below 256^k |
| Helpers.PackedFields | zipstream.php:59-65 | bindec of the six padded binary fields is the number with the year at bit 25, month at 21, day at 16, hour at 11, minute at 5 and seconds/2 at 0 |
| Helpers.DosPacking | zipstream.php:53-64 | after the reset before 1980, every field fits its width and the packed number is the MS-DOS date and time of APPNOTE.TXT section 4.4.6 |
| Helpers.MSDOSHexValue | zipstream.php:50-67 | unixTimestamp2MSDOShex is dechex of the MS-DOS date and time, padded to 8 digits and byte-swapped |
| Helpers.MSDOSHexLayout | zipstream.php:50-67 | unixTimestamp2MSDOShex gives 8 hex digits that decode to the 32-bit MS-DOS date and time, little-endian |
| Helpers.MSDOSHexBefore1980 | zipstream.php:53-57 | any date before 1980, whatever its other fields, becomes '00000000' |
| Layout.DosTimeBeforeDate | zipstream.php:59-66 | both halves fit 16 bits, and in the stored field the time comes before the date |
| Helpers.CrcHexLayout | zipstream.php:86 | the byte-swapped crc32b hex string decodes to the checksum as 4 little-endian bytes |
| Helpers.HeaderHexLayout | zipstream.php:84-95 | the header hex string is 52 hex digits that decode to the 26 shared header fields: version 10, flags 0, method 0, date and time, CRC, the size twice, the name length and extra length 0 |
| Helpers.LocalHeaderHexLayout | zipstream.php:97 | hex2bin('504b0304' . header) is the local header signature followed by the decoded header |
| Helpers.CentralRecordHexLayout | zipstream.php:196-207 | each central record hex string, decoded and followed by the name, is the APPNOTE.TXT section 4.3.12 record: version made by 0x031E, the stored header, three zero words, attributes 0x81ED0000 and the 32-bit offset |
| Helpers.EndOfCentralDirectoryHexLayout | zipstream.php:212-219 | the trailer hex string decodes to the APPNOTE.TXT section 4.3.16 record: the entry count twice, the directory size and the directory offset |
| Layout.RecordLengths | zipstream.php:231-234 | the shared fields are 26 bytes, a local header 30 plus the name, a central record 46 plus the name, and the trailer 22 |
| Crc.HashCrc32b | zipstream.php:161 | hash('crc32b', data) is 8 hex digits whose value is the CRC-32 of the data |
| Crc.CheckValue | zipstream.php:161 | the CRC-32 of "123456789" is 0xCBF43926 |
| Crc.UpdateAppend | zipstream.php:132 | the checksum register after a + b is the register after a, then fed b |
| Php.DigitsValue | zipstream.php:65 | dechex and decbin print a number that Value (bindec in base 2) reads back as the same number |
| Php.DigitsLength | zipstream.php:65 | a number below base^n prints in at most n digits |
| Php.Hex2BinAppend | zipstream.php:97 | hex2bin of a concatenation of even-length hex strings is the concatenation of their hex2bin |
| Php.Hex2BinBE | zipstream.php:97 | hex2bin of 2k hex digits is the k-byte big-endian encoding of their value |
| Php.ReverseBE | zipstream.php:47 | reversing a big-endian encoding gives the little-endian one |
| Archive.LocalPartLength | zipstream.php:105 | the local part of an archive is 30 bytes per file plus all names plus all data |
| Archive.CentralPartLength | zipstream.php:209 | the central directory is 46 bytes per file plus all names |
| Archive.ZipSize | zipstream.php:222-238 | filesize(count, name bytes, data bytes) is exactly the archive's length: 76 per file, each name twice, the data once, plus 22 |
| Archive.LocalEntryAt | zipstream.php:100-105 | the offset the directory records for the i-th file is where that file's local entry sits in the archive |
| Streaming.Zipstream.constructor | zipstream.php:69-72 | a new writer has an empty directory, offset 0 and no output, and is open |
| Streaming.Zipstream.Print | zipstream.php:74-82 | print appends the data to the output and changes nothing else |
| Streaming.Zipstream.OutputFileHeader | zipstream.php:84-106 | prints the APPNOTE.TXT section 4.3.7 local header and the name; appends the entry with the header hex string and the old offset; advances byteOffset by 30 + name + data; keeps every entry placed |
| Streaming.Zipstream.RecordHeader | zipstream.php:97-105 | prints hex2bin('504b0304' . header) and the name, then records the entry and the new offset |
| Streaming.LocalHeaderBytes | zipstream.php:97-98 | the bytes outputFileHeader prints are the local header of the 26 decoded fields and the name |
| Streaming.HeaderPlaced | zipstream.php:100-105 | a header printed at the end of the counted bytes keeps all entries placed and makes the new one placed |
| Streaming.Zipstream.AddStream | zipstream.php:145-164 | prints exactly the local entry (header, name, data) of the file with the given time, or `now` when none is given; appends its directory entry at the old offset; stays open |
| Streaming.Zipstream.AddString | zipstream.php:166-169 | same as AddStream |
| Streaming.Zipstream.PrintInBlocks | zipstream.php:135-141 | the 2 MiB blocks printed add up to the whole file, in order |
| Streaming.Zipstream.OutputFile | zipstream.php:108-143 | the name defaults to the real file name; the time defaults to filemtime, then to `now`; prints exactly that file's local entry and records its entry; stays open |
| Streaming.Zipstream.AddFile | zipstream.php:171-174 | same as OutputFile |
| Streaming.CentralRecordOutput | zipstream.php:197-207 | the output built for one entry is its section 4.3.12 central record |
| Streaming.Zipstream.PrintCentralRecords | zipstream.php:194-210 | prints one central record per entry, in order; the size it adds up is the length of what it printed; directory and offset unchanged |
| Streaming.EndOfCentralDirectoryOutput | zipstream.php:212-219 | the trailer printed is the APPNOTE.TXT section 4.3.16 record for the count, the directory size and the offset |
| Streaming.Zipstream.OutputCentralDirectory | zipstream.php:191-220 | prints the central records and then the trailer, which holds the count, their total size and byteOffset as the directory's start; directory and offset unchanged |
| Streaming.Zipstream.Close | zipstream.php:176-179 | same as OutputCentralDirectory |
| Streaming.Zipstream.Finish | zipstream.php:181-184 | same as OutputCentralDirectory |
| Streaming.Zipstream.Finalize | zipstream.php:186-189 | same as OutputCentralDirectory |
| Streaming.SignatureAt | zipstream.php:100-105 | every offset in the directory points at a local file header signature in the output |
| Streaming.EntryHeader | zipstream.php:100-101 | the header string an entry stores decodes to that file's 26 header fields |
| Streaming.DirectoryBytes | zipstream.php:196-210 | the records printed for the directory of a list of files are the central part of their archive |
| Streaming.AddNext | zipstream.php:166-169 | adding the next file extends the output by its local entry and the directory by its record |
| Streaming.AddAll | zipstream.php:166-169 | after adding every file to a fresh writer, the output is the local part of the archive and the directory is that of the files |
| Streaming.StreamArchive | zipstream.php:17-19 | new Zipstream, addString per file, finish: the output is exactly the archive of the files, of length filesize(count, name bytes, data bytes) |
| Streaming.OutputFileArchive | tests.php:31-38 | new Zipstream, outputFile with a name and a time, outputCentralDirectory: the output is the archive of that file, of length filesize(1, name length, data length) |

## Left out

- The `outFunction` callable (zipstream.php:69-82): `print` appends to the model's `out` whatever the sink. A callable that fails, or that has side effects of its own, is not modelled.
- `date()` and the time zone (zipstream.php:51): the model starts from the six integer fields `date('Y m d H i s')` yields. `$second / 2` is PHP float division. `decbin` truncates the result, so the model uses integer division.
- `filemtime`, `time()`, `filesize`, `hash_file`, `fopen`, `fread` and `fclose` (zipstream.php:124-142): the file's contents, its mtime and the clock are parameters. That the file stays the same between `filesize`, `hash_file` and the reads is assumed. A failing `fopen` or a short `fread` is not modelled.
- examples.php is not part of this model.
- Streaming.Zipstream.OutputFileHeader: names of 65536 bytes or more, data of 4 GiB or more, and years after 2107 are excluded by `requires`. The code has no check for them: `leadingZeros` does not truncate, so the hex string grows and the header is corrupt. Only the valid range is modelled.
- Streaming.Zipstream.OutputCentralDirectory: 65536 or more entries, and directory offsets or sizes of 4 GiB or more, are excluded by `requires`, for the same reason. The code writes no ZIP64 records.
- Streaming.Zipstream.AddStream: adding a file after the central directory has been printed is excluded, because it requires `Open()`. The PHP code allows it and prints bytes that no longer form a valid archive. A second `finish` is allowed, and prints the directory again, as the code does.
- Streaming.Zipstream.OutputFile: the time defaults only when the caller passes no time. A time of -1, as in tests.php:26, is an ordinary 1969 timestamp: it is stored as the all-zero MS-DOS date. There is no sentinel meaning "use now" in the code.
- Input validation and error reporting: the code raises no errors of its own for an unreadable source, an oversized entry or a closed archive. So the model has no error results, only the preconditions above.
- `str_repeat` with a negative count (zipstream.php:41) is modelled as the empty string. That is what concatenating PHP's `NULL` result gives.
- `str_split('')` is modelled as `['']`, as in PHP before 8.2, so `swapEndianness('')` is `''`.
- `hex2bin` (zipstream.php:97, 198, 212) is modelled only on even-length hex strings. Every call in the class is proved to pass one.
