# PkgConverter in Dafny

PkgConverter turns a `.pkg` archive into a zip archive. A `.pkg` file
starts with a header:

- a 4-byte signed length, then that many signature bytes (`PKGV0001`,
  `PKGV0002` or `PKGM0014`);
- a 4-byte signed entry count;
- one table row per entry: a 4-byte path length, the path bytes, a 4-byte
  offset and a 4-byte length.

The data section follows the table, and every entry offset is measured from
its start. The converter has two halves:

- **Parsing.** The constructor checks the file size and reads the header
  field by field with a moving file cursor. It rejects files that are too
  short, that are not packages, or whose version is not supported.
- **Export.** `convert_to_zip` copies the signature into the zip comment.
  Then, for each entry in table order, it writes one zip member named by
  the entry's path, holding up to `length` bytes read from the data-section
  start plus the entry's offset.

The project models both halves and proves what they promise:

- `int32.dfy` (module `Int32`): the 4-byte two's-complement integers of the
  format (Python's `struct` format `'i'`), little-endian. It proves that
  decoding and encoding are inverse.
- `pkg_format.dfy` (module `PkgFormat`): the entities (`FileInfo`, `Header`,
  the parse errors), the cursor reads, and the header parser as the function
  `Parse`, which makes its checks in the source's order. It also defines
  `EncodeHeader`, the serialisation of a well-formed header.
- `pkg_properties.dfy` (module `PkgProperties`): properties of `Parse`.
  The size, prefix and version errors each appear exactly when their
  condition holds, and the entry table can fail only with `TruncatedInt`
  or `NegativeLength`. Parsing the
  serialisation of a header gives the header back. A successful parse
  returns a well-formed header whose serialisation is the head of the file.
- `header_parser.dfy` (module `HeaderParser`): the constructor as the source
  runs it. A `ByteReader` class holds the cursor, the reads move it, and a
  loop appends one entry per turn. Its result is proved equal to `Parse`.
- `zip_export.dfy` (module `ZipExport`): the archive as a `ZipWriter` class
  with a comment and an ordered list of members, and `ConvertToZip` with its
  entry loop. The loop is proved equal to the function `ExtractAll`.
- `export_properties.dfy` (module `ExportProperties`): properties of the
  export. One member is written per entry, in order, until the first entry
  that cannot be read. For a package as the format lays it out, every entry
  gets exactly its byte range of the data section.
- `wrappers.dfy` (module `Wrappers`): `Option` and `Result`.

Bytes are integers in `0..255`. The signature and the paths are kept as
bytes (see "Left out"). The input file is the sequence of its bytes.

## Model

| member | source | states |
|---|---|---|
| Int32.DecodeEncode | PkgConverter.py:50-52 | reading back the four bytes written for a 32-bit signed integer gives that integer |
| Int32.EncodeDecode | PkgConverter.py:50-52 | every 4-byte word is the encoding of the integer `struct.unpack('i')` reads from it, so no two words read as the same value |
| Int32.DecodeAt | PkgConverter.py:51 | the value read from four bytes lies in the signed 32-bit range |
| PkgFormat.ReadInt32At | PkgConverter.py:50-52 | an integer read succeeds exactly when four bytes remain at the cursor; it then returns the signed value of those four bytes and consumes exactly them |
| PkgFormat.ReadBytesAt | PkgConverter.py:54 | a byte read with length `n` succeeds exactly when `n` is not negative; it yields the `min(n, bytes left)` bytes at the cursor, in file order, and moves the cursor past them |
| PkgFormat.ReadEntryAt | PkgConverter.py:63-66 | a successful read of one table row moves the cursor forward and stays inside the file |
| PkgFormat.ReadEntriesAt | PkgConverter.py:62-67 | a successful read of the table leaves the cursor inside the file, no earlier than where it started |
| PkgFormat.RangeLength | PkgConverter.py:62 | the number of turns of `for i in range(files_count)` is the larger of the count and 0: the count itself, or none for a negative count |
| PkgFormat.Parse | PkgConverter.py:44-68 | the constructor as a function of the file's bytes, with the checks in the source's order; its own contract states that a file of at most 4 bytes is too short and that a success has a supported signature, `max(files_count, 0)` entries and a data offset past the signature and count fields and inside the file; the lemmas of `PkgProperties` state the rest |
| PkgProperties.SupportedVersionsArePackages | PkgConverter.py:32-36 | the three supported versions are distinct 8-byte strings that all start with "PKG", so the prefix test at line 55 never rejects a supported version |
| PkgProperties.ShortFileRejected | PkgConverter.py:47-48 | the file-too-short error is raised exactly for files of at most 4 bytes |
| PkgProperties.NotAPackageExactly | PkgConverter.py:53-56 | the not-a-package error is raised exactly when the signature read lacks the "PKG" prefix; it is checked before the version |
| PkgProperties.UnsupportedVersionExactly | PkgConverter.py:32-59 | the unsupported-version error, carrying the signature, is raised exactly for a "PKG…" signature that is not one of the three supported versions |
| PkgProperties.CutShortSignature | PkgConverter.py:53-59 | a signature cut short by the end of the file is checked as read: a length of 8 followed by only `PKGV00` gives the unsupported-version error carrying `PKGV00` |
| PkgProperties.EntriesErrors | PkgConverter.py:61-67 | the only errors reading the entry table can raise are a truncated integer and a negative path length |
| PkgProperties.ReadEntryIsEncoding | PkgConverter.py:63-66 | a successful row read consumed exactly the serialisation of the entry it returns: its path was not cut short, and the cursor moved by 12 plus the path length |
| PkgProperties.ReadEntriesIsEncoding | PkgConverter.py:62-67 | a successful table read of `count` rows returns `count` entries in table order, and the bytes it consumed are exactly their serialisations, one after another |
| PkgProperties.ParseEncoded | PkgConverter.py:44-68 | round trip: the serialised header of a well-formed package, followed by any data section, parses back to that header, with the data offset just past the table |
| PkgProperties.ParsedIsEncoding | PkgConverter.py:53-68 | a successful parse returns a supported signature, `max(files_count, 0)` entries and the offset `8 + signature length + the sum of (12 + path length)`, and the file begins with that header's serialisation |
| PkgProperties.ParseSucceedsExactly | PkgConverter.py:44-68 | a parse succeeds with a header exactly when that header is well formed and the file begins with its serialisation |
| HeaderParser.ByteReader.Tell | PkgConverter.py:68 | `f.tell()` reports the cursor, which never lies past the end of the file |
| HeaderParser.ByteReader.constructor | PkgConverter.py:49 | opening the file puts the cursor at byte 0 |
| HeaderParser.ByteReader.ReadInt32 | PkgConverter.py:50-52 | `read_int` reads up to four bytes, moves the cursor past them, and fails unless it got all four |
| HeaderParser.ByteReader.Read | PkgConverter.py:54-64 | `f.read(n)` returns the bytes `ReadBytesAt` describes and moves the cursor past them |
| HeaderParser.ReadFileInfo | PkgConverter.py:63-66 | the four reads of one loop turn return the entry `ReadEntryAt` describes and leave the cursor after it |
| HeaderParser.ReadTable | PkgConverter.py:62-67 | the entry loop returns the entries `ReadEntriesAt` describes, in order, and leaves the cursor after the table |
| HeaderParser.ParseHeader | PkgConverter.py:44-68 | the constructor, run read by read, raises the error or yields the header that `Parse` specifies, with the data offset equal to `f.tell()` after the table |
| ZipExport.ReadRange | PkgConverter.py:75-76 | a seek and a read of `n` bytes yield the bytes from the seek position on, `min(n, bytes left)` of them, none past the end of the file |
| ZipExport.ExtractEntry | PkgConverter.py:75-77 | the member written for one entry: on success the seek position `start` (data offset plus entry offset) and the length are not negative, the member is named by the entry's path, and it holds the `min(length, bytes left)` bytes of the file from `start` on, none when `start` is past the end (a negative entry offset reads back into the header); an error carries the entry's path, and `ExtractAllFails` states exactly when errors arise |
| ZipExport.ExtractAll | PkgConverter.py:74-77 | the members written for the whole table in order, up to the first entry that cannot be read: never more members than entries, and one per entry when no error stops the loop (`ExtractAllExactly` states which member comes from which entry) |
| ZipExport.ZipWriter.constructor | PkgConverter.py:71 | a new archive has no comment and no members |
| ZipExport.ZipWriter.SetComment | PkgConverter.py:73 | setting the comment leaves the members as they are |
| ZipExport.ZipWriter.WriteStr | PkgConverter.py:77 | `writestr` appends one member after those already written and leaves the comment as it is |
| ZipExport.ConvertToZip | PkgConverter.py:70-77 | the archive comment is the signature, and the members written and the error that stopped the loop are those of `ExtractAll` over the table in order |
| ExportProperties.ExtractAllExactly | PkgConverter.py:74-77 | the export writes the members of the first `k` entries, each from its own entry: all of them when there is no error, otherwise up to entry `k`, whose error it reports |
| ExportProperties.ExtractAllFails | PkgConverter.py:74-77 | the export stops with an error exactly when some entry's seek position (data offset plus entry offset) or length is negative |
| ExportProperties.ReadRangeAfter | PkgConverter.py:75-76 | a read at an offset past the header reads the data section at that offset |
| ExportProperties.ExtractAfterHeader | PkgConverter.py:74-77 | with no negative offset or length, every entry is written, in table order: member `j` is named by entry `j`'s path and holds up to `length` bytes of the data section from `offset` on |
| ExportProperties.ConvertPackage | PkgConverter.py:44-77 | for a package laid out as the format describes it, parsing yields its header, and converting writes exactly each entry's byte range of the data section, in table order |

## Left out

- `main` (PkgConverter.py:11-28): the command line, the existence checks and the overwrite prompt are I/O. They are not modelled.
- Zip encoding (PkgConverter.py:71, 77): the archive is modelled by its comment and its ordered `(name, data)` members. The zip byte format, compression and the output file are not modelled. Neither is the name handling of `zipfile.ZipInfo`: it cuts a member name at its first NUL character and, on Windows, replaces the path separator with `/`. A path holding byte 0 is stored under a shorter name than the model's member name, which is the whole path.
- UTF-8 decoding (PkgConverter.py:54, 64) and the comment's `.encode()` (line 73): signatures and paths stay bytes. A path that is not valid UTF-8, which the source rejects with a decoding error, is accepted by the model. A signature that is not valid UTF-8 makes the source raise a decoding error at line 54, before the prefix check; the model instead reports `NotAPackage` or `UnsupportedVersion` for it, so `PkgProperties.NotAPackageExactly` and `PkgProperties.UnsupportedVersionExactly` describe the source only for signatures that decode. The comment equals the signature bytes.
- PkgFormat.ReadBytesAt: a negative signature or path length fails with `NegativeLength`. Python's buffered `f.read(n)` also fails, with a `ValueError`, for `n <= -2`; only `n == -1` differs: Python reads to the end of the file. A file with a length field of -1 still fails to parse in the source, at the prefix check (line 55), the version check (line 57) or the next integer read, so the same files parse in source and model, and only the kind of error differs. In particular `PkgProperties.NotAPackageExactly` and `PkgProperties.UnsupportedVersionExactly` differ from the source only for a signature length of -1.
- ZipExport.ExtractEntry: a negative seek position fails with `NegativeSeek`, as Python's `seek` raises. A negative entry length fails with `NegativeReadLength`, as Python's `read` raises for a length of -2 or less; for a length of exactly -1 Python reads to the end of the file and writes that member, which the model does not. `ExportProperties.ExtractAllFails` therefore differs from the source only for entries of length -1.
- Int32.DecodeAt: `struct` format `'i'` uses the machine's native byte order. The model fixes it to little-endian.
- `os.path.getsize` and `open` (PkgConverter.py:47, 49, 72): the file is the sequence of its bytes, and its size is the length of that sequence. Both opens read the same, unchanged bytes.
- `__repr__` (PkgConverter.py:79-85): text formatting only.
- The `PkgConverter` object's fields (`signature`, `files_count`, `files`, `offset`) are the `Header` value. `ConvertToZip` takes that value and the input bytes.
- The converter's exceptions are `ParseError` and `ExportError` values. The message texts are not modelled.
- How the code treats malformed input and failed exports:
  - a 4-byte field cut short by the end of the file fails with `TruncatedInt`; a path cut short fails at the next integer read, also with `TruncatedInt`; a signature cut short is checked as it was read (a length of 8 followed by only `PKGV00` gives `UnsupportedVersion` for `PKGV00`); a negative entry count gives an empty table; there is no corrupt-header error;
  - an entry whose range passes the end of the file gives a short member, as `read` does; there is no offset-out-of-range error;
  - members written before an export error stay in the archive; the output file is written in place, not through a temporary file.
