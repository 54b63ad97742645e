/**
 * The PKG header: its entities, the parser as a function over the file's
 * bytes with an explicit cursor, and the serialiser that is its inverse.
 *
 * Layout: a 4-byte signature length, the signature bytes, a 4-byte entry
 * count, then per entry a 4-byte path length, the path bytes, a 4-byte
 * offset and a 4-byte length. The data section follows the table, and every
 * entry offset is measured from its start.
 */
module PkgFormat {
  import opened Wrappers
  import opened Int32

  /** One file inside the package (the source's `FileInfo`). */
  datatype FileInfo = FileInfo(path: seq<byte>, offset: int, length: int)

  /**
   * What parsing a package yields: the fields the source's constructor sets.
   * `filesCount` is the count as read, which may be negative; `offset` is the
   * cursor after the entry table, where the data section starts.
   */
  datatype Header = Header(signature: seq<byte>, filesCount: int, files: seq<FileInfo>, offset: nat)

  datatype ParseError =
    | FileTooShort                          // the file has at most 4 bytes
    | TruncatedInt                          // fewer than 4 bytes left for an integer field
    | NegativeLength                        // a signature or path length below zero
    | NotAPackage                           // the signature lacks the "PKG" prefix
    | UnsupportedVersion(signature: seq<byte>)  // "PKG..." but not a supported version

  /** A value read and the cursor position after it. */
  datatype Step<+T> = Step(value: T, next: nat)

  /** The bytes of an ASCII string. */
  function Ascii(s: string): seq<byte>
    requires forall i | 0 <= i < |s| :: s[i] as int < 128
  {
    seq(|s|, i requires 0 <= i < |s| => s[i] as int)
  }

  const PKG_PREFIX: seq<byte> := Ascii("PKG")

  const SUPPORTED_VERSIONS: seq<seq<byte>> := [Ascii("PKGV0001"), Ascii("PKGV0002"), Ascii("PKGM0014")]

  predicate StartsWith(s: seq<byte>, prefix: seq<byte>) {
    |prefix| <= |s| && s[..|prefix|] == prefix
  }

  function Min(a: int, b: int): int {
    if a <= b then a else b
  }

  // ----- The primitive reads of a cursor -----
  //
  // Each function below specifies one read of `HeaderParser.ByteReader`.
  // `Parse` and `ReadEntryAt` state the same reads inline, with the cursor
  // positions the earlier fields fix.

  /** `struct.unpack('i', f.read(4))`: needs four bytes at the cursor. */
  function ReadInt32At(data: seq<byte>, pos: nat): (r: Result<Step<int>, ParseError>)
    requires pos <= |data|
    ensures r.Success? <==> pos + 4 <= |data|
    ensures r.Success? ==> r.value.next == pos + 4 && r.value.value == DecodeAt(data, pos)
  {
    if |data| - pos < 4 then Failure(TruncatedInt)
    else Success(Step(DecodeAt(data, pos), pos + 4))
  }

  /**
   * `f.read(n)`: at most `n` bytes, fewer at the end of the file. A negative
   * `n` is rejected here (the source reads to the end of the file for
   * `n == -1` and raises for smaller `n`).
   */
  function ReadBytesAt(data: seq<byte>, pos: nat, n: int): (r: Result<Step<seq<byte>>, ParseError>)
    requires pos <= |data|
    ensures r.Success? <==> n >= 0
    ensures r.Success? ==> r.value.next == pos + |r.value.value| <= |data|
    ensures r.Success? ==> |r.value.value| == Min(n, |data| - pos)
    ensures r.Success? ==> forall k | 0 <= k < |r.value.value| :: r.value.value[k] == data[pos + k]
  {
    if n < 0 then Failure(NegativeLength)
    else
      var end := Min(pos + n, |data|);
      Success(Step(data[pos..end], end))
  }

  // ----- The header, field by field -----

  /**
   * One entry of the table at `pos`: a path length `n` that is not
   * negative, `n` path bytes, a 4-byte offset and a 4-byte length. A file
   * that ends before all of that is there fails on an integer read (a short
   * path read leaves the cursor at the end of the file).
   */
  function ReadEntryAt(data: seq<byte>, pos: nat): (r: Result<Step<FileInfo>, ParseError>)
    requires pos <= |data|
    ensures r.Success? ==> pos < r.value.next <= |data|
  {
    if |data| - pos < 4 then Failure(TruncatedInt)
    else
      var n := DecodeAt(data, pos);
      if n < 0 then Failure(NegativeLength)
      else if |data| - pos < 12 + n then Failure(TruncatedInt)
      else
        var p := pos + 4 + n;
        Success(Step(FileInfo(data[pos + 4..p], DecodeAt(data, p), DecodeAt(data, p + 4)), p + 8))
  }

  /** `count` consecutive entries, in table order. */
  function ReadEntriesAt(data: seq<byte>, pos: nat, count: nat): (r: Result<Step<seq<FileInfo>>, ParseError>)
    requires pos <= |data|
    ensures r.Success? ==> pos <= r.value.next <= |data| && |r.value.value| == count
    decreases count
  {
    if count == 0 then Success(Step([], pos))
    else
      match ReadEntryAt(data, pos)
      case Failure(e) => Failure(e)
      case Success(entry) =>
        match ReadEntriesAt(data, entry.next, count - 1)
        case Failure(e) => Failure(e)
        case Success(rest) => Success(Step([entry.value] + rest.value, rest.next))
  }

  /**
   * The number of turns of `for i in range(n)`: `n` itself, or none for a
   * negative `n`, that is, the larger of `n` and 0.
   */
  function RangeLength(n: int): (k: nat)
    ensures k >= n && (k == n || k == 0)
  {
    if n < 0 then 0 else n
  }

  /**
   * The whole header, with the checks in the order the source makes them:
   * size, signature length, "PKG" prefix, supported version, entry count,
   * entries. The data section starts where the table ends.
   */
  function Parse(data: seq<byte>): (r: Result<Header, ParseError>)
    ensures |data| <= 4 ==> r == Failure(FileTooShort)
    ensures r.Success? ==>
      && r.value.signature in SUPPORTED_VERSIONS
      && |r.value.files| == RangeLength(r.value.filesCount)
      && 8 + |r.value.signature| <= r.value.offset <= |data|
  {
    if |data| <= 4 then Failure(FileTooShort)
    else
      var signatureLength := DecodeAt(data, 0);
      if signatureLength < 0 then Failure(NegativeLength)
      else
        var signature := data[4..Min(4 + signatureLength, |data|)];
        if !StartsWith(signature, PKG_PREFIX) then Failure(NotAPackage)
        else if signature !in SUPPORTED_VERSIONS then Failure(UnsupportedVersion(signature))
        else if |data| < 8 + |signature| then Failure(TruncatedInt)
        else
          var filesCount := DecodeAt(data, 4 + |signature|);
          match ReadEntriesAt(data, 8 + |signature|, RangeLength(filesCount))
          case Failure(e) => Failure(e)
          case Success(files) => Success(Header(signature, filesCount, files.value, files.next))
  }

  // ----- Writing -----

  /** What a byte string needs to be written with a 4-byte length prefix. */
  predicate Writable(b: seq<byte>) {
    |b| < TWO_31
  }

  predicate WritableEntry(e: FileInfo) {
    Writable(e.path) && InRange(e.offset) && InRange(e.length)
  }

  /** Every entry of the table can be written. */
  predicate AllWritable(files: seq<FileInfo>) {
    files == [] || (WritableEntry(files[0]) && AllWritable(files[1..]))
  }

  /** Bytes of the table taken by one entry: three integers and the path. */
  function EntrySize(e: FileInfo): nat {
    12 + |e.path|
  }

  /** Bytes of the table taken by the entries. */
  function EntriesSize(files: seq<FileInfo>): nat {
    if files == [] then 0 else EntrySize(files[0]) + EntriesSize(files[1..])
  }

  /** A header as a parse can produce it, and exactly what serialising needs. */
  predicate WellFormed(h: Header) {
    && h.signature in SUPPORTED_VERSIONS
    && InRange(h.filesCount)
    && |h.files| == RangeLength(h.filesCount)
    && AllWritable(h.files)
    && h.offset == 8 + |h.signature| + EntriesSize(h.files)
  }

  function EncodeBytes(b: seq<byte>): seq<byte>
    requires Writable(b)
  {
    Encode(|b|) + b
  }

  function EncodeEntry(e: FileInfo): seq<byte>
    requires WritableEntry(e)
  {
    EncodeBytes(e.path) + Encode(e.offset) + Encode(e.length)
  }

  function EncodeEntries(files: seq<FileInfo>): seq<byte>
    requires AllWritable(files)
  {
    if files == [] then [] else EncodeEntry(files[0]) + EncodeEntries(files[1..])
  }

  /** The header bytes of a package: the inverse of `Parse`. */
  function EncodeHeader(h: Header): seq<byte>
    requires WellFormed(h)
  {
    EncodeBytes(h.signature) + Encode(h.filesCount) + EncodeEntries(h.files)
  }
}
