/**
 * The header parser as the source runs it: a reader with a cursor over the
 * file's bytes, integer and byte-run reads that move the cursor, and a loop
 * that appends one entry per turn. `ParseHeader` is proved to compute
 * exactly `PkgFormat.Parse`.
 */
module HeaderParser {
  import opened Wrappers
  import opened Int32
  import opened PkgFormat

  /** A parse result without the cursor position. */
  function Values<T>(r: Result<Step<T>, ParseError>): Result<T, ParseError> {
    match r
    case Failure(e) => Failure(e)
    case Success(s) => Success(s.value)
  }

  /** An open file: its bytes and the position of the next read. */
  class ByteReader {
    const data: seq<byte>
    var pos: nat

    ghost predicate Valid()
      reads this
    {
      pos <= |data|
    }

    constructor (data: seq<byte>)
      ensures Valid() && this.data == data && pos == 0
    {
      this.data := data;
      pos := 0;
    }

    /** `f.tell()`. */
    function Tell(): (t: nat)
      requires Valid()
      reads this
      ensures t == pos <= |data|
    {
      pos
    }

    /**
     * `struct.unpack('i', f.read(4))[0]`: the read takes up to four bytes and
     * the unpack fails unless it got all four.
     */
    method ReadInt32() returns (r: Result<int, ParseError>)
      requires Valid()
      modifies this
      ensures Valid()
      ensures r == Values(ReadInt32At(data, old(pos)))
      ensures pos == Min(old(pos) + 4, |data|)
    {
      var start := pos;
      var word := data[pos..Min(pos + 4, |data|)];
      pos := Min(pos + 4, |data|);
      if |word| < 4 {
        r := Failure(TruncatedInt);
      } else {
        assert word == data[start..start + 4];
        DecodeOfSlice(data, start);
        r := Success(DecodeAt(word, 0));
      }
    }

    /**
     * `f.read(n)`: up to `n` bytes, fewer at the end of the file. A negative
     * `n` is rejected and moves nothing.
     */
    method Read(n: int) returns (r: Result<seq<byte>, ParseError>)
      requires Valid()
      modifies this
      ensures Valid()
      ensures r == Values(ReadBytesAt(data, old(pos), n))
      ensures pos == if n < 0 then old(pos) else Min(old(pos) + n, |data|)
    {
      if n < 0 {
        return Failure(NegativeLength);
      }
      var end := Min(pos + n, |data|);
      r := Success(data[pos..end]);
      pos := end;
    }
  }

  /** The four reads of one turn of the table loop. */
  method ReadFileInfo(f: ByteReader) returns (r: Result<FileInfo, ParseError>)
    requires f.Valid()
    modifies f
    ensures f.Valid()
    ensures r == Values(ReadEntryAt(f.data, old(f.pos)))
    ensures r.Success? ==> f.pos == ReadEntryAt(f.data, old(f.pos)).value.next
  {
    var pathLength := f.ReadInt32();
    if pathLength.Failure? {
      return Failure(pathLength.error);
    }
    var path := f.Read(pathLength.value);
    if path.Failure? {
      return Failure(path.error);
    }
    var offset := f.ReadInt32();
    if offset.Failure? {
      return Failure(offset.error);
    }
    var length := f.ReadInt32();
    if length.Failure? {
      return Failure(length.error);
    }
    r := Success(FileInfo(path.value, offset.value, length.value));
  }

  /** Entries read so far, put in front of what the rest of the table yields. */
  function Prepend(files: seq<FileInfo>, r: Result<Step<seq<FileInfo>>, ParseError>): Result<Step<seq<FileInfo>>, ParseError> {
    match r
    case Failure(e) => Failure(e)
    case Success(s) => Success(Step(files + s.value, s.next))
  }

  lemma PrependNothing(r: Result<Step<seq<FileInfo>>, ParseError>)
    ensures Prepend([], r) == r
  {
    if r.Success? {
      assert [] + r.value.value == r.value.value;
    }
  }

  /**
   * The source's constructor: the size check, then the reads in file order,
   * with the entry table read by a loop that appends one entry per turn.
   */
  method ParseHeader(data: seq<byte>) returns (r: Result<Header, ParseError>)
    ensures r == Parse(data)
  {
    if |data| <= 4 {
      return Failure(FileTooShort);
    }
    var f := new ByteReader(data);
    var signatureLength := f.ReadInt32();
    var signature := f.Read(signatureLength.value);
    if signature.Failure? {
      return Failure(signature.error);
    }
    if !StartsWith(signature.value, PKG_PREFIX) {
      return Failure(NotAPackage);
    }
    if signature.value !in SUPPORTED_VERSIONS {
      return Failure(UnsupportedVersion(signature.value));
    }
    assert signature.value == data[4..Min(4 + DecodeAt(data, 0), |data|)];
    var filesCount := f.ReadInt32();
    if filesCount.Failure? {
      return Failure(filesCount.error);
    }
    assert filesCount.value == DecodeAt(data, 4 + |signature.value|);
    ghost var start := f.pos;
    assert start == 8 + |signature.value|;
    var files := ReadTable(f, RangeLength(filesCount.value));
    if files.Failure? {
      return Failure(files.error);
    }
    r := Success(Header(signature.value, filesCount.value, files.value, f.Tell()));
  }

  /**
   * The loop `for i in range(files_count)` of the source: `count` turns of
   * four reads each, appending one entry per turn.
   */
  method ReadTable(f: ByteReader, count: nat) returns (r: Result<seq<FileInfo>, ParseError>)
    requires f.Valid()
    modifies f
    ensures f.Valid()
    ensures r == Values(ReadEntriesAt(f.data, old(f.pos), count))
    ensures r.Success? ==> f.pos == ReadEntriesAt(f.data, old(f.pos), count).value.next
  {
    var files: seq<FileInfo> := [];
    ghost var start := f.pos;
    PrependNothing(ReadEntriesAt(f.data, start, count));
    for i := 0 to count
      invariant f.Valid()
      invariant |files| == i
      invariant ReadEntriesAt(f.data, start, count) == Prepend(files, ReadEntriesAt(f.data, f.pos, count - i))
    {
      ghost var before := f.pos;
      var entry := ReadFileInfo(f);
      TableTurn(f.data, files, before, count - i);
      if entry.Failure? {
        return Failure(entry.error);
      }
      files := files + [entry.value];
    }
    assert ReadEntriesAt(f.data, f.pos, 0) == Success(Step([], f.pos));
    assert files + [] == files;
    r := Success(files);
  }

  /**
   * One turn of the table loop in terms of `ReadEntriesAt`: a failed entry
   * read fails the table with its error, a successful one moves its entry to
   * the entries read so far.
   */
  lemma TableTurn(data: seq<byte>, files: seq<FileInfo>, pos: nat, left: nat)
    requires pos <= |data| && left > 0
    ensures ReadEntryAt(data, pos).Failure? ==>
      Prepend(files, ReadEntriesAt(data, pos, left)) == Failure(ReadEntryAt(data, pos).error)
    ensures ReadEntryAt(data, pos).Success? ==>
      var entry := ReadEntryAt(data, pos).value;
      Prepend(files, ReadEntriesAt(data, pos, left))
        == Prepend(files + [entry.value], ReadEntriesAt(data, entry.next, left - 1))
  {
    if ReadEntryAt(data, pos).Success? {
      var entry := ReadEntryAt(data, pos).value;
      var rest := ReadEntriesAt(data, entry.next, left - 1);
      if rest.Success? {
        assert files + ([entry.value] + rest.value.value) == files + [entry.value] + rest.value.value;
      }
    }
  }
}
