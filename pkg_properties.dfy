/**
 * What the header parser promises, proved about `PkgFormat.Parse`: which
 * inputs it rejects and with which error, and that on success the header
 * bytes are exactly the serialisation of the header it returns.
 */
module PkgProperties {
  import opened Wrappers
  import opened Int32
  import opened PkgFormat

  // ----- The supported versions -----

  /**
   * Every supported version has the "PKG" prefix, so the prefix test never
   * rejects a supported version; the three versions are distinct 8-byte
   * strings.
   */
  lemma SupportedVersionsArePackages()
    ensures forall v | v in SUPPORTED_VERSIONS :: StartsWith(v, PKG_PREFIX) && |v| == 8
    ensures |SUPPORTED_VERSIONS| == 3
    ensures forall i, j | 0 <= i < j < 3 :: SUPPORTED_VERSIONS[i] != SUPPORTED_VERSIONS[j]
  {
    assert SUPPORTED_VERSIONS[0][..3] == PKG_PREFIX;
    assert SUPPORTED_VERSIONS[1][..3] == PKG_PREFIX;
    assert SUPPORTED_VERSIONS[2][..3] == PKG_PREFIX;
    assert SUPPORTED_VERSIONS[0][3] != SUPPORTED_VERSIONS[2][3];
    assert SUPPORTED_VERSIONS[0][7] != SUPPORTED_VERSIONS[1][7];
    assert SUPPORTED_VERSIONS[1][7] != SUPPORTED_VERSIONS[2][7];
  }

  // ----- Error cases -----

  /** The only errors an entry table can produce. */
  lemma {:induction false} EntriesErrors(data: seq<byte>, pos: nat, count: nat)
    requires pos <= |data|
    ensures var r := ReadEntriesAt(data, pos, count);
      r.Failure? ==> r.error == TruncatedInt || r.error == NegativeLength
    decreases count
  {
    if count > 0 {
      var entry := ReadEntryAt(data, pos);
      if entry.Success? {
        EntriesErrors(data, entry.value.next, count - 1);
      }
    }
  }

  /** A file of at most 4 bytes, and only such a file, is rejected as too short. */
  lemma ShortFileRejected(data: seq<byte>)
    ensures Parse(data) == Failure(FileTooShort) <==> |data| <= 4
  {
    if |data| > 4 && DecodeAt(data, 0) >= 0 {
      var signature := data[4..Min(4 + DecodeAt(data, 0), |data|)];
      if |data| >= 8 + |signature| {
        EntriesErrors(data, 8 + |signature|, RangeLength(DecodeAt(data, 4 + |signature|)));
      }
    }
  }

  /** The bytes the source reads as the signature: cut short at the end of the file. */
  function SignatureBytes(data: seq<byte>): seq<byte>
    requires |data| > 4 && DecodeAt(data, 0) >= 0
  {
    data[4..Min(4 + DecodeAt(data, 0), |data|)]
  }

  /**
   * A file is rejected as not a package exactly when its signature lacks the
   * "PKG" prefix; such a file never gets the unsupported-version error.
   */
  lemma NotAPackageExactly(data: seq<byte>)
    ensures Parse(data) == Failure(NotAPackage) <==>
      |data| > 4 && DecodeAt(data, 0) >= 0 && !StartsWith(SignatureBytes(data), PKG_PREFIX)
  {
    if |data| > 4 && DecodeAt(data, 0) >= 0 {
      var signature := SignatureBytes(data);
      if StartsWith(signature, PKG_PREFIX) && signature in SUPPORTED_VERSIONS && |data| >= 8 + |signature| {
        EntriesErrors(data, 8 + |signature|, RangeLength(DecodeAt(data, 4 + |signature|)));
      }
    }
  }

  /**
   * A file is reported as an unsupported version exactly when its signature
   * has the "PKG" prefix and is none of the supported versions; the error
   * carries that signature.
   */
  lemma UnsupportedVersionExactly(data: seq<byte>, s: seq<byte>)
    ensures Parse(data) == Failure(UnsupportedVersion(s)) <==>
      && |data| > 4 && DecodeAt(data, 0) >= 0
      && s == SignatureBytes(data)
      && StartsWith(s, PKG_PREFIX) && s !in SUPPORTED_VERSIONS
  {
    if |data| > 4 && DecodeAt(data, 0) >= 0 {
      var signature := SignatureBytes(data);
      if StartsWith(signature, PKG_PREFIX) && signature in SUPPORTED_VERSIONS && |data| >= 8 + |signature| {
        EntriesErrors(data, 8 + |signature|, RangeLength(DecodeAt(data, 4 + |signature|)));
      }
    }
  }

  /**
   * A signature cut short by the end of the file is checked as read: a
   * length of 8 followed by only the six bytes `PKGV00` is an unsupported
   * version `PKGV00`, not a truncated header.
   */
  lemma CutShortSignature()
    ensures Parse([8, 0, 0, 0] + Ascii("PKGV00")) == Failure(UnsupportedVersion(Ascii("PKGV00")))
  {
    var data := [8, 0, 0, 0] + Ascii("PKGV00");
    assert DecodeAt(data, 0) == 8;
    assert data[4..Min(12, |data|)] == Ascii("PKGV00");
    assert Ascii("PKGV00") !in SUPPORTED_VERSIONS by {
      assert |Ascii("PKGV00")| == 6;
    }
  }

  // ----- Slices -----

  lemma SliceSplit(data: seq<byte>, a: nat, b: nat, c: nat)
    requires a <= b <= c <= |data|
    ensures data[a..c] == data[a..b] + data[b..c]
  {
  }

  /**
   * A slice of a stretch of `data` known to hold `w` is the same slice of
   * `w`; `i` and `j` name the absolute positions of its ends.
   */
  lemma SliceOfSlice(data: seq<byte>, pos: nat, w: seq<byte>, a: nat, b: nat, i: nat, j: nat)
    requires pos + |w| <= |data| && data[pos..pos + |w|] == w
    requires a <= b <= |w| && i == pos + a && j == pos + b
    ensures data[i..j] == w[a..b]
  {
    assert forall k | 0 <= k < b - a :: data[i..j][k] == w[a..b][k] by {
      forall k | 0 <= k < b - a ensures data[i..j][k] == w[a..b][k] {
        assert data[pos..pos + |w|][a + k] == w[a + k];
      }
    }
  }

  lemma PrefixAndRest(data: seq<byte>, w: seq<byte>, k: nat)
    requires k <= |data| && data[..k] == w
    ensures data == w + data[k..]
  {
  }

  // ----- Lengths of the encoding -----

  lemma {:induction false} EncodeEntriesLength(files: seq<FileInfo>)
    requires AllWritable(files)
    ensures |EncodeEntries(files)| == EntriesSize(files)
    decreases |files|
  {
    if files != [] {
      EncodeEntriesLength(files[1..]);
    }
  }

  /** The header takes exactly the table size the header records as its data offset. */
  lemma EncodeHeaderLength(h: Header)
    requires WellFormed(h)
    ensures |EncodeHeader(h)| == h.offset
  {
    EncodeEntriesLength(h.files);
  }

  /** Where the fields of an encoded header lie. */
  lemma HeaderFields(h: Header)
    requires WellFormed(h)
    ensures var w, s := EncodeHeader(h), |h.signature|;
      && |w| == h.offset == 8 + s + EntriesSize(h.files)
      && w[0..4] == Encode(s)
      && w[4..4 + s] == h.signature
      && w[4 + s..8 + s] == Encode(h.filesCount)
      && w[8 + s..|w|] == EncodeEntries(h.files)
  {
    EncodeHeaderLength(h);
  }

  /** One turn of the table loop: an entry, then the rest of the table. */
  lemma ReadEntriesStep(data: seq<byte>, pos: nat, count: nat, e: FileInfo, p: nat, rest: seq<FileInfo>, q: nat)
    requires pos <= |data| && count == |rest| + 1
    requires ReadEntryAt(data, pos) == Success(Step(e, p))
    requires ReadEntriesAt(data, p, |rest|) == Success(Step(rest, q))
    ensures ReadEntriesAt(data, pos, count) == Success(Step([e] + rest, q))
  {
  }

  // ----- Parsing what was written -----

  /** A 4-byte field inside a stretch of `data` known to hold `w` decodes as in `w`. */
  lemma FieldAt(data: seq<byte>, pos: nat, w: seq<byte>, a: nat, i: nat, x: int)
    requires pos + |w| <= |data| && data[pos..pos + |w|] == w
    requires InRange(x) && a + 4 <= |w| && w[a..a + 4] == Encode(x) && i == pos + a
    ensures DecodeAt(data, i) == x
  {
    SliceOfSlice(data, pos, w, a, a + 4, i, i + 4);
    DecodeEncode(data, i, x);
  }

  /** Where the four fields of an encoded entry lie. */
  lemma EntryFields(e: FileInfo)
    requires WritableEntry(e)
    ensures var w, n := EncodeEntry(e), |e.path|;
      && |w| == EntrySize(e)
      && w[0..4] == Encode(n)
      && w[4..4 + n] == e.path
      && w[4 + n..8 + n] == Encode(e.offset)
      && w[8 + n..12 + n] == Encode(e.length)
  {
  }

  /** The three integer fields of an encoded entry decode to the entry's values. */
  lemma EncodedEntryInts(data: seq<byte>, pos: nat, e: FileInfo)
    requires WritableEntry(e)
    requires pos + EntrySize(e) <= |data| && data[pos..pos + EntrySize(e)] == EncodeEntry(e)
    ensures DecodeAt(data, pos) == |e.path|
    ensures DecodeAt(data, pos + 4 + |e.path|) == e.offset
    ensures DecodeAt(data, pos + 4 + |e.path| + 4) == e.length
  {
    var w := EncodeEntry(e);
    var p := pos + 4 + |e.path|;
    EntryFields(e);
    FieldAt(data, pos, w, 0, pos, |e.path|);
    FieldAt(data, pos, w, 4 + |e.path|, p, e.offset);
    FieldAt(data, pos, w, 8 + |e.path|, p + 4, e.length);
  }

  /** The path bytes of an encoded entry follow its length field. */
  lemma EncodedEntryPath(data: seq<byte>, pos: nat, e: FileInfo)
    requires WritableEntry(e)
    requires pos + EntrySize(e) <= |data| && data[pos..pos + EntrySize(e)] == EncodeEntry(e)
    ensures data[pos + 4..pos + 4 + |e.path|] == e.path
  {
    EntryFields(e);
    SliceOfSlice(data, pos, EncodeEntry(e), 4, 4 + |e.path|, pos + 4, pos + 4 + |e.path|);
  }

  /** An entry read succeeds with `e` once its four fields hold `e`'s values. */
  lemma ReadEntryOfFields(data: seq<byte>, pos: nat, e: FileInfo)
    requires pos + EntrySize(e) <= |data|
    requires DecodeAt(data, pos) == |e.path|
    requires data[pos + 4..pos + 4 + |e.path|] == e.path
    requires DecodeAt(data, pos + 4 + |e.path|) == e.offset
    requires DecodeAt(data, pos + 4 + |e.path| + 4) == e.length
    ensures ReadEntryAt(data, pos) == Success(Step(e, pos + EntrySize(e)))
  {
  }

  lemma ReadEncodedEntry(data: seq<byte>, pos: nat, e: FileInfo)
    requires WritableEntry(e)
    requires pos + EntrySize(e) <= |data| && data[pos..pos + EntrySize(e)] == EncodeEntry(e)
    ensures ReadEntryAt(data, pos) == Success(Step(e, pos + EntrySize(e)))
  {
    EncodedEntryInts(data, pos, e);
    EncodedEntryPath(data, pos, e);
    ReadEntryOfFields(data, pos, e);
  }

  /** A stretch of `data` holding `u + v` holds `u` and then `v`. */
  lemma SliceParts(data: seq<byte>, pos: nat, u: seq<byte>, v: seq<byte>, i: nat, j: nat)
    requires i == pos + |u| && j == i + |v| && j <= |data| && data[pos..j] == u + v
    ensures data[pos..i] == u && data[i..j] == v
  {
    assert forall k | 0 <= k < |u| :: data[pos..i][k] == u[k] by {
      forall k | 0 <= k < |u| ensures data[pos..i][k] == u[k] {
        assert data[pos..j][k] == (u + v)[k];
      }
    }
    assert forall k | 0 <= k < |v| :: data[i..j][k] == v[k] by {
      forall k | 0 <= k < |v| ensures data[i..j][k] == v[k] {
        assert data[pos..j][|u| + k] == (u + v)[|u| + k];
      }
    }
  }

  /**
   * The encoding of a non-empty table is its first entry's, then the
   * rest's, every entry of which can be written.
   */
  lemma SplitEncodedEntries(data: seq<byte>, pos: nat, files: seq<FileInfo>)
    requires files != [] && AllWritable(files)
    requires pos + EntriesSize(files) <= |data|
    requires data[pos..pos + EntriesSize(files)] == EncodeEntries(files)
    ensures AllWritable(files[1..])
    ensures data[pos..pos + EntrySize(files[0])] == EncodeEntry(files[0])
    ensures var p := pos + EntrySize(files[0]);
      data[p..p + EntriesSize(files[1..])] == EncodeEntries(files[1..])
  {
    var u, v := EncodeEntry(files[0]), EncodeEntries(files[1..]);
    EntryFields(files[0]);
    EncodeEntriesLength(files[1..]);
    var p, q := pos + EntrySize(files[0]), pos + EntriesSize(files);
    assert p + EntriesSize(files[1..]) == q;
    SliceParts(data, pos, u, v, p, q);
  }

  /**
   * The first entry of an encoded table reads back, and the rest of the
   * table follows it.
   */
  lemma EncodedFirstEntry(data: seq<byte>, pos: nat, files: seq<FileInfo>, end: nat)
    requires files != [] && AllWritable(files)
    requires end == pos + EntriesSize(files) <= |data|
    requires data[pos..end] == EncodeEntries(files)
    ensures var p := pos + EntrySize(files[0]);
      && AllWritable(files[1..]) && end == p + EntriesSize(files[1..])
      && data[p..end] == EncodeEntries(files[1..])
      && ReadEntryAt(data, pos) == Success(Step(files[0], p))
  {
    SplitEncodedEntries(data, pos, files);
    ReadEncodedEntry(data, pos, files[0]);
  }

  /** The table read at `pos` of the encoded entries ending at `end` gives those entries. */
  lemma {:induction false} ReadEncodedEntries(data: seq<byte>, pos: nat, files: seq<FileInfo>, end: nat)
    requires AllWritable(files)
    requires end == pos + EntriesSize(files) <= |data|
    requires data[pos..end] == EncodeEntries(files)
    ensures ReadEntriesAt(data, pos, |files|) == Success(Step(files, end))
    decreases |files|, 1
  {
    if files != [] {
      EncodedFirstEntry(data, pos, files, end);
      ReadEncodedRest(data, pos, files, pos + EntrySize(files[0]), end);
    }
  }

  /** The induction step: the first entry read, then the encoded rest of the table. */
  lemma {:induction false} ReadEncodedRest(data: seq<byte>, pos: nat, files: seq<FileInfo>, p: nat, q: nat)
    requires files != [] && pos <= p <= |data|
    requires ReadEntryAt(data, pos) == Success(Step(files[0], p))
    requires AllWritable(files[1..]) && q == p + EntriesSize(files[1..]) && q <= |data|
    requires data[p..q] == EncodeEntries(files[1..])
    ensures ReadEntriesAt(data, pos, |files|) == Success(Step(files, q))
    decreases |files|, 0
  {
    var e, rest := files[0], files[1..];
    ReadEncodedEntries(data, p, rest, q);
    ReadEntriesStep(data, pos, |files|, e, p, rest, q);
    assert [e] + rest == files;
  }

  /**
   * `Parse` succeeds with `h` once the fields at the head of `data` hold
   * `h`'s signature, count and table.
   */
  lemma ParseOfFields(data: seq<byte>, h: Header)
    requires WellFormed(h)
    requires |data| >= 8 + |h.signature|
    requires DecodeAt(data, 0) == |h.signature|
    requires data[4..4 + |h.signature|] == h.signature
    requires DecodeAt(data, 4 + |h.signature|) == h.filesCount
    requires ReadEntriesAt(data, 8 + |h.signature|, |h.files|) == Success(Step(h.files, h.offset))
    ensures Parse(data) == Success(h)
  {
    assert Min(4 + |h.signature|, |data|) == 4 + |h.signature|;
    assert RangeLength(h.filesCount) == |h.files|;
  }

  /** The signature length and signature at the head of a file that starts with a header's bytes. */
  lemma EncodedSignature(data: seq<byte>, h: Header)
    requires WellFormed(h)
    requires |EncodeHeader(h)| <= |data| && data[0..|EncodeHeader(h)|] == EncodeHeader(h)
    ensures |data| >= 8 + |h.signature|
    ensures DecodeAt(data, 0) == |h.signature|
    ensures data[4..4 + |h.signature|] == h.signature
  {
    var w, s := EncodeHeader(h), |h.signature|;
    HeaderFields(h);
    FieldAt(data, 0, w, 0, 0, s);
    SliceOfSlice(data, 0, w, 4, 4 + s, 4, 4 + s);
  }

  /** The entry count of a file that starts with a header's bytes. */
  lemma EncodedCount(data: seq<byte>, h: Header)
    requires WellFormed(h)
    requires |EncodeHeader(h)| <= |data| && data[0..|EncodeHeader(h)|] == EncodeHeader(h)
    ensures 8 + |h.signature| <= |data|
    ensures DecodeAt(data, 4 + |h.signature|) == h.filesCount
  {
    var w, s := EncodeHeader(h), |h.signature|;
    HeaderFields(h);
    FieldAt(data, 0, w, 4 + s, 4 + s, h.filesCount);
  }

  /** The entry-table bytes of a file that starts with a header's bytes. */
  lemma EncodedTableBytes(data: seq<byte>, h: Header)
    requires WellFormed(h)
    requires |EncodeHeader(h)| <= |data| && data[0..|EncodeHeader(h)|] == EncodeHeader(h)
    ensures h.offset <= |data| && data[8 + |h.signature|..h.offset] == EncodeEntries(h.files)
  {
    var w, s := EncodeHeader(h), |h.signature|;
    HeaderFields(h);
    SliceOfSlice(data, 0, w, 8 + s, |w|, 8 + s, h.offset);
  }

  /** The entry table of a file that holds a header's table where the header says. */
  lemma EncodedTable(data: seq<byte>, h: Header)
    requires AllWritable(h.files) && h.offset == 8 + |h.signature| + EntriesSize(h.files)
    requires h.offset <= |data| && data[8 + |h.signature|..h.offset] == EncodeEntries(h.files)
    ensures ReadEntriesAt(data, 8 + |h.signature|, |h.files|) == Success(Step(h.files, h.offset))
  {
    ReadEncodedEntries(data, 8 + |h.signature|, h.files, h.offset);
  }

  /**
   * Round trip: the serialised header of a well-formed package, followed by
   * any data section, parses back to that header, whose data offset is the
   * length of the header bytes.
   */
  lemma ParseEncoded(h: Header, dataSection: seq<byte>)
    requires WellFormed(h)
    ensures Parse(EncodeHeader(h) + dataSection) == Success(h)
  {
    var w := EncodeHeader(h);
    var data := w + dataSection;
    assert data[0..|w|] == w;
    EncodedSignature(data, h);
    EncodedCount(data, h);
    EncodedTableBytes(data, h);
    EncodedTable(data, h);
    ParseOfFields(data, h);
  }

  // ----- What a successful parse read -----

  /**
   * A successful entry read consumed exactly the encoding of the entry; in
   * particular its path was not cut short by the end of the file.
   */
  lemma ReadEntryIsEncoding(data: seq<byte>, pos: nat)
    requires pos <= |data| && ReadEntryAt(data, pos).Success?
    ensures var r := ReadEntryAt(data, pos).value;
      && WritableEntry(r.value)
      && r.next == pos + EntrySize(r.value)
      && data[pos..r.next] == EncodeEntry(r.value)
  {
    var n := DecodeAt(data, pos);
    var p := pos + 4 + n;
    EncodeDecode(data, pos);
    EncodeDecode(data, p);
    EncodeDecode(data, p + 4);
    SliceSplit(data, pos, p + 4, p + 8);
    SliceSplit(data, pos, p, p + 4);
    SliceSplit(data, pos, pos + 4, p);
  }

  lemma {:induction false} ReadEntriesIsEncoding(data: seq<byte>, pos: nat, count: nat)
    requires pos <= |data| && ReadEntriesAt(data, pos, count).Success?
    ensures var r := ReadEntriesAt(data, pos, count).value;
      && |r.value| == count
      && AllWritable(r.value)
      && r.next == pos + EntriesSize(r.value)
      && data[pos..r.next] == EncodeEntries(r.value)
    decreases count
  {
    if count > 0 {
      var entry := ReadEntryAt(data, pos).value;
      ReadEntryIsEncoding(data, pos);
      ReadEntriesIsEncoding(data, entry.next, count - 1);
      var rest := ReadEntriesAt(data, entry.next, count - 1).value;
      var files := [entry.value] + rest.value;
      assert files[1..] == rest.value;
      SliceSplit(data, pos, entry.next, rest.next);
    }
  }

  /**
   * A successful parse returns a well-formed header (a supported signature,
   * `max(filesCount, 0)` entries, the data offset just past the table), and
   * the file starts with exactly that header's serialisation.
   */
  lemma ParsedIsEncoding(data: seq<byte>)
    requires Parse(data).Success?
    ensures var h := Parse(data).value;
      WellFormed(h) && h.offset <= |data| && data[..h.offset] == EncodeHeader(h)
  {
    var h := Parse(data).value;
    // The fields, at the places `Parse` reads them.
    assert
      && h.signature in SUPPORTED_VERSIONS
      && 8 + |h.signature| <= |data|
      && DecodeAt(data, 0) == |h.signature|
      && data[4..4 + |h.signature|] == h.signature
      && DecodeAt(data, 4 + |h.signature|) == h.filesCount
      && ReadEntriesAt(data, 8 + |h.signature|, RangeLength(h.filesCount)) == Success(Step(h.files, h.offset));
    HeaderOfFields(data, h);
  }

  /** A header whose fields a file holds in order is well formed, and the file starts with its bytes. */
  lemma HeaderOfFields(data: seq<byte>, h: Header)
    requires h.signature in SUPPORTED_VERSIONS
    requires 8 + |h.signature| <= |data|
    requires DecodeAt(data, 0) == |h.signature|
    requires data[4..4 + |h.signature|] == h.signature
    requires DecodeAt(data, 4 + |h.signature|) == h.filesCount
    requires ReadEntriesAt(data, 8 + |h.signature|, RangeLength(h.filesCount)) == Success(Step(h.files, h.offset))
    ensures WellFormed(h) && h.offset <= |data| && data[..h.offset] == EncodeHeader(h)
  {
    var p := 4 + |h.signature|;
    ReadEntriesIsEncoding(data, p + 4, RangeLength(h.filesCount));
    assert WellFormed(h);
    EncodeDecode(data, 0);
    EncodeDecode(data, p);
    HeaderBytes(data, h);
  }

  /** A file whose four header parts hold a well-formed header's parts starts with its bytes. */
  lemma HeaderBytes(data: seq<byte>, h: Header)
    requires WellFormed(h) && h.offset <= |data|
    requires data[0..4] == Encode(|h.signature|)
    requires data[4..4 + |h.signature|] == h.signature
    requires data[4 + |h.signature|..8 + |h.signature|] == Encode(h.filesCount)
    requires data[8 + |h.signature|..h.offset] == EncodeEntries(h.files)
    ensures data[..h.offset] == EncodeHeader(h)
  {
    var p := 4 + |h.signature|;
    SliceSplit(data, 0, p + 4, h.offset);
    SliceSplit(data, 0, p, p + 4);
    SliceSplit(data, 0, 4, p);
    assert data[..h.offset] == data[0..h.offset];
  }

  /**
   * `Parse` and `EncodeHeader` are inverse: a parse succeeds with `h` exactly
   * when `h` is well formed and the file starts with its serialisation.
   */
  lemma ParseSucceedsExactly(data: seq<byte>, h: Header)
    ensures Parse(data) == Success(h) <==>
      WellFormed(h) && h.offset <= |data| && data[..h.offset] == EncodeHeader(h)
  {
    if Parse(data) == Success(h) {
      ParsedIsEncoding(data);
    }
    if WellFormed(h) && h.offset <= |data| && data[..h.offset] == EncodeHeader(h) {
      PrefixAndRest(data, EncodeHeader(h), h.offset);
      ParseEncoded(h, data[h.offset..]);
    }
  }
}
