/**
 * What the conversion promises: one item per entry, in table order, named
 * by the entry's path and holding the bytes at the entry's place in the
 * data section, until the first entry that cannot be read; and, for a
 * package as the format lays it out, exactly the entries' byte ranges.
 */
module ExportProperties {
  import opened Wrappers
  import opened Int32
  import opened PkgFormat
  import opened PkgProperties
  import opened ZipExport

  /**
   * The conversion writes the items of the first `k` entries and stops: at
   * the end of the table with no error, or at entry `k` with its error.
   */
  lemma {:induction false} ExtractAllExactly(input: seq<byte>, base: nat, files: seq<FileInfo>)
    ensures var x := ExtractAll(input, base, files);
      && |x.items| <= |files|
      && (forall j | 0 <= j < |x.items| :: ExtractEntry(input, base, files[j]) == Success(x.items[j]))
      && (x.error.None? ==> |x.items| == |files|)
      && (x.error.Some? ==> |x.items| < |files| && ExtractEntry(input, base, files[|x.items|]) == Failure(x.error.value))
    decreases |files|
  {
    if files != [] && ExtractEntry(input, base, files[0]).Success? {
      var rest := ExtractAll(input, base, files[1..]);
      ExtractAllExactly(input, base, files[1..]);
      var x := ExtractAll(input, base, files);
      assert x.items == [ExtractEntry(input, base, files[0]).value] + rest.items;
      forall j | 0 <= j < |x.items|
        ensures ExtractEntry(input, base, files[j]) == Success(x.items[j])
      {
        if j > 0 {
          assert files[j] == files[1..][j - 1] && x.items[j] == rest.items[j - 1];
        }
      }
      if x.error.Some? {
        assert files[|x.items|] == files[1..][|rest.items|];
      }
    }
  }

  /**
   * The conversion fails exactly when some entry starts before the start of
   * the file or has a negative length.
   */
  lemma ExtractAllFails(input: seq<byte>, base: nat, files: seq<FileInfo>)
    ensures ExtractAll(input, base, files).error.Some? <==>
      exists j | 0 <= j < |files| :: base + files[j].offset < 0 || files[j].length < 0
  {
    ExtractAllExactly(input, base, files);
    if ExtractAll(input, base, files).error.None? {
      forall j | 0 <= j < |files|
        ensures base + files[j].offset >= 0 && files[j].length >= 0
      {
        assert ExtractEntry(input, base, files[j]).Success?;
      }
    }
  }

  /** Reading past the header is reading the data section. */
  lemma ReadRangeAfter(w: seq<byte>, section: seq<byte>, start: nat, n: nat)
    ensures ReadRange(w + section, |w| + start, n) == ReadRange(section, start, n)
  {
    var a, b := ReadRange(w + section, |w| + start, n), ReadRange(section, start, n);
    assert forall k | 0 <= k < |a| :: a[k] == b[k] by {
      forall k | 0 <= k < |a| ensures a[k] == b[k] {
        assert (w + section)[|w| + start + k] == section[start + k];
      }
    }
  }

  /**
   * With no negative start or length in the table, every entry is written:
   * item `j` is named by entry `j`'s path and holds up to `length` bytes of
   * the data section from `offset` on.
   */
  lemma ExtractAfterHeader(w: seq<byte>, section: seq<byte>, files: seq<FileInfo>)
    requires forall j | 0 <= j < |files| :: files[j].offset >= 0 && files[j].length >= 0
    ensures var x := ExtractAll(w + section, |w|, files);
      && x.error == None
      && |x.items| == |files|
      && forall j | 0 <= j < |files| ::
           x.items[j] == ZipItem(files[j].path, ReadRange(section, files[j].offset, files[j].length))
  {
    ExtractAllExactly(w + section, |w|, files);
    var x := ExtractAll(w + section, |w|, files);
    forall j | 0 <= j < |x.items|
      ensures x.items[j] == ZipItem(files[j].path, ReadRange(section, files[j].offset, files[j].length))
    {
      ReadRangeAfter(w, section, files[j].offset, files[j].length);
    }
  }

  /**
   * A package as the format lays it out parses to its header, and its
   * conversion writes every entry's byte range of the data section.
   */
  lemma ConvertPackage(h: Header, section: seq<byte>)
    requires WellFormed(h)
    requires forall j | 0 <= j < |h.files| :: h.files[j].offset >= 0 && h.files[j].length >= 0
    ensures var input := EncodeHeader(h) + section;
      && Parse(input) == Success(h)
      && var x := ExtractAll(input, h.offset, h.files);
      && x.error == None
      && |x.items| == |h.files|
      && forall j | 0 <= j < |h.files| ::
           x.items[j] == ZipItem(h.files[j].path, ReadRange(section, h.files[j].offset, h.files[j].length))
  {
    ParseEncoded(h, section);
    EncodeHeaderLength(h);
    ExtractAfterHeader(EncodeHeader(h), section, h.files);
  }
}
