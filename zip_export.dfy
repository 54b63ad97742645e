/**
 * The conversion to a zip archive. The archive is modelled by what the
 * converter puts into it: a comment and an ordered list of named items.
 * Each item's contents are read from the package at the data-section start
 * plus the entry's offset, and a read near the end of the file gets fewer
 * bytes, as a file read does.
 */
module ZipExport {
  import opened Wrappers
  import opened Int32
  import opened PkgFormat

  /** One member of the archive: its name and its contents. */
  datatype ZipItem = ZipItem(name: seq<byte>, data: seq<byte>)

  datatype ExportError =
    | NegativeSeek(path: seq<byte>)        // the entry's start lies before the start of the file
    | NegativeReadLength(path: seq<byte>)  // the entry's length is negative

  /** `fin.seek(start); fin.read(n)`: the bytes from `start` on, at most `n` of them. */
  function ReadRange(input: seq<byte>, start: nat, n: nat): (b: seq<byte>)
    ensures |b| == if start >= |input| then 0 else Min(n, |input| - start)
    ensures forall k | 0 <= k < |b| :: b[k] == input[start + k]
  {
    input[Min(start, |input|)..Min(start + n, |input|)]
  }

  /** The item the converter writes for entry `f`, or why it cannot. */
  function ExtractEntry(input: seq<byte>, base: nat, f: FileInfo): (r: Result<ZipItem, ExportError>)
    ensures r.Failure? ==> r.error.path == f.path
    ensures r.Success? ==> r.value.name == f.path && |r.value.data| <= f.length
    ensures r.Success? ==>
      var start := base + f.offset;
      && 0 <= start && 0 <= f.length
      && |r.value.data| == (if start >= |input| then 0 else Min(f.length, |input| - start))
      && forall k | 0 <= k < |r.value.data| :: r.value.data[k] == input[start + k]
  {
    var start := base + f.offset;
    if start < 0 then Failure(NegativeSeek(f.path))
    else if f.length < 0 then Failure(NegativeReadLength(f.path))
    else Success(ZipItem(f.path, ReadRange(input, start, f.length)))
  }

  /** The items written, and the error that stopped the conversion, if any. */
  datatype Extraction = Extraction(items: seq<ZipItem>, error: Option<ExportError>)

  /** All entries in table order, up to the first one that cannot be read. */
  function ExtractAll(input: seq<byte>, base: nat, files: seq<FileInfo>): (x: Extraction)
    ensures |x.items| <= |files|
    ensures x.error.None? ==> |x.items| == |files|
    decreases |files|
  {
    if files == [] then Extraction([], None)
    else
      match ExtractEntry(input, base, files[0])
      case Failure(e) => Extraction([], Some(e))
      case Success(item) =>
        var rest := ExtractAll(input, base, files[1..]);
        Extraction([item] + rest.items, rest.error)
  }

  /** The archive being written: the source's `zipfile.ZipFile` object. */
  class ZipWriter {
    var comment: seq<byte>
    var items: seq<ZipItem>

    constructor ()
      ensures comment == [] && items == []
    {
      comment := [];
      items := [];
    }

    /** `z.comment = ...`. */
    method SetComment(c: seq<byte>)
      modifies this
      ensures comment == c && items == old(items)
    {
      comment := c;
    }

    /** `z.writestr(name, data)`: a new member after the ones already written. */
    method WriteStr(name: seq<byte>, data: seq<byte>)
      modifies this
      ensures items == old(items) + [ZipItem(name, data)] && comment == old(comment)
    {
      items := items + [ZipItem(name, data)];
    }
  }

  /** Items already written, put in front of what the remaining entries give. */
  function Append(items: seq<ZipItem>, rest: Extraction): Extraction {
    Extraction(items + rest.items, rest.error)
  }

  /**
   * The source's `convert_to_zip`: the comment first, then one item per
   * entry, in table order. An entry that cannot be read stops the loop and
   * leaves the archive with the items written before it.
   */
  method ConvertToZip(input: seq<byte>, h: Header) returns (z: ZipWriter, error: Option<ExportError>)
    ensures fresh(z)
    ensures z.comment == h.signature
    ensures Extraction(z.items, error) == ExtractAll(input, h.offset, h.files)
  {
    z := new ZipWriter();
    z.SetComment(h.signature);
    assert h.files[0..] == h.files;
    for i := 0 to |h.files|
      invariant z.comment == h.signature
      invariant ExtractAll(input, h.offset, h.files) == Append(z.items, ExtractAll(input, h.offset, h.files[i..]))
    {
      var f := h.files[i];
      ExtractTurn(input, h.offset, h.files, i, z.items);
      var start := h.offset + f.offset;
      if start < 0 {
        return z, Some(NegativeSeek(f.path));
      }
      if f.length < 0 {
        return z, Some(NegativeReadLength(f.path));
      }
      var data := input[Min(start, |input|)..Min(start + f.length, |input|)];
      z.WriteStr(f.path, data);
    }
    assert h.files[|h.files|..] == [];
    assert z.items + [] == z.items;
    error := None;
  }

  /** One turn of the export loop in terms of `ExtractAll`. */
  lemma ExtractTurn(input: seq<byte>, base: nat, files: seq<FileInfo>, i: nat, items: seq<ZipItem>)
    requires i < |files|
    ensures ExtractEntry(input, base, files[i]).Failure? ==>
      Append(items, ExtractAll(input, base, files[i..]))
        == Extraction(items, Some(ExtractEntry(input, base, files[i]).error))
    ensures ExtractEntry(input, base, files[i]).Success? ==>
      Append(items, ExtractAll(input, base, files[i..]))
        == Append(items + [ExtractEntry(input, base, files[i]).value], ExtractAll(input, base, files[i + 1..]))
  {
    assert files[i..][0] == files[i] && files[i..][1..] == files[i + 1..];
    assert items + [] == items;
    if ExtractEntry(input, base, files[i]).Success? {
      var item, rest := ExtractEntry(input, base, files[i]).value, ExtractAll(input, base, files[i + 1..]);
      assert items + ([item] + rest.items) == items + [item] + rest.items;
    }
  }
}
