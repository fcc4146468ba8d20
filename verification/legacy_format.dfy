/**
 * The oldest pack format and its writer (src/packer.rs): per file a
 * u16-prefixed pack path, a u8-prefixed MIME type and a u32-prefixed
 * content. The writer takes the content length from the file's metadata
 * and then copies the file, so the open file is modelled by what its
 * metadata says and what copying it yields.
 */
module LegacyFormat {
  import opened Wrappers
  import opened Bytes
  import opened Framing

  /** An open file: whether it is a regular file, the length its metadata reports, and its bytes. */
  datatype OpenFile = OpenFile(isRegular: bool, metadataLength: nat, content: seq<byte>)

  /** The packer's descriptor: the pack path, the guessed MIME type, the open file. */
  datatype FileDescriptor = FileDescriptor(packPath: Text, mime: Text, file: OpenFile)

  /** A file the metadata describes truthfully: regular, and as long as its bytes. */
  predicate Consistent(f: OpenFile)
  {
    f.isRegular && f.metadataLength == |f.content|
  }

  /** Every announced length fits the width of its prefix. */
  predicate FitsLimits(d: FileDescriptor)
  {
    |d.packPath| <= U16_MAX && |d.mime| <= U8_MAX && d.file.metadataLength <= U32_MAX
  }

  /** A descriptor `serialize_into` writes without error. */
  predicate Writable(d: FileDescriptor)
  {
    FitsLimits(d) && Consistent(d.file)
  }

  /** The three fields of a written record, in order. */
  function Fields(d: FileDescriptor): (r: seq<Field>)
    ensures |r| == 3
  {
    [Field(2, d.packPath), Field(1, d.mime), Field(4, d.file.content)]
  }

  /** The bytes of one record. */
  function Record(d: FileDescriptor): (r: seq<byte>)
    requires Writable(d)
    ensures |r| == 7 + |d.packPath| + |d.mime| + |d.file.content|
  {
    Pow256Widths();
    Frame(Field(2, d.packPath)) + Frame(Field(1, d.mime)) + Frame(Field(4, d.file.content))
  }

  /** The record is exactly the frames of its fields. */
  lemma RecordIsFrames(d: FileDescriptor)
    requires Writable(d)
    ensures AllFit(Fields(d)) && Frames(Fields(d)) == Record(d)
  {
    Pow256Widths();
    Frames3(Field(2, d.packPath), Field(1, d.mime), Field(4, d.file.content));
  }

  datatype SerializeError =
    /** "File should be regular file, but is not..." */
    | NotRegularFile
    /** A length conversion (`try_into`) failed. */
    | LengthOverflow
    /** "Copy returned different number of bytes than file metadata" */
    | CopyMismatch(copied: nat, expected: nat)

  /**
   * `FileDescriptor::serialize_into`. The regular-file check comes first;
   * then each length is converted and written with its bytes; the content
   * length is the metadata's, and the whole file is copied after it before
   * the copied count is compared with that length. Every write is taken to
   * be complete.
   */
  function SerializeInto(d: FileDescriptor): (w: Written<SerializeError>)
    ensures w.error.None? <==> Writable(d)
    ensures w.error.None? ==> w.bytes == Record(d)
  {
    Pow256Widths();
    if !d.file.isRegular then Written([], Some(NotRegularFile))
    else if |d.packPath| > U16_MAX then Written([], Some(LengthOverflow))
    else
      var pathWritten := Frame(Field(2, d.packPath));
      if |d.mime| > U8_MAX then Written(pathWritten, Some(LengthOverflow))
      else
        var mimeWritten := pathWritten + Frame(Field(1, d.mime));
        if d.file.metadataLength > U32_MAX then Written(mimeWritten, Some(LengthOverflow))
        else
          var copied := mimeWritten + LittleEndian(d.file.metadataLength, 4) + d.file.content;
          if |d.file.content| != d.file.metadataLength then
            Written(copied, Some(CopyMismatch(|d.file.content|, d.file.metadataLength)))
          else
            Written(copied, None)
  }

  /**
   * How `serialize_into` fails: a file that is not regular before anything
   * is written; a length that does not fit after the fields before it; a
   * copy of a different length than the metadata announced after the whole
   * copy.
   */
  lemma SerializeIntoFailures(d: FileDescriptor)
    ensures var w := SerializeInto(d);
            && (w.error == Some(NotRegularFile) <==> !d.file.isRegular)
            && (w.error == Some(NotRegularFile) ==> w.bytes == [])
            && (w.error == Some(LengthOverflow) <==> d.file.isRegular && !FitsLimits(d))
            && (w.error.Some? && w.error.value.CopyMismatch? <==>
                  d.file.isRegular && FitsLimits(d) && d.file.metadataLength != |d.file.content|)
    ensures var w := SerializeInto(d);
            w.error.Some? && w.error.value.CopyMismatch? ==>
              && w.error.value == CopyMismatch(|d.file.content|, d.file.metadataLength)
              && w.bytes == Frame(Field(2, d.packPath)) + Frame(Field(1, d.mime))
                              + LittleEndian(d.file.metadataLength, 4) + d.file.content
    ensures var w := SerializeInto(d);
            w.error == Some(LengthOverflow) ==>
              exists k: nat :: k <= 2 && AllFit(Fields(d)[..k]) && w.bytes == Frames(Fields(d)[..k])
                && (k < 2 ==> !Fits(Fields(d)[k]))
                && (k == 2 ==> d.file.metadataLength > U32_MAX)
  {
    Pow256Widths();
    var fs := Fields(d);
    assert fs[..0] == [];
    if d.file.isRegular && |d.packPath| <= U16_MAX {
      FramesPrefixStep(fs, 0);
      if |d.mime| <= U8_MAX {
        FramesPrefixStep(fs, 1);
      }
    }
  }

  predicate AllWritable(ds: seq<FileDescriptor>)
  {
    forall i :: 0 <= i < |ds| ==> Writable(ds[i])
  }

  /** The records of several descriptors, in order. */
  function Records(ds: seq<FileDescriptor>): seq<byte>
    requires AllWritable(ds)
  {
    if |ds| == 0 then [] else Record(ds[0]) + Records(ds[1..])
  }

  /** The index of the first descriptor that cannot be written, if any. */
  function FirstUnwritable(ds: seq<FileDescriptor>): (r: Option<nat>)
    ensures r.None? <==> AllWritable(ds)
    ensures r.Some? ==> r.value < |ds| && AllWritable(ds[..r.value]) && !Writable(ds[r.value])
  {
    if |ds| == 0 then None
    else if !Writable(ds[0]) then
      assert AllWritable(ds[..0]);
      Some(0)
    else
      match FirstUnwritable(ds[1..])
      case None => None
      case Some(k) =>
        RecordsPrefixCons(ds, k);
        Some(k + 1)
  }

  /** Records of a prefix: the first record, then those of the rest's prefix. */
  lemma RecordsPrefixCons(ds: seq<FileDescriptor>, k: nat)
    requires 0 < |ds| && k < |ds| && Writable(ds[0]) && AllWritable(ds[1..][..k])
    ensures AllWritable(ds[..k + 1])
    ensures Records(ds[..k + 1]) == Record(ds[0]) + Records(ds[1..][..k])
  {
    assert ds[..k + 1][1..] == ds[1..][..k];
    var pre := ds[..k + 1];
    forall i | 0 <= i < |pre|
      ensures Writable(pre[i])
    {
      if i > 0 {
        assert pre[i] == ds[1..][..k][i - 1];
      }
    }
  }

  /**
   * `Pack::store`: the descriptors serialised in insertion order, stopping
   * at the first that fails.
   */
  function Store(ds: seq<FileDescriptor>): (w: Written<SerializeError>)
    ensures w.error.None? <==> AllWritable(ds)
    ensures w.error.None? ==> w.bytes == Records(ds)
  {
    if |ds| == 0 then Written([], None)
    else
      var first := SerializeInto(ds[0]);
      if first.error.Some? then first
      else
        var rest := Store(ds[1..]);
        assert AllWritable(ds) <==> AllWritable(ds[1..]) by {
          assert forall i :: 0 < i < |ds| ==> ds[i] == ds[1..][i - 1];
        }
        Written(first.bytes + rest.bytes, rest.error)
  }

  /**
   * Where a store stops: after the records of every descriptor before the
   * first that cannot be written, followed by that one's partial record
   * and error.
   */
  lemma {:induction false} StoreStops(ds: seq<FileDescriptor>)
    requires FirstUnwritable(ds).Some?
    ensures Store(ds).bytes == Records(ds[..FirstUnwritable(ds).value]) + SerializeInto(ds[FirstUnwritable(ds).value]).bytes
    ensures Store(ds).error == SerializeInto(ds[FirstUnwritable(ds).value]).error
  {
    if Writable(ds[0]) {
      var k := FirstUnwritable(ds[1..]).value;
      var rest := Store(ds[1..]);
      StoreStops(ds[1..]);
      assert FirstUnwritable(ds).value == k + 1;
      assert ds[k + 1] == ds[1..][k];
      assert Store(ds) == Written(Record(ds[0]) + rest.bytes, rest.error);
      StoppedLater(ds, k, SerializeInto(ds[k + 1]).bytes, rest, Store(ds));
    } else {
      assert Records(ds[..0]) == [];
    }
  }

  /** The step of `StoreStops`: a store that stopped in the rest stopped at the same place overall. */
  lemma StoppedLater(ds: seq<FileDescriptor>, k: nat, partial: seq<byte>,
                     rest: Written<SerializeError>, w: Written<SerializeError>)
    requires 0 < |ds| && k < |ds| - 1 && Writable(ds[0]) && AllWritable(ds[1..][..k])
    requires rest.bytes == Records(ds[1..][..k]) + partial
    requires w == Written(Record(ds[0]) + rest.bytes, rest.error)
    ensures AllWritable(ds[..k + 1])
    ensures w.bytes == Records(ds[..k + 1]) + partial
  {
    RecordsPrefixCons(ds, k);
  }

  /** The packer's list of descriptors, in insertion order. */
  datatype Pack = Pack(descriptors: seq<FileDescriptor>)

  /** `Pack::new`. */
  function New(): (p: Pack)
    ensures |p.descriptors| == 0
  {
    Pack([])
  }

  /** Why a file could not be opened. */
  datatype OpenError = OpenError

  /**
   * `Pack::file_add`, given what opening the file returned and the MIME
   * guess for its path: the descriptor goes to the end of the list with the
   * guess unchanged, with no charset parameter added.
   */
  function FileAdd(guessMime: Text -> Text, p: Pack, fsPath: Text, packPath: Text,
                   openResult: Result<OpenFile, OpenError>): (r: Result<Pack, OpenError>)
    ensures r.Failure? <==> openResult.Failure?
    ensures r.Success? ==>
              && |r.value.descriptors| == |p.descriptors| + 1
              && r.value.descriptors[..|p.descriptors|] == p.descriptors
              && r.value.descriptors[|p.descriptors|].packPath == packPath
              && r.value.descriptors[|p.descriptors|].mime == guessMime(fsPath)
              && r.value.descriptors[|p.descriptors|].file == openResult.value
  {
    match openResult
    case Failure(e) => Failure(e)
    case Success(file) =>
      var ds := p.descriptors + [FileDescriptor(packPath, guessMime(fsPath), file)];
      assert ds[..|p.descriptors|] == p.descriptors;
      Success(Pack(ds))
  }

  /** No two descriptors share a pack path. */
  predicate DistinctPaths(ds: seq<FileDescriptor>)
  {
    forall i, j :: 0 <= i < j < |ds| ==> ds[i].packPath != ds[j].packPath
  }
}
