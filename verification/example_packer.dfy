/**
 * The packer shipped as an example (examples/packer/packer.rs): the same
 * record format and `file_add` rules as the packer crate, with a bare
 * conversion error instead of a named context. It is modelled on its own,
 * field by field, and then shown to write exactly what the packer crate
 * writes.
 */
module ExamplePacker {
  import opened Wrappers
  import opened Bytes
  import opened Seqs
  import opened Framing
  import opened RecordFormat
  import PackerFile
  import RecordPacker

  /** `TryFromIntError`: a length did not fit its prefix; which one is not recorded. */
  datatype TryFromIntError = TryFromIntError

  /** How many bytes of gzip variant the record announces: none when there is no variant. */
  function GzipLength(d: FileDescriptor): (n: nat)
    ensures n == |GzipBytes(d)|
  {
    match d.contentGzip
    case Some(g) => |g|
    case None => 0
  }

  /**
   * `FileDescriptor::serialize_into`, one field after the other: each
   * length is converted, then its prefix and bytes are written, and the
   * first conversion that fails ends the record where it stands.
   */
  function SerializeInto(d: FileDescriptor): (w: Written<TryFromIntError>)
    ensures w.error.None? <==> FitsLimits(d)
    ensures w.error.None? ==> w.bytes == Record(d)
    ensures w.error.Some? ==>
              exists k: nat :: FirstUnfit(Fields(d), k) && w.bytes == Frames(Fields(d)[..k])
  {
    Pow256Widths();
    FieldPrefixes(d);
    var fs := Fields(d);
    if |d.packPath| > U16_MAX then
      assert FirstUnfit(fs, 0);
      Written([], Some(TryFromIntError))
    else
      var pathWritten := Frame(Field(2, d.packPath));
      if |d.contentType| > U8_MAX then
        assert FirstUnfit(fs, 1);
        Written(pathWritten, Some(TryFromIntError))
      else
        var contentTypeWritten := pathWritten + Frame(Field(1, d.contentType));
        if |d.etag| > U8_MAX then
          assert FirstUnfit(fs, 2);
          Written(contentTypeWritten, Some(TryFromIntError))
        else
          var etagWritten := contentTypeWritten + Frame(Field(1, d.etag));
          if |d.content| > U32_MAX then
            assert FirstUnfit(fs, 3);
            Written(etagWritten, Some(TryFromIntError))
          else
            var contentWritten := etagWritten + Frame(Field(4, d.content));
            if GzipLength(d) > U32_MAX then
              assert FirstUnfit(fs, 4);
              Written(contentWritten, Some(TryFromIntError))
            else
              Written(contentWritten + Frame(Field(4, GzipBytes(d))), None)
  }

  /** The frames of each prefix of a record's fields that fits, written out field by field. */
  lemma FieldPrefixes(d: FileDescriptor)
    ensures var fs := Fields(d);
            |d.packPath| <= U16_MAX ==>
              && AllFit(fs[..1])
              && Frames(fs[..1]) == Frame(fs[0])
              && (|d.contentType| <= U8_MAX ==>
                    && AllFit(fs[..2])
                    && Frames(fs[..2]) == Frame(fs[0]) + Frame(fs[1])
                    && (|d.etag| <= U8_MAX ==>
                          && AllFit(fs[..3])
                          && Frames(fs[..3]) == Frame(fs[0]) + Frame(fs[1]) + Frame(fs[2])
                          && (|d.content| <= U32_MAX ==>
                                && AllFit(fs[..4])
                                && Frames(fs[..4]) == Frame(fs[0]) + Frame(fs[1]) + Frame(fs[2]) + Frame(fs[3]))))
  {
    Pow256Widths();
    var fs := Fields(d);
    assert fs[..0] == [];
    if |d.packPath| <= U16_MAX {
      FramesPrefixStep(fs, 0);
      if |d.contentType| <= U8_MAX {
        FramesPrefixStep(fs, 1);
        if |d.etag| <= U8_MAX {
          FramesPrefixStep(fs, 2);
          if |d.content| <= U32_MAX {
            FramesPrefixStep(fs, 3);
          }
        }
      }
    }
  }

  /**
   * Apart from the error's context, this serialiser and the packer crate's
   * write the same bytes and fail on the same descriptors.
   */
  lemma {:induction false} SameAsPackerCrate(d: FileDescriptor)
    ensures SerializeInto(d).bytes == RecordPacker.SerializeInto(d).bytes
    ensures SerializeInto(d).error.None? <==> RecordPacker.SerializeInto(d).error.None?
  {
    var ours := SerializeInto(d);
    var theirs := RecordPacker.SerializeInto(d);
    if ours.error.Some? {
      var k: nat :| FirstUnfit(Fields(d), k) && ours.bytes == Frames(Fields(d)[..k]);
      var e := Encode(Fields(d));
      assert theirs.bytes == e.bytes;
      FirstUnfitUnique(Fields(d), k, e.error.value);
    }
  }

  /**
   * `Pack::store`: the descriptors serialised in insertion order, stopping
   * at the first that fails. It writes what the packer crate's store
   * writes.
   */
  function Store(ds: seq<FileDescriptor>): (w: Written<TryFromIntError>)
    ensures w.bytes == RecordPacker.Store(ds).bytes
    ensures w.error.None? <==> RecordPacker.Store(ds).error.None?
  {
    if |ds| == 0 then Written([], None)
    else
      SameAsPackerCrate(ds[0]);
      var first := SerializeInto(ds[0]);
      if first.error.Some? then first
      else
        var rest := Store(ds[1..]);
        Written(first.bytes + rest.bytes, rest.error)
  }

  /** A successful store writes every record, in insertion order. */
  lemma {:induction false} StoreWritesRecords(ds: seq<FileDescriptor>)
    ensures Store(ds).error.None? <==> AllFitLimits(ds)
    ensures Store(ds).error.None? ==> Store(ds).bytes == Records(ds)
  {
  }

  /**
   * `Pack::file_add`, given what reading the file returned: content as
   * read, gzip variant only when strictly shorter, the guessed type with
   * "; charset=UTF-8" on "text/" types, and the quoted SHA3 ETag, appended
   * at the end.
   */
  function FileAdd(c: PackerFile.Collaborators, p: RecordPacker.Pack, fsPath: Text, packPath: Text,
                   read: Result<seq<byte>, PackerFile.ReadError>): (r: Result<RecordPacker.Pack, PackerFile.ReadError>)
    ensures r.Failure? <==> read.Failure?
    ensures r.Success? ==>
              && |r.value.descriptors| == |p.descriptors| + 1
              && r.value.descriptors[..|p.descriptors|] == p.descriptors
              && var added := r.value.descriptors[|p.descriptors|];
              && added.packPath == packPath
              && added.content == read.value
              && (added.contentGzip.Some? <==> |c.gzip(read.value)| < |read.value|)
              && (added.contentGzip.Some? ==> added.contentGzip.value == c.gzip(read.value))
              && StartsWith(added.contentType, c.guessMime(fsPath))
              && added.etag == PackerFile.EtagFromContent(c, read.value)
  {
    match read
    case Failure(e) => Failure(e)
    case Success(content) =>
      var gzip := c.gzip(content);
      var contentGzip := if |gzip| < |content| then Some(gzip) else None;
      var guessed := c.guessMime(fsPath);
      var contentType :=
        if StartsWith(guessed, PackerFile.TEXT_PREFIX) then guessed + RecordPacker.CHARSET_UTF8 else guessed;
      assert StartsWith(contentType, guessed) by {
        assert contentType[..|guessed|] == guessed;
      }
      var added := FileDescriptor(packPath, contentType, PackerFile.EtagFromContent(c, content),
                                  content, contentGzip);
      var ds := p.descriptors + [added];
      assert ds[..|p.descriptors|] == p.descriptors;
      Success(RecordPacker.Pack(ds))
  }

  /** The example's `file_add` builds exactly the packer crate's descriptor. */
  lemma {:induction false} FileAddSameAsPackerCrate(c: PackerFile.Collaborators, p: RecordPacker.Pack,
                                                    fsPath: Text, packPath: Text,
                                                    read: Result<seq<byte>, PackerFile.ReadError>)
    ensures FileAdd(c, p, fsPath, packPath, read) == RecordPacker.FileAdd(c, p, fsPath, packPath, read)
  {
    if read.Success? {
      var ours := FileAdd(c, p, fsPath, packPath, read).value.descriptors;
      var theirs := RecordPacker.FileAdd(c, p, fsPath, packPath, read).value.descriptors;
      var n := |p.descriptors|;
      var guessed := c.guessMime(fsPath);
      var a := ours[n];
      var b := theirs[n];
      assert a.contentType == b.contentType by {
        if StartsWith(guessed, PackerFile.TEXT_PREFIX) {
          assert b.contentType == guessed + RecordPacker.CHARSET_UTF8;
        }
      }
      assert a == b;
      assert ours == ours[..n] + [a] && theirs == theirs[..n] + [b];
    }
  }
}
