/**
 * The record layout of the newer pack format shared by packer/src/packer.rs
 * (writer) and loader/src/loader.rs (reader): per file, a u16-prefixed pack
 * path, a u8-prefixed content type, a u8-prefixed ETag, a u32-prefixed
 * content and a u32-prefixed gzip variant (length 0 when there is none).
 */
module RecordFormat {
  import opened Wrappers
  import opened Bytes
  import opened Framing

  /** What the packer keeps per file before writing it. */
  datatype FileDescriptor = FileDescriptor(
    packPath: Text,
    contentType: Text,
    etag: Text,
    content: seq<byte>,
    contentGzip: Option<seq<byte>>)

  /** The bytes written for the gzip field: nothing when there is no variant. */
  function GzipBytes(d: FileDescriptor): seq<byte>
  {
    d.contentGzip.GetOr([])
  }

  /** The five fields of a record, in the order they are written. */
  function Fields(d: FileDescriptor): (r: seq<Field>)
    ensures |r| == 5
  {
    [Field(2, d.packPath), Field(1, d.contentType), Field(1, d.etag),
     Field(4, d.content), Field(4, GzipBytes(d))]
  }

  /** Every length fits the width of its prefix. */
  predicate FitsLimits(d: FileDescriptor)
  {
    && |d.packPath| <= U16_MAX
    && |d.contentType| <= U8_MAX
    && |d.etag| <= U8_MAX
    && |d.content| <= U32_MAX
    && |GzipBytes(d)| <= U32_MAX
  }

  lemma FitsLimitsFields(d: FileDescriptor)
    ensures FitsLimits(d) <==> AllFit(Fields(d))
  {
    Pow256Widths();
    var fs := Fields(d);
    assert fs[0] == Field(2, d.packPath) && fs[1] == Field(1, d.contentType);
    assert fs[2] == Field(1, d.etag) && fs[3] == Field(4, d.content) && fs[4] == Field(4, GzipBytes(d));
    if AllFit(fs) {
      assert Fits(fs[0]) && Fits(fs[1]) && Fits(fs[2]) && Fits(fs[3]) && Fits(fs[4]);
    }
  }

  /** The bytes of one record, field by field. */
  function Record(d: FileDescriptor): (r: seq<byte>)
    requires FitsLimits(d)
    ensures |r| >= 12
  {
    Pow256Widths();
    Frame(Field(2, d.packPath)) + Frame(Field(1, d.contentType)) + Frame(Field(1, d.etag))
      + Frame(Field(4, d.content)) + Frame(Field(4, GzipBytes(d)))
  }

  /** The record is exactly the frames of its fields, in order. */
  lemma RecordIsFrames(d: FileDescriptor)
    requires FitsLimits(d)
    ensures AllFit(Fields(d)) && Frames(Fields(d)) == Record(d)
  {
    Pow256Widths();
    Frames5(Field(2, d.packPath), Field(1, d.contentType), Field(1, d.etag),
            Field(4, d.content), Field(4, GzipBytes(d)));
  }

  predicate AllFitLimits(ds: seq<FileDescriptor>)
  {
    forall i :: 0 <= i < |ds| ==> FitsLimits(ds[i])
  }

  /** The index of the first descriptor whose lengths do not all fit, if any. */
  function FirstUnfitting(ds: seq<FileDescriptor>): (r: Option<nat>)
    ensures r.None? <==> AllFitLimits(ds)
    ensures r.Some? ==> r.value < |ds| && AllFitLimits(ds[..r.value]) && !FitsLimits(ds[r.value])
  {
    if |ds| == 0 then None
    else if !FitsLimits(ds[0]) then
      assert AllFitLimits(ds[..0]);
      Some(0)
    else
      match FirstUnfitting(ds[1..])
      case None => None
      case Some(k) =>
        RecordsPrefixCons(ds, k);
        Some(k + 1)
  }

  /** Records of a prefix: the first record, then those of the rest's prefix. */
  lemma RecordsPrefixCons(ds: seq<FileDescriptor>, k: nat)
    requires 0 < |ds| && k < |ds| && FitsLimits(ds[0]) && AllFitLimits(ds[1..][..k])
    ensures AllFitLimits(ds[..k + 1])
    ensures Records(ds[..k + 1]) == Record(ds[0]) + Records(ds[1..][..k])
  {
    assert ds[..k + 1][1..] == ds[1..][..k];
    var pre := ds[..k + 1];
    forall i | 0 <= i < |pre|
      ensures FitsLimits(pre[i])
    {
      if i > 0 {
        assert pre[i] == ds[1..][..k][i - 1];
      }
    }
  }

  /** The records of several descriptors, in order. */
  function Records(ds: seq<FileDescriptor>): seq<byte>
    requires AllFitLimits(ds)
  {
    if |ds| == 0 then [] else Record(ds[0]) + Records(ds[1..])
  }

  /** Writing one more descriptor appends its record. */
  lemma {:induction false} RecordsAppend(ds: seq<FileDescriptor>, d: FileDescriptor)
    requires AllFitLimits(ds) && FitsLimits(d)
    ensures AllFitLimits(ds + [d])
    ensures Records(ds + [d]) == Records(ds) + Record(d)
  {
    var all := ds + [d];
    forall i | 0 <= i < |all|
      ensures FitsLimits(all[i])
    {
      if i < |ds| {
        assert all[i] == ds[i];
      }
    }
    if |ds| == 0 {
      assert all[1..] == [];
    } else {
      var rest := ds[1..];
      assert all[1..] == rest + [d];
      assert AllFitLimits(rest) by {
        assert forall i :: 0 <= i < |rest| ==> rest[i] == ds[i + 1];
      }
      RecordsAppend(rest, d);
      Regroup(Record(ds[0]), Records(rest), Record(d), Records(rest + [d]));
    }
  }

  lemma Regroup(a: seq<byte>, b: seq<byte>, c: seq<byte>, bc: seq<byte>)
    requires bc == b + c
    ensures a + bc == (a + b) + c
  {
  }

  /** No two descriptors share a pack path. */
  predicate DistinctPaths(ds: seq<FileDescriptor>)
  {
    forall i, j :: 0 <= i < j < |ds| ==> ds[i].packPath != ds[j].packPath
  }
}
