/**
 * The writer of the newer pack format (packer/src/packer.rs): a list of
 * file descriptors in insertion order, each serialised as one record.
 * Reading the file, gzip and SHA3 are foreign and enter through
 * `PackerFile.Collaborators`; the directory walk is left out and only the
 * pack path it derives from a relative path is modelled.
 */
module RecordPacker {
  import opened Wrappers
  import opened Bytes
  import opened Seqs
  import opened Framing
  import opened RecordFormat
  import PackerFile
  import PackerPackPath

  /** The error context `serialize_into` attaches to a length that does not fit. */
  datatype SerializeError =
    /** "pack_path_bytes_length" */
    | PackPathBytesLength
    /** "content_type_bytes_length" */
    | ContentTypeBytesLength
    /** "etag_bytes_length" */
    | EtagBytesLength
    /** "content_bytes_length" */
    | ContentBytesLength
    /** "content_gzip" */
    | ContentGzip

  /** The context of the field at `index` of a record. */
  function FieldError(index: nat): SerializeError
    requires index < 5
  {
    [PackPathBytesLength, ContentTypeBytesLength, EtagBytesLength, ContentBytesLength, ContentGzip][index]
  }

  /**
   * `FileDescriptor::serialize_into`: the record when every length fits;
   * otherwise the error of the first field that does not, after the
   * fields before it have been written.
   */
  function SerializeInto(d: FileDescriptor): (w: Written<SerializeError>)
    ensures w.error.None? <==> FitsLimits(d)
    ensures w.error.None? ==> w.bytes == Record(d)
    ensures w.error == Some(PackPathBytesLength) <==> |d.packPath| > U16_MAX
    ensures w.error == Some(ContentTypeBytesLength) <==>
              |d.packPath| <= U16_MAX && |d.contentType| > U8_MAX
    ensures w.error == Some(EtagBytesLength) <==>
              |d.packPath| <= U16_MAX && |d.contentType| <= U8_MAX && |d.etag| > U8_MAX
    ensures w.error == Some(ContentBytesLength) <==>
              |d.packPath| <= U16_MAX && |d.contentType| <= U8_MAX && |d.etag| <= U8_MAX
              && |d.content| > U32_MAX
    ensures w.error == Some(ContentGzip) <==>
              |d.packPath| <= U16_MAX && |d.contentType| <= U8_MAX && |d.etag| <= U8_MAX
              && |d.content| <= U32_MAX && d.contentGzip.Some? && |d.contentGzip.value| > U32_MAX
    ensures w.error.Some? ==>
              exists k :: 0 <= k < 5 && w.error.value == FieldError(k)
                && AllFit(Fields(d)[..k]) && w.bytes == Frames(Fields(d)[..k])
  {
    var fs := Fields(d);
    var e := Encode(fs);
    FitsLimitsFields(d);
    Pow256Widths();
    match e.error
    case None =>
      RecordIsFrames(d);
      Written(e.bytes, None)
    case Some(k) =>
      FirstUnfitField(d, k);
      Written(e.bytes, Some(FieldError(k)))
  }

  /** Which field does not fit first, told by the lengths alone. */
  lemma FirstUnfitField(d: FileDescriptor, k: nat)
    requires k < 5 && AllFit(Fields(d)[..k]) && !Fits(Fields(d)[k])
    ensures FieldError(k) == PackPathBytesLength <==> |d.packPath| > U16_MAX
    ensures FieldError(k) == ContentTypeBytesLength <==>
              |d.packPath| <= U16_MAX && |d.contentType| > U8_MAX
    ensures FieldError(k) == EtagBytesLength <==>
              |d.packPath| <= U16_MAX && |d.contentType| <= U8_MAX && |d.etag| > U8_MAX
    ensures FieldError(k) == ContentBytesLength <==>
              |d.packPath| <= U16_MAX && |d.contentType| <= U8_MAX && |d.etag| <= U8_MAX
              && |d.content| > U32_MAX
    ensures FieldError(k) == ContentGzip <==>
              |d.packPath| <= U16_MAX && |d.contentType| <= U8_MAX && |d.etag| <= U8_MAX
              && |d.content| <= U32_MAX && d.contentGzip.Some? && |d.contentGzip.value| > U32_MAX
  {
    Pow256Widths();
    var fs := Fields(d);
    assert fs[0] == Field(2, d.packPath) && fs[1] == Field(1, d.contentType);
    assert fs[2] == Field(1, d.etag) && fs[3] == Field(4, d.content) && fs[4] == Field(4, GzipBytes(d));
    forall i | 0 <= i < k
      ensures Fits(fs[i])
    {
      assert fs[..k][i] == fs[i];
    }
  }

  /** A `None` gzip variant is written as a zero length with nothing after it. */
  lemma AbsentGzipWritesZero(d: FileDescriptor)
    requires FitsLimits(d) && d.contentGzip.None?
    ensures var r := Record(d);
            r[|r| - 4..] == [0, 0, 0, 0]
  {
    assert GzipBytes(d) == [];
    var last := Frame(Field(4, []));
    assert last == LittleEndian(0, 4);
    assert LittleEndian(0, 4) == [0, 0, 0, 0];
  }

  /**
   * `Pack::store`: the descriptors serialised in insertion order, stopping
   * at the first that fails.
   */
  function Store(ds: seq<FileDescriptor>): (w: Written<SerializeError>)
    ensures w.error.None? <==> AllFitLimits(ds)
    ensures w.error.None? ==> w.bytes == Records(ds)
  {
    if |ds| == 0 then Written([], None)
    else
      var first := SerializeInto(ds[0]);
      if first.error.Some? then first
      else
        var rest := Store(ds[1..]);
        Written(first.bytes + rest.bytes, rest.error)
  }

  /**
   * Where a store stops: when a descriptor does not fit, the records before
   * it have been written whole, then as much of its record as
   * `SerializeInto` wrote, and its error ends the store.
   */
  lemma {:induction false} StoreStops(ds: seq<FileDescriptor>)
    requires FirstUnfitting(ds).Some?
    ensures Store(ds).bytes == Records(ds[..FirstUnfitting(ds).value]) + SerializeInto(ds[FirstUnfitting(ds).value]).bytes
    ensures Store(ds).error == SerializeInto(ds[FirstUnfitting(ds).value]).error
  {
    if FitsLimits(ds[0]) {
      var k := FirstUnfitting(ds[1..]).value;
      var rest := Store(ds[1..]);
      StoreStops(ds[1..]);
      assert FirstUnfitting(ds).value == k + 1;
      assert ds[k + 1] == ds[1..][k];
      assert Store(ds) == Written(Record(ds[0]) + rest.bytes, rest.error);
      StoppedLater(ds, k, SerializeInto(ds[k + 1]), rest, Store(ds));
    } else {
      assert Records(ds[..0]) == [];
    }
  }

  /** The partial record of a later descriptor stays at its place behind the first record. */
  lemma StoppedLater(ds: seq<FileDescriptor>, k: nat, partial: Written<SerializeError>,
                     rest: Written<SerializeError>, w: Written<SerializeError>)
    requires 0 < |ds| && k < |ds| - 1 && FitsLimits(ds[0]) && AllFitLimits(ds[1..][..k])
    requires rest.bytes == Records(ds[1..][..k]) + partial.bytes
    requires w == Written(Record(ds[0]) + rest.bytes, rest.error)
    ensures AllFitLimits(ds[..k + 1])
    ensures w.bytes == Records(ds[..k + 1]) + partial.bytes
  {
    RecordsPrefixCons(ds, k);
  }

  /** The packer's list of descriptors, kept in insertion order. */
  datatype Pack = Pack(descriptors: seq<FileDescriptor>)

  /** `Pack::new`. */
  function New(): (p: Pack)
    ensures |p.descriptors| == 0
  {
    Pack([])
  }

  /** "; charset=UTF-8" */
  const CHARSET_UTF8: Text := [
    0x3B, 0x20, 0x63, 0x68, 0x61, 0x72, 0x73, 0x65, 0x74, 0x3D, 0x55, 0x54, 0x46, 0x2D, 0x38]

  /** The content type `file_add` stores: the guess, with the charset parameter on "text/" types. */
  function ContentTypeFor(c: PackerFile.Collaborators, fsPath: Text): (r: Text)
    ensures var guessed := c.guessMime(fsPath);
            && StartsWith(r, guessed)
            && (StartsWith(guessed, PackerFile.TEXT_PREFIX) <==> r != guessed)
            && (r != guessed ==> r[|guessed|..] == CHARSET_UTF8)
  {
    var guessed := c.guessMime(fsPath);
    if StartsWith(guessed, PackerFile.TEXT_PREFIX) then
      var r := guessed + CHARSET_UTF8;
      assert r[..|guessed|] == guessed;
      r
    else guessed
  }

  /**
   * The gzip variant `file_add` keeps: the compressed form when it is
   * strictly shorter than the content.
   */
  function GzipKept(c: PackerFile.Collaborators, content: seq<byte>): (r: Option<seq<byte>>)
    ensures r.Some? <==> |c.gzip(content)| < |content|
    ensures r.Some? ==> r.value == c.gzip(content)
  {
    var gz := c.gzip(content);
    if |gz| < |content| then Some(gz) else None
  }

  /**
   * Without an explicit emptiness check the rule still agrees with the
   * entry builder of packer/src/file.rs: nothing is strictly shorter than
   * empty content.
   */
  lemma GzipKeptAgreesWithBuilder(c: PackerFile.Collaborators, content: seq<byte>)
    ensures GzipKept(c, content) == PackerFile.ContentGzipFromContent(c, content)
  {
  }

  /** The descriptor `file_add` builds from a file's path, pack path and content. */
  function DescriptorFor(c: PackerFile.Collaborators, fsPath: Text, packPath: Text,
                         content: seq<byte>): (d: FileDescriptor)
    ensures d.packPath == packPath && d.content == content
    ensures d.contentGzip.Some? ==> |d.contentGzip.value| < |d.content|
    ensures d.etag == PackerFile.EtagFromContent(c, content)
  {
    FileDescriptor(packPath, ContentTypeFor(c, fsPath), PackerFile.EtagFromContent(c, content),
                   content, GzipKept(c, content))
  }

  /**
   * `Pack::file_add`, given what reading the file returned: the new
   * descriptor goes to the end of the list. A pack path already present is
   * not refused.
   */
  function FileAdd(c: PackerFile.Collaborators, p: Pack, fsPath: Text, packPath: Text,
                   read: Result<seq<byte>, PackerFile.ReadError>): (r: Result<Pack, PackerFile.ReadError>)
    ensures r.Failure? <==> read.Failure?
    ensures r.Success? ==>
              && |r.value.descriptors| == |p.descriptors| + 1
              && r.value.descriptors[..|p.descriptors|] == p.descriptors
              && r.value.descriptors[|p.descriptors|] == DescriptorFor(c, fsPath, packPath, read.value)
  {
    match read
    case Failure(e) => Failure(e)
    case Success(content) =>
      var ds := p.descriptors + [DescriptorFor(c, fsPath, packPath, content)];
      assert ds[..|p.descriptors|] == p.descriptors;
      Success(Pack(ds))
  }

  /** Adding the same pack path twice keeps both descriptors, in order. */
  lemma DuplicatePathsKept(c: PackerFile.Collaborators, fsA: Text, fsB: Text, packPath: Text,
                           a: seq<byte>, b: seq<byte>)
    ensures var once := FileAdd(c, New(), fsA, packPath, Success(a)).value;
            var twice := FileAdd(c, once, fsB, packPath, Success(b));
            && twice.Success?
            && |twice.value.descriptors| == 2
            && twice.value.descriptors[0].packPath == packPath
            && twice.value.descriptors[1].packPath == packPath
            && !DistinctPaths(twice.value.descriptors)
  {
  }

  /** "Cannot convert path component to string" */
  datatype PathError = ComponentNotUnicode

  /** The `as_os_str().to_str()` of a component, when it is valid UTF-8. */
  function ComponentText(c: PackerPackPath.Component): Option<Text>
  {
    match c
    case Prefix(os) => if os.Unicode? then Some(os.text) else None
    case RootDir => Some([PackerPackPath.SLASH])
    case CurDir => Some([0x2E])
    case ParentDir => Some([0x2E, 0x2E])
    case Normal(os) => if os.Unicode? then Some(os.text) else None
  }

  /** The components with every root directory dropped. */
  function WithoutRoot(cs: seq<PackerPackPath.Component>): (r: seq<PackerPackPath.Component>)
    ensures PackerPackPath.IsRelative(r)
    ensures |r| <= |cs|
    ensures forall i :: 0 <= i < |r| ==> r[i] in cs
    ensures PackerPackPath.IsRelative(cs) ==> r == cs
  {
    if |cs| == 0 then []
    else
      var rest := WithoutRoot(cs[1..]);
      if cs[0] == PackerPackPath.RootDir then rest else [cs[0]] + rest
  }

  /** Each component's text, or the error of the first that is not valid UTF-8. */
  function ComponentTexts(cs: seq<PackerPackPath.Component>): (r: Result<seq<Text>, PathError>)
    ensures r.Success? <==> forall i :: 0 <= i < |cs| ==> ComponentText(cs[i]).Some?
    ensures r.Success? ==>
              |r.value| == |cs| && forall i :: 0 <= i < |cs| ==> Some(r.value[i]) == ComponentText(cs[i])
  {
    if |cs| == 0 then Success([])
    else
      match ComponentText(cs[0])
      case None => Failure(ComponentNotUnicode)
      case Some(t) =>
        var rest := ComponentTexts(cs[1..]);
        assert forall i :: 1 <= i < |cs| ==> cs[i] == cs[1..][i - 1];
        match rest
        case Failure(e) => Failure(e)
        case Success(ts) => Success([t] + ts)
  }

  /**
   * The pack path `directory_add` derives from a relative path: the
   * non-root components joined with "/" behind a leading empty element.
   */
  function DirectoryPackPath(cs: seq<PackerPackPath.Component>): (r: Result<Text, PathError>)
    ensures r.Success? <==> ComponentTexts(WithoutRoot(cs)).Success?
    ensures r.Success? ==> r.value == Join([[]] + ComponentTexts(WithoutRoot(cs)).value, [PackerPackPath.SLASH])
  {
    match ComponentTexts(WithoutRoot(cs))
    case Failure(e) => Failure(e)
    case Success(texts) => Success(Join([[]] + texts, [PackerPackPath.SLASH]))
  }

  /** A non-empty derived path starts with "/". */
  lemma DirectoryPackPathRooted(cs: seq<PackerPackPath.Component>)
    requires DirectoryPackPath(cs).Success? && |WithoutRoot(cs)| > 0
    ensures var p := DirectoryPackPath(cs).value;
            |p| > 0 && p[0] == PackerPackPath.SLASH
  {
    var texts := ComponentTexts(WithoutRoot(cs)).value;
    assert ([[]] + texts)[1..] == texts;
  }

  /** A root directory anywhere in front contributes nothing. */
  lemma RootDirIgnored(cs: seq<PackerPackPath.Component>)
    ensures DirectoryPackPath([PackerPackPath.RootDir] + cs) == DirectoryPackPath(cs)
  {
    assert ([PackerPackPath.RootDir] + cs)[1..] == cs;
  }

  /**
   * On relative paths of normal UTF-8 names this derivation and the newer
   * crate's `from_file_base_relative_path` produce the same pack path.
   */
  lemma DirectoryPackPathAgrees(cs: seq<PackerPackPath.Component>)
    requires PackerPackPath.IsRelative(cs)
    requires forall i :: 0 <= i < |cs| ==> PackerPackPath.Convertible(cs[i])
    ensures DirectoryPackPath(cs).Success?
    ensures PackerPackPath.FromFileBaseRelativePath(cs).Success?
    ensures DirectoryPackPath(cs).value == PackerPackPath.FromFileBaseRelativePath(cs).value.inner
  {
    var texts := ComponentTexts(cs).value;
    var names := PackerPackPath.ComponentNames(cs).value;
    assert texts == names;
  }
}
