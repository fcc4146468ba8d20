/**
 * The reader of the newer pack format (loader/src/loader.rs): records are
 * read one after another until the input is exhausted, every field through
 * a bounds-checked length-prefixed read, into a map keyed by pack path.
 */
module RecordLoader {
  import opened Wrappers
  import opened Bytes
  import opened Framing
  import opened RecordFormat
  import PathMap

  /** The field being read when the input ran out, as the error context names it. */
  datatype Phase =
    /** "path" */
    | PathPhase
    /** "content_type" */
    | ContentTypePhase
    /** "etag" */
    | EtagPhase
    /** "content" */
    | ContentPhase
    /** "content_gzip" */
    | ContentGzipPhase

  datatype LoadError =
    /** A length prefix or the data it announces is cut short. */
    | Truncated(phase: Phase, error: ReadError)
    /** "File corrupted, duplicated path" */
    | DuplicatedPath(path: Text)

  /** The loader's `FileDescriptor`: what `get` hands out per path. */
  datatype LoadedFile = LoadedFile(
    contentType: Text,
    etag: Text,
    content: seq<byte>,
    contentGzip: Option<seq<byte>>)

  /** What one record reads back as: an empty gzip field means no variant. */
  function Loaded(d: FileDescriptor): (f: LoadedFile)
    ensures f.contentGzip != Some([])
    ensures d.contentGzip != Some([]) ==> f.contentGzip == d.contentGzip
  {
    var gzip := GzipBytes(d);
    LoadedFile(d.contentType, d.etag, d.content, if |gzip| == 0 then None else Some(gzip))
  }

  /** One record read: its path, its file, and the input after it. */
  datatype RecordRead = RecordRead(path: Text, file: LoadedFile, rest: seq<byte>)

  /** A length-prefixed read whose failure carries the field's context. */
  function ReadField(input: seq<byte>, width: nat, phase: Phase): (r: Result<Read, LoadError>)
    ensures r.Failure? <==> ReadPrefixed(input, width).Failure?
    ensures r.Failure? ==> r.error == Truncated(phase, ReadPrefixed(input, width).error)
    ensures r.Success? ==> r.value == ReadPrefixed(input, width).value
  {
    match ReadPrefixed(input, width)
    case Failure(e) => Failure(Truncated(phase, e))
    case Success(read) => Success(read)
  }

  /**
   * One iteration of the loop in `Loader::new`: path (u16), content type
   * (u8), ETag (u8), content (u32) and gzip variant (u32). A successful
   * read has consumed exactly one well-formed record, at least 12 bytes.
   */
  function ReadRecord(input: seq<byte>): (r: Result<RecordRead, LoadError>)
    ensures r.Failure? ==> r.error.Truncated?
    ensures r.Success? ==> |r.value.rest| + 12 <= |input|
    ensures r.Success? ==> r.value.file.contentGzip != Some([])
    ensures r.Success? ==>
              exists d :: FitsLimits(d) && input == Record(d) + r.value.rest
                && d.packPath == r.value.path && r.value.file == Loaded(d)
  {
    var path :- ReadField(input, 2, PathPhase);
    var contentType :- ReadField(path.rest, 1, ContentTypePhase);
    var etag :- ReadField(contentType.rest, 1, EtagPhase);
    var content :- ReadField(etag.rest, 4, ContentPhase);
    var gzip :- ReadField(content.rest, 4, ContentGzipPhase);
    var d := FileDescriptor(path.data, contentType.data, etag.data, content.data,
                            if |gzip.data| == 0 then None else Some(gzip.data));
    assert GzipBytes(d) == gzip.data;
    RecordOfFrames(d, input, path.rest, contentType.rest, etag.rest, content.rest, gzip.rest);
    Success(RecordRead(path.data, Loaded(d), gzip.rest))
  }

  /** Five frames read one after another make up the record of their fields. */
  lemma RecordOfFrames(d: FileDescriptor, input: seq<byte>,
                       t1: seq<byte>, t2: seq<byte>, t3: seq<byte>, t4: seq<byte>, t5: seq<byte>)
    requires Fits(Field(2, d.packPath)) && input == Frame(Field(2, d.packPath)) + t1
    requires Fits(Field(1, d.contentType)) && t1 == Frame(Field(1, d.contentType)) + t2
    requires Fits(Field(1, d.etag)) && t2 == Frame(Field(1, d.etag)) + t3
    requires Fits(Field(4, d.content)) && t3 == Frame(Field(4, d.content)) + t4
    requires Fits(Field(4, GzipBytes(d))) && t4 == Frame(Field(4, GzipBytes(d))) + t5
    ensures FitsLimits(d) && input == Record(d) + t5
  {
    Pow256Widths();
  }

  /** Reading a record back gives its descriptor's path and fields and leaves what followed. */
  lemma ReadRecordInverse(d: FileDescriptor, tail: seq<byte>)
    requires FitsLimits(d)
    ensures ReadRecord(Record(d) + tail) == Success(RecordRead(d.packPath, Loaded(d), tail))
  {
    assert Fits(Field(2, d.packPath)) && Fits(Field(1, d.contentType)) && Fits(Field(1, d.etag))
        && Fits(Field(4, d.content)) && Fits(Field(4, GzipBytes(d))) by {
      Pow256Widths();
    }
    var f0, f1, f2, f3, f4 := Field(2, d.packPath), Field(1, d.contentType), Field(1, d.etag),
                              Field(4, d.content), Field(4, GzipBytes(d));
    var t4 := Frame(f4) + tail;
    var t3 := Frame(f3) + t4;
    var t2 := Frame(f2) + t3;
    var t1 := Frame(f1) + t2;
    var input := Record(d) + tail;
    Regroup(Frame(f0), Frame(f1), Frame(f2), Frame(f3), Frame(f4), tail, input, t1, t2, t3, t4);
    ReadFrame(f0, t1);
    ReadFrame(f1, t2);
    ReadFrame(f2, t3);
    ReadFrame(f3, t4);
    ReadFrame(f4, tail);
    ReadRecordOfReads(input, Read(d.packPath, t1), Read(d.contentType, t2), Read(d.etag, t3),
                      Read(d.content, t4), Read(GzipBytes(d), tail));
  }

  /** Five frames and a tail, grouped from the right as a reader peels them off. */
  lemma Regroup(a: seq<byte>, b: seq<byte>, c: seq<byte>, e: seq<byte>, g: seq<byte>, tail: seq<byte>,
                input: seq<byte>, t1: seq<byte>, t2: seq<byte>, t3: seq<byte>, t4: seq<byte>)
    requires input == a + b + c + e + g + tail
    requires t4 == g + tail && t3 == e + t4 && t2 == c + t3 && t1 == b + t2
    ensures input == a + t1
  {
  }

  /** Five successful field reads, one after another, are one successful record read. */
  lemma ReadRecordOfReads(input: seq<byte>, path: Read, contentType: Read, etag: Read, content: Read, gzip: Read)
    requires ReadPrefixed(input, 2) == Success(path)
    requires ReadPrefixed(path.rest, 1) == Success(contentType)
    requires ReadPrefixed(contentType.rest, 1) == Success(etag)
    requires ReadPrefixed(etag.rest, 4) == Success(content)
    requires ReadPrefixed(content.rest, 4) == Success(gzip)
    ensures ReadRecord(input) ==
              Success(RecordRead(path.data,
                                 LoadedFile(contentType.data, etag.data, content.data,
                                            if |gzip.data| == 0 then None else Some(gzip.data)),
                                 gzip.rest))
  {
  }

  /**
   * The loop of `Loader::new` from `input` on, with `files` read so far:
   * a path met a second time is an error.
   */
  function LoadFrom(input: seq<byte>, files: map<Text, LoadedFile>): (r: Result<map<Text, LoadedFile>, LoadError>)
    ensures r.Success? ==> files.Keys <= r.value.Keys
    ensures r.Success? ==> forall p :: p in files ==> r.value[p] == files[p]
    decreases |input|
  {
    if |input| == 0 then Success(files)
    else
      match ReadRecord(input)
      case Failure(e) => Failure(e)
      case Success(record) =>
        if record.path in files then Failure(DuplicatedPath(record.path))
        else LoadFrom(record.rest, files[record.path := record.file])
  }

  /** One turn of the loop after a record was read. */
  lemma LoadFromStep(input: seq<byte>, files: map<Text, LoadedFile>, r: RecordRead)
    requires |input| > 0 && ReadRecord(input) == Success(r)
    ensures r.path in files ==> LoadFrom(input, files) == Failure(DuplicatedPath(r.path))
    ensures r.path !in files ==> LoadFrom(input, files) == LoadFrom(r.rest, files[r.path := r.file])
  {
  }

  /** `Loader::new` as a function of the included bytes. */
  function Load(bytes: seq<byte>): (r: Result<map<Text, LoadedFile>, LoadError>)
    ensures |bytes| == 0 ==> r == Success(map[])
    ensures 0 < |bytes| < 12 ==> r.Failure? && r.error.Truncated?
  {
    LoadFrom(bytes, map[])
  }

  /** `Loader::new`: the loop over the shrinking rest, as the source writes it. */
  method New(bytes: seq<byte>) returns (r: Result<map<Text, LoadedFile>, LoadError>)
    ensures r == Load(bytes)
  {
    var files: map<Text, LoadedFile> := map[];
    var rest := bytes;
    while |rest| != 0
      invariant LoadFrom(rest, files) == Load(bytes)
      decreases |rest|
    {
      var record := ReadRecord(rest);
      if record.Failure? {
        return Failure(record.error);
      }
      if record.value.path in files {
        return Failure(DuplicatedPath(record.value.path));
      }
      files := files[record.value.path := record.value.file];
      rest := record.value.rest;
    }
    return Success(files);
  }

  /** The entries the records of `ds` read back as, in order. */
  function Entries(ds: seq<FileDescriptor>): (es: seq<PathMap.Entry<LoadedFile>>)
    ensures |es| == |ds|
    ensures forall i :: 0 <= i < |ds| ==> es[i] == PathMap.Entry(ds[i].packPath, Loaded(ds[i]))
  {
    seq(|ds|, i requires 0 <= i < |ds| => PathMap.Entry(ds[i].packPath, Loaded(ds[i])))
  }

  /** The entries of several descriptors: the first one's, then the rest's. */
  lemma EntriesCons(ds: seq<FileDescriptor>)
    requires 0 < |ds|
    ensures Entries(ds) == [PathMap.Entry(ds[0].packPath, Loaded(ds[0]))] + Entries(ds[1..])
  {
  }

  /** The loop reads the entries `es` from `input`, one record at a time, and then stands at the end. */
  predicate ReadsEntries(input: seq<byte>, es: seq<PathMap.Entry<LoadedFile>>)
    decreases |es|
  {
    if |es| == 0 then |input| == 0
    else
      var r := ReadRecord(input);
      && |input| > 0
      && r.Success?
      && r.value.path == es[0].path
      && r.value.file == es[0].file
      && ReadsEntries(r.value.rest, es[1..])
  }

  /** Reading one more record in front of entries already read. */
  lemma ReadsEntriesCons(input: seq<byte>, r: RecordRead, es: seq<PathMap.Entry<LoadedFile>>)
    requires |input| > 0 && ReadRecord(input) == Success(r)
    ensures ReadsEntries(r.rest, es) ==> ReadsEntries(input, [PathMap.Entry(r.path, r.file)] + es)
  {
    assert ([PathMap.Entry(r.path, r.file)] + es)[1..] == es;
  }

  lemma AllFitLimitsTail(ds: seq<FileDescriptor>)
    requires 0 < |ds| && AllFitLimits(ds)
    ensures AllFitLimits(ds[1..])
  {
    assert forall i :: 0 <= i < |ds[1..]| ==> ds[1..][i] == ds[i + 1];
  }

  /** The records of `ds` read back as their entries. */
  lemma {:induction false} RecordsRead(ds: seq<FileDescriptor>)
    requires AllFitLimits(ds)
    ensures ReadsEntries(Records(ds), Entries(ds))
    decreases |ds|
  {
    if |ds| > 0 {
      var d := ds[0];
      AllFitLimitsTail(ds);
      var tail := Records(ds[1..]);
      ReadRecordInverse(d, tail);
      assert Records(ds) == Record(d) + tail;
      RecordsRead(ds[1..]);
      ReadsEntriesCons(Records(ds), RecordRead(d.packPath, Loaded(d), tail), Entries(ds[1..]));
      EntriesCons(ds);
    }
  }

  /** The loop's verdict once the map bookkeeping is done: a repeated path is a corrupted pack. */
  function Outcome(r: Result<map<Text, LoadedFile>, Text>): (o: Result<map<Text, LoadedFile>, LoadError>)
    ensures o.Success? <==> r.Success?
    ensures o.Success? ==> o.value == r.value
    ensures o.Failure? ==> o.error == DuplicatedPath(r.error)
  {
    match r
    case Success(m) => Success(m)
    case Failure(p) => Failure(DuplicatedPath(p))
  }

  /** Running the loop over entries it reads is exactly the map bookkeeping over them. */
  lemma {:induction false} LoadFromReads(input: seq<byte>, es: seq<PathMap.Entry<LoadedFile>>,
                                         files: map<Text, LoadedFile>)
    requires ReadsEntries(input, es)
    ensures LoadFrom(input, files) == Outcome(PathMap.Insert(files, es))
    decreases |es|
  {
    if |es| > 0 {
      var r := ReadRecord(input).value;
      LoadFromStep(input, files, r);
      LoadFromReads(r.rest, es[1..], files[r.path := r.file]);
    }
  }

  /** Loading the records of `ds` is exactly the map bookkeeping over their entries. */
  lemma {:induction false} LoadRecords(ds: seq<FileDescriptor>)
    requires AllFitLimits(ds)
    ensures Load(Records(ds)) == Outcome(PathMap.Insert(map[], Entries(ds)))
  {
    RecordsRead(ds);
    LoadFromReads(Records(ds), Entries(ds), map[]);
  }

  /** The entries of `ds` have distinct paths exactly when the descriptors do. */
  lemma EntriesDistinct(ds: seq<FileDescriptor>)
    ensures PathMap.DistinctPaths(Entries(ds)) <==> DistinctPaths(ds)
  {
    var es := Entries(ds);
    assert forall i :: 0 <= i < |ds| ==> es[i].path == ds[i].packPath;
  }

  /**
   * The map bookkeeping over the entries of `ds`: it succeeds exactly when
   * the paths are distinct, and then holds each descriptor's file under its
   * path and nothing else.
   */
  lemma EntriesInserted(ds: seq<FileDescriptor>, r: Result<map<Text, LoadedFile>, Text>)
    requires r == PathMap.Insert(map[], Entries(ds))
    ensures r.Success? <==> DistinctPaths(ds)
    ensures r.Success? ==> forall i :: 0 <= i < |ds| ==> PathMap.Get(r.value, ds[i].packPath) == Some(Loaded(ds[i]))
    ensures r.Success? ==> forall p :: p in r.value ==> exists i :: 0 <= i < |ds| && ds[i].packPath == p
  {
    var es := Entries(ds);
    var empty: map<Text, LoadedFile> := map[];
    PathMap.InsertSucceeds(empty, es);
    EntriesDistinct(ds);
    if r.Success? {
      PathMap.InsertContents(empty, es);
      forall p | p in r.value
        ensures exists i :: 0 <= i < |ds| && ds[i].packPath == p
      {
        var i :| 0 <= i < |es| && es[i].path == p;
        assert ds[i].packPath == p;
      }
    }
  }

  /**
   * The round trip of the newer format: the records of descriptors with
   * distinct paths load to exactly one entry per descriptor, each read back
   * with its fields; repeated paths make loading fail on the repetition.
   */
  lemma {:induction false} RoundTrip(ds: seq<FileDescriptor>)
    requires AllFitLimits(ds)
    ensures Load(Records(ds)).Success? <==> DistinctPaths(ds)
    ensures Load(Records(ds)).Failure? ==> Load(Records(ds)).error.DuplicatedPath?
    ensures DistinctPaths(ds) ==>
              var files := Load(Records(ds)).value;
              && (forall i :: 0 <= i < |ds| ==> PathMap.Get(files, ds[i].packPath) == Some(Loaded(ds[i])))
              && (forall p :: p in files ==> exists i :: 0 <= i < |ds| && ds[i].packPath == p)
  {
    LoadRecords(ds);
    EntriesInserted(ds, PathMap.Insert(map[], Entries(ds)));
  }

  /** Every file a load hands out has a gzip variant that is absent or non-empty. */
  lemma {:induction false} LoadedGzipNonEmpty(input: seq<byte>, files: map<Text, LoadedFile>)
    requires forall p :: p in files ==> files[p].contentGzip != Some([])
    ensures LoadFrom(input, files).Success? ==>
              forall p :: p in LoadFrom(input, files).value ==> LoadFrom(input, files).value[p].contentGzip != Some([])
    decreases |input|
  {
    if |input| > 0 && ReadRecord(input).Success? {
      var r := ReadRecord(input).value;
      LoadFromStep(input, files, r);
      if r.path !in files {
        LoadedGzipNonEmpty(r.rest, files[r.path := r.file]);
      }
    }
  }

  /** With a gzip variant that is absent or non-empty, every field comes back exactly as written. */
  lemma LoadedFieldsExact(d: FileDescriptor)
    requires d.contentGzip != Some([])
    ensures Loaded(d) == LoadedFile(d.contentType, d.etag, d.content, d.contentGzip)
  {
  }
}
