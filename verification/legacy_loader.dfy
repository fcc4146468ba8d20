/**
 * The reader of the oldest pack format (src/loader.rs): a cursor walks the
 * included bytes record by record, each length read before the bytes it
 * announces, until it stands exactly at the end.
 */
module LegacyLoader {
  import opened Wrappers
  import opened Bytes
  import opened Framing
  import opened LegacyFormat
  import PathMap

  /** The step at which the input ran out, as the error message names it. */
  datatype Phase =
    | PathBytesLengthPhase
    | PathBytesPhase
    | MimeBytesLengthPhase
    | MimeBytesPhase
    | ContentLengthPhase
    | ContentPhase

  datatype LoadError =
    /** "Premature input termination", with the phase and the cursor position. */
    | Premature(phase: Phase, position: nat)
    /** "File corrupted, duplicated path" */
    | DuplicatedPath(path: Text)

  /** The loader's `FileDescriptor`: the MIME type and the content, as stored. */
  datatype LoadedFile = LoadedFile(mime: Text, content: seq<byte>)

  /** A field read at the cursor: its bytes and the cursor after them. */
  datatype Slice = Slice(data: seq<byte>, next: nat)

  /**
   * Reading a `width`-byte length at `pos`, then that many bytes. A missing
   * length reports `pos`; missing data reports the position just after the
   * length, where the cursor stands by then.
   */
  function ReadAt(buf: seq<byte>, pos: nat, width: nat, lengthPhase: Phase, dataPhase: Phase): (r: Result<Slice, LoadError>)
    requires pos <= |buf|
    ensures r.Failure? <==>
              pos + width > |buf| || pos + width + FromLittleEndian(buf[pos..pos + width]) > |buf|
    ensures r.Failure? && pos + width > |buf| ==> r.error == Premature(lengthPhase, pos)
    ensures r.Failure? && pos + width <= |buf| ==> r.error == Premature(dataPhase, pos + width)
    ensures r.Success? ==>
              && pos + width <= r.value.next <= |buf|
              && r.value.data == buf[pos + width..r.value.next]
              && FromLittleEndian(buf[pos..pos + width]) == |r.value.data|
  {
    if pos + width > |buf| then Failure(Premature(lengthPhase, pos))
    else
      var length := FromLittleEndian(buf[pos..pos + width]);
      var start := pos + width;
      if start + length > |buf| then Failure(Premature(dataPhase, start))
      else Success(Slice(buf[start..start + length], start + length))
  }

  /**
   * The cursor read agrees with the suffix read of the newer loader: the
   * same two failures, and on success the same bytes, with the cursor at
   * the start of what the suffix read leaves.
   */
  lemma ReadAtAgrees(buf: seq<byte>, pos: nat, width: nat, lengthPhase: Phase, dataPhase: Phase)
    requires pos <= |buf| && lengthPhase != dataPhase
    ensures var r := ReadAt(buf, pos, width, lengthPhase, dataPhase);
            var s := ReadPrefixed(buf[pos..], width);
            && (r == Failure(Premature(lengthPhase, pos)) <==> s == Failure(PrematureLength))
            && (r.Failure? && r.error.phase == dataPhase <==> s == Failure(PrematureData))
            && (r.Success? <==> s.Success?)
            && (r.Success? ==> r.value.data == s.value.data && buf[r.value.next..] == s.value.rest)
  {
    var suffix := buf[pos..];
    if pos + width <= |buf| {
      assert suffix[..width] == buf[pos..pos + width];
      var r := ReadAt(buf, pos, width, lengthPhase, dataPhase);
      var s := ReadPrefixed(suffix, width);
      if r.Success? {
        var n := |r.value.data|;
        assert suffix == Frame(Field(width, s.value.data)) + s.value.rest;
        assert s.value.data == suffix[width..width + n];
        assert s.value.rest == suffix[width + n..];
      }
    }
  }

  /** Reading a frame that sits at `pos` gives its data and moves the cursor to what follows it. */
  lemma ReadAtFrame(buf: seq<byte>, pos: nat, f: Field, tail: seq<byte>, lengthPhase: Phase, dataPhase: Phase)
    requires Fits(f) && pos <= |buf| && buf[pos..] == Frame(f) + tail
    ensures pos + |Frame(f)| <= |buf| && buf[pos + |Frame(f)|..] == tail
    ensures ReadAt(buf, pos, f.width, lengthPhase, dataPhase) == Success(Slice(f.data, pos + |Frame(f)|))
  {
    var frame := Frame(f);
    assert buf[pos..pos + f.width] == frame[..f.width];
    assert buf[pos + f.width..pos + |frame|] == frame[f.width..];
    assert buf[pos + |frame|..] == buf[pos..][|frame|..];
  }

  /** One record read at the cursor: its path, its file, and the cursor after it. */
  datatype RecordAt = RecordAt(path: Text, file: LoadedFile, next: nat)

  /**
   * One iteration of the loop in `Loader::new`: path (u16), MIME type (u8)
   * and content (u32), each bounds-checked. A failure is a premature end
   * somewhere in the bytes it looked at.
   */
  function ReadRecordAt(buf: seq<byte>, pos: nat): (r: Result<RecordAt, LoadError>)
    requires pos <= |buf|
    ensures r.Failure? ==> r.error.Premature? && pos <= r.error.position <= |buf|
    ensures r.Success? ==> pos + 7 <= r.value.next <= |buf|
  {
    match ReadAt(buf, pos, 2, PathBytesLengthPhase, PathBytesPhase)
    case Failure(e) => Failure(e)
    case Success(path) =>
      match ReadAt(buf, path.next, 1, MimeBytesLengthPhase, MimeBytesPhase)
      case Failure(e) => Failure(e)
      case Success(mime) =>
        match ReadAt(buf, mime.next, 4, ContentLengthPhase, ContentPhase)
        case Failure(e) => Failure(e)
        case Success(content) => Success(RecordAt(path.data, LoadedFile(mime.data, content.data), content.next))
  }

  /** A successful read covers exactly one well-formed record, the one its result describes. */
  lemma ReadRecordAtIsRecord(buf: seq<byte>, pos: nat)
    requires pos <= |buf| && ReadRecordAt(buf, pos).Success?
    ensures var r := ReadRecordAt(buf, pos).value;
            var d := FileDescriptor(r.path, r.file.mime, OpenFile(true, |r.file.content|, r.file.content));
            Writable(d) && buf[pos..r.next] == Record(d)
  {
    var path := ReadAt(buf, pos, 2, PathBytesLengthPhase, PathBytesPhase).value;
    var mime := ReadAt(buf, path.next, 1, MimeBytesLengthPhase, MimeBytesPhase).value;
    var content := ReadAt(buf, mime.next, 4, ContentLengthPhase, ContentPhase).value;
    RecordOfSlices(buf, pos, path, mime, content);
  }

  /** Three fields read one after another make up the record of their data. */
  lemma RecordOfSlices(buf: seq<byte>, pos: nat, path: Slice, mime: Slice, content: Slice)
    requires pos + 2 <= path.next <= |buf| && path.data == buf[pos + 2..path.next]
    requires FromLittleEndian(buf[pos..pos + 2]) == |path.data|
    requires path.next + 1 <= mime.next <= |buf| && mime.data == buf[path.next + 1..mime.next]
    requires FromLittleEndian(buf[path.next..path.next + 1]) == |mime.data|
    requires mime.next + 4 <= content.next <= |buf| && content.data == buf[mime.next + 4..content.next]
    requires FromLittleEndian(buf[mime.next..mime.next + 4]) == |content.data|
    ensures var d := FileDescriptor(path.data, mime.data, OpenFile(true, |content.data|, content.data));
            Writable(d) && buf[pos..content.next] == Record(d)
  {
    SliceIsFrame(buf, pos, 2, path.data, path.next);
    SliceIsFrame(buf, path.next, 1, mime.data, mime.next);
    SliceIsFrame(buf, mime.next, 4, content.data, content.next);
    SlicesJoin(buf, pos, path.next, mime.next, content.next);
    Pow256Widths();
  }

  /** A length read at `start` followed by that many bytes is the frame of those bytes. */
  lemma SliceIsFrame(buf: seq<byte>, start: nat, width: nat, data: seq<byte>, next: nat)
    requires start + width <= next <= |buf| && data == buf[start + width..next]
    requires FromLittleEndian(buf[start..start + width]) == |data|
    ensures Fits(Field(width, data)) && buf[start..next] == Frame(Field(width, data))
  {
    var prefix := buf[start..start + width];
    LittleEndianInverse(prefix);
    assert buf[start..next] == prefix + data;
  }

  /** Three adjacent slices make up the slice that spans them. */
  lemma SlicesJoin(buf: seq<byte>, a: nat, b: nat, c: nat, e: nat)
    requires a <= b <= c <= e <= |buf|
    ensures buf[a..e] == buf[a..b] + buf[b..c] + buf[c..e]
  {
  }

  /** Reading a record that sits at `pos` gives back its path and file and moves the cursor past it. */
  lemma ReadRecordAtInverse(buf: seq<byte>, pos: nat, d: FileDescriptor, tail: seq<byte>)
    requires Writable(d) && pos <= |buf| && buf[pos..] == Record(d) + tail
    ensures pos + |Record(d)| <= |buf| && buf[pos + |Record(d)|..] == tail
    ensures ReadRecordAt(buf, pos) ==
              Success(RecordAt(d.packPath, Loaded(d), pos + |Record(d)|))
  {
    var f0, f1, f2 := Field(2, d.packPath), Field(1, d.mime), Field(4, d.file.content);
    Pow256Widths();
    var t2 := Frame(f2) + tail;
    var t1 := Frame(f1) + t2;
    assert buf[pos..] == Frame(f0) + t1;
    ReadAtFrame(buf, pos, f0, t1, PathBytesLengthPhase, PathBytesPhase);
    var p1 := pos + |Frame(f0)|;
    ReadAtFrame(buf, p1, f1, t2, MimeBytesLengthPhase, MimeBytesPhase);
    var p2 := p1 + |Frame(f1)|;
    ReadAtFrame(buf, p2, f2, tail, ContentLengthPhase, ContentPhase);
    ReadRecordAtOfSlices(buf, pos, Slice(d.packPath, p1), Slice(d.mime, p2), Slice(d.file.content, p2 + |Frame(f2)|));
  }

  /** Three successful field reads, one after another, make one successful record read. */
  lemma ReadRecordAtOfSlices(buf: seq<byte>, pos: nat, path: Slice, mime: Slice, content: Slice)
    requires pos <= |buf|
    requires ReadAt(buf, pos, 2, PathBytesLengthPhase, PathBytesPhase) == Success(path)
    requires ReadAt(buf, path.next, 1, MimeBytesLengthPhase, MimeBytesPhase) == Success(mime)
    requires ReadAt(buf, mime.next, 4, ContentLengthPhase, ContentPhase) == Success(content)
    ensures ReadRecordAt(buf, pos) == Success(RecordAt(path.data, LoadedFile(mime.data, content.data), content.next))
  {
  }

  lemma AllWritableTail(ds: seq<FileDescriptor>)
    requires 0 < |ds| && AllWritable(ds)
    ensures AllWritable(ds[1..])
  {
    forall i | 0 <= i < |ds[1..]|
      ensures Writable(ds[1..][i])
    {
      assert ds[1..][i] == ds[i + 1];
    }
  }

  /** The first of several records that sit at `pos`, followed by the rest. */
  lemma FirstRecord(buf: seq<byte>, pos: nat, ds: seq<FileDescriptor>, tail: seq<byte>)
    requires 0 < |ds| && AllWritable(ds) && pos <= |buf| && buf[pos..] == Records(ds) + tail
    ensures AllWritable(ds[1..])
    ensures buf[pos..] == Record(ds[0]) + (Records(ds[1..]) + tail)
  {
    AllWritableTail(ds);
  }

  /**
   * The loop of `Loader::new` from the cursor `pos` on, with `files` read
   * so far: it ends successfully only with the cursor exactly at the end.
   */
  function LoadFrom(buf: seq<byte>, pos: nat, files: map<Text, LoadedFile>): (r: Result<map<Text, LoadedFile>, LoadError>)
    requires pos <= |buf|
    ensures r.Success? ==> files.Keys <= r.value.Keys
    ensures r.Success? ==> forall p :: p in files ==> r.value[p] == files[p]
    decreases |buf| - pos
  {
    if pos == |buf| then Success(files)
    else
      match ReadRecordAt(buf, pos)
      case Failure(e) => Failure(e)
      case Success(record) =>
        if record.path in files then Failure(DuplicatedPath(record.path))
        else LoadFrom(buf, record.next, files[record.path := record.file])
  }

  /** One turn of the loop after a record was read. */
  lemma LoadFromStep(buf: seq<byte>, pos: nat, files: map<Text, LoadedFile>, r: RecordAt)
    requires pos < |buf| && ReadRecordAt(buf, pos) == Success(r)
    ensures r.path in files ==> LoadFrom(buf, pos, files) == Failure(DuplicatedPath(r.path))
    ensures r.path !in files ==> LoadFrom(buf, pos, files) == LoadFrom(buf, r.next, files[r.path := r.file])
  {
  }

  /** `Loader::new` as a function of the included bytes. */
  function Load(buf: seq<byte>): (r: Result<map<Text, LoadedFile>, LoadError>)
    ensures |buf| == 0 ==> r == Success(map[])
    ensures 0 < |buf| < 7 ==> r.Failure?
  {
    LoadFrom(buf, 0, map[])
  }

  /** `Loader::new`: the cursor loop as the source writes it. */
  method New(buf: seq<byte>) returns (r: Result<map<Text, LoadedFile>, LoadError>)
    ensures r == Load(buf)
  {
    var files: map<Text, LoadedFile> := map[];
    var pos: nat := 0;
    while pos != |buf|
      invariant pos <= |buf|
      invariant LoadFrom(buf, pos, files) == Load(buf)
      decreases |buf| - pos
    {
      var record := ReadRecordAt(buf, pos);
      if record.Failure? {
        return Failure(record.error);
      }
      if record.value.path in files {
        return Failure(DuplicatedPath(record.value.path));
      }
      files := files[record.value.path := record.value.file];
      pos := record.value.next;
    }
    return Success(files);
  }

  /** What a written descriptor reads back as. */
  function Loaded(d: FileDescriptor): LoadedFile
  {
    LoadedFile(d.mime, d.file.content)
  }

  /** The entries the records of `ds` read back as, in order. */
  function Entries(ds: seq<FileDescriptor>): (es: seq<PathMap.Entry<LoadedFile>>)
    ensures |es| == |ds|
    ensures forall i :: 0 <= i < |ds| ==> es[i] == PathMap.Entry(ds[i].packPath, Loaded(ds[i]))
  {
    seq(|ds|, i requires 0 <= i < |ds| => PathMap.Entry(ds[i].packPath, Loaded(ds[i])))
  }

  /** What `n` turns of the loop read from a cursor: the entries, in order, and where the cursor then stands. */
  datatype Reading = Reading(entries: seq<PathMap.Entry<LoadedFile>>, end: nat)

  /**
   * The records `n` turns of the loop read from `pos`, leaving the map
   * aside; none when the input ends or a record is cut short first.
   */
  function ReadEntries(buf: seq<byte>, pos: nat, n: nat): (r: Option<Reading>)
    requires pos <= |buf|
    ensures r.Some? ==> |r.value.entries| == n && pos <= r.value.end <= |buf|
    decreases n
  {
    if n == 0 then Some(Reading([], pos))
    else if pos == |buf| then None
    else
      match ReadRecordAt(buf, pos)
      case Failure(_) => None
      case Success(record) =>
        match ReadEntries(buf, record.next, n - 1)
        case None => None
        case Some(more) => Some(Reading([PathMap.Entry(record.path, record.file)] + more.entries, more.end))
  }

  /** The entries of several descriptors: the first one's, then the rest's. */
  lemma EntriesCons(ds: seq<FileDescriptor>)
    requires 0 < |ds|
    ensures Entries(ds) == [PathMap.Entry(ds[0].packPath, Loaded(ds[0]))] + Entries(ds[1..])
  {
  }

  /** Records that sit at `pos` read back as their entries, leaving the cursor where what follows them begins. */
  lemma {:induction false} RecordsRead(buf: seq<byte>, pos: nat, ds: seq<FileDescriptor>, tail: seq<byte>, end: nat)
    requires AllWritable(ds) && pos <= |buf| && buf[pos..] == Records(ds) + tail && end + |tail| == |buf|
    ensures ReadEntries(buf, pos, |ds|) == Some(Reading(Entries(ds), end))
    decreases |ds|
  {
    if |ds| == 0 {
      assert Records(ds) + tail == tail;
      assert Entries(ds) == [];
    } else {
      var next := FirstRecordRead(buf, pos, ds, tail, end);
      RecordsRead(buf, next, ds[1..], tail, end);
    }
  }

  /**
   * The first record is read back and the cursor then stands at the rest's
   * records, so reading those reads them all.
   */
  lemma FirstRecordRead(buf: seq<byte>, pos: nat, ds: seq<FileDescriptor>, tail: seq<byte>, end: nat) returns (next: nat)
    requires 0 < |ds| && AllWritable(ds) && pos <= |buf| && buf[pos..] == Records(ds) + tail
    ensures AllWritable(ds[1..]) && next <= |buf| && buf[next..] == Records(ds[1..]) + tail
    ensures ReadEntries(buf, next, |ds[1..]|) == Some(Reading(Entries(ds[1..]), end)) ==>
              ReadEntries(buf, pos, |ds|) == Some(Reading(Entries(ds), end))
  {
    next := FirstRecordAt(buf, pos, ds, tail);
    EntriesCons(ds);
    ReadEntriesStep(buf, pos, ds[0].packPath, Loaded(ds[0]), next,
                    |ds[1..]|, Entries(ds[1..]), end, Entries(ds), |ds|);
  }

  /** The first of several records that sit at `pos` is read back, and the cursor then stands at the rest. */
  lemma FirstRecordAt(buf: seq<byte>, pos: nat, ds: seq<FileDescriptor>, tail: seq<byte>) returns (next: nat)
    requires 0 < |ds| && AllWritable(ds) && pos <= |buf| && buf[pos..] == Records(ds) + tail
    ensures AllWritable(ds[1..]) && pos < next <= |buf| && buf[next..] == Records(ds[1..]) + tail
    ensures ReadRecordAt(buf, pos) == Success(RecordAt(ds[0].packPath, Loaded(ds[0]), next))
  {
    FirstRecord(buf, pos, ds, tail);
    ReadRecordAtInverse(buf, pos, ds[0], Records(ds[1..]) + tail);
    next := pos + |Record(ds[0])|;
  }

  /** Entries read after a record, with that record's entry in front. */
  lemma ReadEntriesStep(buf: seq<byte>, pos: nat, path: Text, file: LoadedFile, next: nat, n: nat,
                        es: seq<PathMap.Entry<LoadedFile>>, end: nat, all: seq<PathMap.Entry<LoadedFile>>, m: nat)
    requires pos < |buf| && ReadRecordAt(buf, pos) == Success(RecordAt(path, file, next))
    requires m == n + 1 && all == [PathMap.Entry(path, file)] + es
    ensures ReadEntries(buf, next, n) == Some(Reading(es, end)) ==> ReadEntries(buf, pos, m) == Some(Reading(all, end))
  {
  }

  /**
   * Running the loop from `pos` over the entries read there does the map
   * bookkeeping: a path met twice ends it with that path, and otherwise it
   * goes on where the reading ended with every entry inserted.
   */
  lemma {:induction false} LoadFromReads(buf: seq<byte>, pos: nat, es: seq<PathMap.Entry<LoadedFile>>,
                                         end: nat, files: map<Text, LoadedFile>)
    requires pos <= |buf| && ReadEntries(buf, pos, |es|) == Some(Reading(es, end))
    ensures end <= |buf|
    ensures PathMap.Insert(files, es).Failure? ==>
              LoadFrom(buf, pos, files) == Failure(DuplicatedPath(PathMap.Insert(files, es).error))
    ensures PathMap.Insert(files, es).Success? ==>
              LoadFrom(buf, pos, files) == LoadFrom(buf, end, PathMap.Insert(files, es).value)
    decreases |es|
  {
    if |es| == 0 {
      NothingLeftToLoad(buf, pos, es, end);
    } else {
      var next := FirstEntryLoaded(buf, pos, es, end, files);
      if es[0].path !in files {
        LoadFromReads(buf, next, es[1..], end, files[es[0].path := es[0].file]);
      }
    }
  }

  lemma NothingLeftToLoad(buf: seq<byte>, pos: nat, es: seq<PathMap.Entry<LoadedFile>>, end: nat)
    requires |es| == 0 && pos <= |buf| && ReadEntries(buf, pos, |es|) == Some(Reading(es, end))
    ensures end == pos
  {
  }

  /**
   * One turn of the loop over the first entry read: a path already in the
   * map ends it, and otherwise it goes on from the cursor after the record,
   * where the remaining entries are read.
   */
  lemma FirstEntryLoaded(buf: seq<byte>, pos: nat, es: seq<PathMap.Entry<LoadedFile>>,
                         end: nat, files: map<Text, LoadedFile>) returns (next: nat)
    requires 0 < |es| && pos <= |buf| && ReadEntries(buf, pos, |es|) == Some(Reading(es, end))
    ensures pos < next <= |buf| && ReadEntries(buf, next, |es[1..]|) == Some(Reading(es[1..], end))
    ensures es[0].path in files ==> LoadFrom(buf, pos, files) == Failure(DuplicatedPath(es[0].path))
    ensures es[0].path !in files ==> LoadFrom(buf, pos, files) == LoadFrom(buf, next, files[es[0].path := es[0].file])
    ensures es[0].path in files ==> PathMap.Insert(files, es) == Failure(es[0].path)
    ensures es[0].path !in files ==> PathMap.Insert(files, es) == PathMap.Insert(files[es[0].path := es[0].file], es[1..])
  {
    var r := FirstEntryRead(buf, pos, es, end);
    next := r.next;
    LoadFromStep(buf, pos, files, r);
    PathMap.InsertCons(files, es);
  }

  /** The first of the entries read at `pos` is the record read there. */
  lemma FirstEntryRead(buf: seq<byte>, pos: nat, es: seq<PathMap.Entry<LoadedFile>>, end: nat) returns (r: RecordAt)
    requires 0 < |es| && pos <= |buf| && ReadEntries(buf, pos, |es|) == Some(Reading(es, end))
    ensures pos < |buf| && ReadRecordAt(buf, pos) == Success(r)
    ensures r.path == es[0].path && r.file == es[0].file && pos < r.next <= |buf|
    ensures ReadEntries(buf, r.next, |es[1..]|) == Some(Reading(es[1..], end))
  {
    r := ReadRecordAt(buf, pos).value;
    var more := ReadEntries(buf, r.next, |es| - 1).value;
    assert es == [PathMap.Entry(r.path, r.file)] + more.entries;
    assert es[1..] == more.entries;
  }

  /** The loop's verdict once the map bookkeeping is done: a repeated path is a corrupted pack. */
  function Outcome(r: Result<map<Text, LoadedFile>, Text>): (o: Result<map<Text, LoadedFile>, LoadError>)
    ensures o.Success? <==> r.Success?
    ensures o.Success? ==> o.value == r.value
    ensures o.Failure? ==> o.error == DuplicatedPath(r.error)
  {
    match r
    case Success(m) => Success(m)
    case Failure(p) => Failure(DuplicatedPath(p))
  }

  /**
   * Loading records followed by `tail`: the map bookkeeping over their
   * entries decides, and if it succeeds the loop goes on at the tail.
   */
  lemma {:induction false} LoadRecordsThen(ds: seq<FileDescriptor>, tail: seq<byte>)
    requires AllWritable(ds)
    ensures var ins := PathMap.Insert(map[], Entries(ds));
            ins.Failure? ==> Load(Records(ds) + tail) == Outcome(ins)
    ensures var ins := PathMap.Insert(map[], Entries(ds));
            ins.Success? ==> Load(Records(ds) + tail) == LoadFrom(Records(ds) + tail, |Records(ds)|, ins.value)
  {
    var buf := Records(ds) + tail;
    assert buf[0..] == buf;
    var end := |Records(ds)|;
    assert end == |buf| - |tail|;
    RecordsRead(buf, 0, ds, tail, end);
    LoadFromReads(buf, 0, Entries(ds), end, map[]);
  }

  /** Loading the records alone is exactly the map bookkeeping over their entries. */
  lemma {:induction false} LoadRecords(ds: seq<FileDescriptor>)
    requires AllWritable(ds)
    ensures Load(Records(ds)) == Outcome(PathMap.Insert(map[], Entries(ds)))
  {
    LoadRecordsThen(ds, []);
    assert Records(ds) + [] == Records(ds);
  }

  /** The entries of `ds` have distinct paths exactly when the descriptors do. */
  lemma EntriesDistinct(ds: seq<FileDescriptor>)
    ensures PathMap.DistinctPaths(Entries(ds)) <==> DistinctPaths(ds)
  {
    var es := Entries(ds);
    assert forall i :: 0 <= i < |ds| ==> es[i].path == ds[i].packPath;
  }

  /**
   * The map bookkeeping over the entries of `ds`: it succeeds exactly when
   * the paths are distinct, and then holds each descriptor's file under its
   * path and nothing else.
   */
  lemma EntriesInserted(ds: seq<FileDescriptor>, r: Result<map<Text, LoadedFile>, Text>)
    requires r == PathMap.Insert(map[], Entries(ds))
    ensures r.Success? <==> DistinctPaths(ds)
    ensures r.Success? ==> forall i :: 0 <= i < |ds| ==> PathMap.Get(r.value, ds[i].packPath) == Some(LoadedFile(ds[i].mime, ds[i].file.content))
    ensures r.Success? ==> forall p :: p in r.value ==> exists i :: 0 <= i < |ds| && ds[i].packPath == p
  {
    var es := Entries(ds);
    var empty: map<Text, LoadedFile> := map[];
    PathMap.InsertSucceeds(empty, es);
    EntriesDistinct(ds);
    if r.Success? {
      PathMap.InsertContents(empty, es);
      forall p | p in r.value
        ensures exists i :: 0 <= i < |ds| && ds[i].packPath == p
      {
        var i :| 0 <= i < |es| && es[i].path == p;
        assert ds[i].packPath == p;
      }
    }
  }

  /**
   * The round trip of the oldest format: what a successful store writes
   * loads back to one entry per descriptor, with its MIME type and
   * content, exactly when the pack paths are distinct; otherwise loading
   * reports a duplicated path.
   */
  lemma {:induction false} RoundTrip(ds: seq<FileDescriptor>)
    requires Store(ds).error.None?
    ensures Load(Store(ds).bytes).Success? <==> DistinctPaths(ds)
    ensures Load(Store(ds).bytes).Failure? ==> Load(Store(ds).bytes).error.DuplicatedPath?
    ensures DistinctPaths(ds) ==>
              var files := Load(Store(ds).bytes).value;
              && (forall i :: 0 <= i < |ds| ==>
                    PathMap.Get(files, ds[i].packPath) == Some(LoadedFile(ds[i].mime, ds[i].file.content)))
              && (forall p :: p in files ==> exists i :: 0 <= i < |ds| && ds[i].packPath == p)
  {
    LoadRecords(ds);
    EntriesInserted(ds, PathMap.Insert(map[], Entries(ds)));
  }

  /** A byte left over after the last record, too few for a path length, is refused. */
  lemma {:induction false} TrailingByteRefused(ds: seq<FileDescriptor>, b: byte)
    requires Store(ds).error.None? && DistinctPaths(ds)
    ensures Load(Store(ds).bytes + [b]) == Failure(Premature(PathBytesLengthPhase, |Store(ds).bytes|))
  {
    var records := Records(ds);
    var buf := records + [b];
    LoadRecordsThen(ds, [b]);
    PathMap.InsertSucceeds(map[], Entries(ds));
    EntriesDistinct(ds);
    assert ReadAt(buf, |records|, 2, PathBytesLengthPhase, PathBytesPhase)
        == Failure(Premature(PathBytesLengthPhase, |records|));
  }
}
