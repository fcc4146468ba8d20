/**
 * The newer format end to end: what `Pack::store` of packer/src/packer.rs,
 * or of the example packer, writes, `Loader::new` of loader/src/loader.rs
 * reads back.
 */
module PackRoundTrip {
  import opened Wrappers
  import opened Bytes
  import opened RecordFormat
  import RecordPacker
  import RecordLoader
  import PathMap
  import ExamplePacker

  /**
   * A store that succeeded loads back exactly when the pack paths are
   * distinct, and then every descriptor is found under its path with its
   * content type, ETag, content and gzip variant (an empty variant reading
   * back as none).
   */
  lemma {:induction false} StoreThenLoad(ds: seq<FileDescriptor>)
    requires RecordPacker.Store(ds).error.None?
    ensures var loaded := RecordLoader.Load(RecordPacker.Store(ds).bytes);
            && (loaded.Success? <==> DistinctPaths(ds))
            && (loaded.Failure? ==> loaded.error.DuplicatedPath?)
    ensures var loaded := RecordLoader.Load(RecordPacker.Store(ds).bytes);
            DistinctPaths(ds) ==>
              forall i :: 0 <= i < |ds| && ds[i].contentGzip != Some([]) ==>
                PathMap.Get(loaded.value, ds[i].packPath) ==
                  Some(RecordLoader.LoadedFile(ds[i].contentType, ds[i].etag, ds[i].content, ds[i].contentGzip))
  {
    RecordLoader.RoundTrip(ds);
  }

  /**
   * The packer accepts the same pack path twice, but the pack it stores is
   * then refused by the loader.
   */
  lemma {:induction false} DuplicateRefusedOnlyAtLoad(ds: seq<FileDescriptor>, i: nat, j: nat)
    requires RecordPacker.Store(ds).error.None?
    requires i < j < |ds| && ds[i].packPath == ds[j].packPath
    ensures RecordLoader.Load(RecordPacker.Store(ds).bytes).Failure?
    ensures RecordLoader.Load(RecordPacker.Store(ds).bytes).error.DuplicatedPath?
  {
    assert !DistinctPaths(ds);
    RecordLoader.RoundTrip(ds);
  }

  /**
   * The example packer's stores load the same way: exactly when the pack
   * paths are distinct, and then every descriptor is found under its path.
   */
  lemma {:induction false} ExampleStoreThenLoad(ds: seq<FileDescriptor>)
    requires ExamplePacker.Store(ds).error.None?
    ensures var loaded := RecordLoader.Load(ExamplePacker.Store(ds).bytes);
            && (loaded.Success? <==> DistinctPaths(ds))
            && (loaded.Success? ==>
                  forall i :: 0 <= i < |ds| ==>
                    PathMap.Get(loaded.value, ds[i].packPath) == Some(RecordLoader.Loaded(ds[i])))
  {
    StoreThenLoad(ds);
    RecordLoader.RoundTrip(ds);
  }
}
