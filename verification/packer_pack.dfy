/**
 * The pack builder (packer/src/pack.rs): a map from pack path to file that
 * refuses a second file under the same path, batch insertion that stops at
 * the first refusal without undoing earlier insertions, and the 16-byte
 * magic-and-version header `store` writes in front of the serialized pack.
 */
module PackBuilder {
  import opened Wrappers
  import opened Bytes
  import opened Common
  import LoaderFile
  import LoaderPack

  /** `FilePackPath`: a file and the path it is served under. */
  datatype FilePackPath = FilePackPath(file: File, packPath: PackPath)

  /** `Builder`. */
  datatype Builder = Builder(filesByPackPath: map<PackPath, File>)

  /** "file on specified path already exist" */
  datatype BuildError = FileAlreadyExists

  /** The builder after a `&mut self` call, and what the call returned. */
  datatype Step = Step(builder: Builder, outcome: Result<(), BuildError>)

  /** `Builder::new`. */
  function New(): (b: Builder)
    ensures |b.filesByPackPath| == 0
  {
    Builder(map[])
  }

  /** `file_pack_path_add`: insert under a vacant path, refuse an occupied one. */
  function FilePackPathAdd(b: Builder, item: FilePackPath): (s: Step)
    ensures s.outcome.Failure? <==> item.packPath in b.filesByPackPath
    ensures s.outcome.Failure? ==> s.builder == b
    ensures s.outcome.Success? ==>
              && s.builder.filesByPackPath.Keys == b.filesByPackPath.Keys + {item.packPath}
              && s.builder.filesByPackPath[item.packPath] == item.file
              && forall k :: k in b.filesByPackPath ==> s.builder.filesByPackPath[k] == b.filesByPackPath[k]
  {
    if item.packPath in b.filesByPackPath then Step(b, Failure(FileAlreadyExists))
    else Step(Builder(b.filesByPackPath[item.packPath := item.file]), Success(()))
  }

  /** Inserting the items one after another, later ones overwriting: the reference for a batch. */
  function InsertAll(m: map<PackPath, File>, items: seq<FilePackPath>): map<PackPath, File>
    decreases |items|
  {
    if |items| == 0 then m else InsertAll(m[items[0].packPath := items[0].file], items[1..])
  }

  /** No item's path is in `m`, and no two items share a path. */
  predicate AllFresh(m: map<PackPath, File>, items: seq<FilePackPath>)
  {
    && (forall i :: 0 <= i < |items| ==> items[i].packPath !in m)
    && (forall i, j :: 0 <= i < j < |items| ==> items[i].packPath != items[j].packPath)
  }

  lemma AllFreshCons(m: map<PackPath, File>, items: seq<FilePackPath>)
    requires |items| > 0
    ensures AllFresh(m, items) <==>
              items[0].packPath !in m && AllFresh(m[items[0].packPath := items[0].file], items[1..])
  {
    var m' := m[items[0].packPath := items[0].file];
    var rest := items[1..];
    if items[0].packPath !in m && AllFresh(m', rest) {
      forall i, j | 0 <= i < j < |items|
        ensures items[i].packPath != items[j].packPath
      {
        if i == 0 {
          assert rest[j - 1] == items[j];
        } else {
          assert rest[i - 1] == items[i] && rest[j - 1] == items[j];
        }
      }
      forall i | 0 <= i < |items|
        ensures items[i].packPath !in m
      {
        if i > 0 {
          assert rest[i - 1] == items[i];
        }
      }
    }
    if AllFresh(m, items) {
      forall i | 0 <= i < |rest|
        ensures rest[i].packPath !in m'
      {
        assert rest[i] == items[i + 1];
        assert items[0].packPath != items[i + 1].packPath;
      }
      forall i, j | 0 <= i < j < |rest|
        ensures rest[i].packPath != rest[j].packPath
      {
        assert rest[i] == items[i + 1] && rest[j] == items[j + 1];
      }
    }
  }

  /** After a batch, a path is present iff it was present before or some item carries it. */
  lemma {:induction false} InsertAllKeys(m: map<PackPath, File>, items: seq<FilePackPath>, k: PackPath)
    ensures k in InsertAll(m, items) <==> k in m || exists i :: 0 <= i < |items| && items[i].packPath == k
    decreases |items|
  {
    if |items| > 0 {
      var m' := m[items[0].packPath := items[0].file];
      InsertAllKeys(m', items[1..], k);
      if exists i :: 0 <= i < |items[1..]| && items[1..][i].packPath == k {
        var i :| 0 <= i < |items[1..]| && items[1..][i].packPath == k;
        assert items[i + 1].packPath == k;
      }
      if exists i :: 0 <= i < |items| && items[i].packPath == k {
        var i :| 0 <= i < |items| && items[i].packPath == k;
        if i > 0 {
          assert items[1..][i - 1].packPath == k;
        }
      }
    }
  }

  /** With fresh, distinct paths every item ends up under its own path. */
  lemma {:induction false} InsertAllValues(m: map<PackPath, File>, items: seq<FilePackPath>, i: nat)
    requires AllFresh(m, items) && i < |items|
    ensures items[i].packPath in InsertAll(m, items)
    ensures InsertAll(m, items)[items[i].packPath] == items[i].file
    decreases |items|
  {
    var m' := m[items[0].packPath := items[0].file];
    AllFreshCons(m, items);
    if i == 0 {
      InsertAllKeep(m', items[1..], items[0].packPath);
    } else {
      assert items[1..][i - 1] == items[i];
      InsertAllValues(m', items[1..], i - 1);
    }
  }

  /** An entry no item touches is kept by the batch. */
  lemma {:induction false} InsertAllKeep(m: map<PackPath, File>, items: seq<FilePackPath>, k: PackPath)
    requires k in m
    requires forall i :: 0 <= i < |items| ==> items[i].packPath != k
    ensures k in InsertAll(m, items) && InsertAll(m, items)[k] == m[k]
    decreases |items|
  {
    if |items| > 0 {
      var m' := m[items[0].packPath := items[0].file];
      assert forall i :: 0 <= i < |items[1..]| ==> items[1..][i] == items[i + 1];
      InsertAllKeep(m', items[1..], k);
    }
  }

  /**
   * `file_pack_paths_add`: `try_for_each` over the items. It succeeds iff
   * every path is fresh and distinct, ending with all items inserted; on a
   * refusal it stops at the first item whose path is already taken, and
   * everything inserted before that item stays.
   */
  function FilePackPathsAdd(b: Builder, items: seq<FilePackPath>): (s: Step)
    ensures s.outcome.Success? <==> AllFresh(b.filesByPackPath, items)
    ensures s.outcome.Success? ==> s.builder.filesByPackPath == InsertAll(b.filesByPackPath, items)
    ensures s.outcome.Failure? ==>
              exists n :: 0 <= n < |items|
                && AllFresh(b.filesByPackPath, items[..n])
                && items[n].packPath in InsertAll(b.filesByPackPath, items[..n])
                && s.builder.filesByPackPath == InsertAll(b.filesByPackPath, items[..n])
    decreases |items|
  {
    if |items| == 0 then Step(b, Success(()))
    else
      var first := FilePackPathAdd(b, items[0]);
      AllFreshCons(b.filesByPackPath, items);
      if first.outcome.Failure? then
        assert items[..0] == [];
        first
      else
        var s := FilePackPathsAdd(first.builder, items[1..]);
        assert first.builder.filesByPackPath == b.filesByPackPath[items[0].packPath := items[0].file];
        if s.outcome.Failure? then
          var n :| 0 <= n < |items[1..]|
                     && AllFresh(first.builder.filesByPackPath, items[1..][..n])
                     && items[1..][n].packPath in InsertAll(first.builder.filesByPackPath, items[1..][..n])
                     && s.builder.filesByPackPath == InsertAll(first.builder.filesByPackPath, items[1..][..n]);
          RefusedInRest(b.filesByPackPath, items, first.builder.filesByPackPath, n, s.builder.filesByPackPath);
          s
        else
          s
  }

  /** A refusal among the items after the first is a refusal one place later among all of them. */
  lemma RefusedInRest(m: map<PackPath, File>, items: seq<FilePackPath>, m1: map<PackPath, File>, n: nat,
                      stopped: map<PackPath, File>)
    requires 0 < |items| && items[0].packPath !in m && m1 == m[items[0].packPath := items[0].file]
    requires n < |items[1..]| && AllFresh(m1, items[1..][..n])
    requires items[1..][n].packPath in InsertAll(m1, items[1..][..n])
    requires stopped == InsertAll(m1, items[1..][..n])
    ensures n + 1 < |items| && AllFresh(m, items[..n + 1])
    ensures items[n + 1].packPath in InsertAll(m, items[..n + 1])
    ensures stopped == InsertAll(m, items[..n + 1])
  {
    var prefix := items[..n + 1];
    assert prefix[0] == items[0] && prefix[1..] == items[1..][..n];
    AllFreshCons(m, prefix);
    assert items[n + 1] == items[1..][n];
  }

  /** Inside a fresh, distinct prefix, no item's path is taken by the items before it. */
  lemma FreshPrefixNoClash(m: map<PackPath, File>, items: seq<FilePackPath>, j: nat)
    requires j <= |items| && AllFresh(m, items[..j])
    ensures forall n :: 0 <= n < j ==> items[n].packPath !in InsertAll(m, items[..n])
  {
    forall n | 0 <= n < j
      ensures items[n].packPath !in InsertAll(m, items[..n])
    {
      InsertAllKeys(m, items[..n], items[n].packPath);
      assert items[..j][n] == items[n];
      forall k | 0 <= k < n
        ensures items[..n][k].packPath != items[n].packPath
      {
        assert items[..j][k] == items[..n][k];
      }
    }
  }

  /** A prefix that holds both occurrences of a path is not distinct. */
  lemma DuplicateSpoilsLongerPrefixes(m: map<PackPath, File>, items: seq<FilePackPath>, i: nat, j: nat)
    requires i < j < |items| && items[i].packPath == items[j].packPath
    ensures forall n :: j < n <= |items| ==> !AllFresh(m, items[..n])
  {
    forall n | j < n <= |items|
      ensures !AllFresh(m, items[..n])
    {
      assert items[..n][i] == items[i] && items[..n][j] == items[j];
    }
  }

  /**
   * A path repeated inside one batch is refused at its second occurrence:
   * the batch fails with exactly the items before that occurrence inserted.
   */
  lemma DuplicateRefusedAtSecond(b: Builder, items: seq<FilePackPath>, i: nat, j: nat)
    requires i < j < |items| && items[i].packPath == items[j].packPath
    requires AllFresh(b.filesByPackPath, items[..j])
    ensures FilePackPathsAdd(b, items).outcome.Failure?
    ensures FilePackPathsAdd(b, items).builder.filesByPackPath == InsertAll(b.filesByPackPath, items[..j])
  {
    var m := b.filesByPackPath;
    var s := FilePackPathsAdd(b, items);
    DuplicateSpoilsLongerPrefixes(m, items, i, j);
    assert items[..|items|] == items;
    FreshPrefixNoClash(m, items, j);
    var n :| 0 <= n < |items|
               && AllFresh(m, items[..n])
               && items[n].packPath in InsertAll(m, items[..n])
               && s.builder.filesByPackPath == InsertAll(m, items[..n]);
    assert n == j;
  }

  /** `finalize`: the pack holds exactly the builder's map. */
  function Finalize(b: Builder): (p: Pack)
    ensures p.filesByPath == b.filesByPackPath
  {
    Pack(b.filesByPackPath)
  }

  /**
   * Building from fresh, distinct items and finalizing yields a pack that
   * serves every item's file at its path and nothing at any other path.
   */
  lemma BuiltPackServesEachItem(items: seq<FilePackPath>, path: Text)
    requires AllFresh(map[], items)
    ensures FilePackPathsAdd(New(), items).outcome.Success?
    ensures var p := Finalize(FilePackPathsAdd(New(), items).builder);
            && (forall i :: 0 <= i < |items| && items[i].packPath == PackPath(path) ==>
                 LoaderPack.GetFileByPath(LoaderPack.Owned(p), path) == Some(LoaderFile.ViewOwned(items[i].file)))
            && ((forall i :: 0 <= i < |items| ==> items[i].packPath != PackPath(path)) ==>
                 LoaderPack.GetFileByPath(LoaderPack.Owned(p), path).None?)
  {
    var m := InsertAll(map[], items);
    InsertAllKeys(map[], items, PackPath(path));
    forall i | 0 <= i < |items| && items[i].packPath == PackPath(path)
      ensures m[PackPath(path)] == items[i].file
    {
      InsertAllValues(map[], items, i);
    }
  }

  /**
   * `store`'s framing: the magic and the version as 8 native-endian bytes
   * each (little-endian here), then the serialized pack.
   */
  function StoreHeader(payload: seq<byte>): (r: seq<byte>)
    ensures |r| == 16 + |payload|
    ensures FromLittleEndian(r[..8]) == PACK_FILE_MAGIC
    ensures FromLittleEndian(r[8..16]) == PACK_FILE_VERSION
    ensures r[16..] == payload
  {
    Pow256Widths();
    var magic := LittleEndian(PACK_FILE_MAGIC, 8);
    var version := LittleEndian(PACK_FILE_VERSION, 8);
    FromLittleEndianInverse(PACK_FILE_MAGIC, 8);
    FromLittleEndianInverse(PACK_FILE_VERSION, 8);
    var r := magic + version + payload;
    assert r[..8] == magic && r[8..16] == version;
    r
  }
}
