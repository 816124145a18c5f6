/** The times of directories after whole archives and layers: the code records the
    directory entries while it extracts and sets the times at the end. */
module DirTimes {
  import opened Names
  import opened Trees
  import opened Headers
  import opened RootFs
  import opened Extract
  import opened Preservation
  import opened Plain
  import opened Untar

  // ----- directory entries -----

  /** Where a directory entry of an archive is written; None for other entries. */
  function UntarDirPath(opts: Options, s: UntarState, hdr: Header): Option<Path> {
    var name := EntryName(hdr);
    if !hdr.typeflag.TypeDir? || !name.Inside() || name.names == [] then None
    else
      match ResolveArchivePath(s.tree, name.names)
      case Missing(_) => None
      case Found(a) => if opts.overlay && IsWhiteoutName(Last(a.path)) then None else Some(a.path)
  }

  /** Where a directory entry of a layer is written. */
  function LayerDirPath(s: LayerState, hdr: Header): Option<Path> {
    var name := EntryName(hdr);
    if !hdr.typeflag.TypeDir? || !name.Inside() || name.names == [] || IsMetadata(name.names) then None
    else
      match ResolveArchivePath(s.tree, name.names)
      case Missing(_) => None
      case Found(a) => if IsWhiteoutName(Last(a.path)) then None else Some(a.path)
  }

  /** The places of all entries, each looked up when the entry is reached. */
  ghost function ArchivePaths(opts: Options, t: Tree, archive: seq<Header>): (r: seq<Option<Path>>)
    ensures |r| == |archive|
    decreases |archive|
  {
    if archive == [] then []
    else
      var n := |archive| - 1;
      var before := UntarEntries(opts, UntarState(t, []), archive[..n]);
      ArchivePaths(opts, t, archive[..n])
        + [if before.Continues? then UntarDirPath(opts, before.state, archive[n]) else None]
  }

  ghost function LayerPaths(t: Tree, layer: seq<Header>): (r: seq<Option<Path>>)
    ensures |r| == |layer|
    decreases |layer|
  {
    if layer == [] then []
    else
      var n := |layer| - 1;
      var before := ApplyEntries(NewLayer(t), layer[..n]);
      LayerPaths(t, layer[..n]) + [if before.Going? then LayerDirPath(before.state, layer[n]) else None]
  }

  /** Each place is looked up in the tree that the earlier entries have left. */
  lemma {:induction false} ArchivePathAt(opts: Options, t: Tree, archive: seq<Header>, j: nat)
    requires j < |archive|
    ensures var before := UntarEntries(opts, UntarState(t, []), archive[..j]);
      ArchivePaths(opts, t, archive)[j] ==
        if before.Continues? then UntarDirPath(opts, before.state, archive[j]) else None
    decreases |archive|
  {
    hide UntarDirPath, UntarEntry;
    var n := |archive| - 1;
    if j < n {
      assert archive[..n][..j] == archive[..j] && archive[..n][j] == archive[j];
      ArchivePathAt(opts, t, archive[..n], j);
    }
  }

  lemma {:induction false} LayerPathAt(t: Tree, layer: seq<Header>, j: nat)
    requires j < |layer|
    ensures var before := ApplyEntries(NewLayer(t), layer[..j]);
      LayerPaths(t, layer)[j] == if before.Going? then LayerDirPath(before.state, layer[j]) else None
    decreases |layer|
  {
    hide LayerDirPath, ApplyEntry;
    var n := |layer| - 1;
    if j < n {
      assert layer[..n][..j] == layer[..j] && layer[..n][j] == layer[j];
      LayerPathAt(t, layer[..n], j);
    }
  }

  /** What is recorded for the entries: a directory's place and its bounded time. */
  ghost function Records(paths: seq<Option<Path>>, archive: seq<Header>): seq<UnpackedDir>
    requires |paths| == |archive|
    decreases |paths|
  {
    if paths == [] then []
    else
      var n := |paths| - 1;
      Records(paths[..n], archive[..n])
        + match paths[n] { case None => [] case Some(p) => [UnpackedDir(p, BoundTime(archive[n].modTime))] }
  }

  lemma RecordsMore(paths: seq<Option<Path>>, archive: seq<Header>, path: Option<Path>)
    requires |paths| + 1 == |archive|
    ensures Records(paths + [path], archive) == Records(paths, archive[..|paths|])
      + match path { case None => [] case Some(p) => [UnpackedDir(p, BoundTime(archive[|paths|].modTime))] }
  {
    assert (paths + [path])[..|paths|] == paths;
  }

  /** What Unpack has recorded are its directory entries. */
  lemma {:induction false} UntarRecords(opts: Options, t: Tree, archive: seq<Header>)
    ensures var r := UntarEntries(opts, UntarState(t, []), archive);
      r.Continues? ==> r.state.dirs == Records(ArchivePaths(opts, t, archive), archive)
    decreases |archive|
  {
    hide ResolveArchivePath, UntarAt;
    if archive != [] {
      var n := |archive| - 1;
      UntarRecords(opts, t, archive[..n]);
      var before := UntarEntries(opts, UntarState(t, []), archive[..n]);
      if before.Continues? {
        RecordsMore(ArchivePaths(opts, t, archive[..n]), archive, UntarDirPath(opts, before.state, archive[n]));
      }
    }
  }

  /** What UnpackLayer has recorded are the directory entries of the layer. */
  lemma {:induction false} LayerRecords(t: Tree, layer: seq<Header>)
    ensures var r := ApplyEntries(NewLayer(t), layer);
      r.Going? ==> r.state.dirs == Records(LayerPaths(t, layer), layer)
    decreases |layer|
  {
    hide ApplyEntry, LayerDirPath;
    if layer != [] {
      var n := |layer| - 1;
      LayerRecords(t, layer[..n]);
      var before := ApplyEntries(NewLayer(t), layer[..n]);
      if before.Going? {
        EntryRecords(before.state, layer[n]);
        RecordsMore(LayerPaths(t, layer[..n]), layer, LayerDirPath(before.state, layer[n]));
      }
    }
  }

  lemma EntryRecords(s: LayerState, hdr: Header)
    ensures
      var r := ApplyEntry(s, hdr);
      var records :=
        match LayerDirPath(s, hdr) { case None => [] case Some(p) => [UnpackedDir(p, BoundTime(hdr.modTime))] };
      r.Going? ==> r.state.dirs == s.dirs + records
  {
    hide ResolveArchivePath, CreateImplied, MakeRoom, CreateTarFile, ApplyOpaque;
  }

  // ----- the last entry counts -----

  /** Entry j is a directory entry whose path leads to inode i at the end. */
  ghost predicate LeadsTo(t: Tree, paths: seq<Option<Path>>, j: int, i: Ino) {
    && 0 <= j < |paths| && paths[j].Some?
    && var loc := Follow(t, paths[j].value); loc.Found? && loc.value in t.names && t.names[loc.value] == i
  }

  ghost predicate IsLast(t: Tree, paths: seq<Option<Path>>, j: int, i: Ino) {
    LeadsTo(t, paths, j, i) && forall k | j < k :: !LeadsTo(t, paths, k, i)
  }

  lemma {:induction false} LastOfRecords(t: Tree, paths: seq<Option<Path>>, archive: seq<Header>, i: Ino)
    requires |paths| == |archive|
    ensures
      match LastTime(t, Records(paths, archive), i)
      case None => forall j :: !LeadsTo(t, paths, j, i)
      case Some(m) => exists j :: IsLast(t, paths, j, i) && m == BoundTime(archive[j].modTime)
    decreases |paths|
  {
    hide Follow;
    if paths != [] {
      var n := |paths| - 1;
      LastOfRecords(t, paths[..n], archive[..n], i);
      assert forall j :: LeadsTo(t, paths, j, i) <==>
        LeadsTo(t, paths[..n], j, i) || (j == n && LeadsTo(t, paths, n, i));
      var before := Records(paths[..n], archive[..n]);
      if LeadsTo(t, paths, n, i) {
        assert IsLast(t, paths, n, i);
      } else {
        match LastTime(t, before, i)
        case None =>
        case Some(m) =>
          var j :| IsLast(t, paths[..n], j, i) && m == BoundTime(archive[..n][j].modTime);
          assert IsLast(t, paths, j, i);
      }
      if paths[n].Some? {
        LastOfMore(t, before, UnpackedDir(paths[n].value, BoundTime(archive[n].modTime)), i);
      } else {
        assert Records(paths, archive) == before;
      }
    }
  }

  lemma LastOfMore(t: Tree, dirs: seq<UnpackedDir>, d: UnpackedDir, i: Ino)
    ensures var loc := Follow(t, d.name);
      LastTime(t, dirs + [d], i) ==
        if loc.Found? && loc.value in t.names && t.names[loc.value] == i then Some(d.mtime) else LastTime(t, dirs, i)
  {
    assert (dirs + [d])[..|dirs|] == dirs;
  }

  /** The inode i has the bounded time of the last directory entry that leads to it;
      without such an entry it is as extraction has left it. */
  ghost predicate LastEntryCounts(t: Tree, paths: seq<Option<Path>>, archive: seq<Header>, t': Tree, i: Ino)
    requires |paths| == |archive|
  {
    && i in t.inodes && i in t'.inodes
    && ((forall j :: !LeadsTo(t, paths, j, i)) ==> t'.inodes[i] == t.inodes[i])
    && forall j | IsLast(t, paths, j, i) :: t'.inodes[i] == t.inodes[i].(mtime := BoundTime(archive[j].modTime))
  }

  lemma LastIsOne(t: Tree, paths: seq<Option<Path>>, j: int, k: int, i: Ino)
    requires IsLast(t, paths, j, i) && IsLast(t, paths, k, i)
    ensures j == k
  {
  }

  lemma EveryRecordLeads(paths: seq<Option<Path>>, archive: seq<Header>)
    requires |paths| == |archive|
    ensures forall d | d in Records(paths, archive) :: Some(d.name) in paths
    ensures forall j | 0 <= j < |paths| && paths[j].Some? ::
      exists d :: d in Records(paths, archive) && d.name == paths[j].value
    decreases |paths|
  {
    if paths != [] {
      var n := |paths| - 1;
      assert paths == paths[..n] + [paths[n]];
      EveryRecordLeads(paths[..n], archive[..n]);
      forall j | 0 <= j < |paths| && paths[j].Some?
        ensures exists d :: d in Records(paths, archive) && d.name == paths[j].value
      {
        if j == n {
          var d := UnpackedDir(paths[n].value, BoundTime(archive[n].modTime));
          assert d in [d] && d in Records(paths, archive);
        } else {
          assert paths[..n][j] == paths[j];
          var d :| d in Records(paths[..n], archive[..n]) && d.name == paths[j].value;
          assert d in Records(paths, archive);
        }
      }
    }
  }

  /** Setting the times after all entries. */
  lemma RecordedTimes(t: Tree, paths: seq<Option<Path>>, archive: seq<Header>)
    requires t.Valid() && |paths| == |archive|
    ensures var r := ApplyDirTimes(t, Records(paths, archive));
      && (r.Fine? <==> forall j | 0 <= j < |paths| && paths[j].Some? :: Follow(t, paths[j].value).Found?)
      && (r.Fine? ==>
            && r.tree.names == t.names
            && forall i | i in t.inodes :: LastEntryCounts(t, paths, archive, r.tree, i))
  {
    hide Follow, IsLast, LeadsTo;
    var dirs := Records(paths, archive);
    DirTimesAreDeferred(t, dirs);
    EveryRecordLeads(paths, archive);
    var r := ApplyDirTimes(t, dirs);
    if r.Fine? {
      forall i | i in t.inodes ensures LastEntryCounts(t, paths, archive, r.tree, i) {
        LastOfRecords(t, paths, archive, i);
        forall j, k | IsLast(t, paths, j, i) && IsLast(t, paths, k, i) ensures j == k { LastIsOne(t, paths, j, k, i); }
        LastLeads(t, paths, i);
      }
    }
  }

  lemma LastLeads(t: Tree, paths: seq<Option<Path>>, i: Ino)
    ensures forall j | IsLast(t, paths, j, i) :: LeadsTo(t, paths, j, i)
  {
  }

  // ----- archives and layers -----

  /** The tree when all entries of an archive have been extracted. */
  ghost function Extraction(opts: Options, t: Tree, archive: seq<Header>): Tree {
    UntarEntries(opts, UntarState(t, []), archive).Tree()
  }

  /** For any archive: if all its entries can be extracted, setting the times
      succeeds exactly if each directory entry still leads somewhere, and then
      every inode has the time of the last directory entry that leads to it. */
  lemma ArchiveTimes(opts: Options, t: Tree, archive: seq<Header>)
    requires t.Valid() && UntarEntries(opts, UntarState(t, []), archive).Continues?
    ensures
      var final, paths := Extraction(opts, t, archive), ArchivePaths(opts, t, archive);
      var r := UntarAll(opts, t, archive);
      && (r.Fine? <==> forall j | 0 <= j < |paths| && paths[j].Some? :: Follow(final, paths[j].value).Found?)
      && (r.Fine? ==>
            && r.tree.names == final.names
            && forall i | i in final.inodes :: LastEntryCounts(final, paths, archive, r.tree, i))
  {
    UntarRecords(opts, t, archive);
    UntarEntriesIsSafe(opts, UntarState(t, []), archive);
    RecordedTimes(Extraction(opts, t, archive), ArchivePaths(opts, t, archive), archive);
  }

  ghost function LayerExtraction(t: Tree, layer: seq<Header>): Tree {
    ApplyEntries(NewLayer(t), layer).state.tree
  }

  /** The same for any layer. */
  lemma LayerTimes(t: Tree, layer: seq<Header>)
    requires t.Valid() && ApplyEntries(NewLayer(t), layer).Going?
    ensures var final, paths, r := LayerExtraction(t, layer), LayerPaths(t, layer), ApplyLayer(t, layer);
      && (r.Fine? <==> forall j | 0 <= j < |paths| && paths[j].Some? :: Follow(final, paths[j].value).Found?)
      && (r.Fine? ==>
            && r.tree.names == final.names
            && forall i | i in final.inodes :: LastEntryCounts(final, paths, layer, r.tree, i))
  {
    LayerRecords(t, layer);
    ApplyEntriesIsSafe(NewLayer(t), layer);
    RecordedTimes(LayerExtraction(t, layer), LayerPaths(t, layer), layer);
  }

  /** A directory that entry j has written to p, and that is still there at the end,
      has the bounded time of that header, unless a later directory entry leads to
      it as well; whatever is created in it afterwards. */
  lemma WrittenDirectoryHasItsTime(opts: Options, t: Tree, archive: seq<Header>, j: nat, p: Path)
    requires t.Valid() && UntarAll(opts, t, archive).Fine? && j < |archive|
    requires ArchivePaths(opts, t, archive)[j] == Some(p) && Extraction(opts, t, archive).IsDir(p)
    requires forall k | j < k ::
      !LeadsTo(Extraction(opts, t, archive), ArchivePaths(opts, t, archive), k, Extraction(opts, t, archive).names[p])
    ensures var r := UntarAll(opts, t, archive).tree; r.IsDir(p) && r.At(p).mtime == BoundTime(archive[j].modTime)
  {
    hide UntarAll, Follow;
    UntarIsComplete(opts, t, archive);
    ArchiveTimes(opts, t, archive);
    UntarEntriesIsSafe(opts, UntarState(t, []), archive);
    var final, paths := Extraction(opts, t, archive), ArchivePaths(opts, t, archive);
    FollowPlain(final, p);
    assert IsLast(final, paths, j, final.names[p]);
    assert LastEntryCounts(final, paths, archive, UntarAll(opts, t, archive).tree, final.names[p]);
  }

  lemma UntarIsComplete(opts: Options, t: Tree, archive: seq<Header>)
    requires UntarAll(opts, t, archive).Fine?
    ensures UntarEntries(opts, UntarState(t, []), archive).Continues?
  {
  }

  /** The same for a layer. */
  lemma LayerDirectoryHasItsTime(t: Tree, layer: seq<Header>, j: nat, p: Path)
    requires t.Valid() && ApplyLayer(t, layer).Fine? && j < |layer|
    requires LayerPaths(t, layer)[j] == Some(p) && LayerExtraction(t, layer).IsDir(p)
    requires forall k | j < k ::
      !LeadsTo(LayerExtraction(t, layer), LayerPaths(t, layer), k, LayerExtraction(t, layer).names[p])
    ensures var r := ApplyLayer(t, layer).tree; r.IsDir(p) && r.At(p).mtime == BoundTime(layer[j].modTime)
  {
    hide ApplyLayer, Follow;
    LayerIsComplete(t, layer);
    LayerTimes(t, layer);
    ApplyEntriesIsSafe(NewLayer(t), layer);
    var final, paths := LayerExtraction(t, layer), LayerPaths(t, layer);
    FollowPlain(final, p);
    assert IsLast(final, paths, j, final.names[p]);
    assert LastEntryCounts(final, paths, layer, ApplyLayer(t, layer).tree, final.names[p]);
  }

  lemma LayerIsComplete(t: Tree, layer: seq<Header>)
    requires ApplyLayer(t, layer).Fine?
    ensures ApplyEntries(NewLayer(t), layer).Going?
  {
  }

  /** An entry whose name stands in a directory of the tree is written there. */
  lemma PlainDirPath(opts: Options, s: UntarState, ls: LayerState, hdr: Header, q: Path)
    requires s.tree.Valid() && ls.tree == s.tree && InDir(s.tree, q) && EntryName(hdr) == Cleaned(false, 0, q)
    requires hdr.typeflag.TypeDir? && !IsWhiteoutName(Last(q)) && !IsMetadata(q)
    ensures UntarDirPath(opts, s, hdr) == Some(q) && LayerDirPath(ls, hdr) == Some(q)
  {
    ArchivePathPlain(s.tree, q);
  }
}
