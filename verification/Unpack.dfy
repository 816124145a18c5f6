/** The extraction methods of archive.go and diff.go on a mutable root. */
module Unpack {
  import opened Names
  import opened Errors
  import opened Trees
  import opened Headers
  import opened Resolver
  import opened RootFs
  import opened Extract
  import opened Preservation
  import opened Sweeping
  import Plain

  datatype Status = NoError | Failure(error: Error)

  function StatusOf(r: Done): Status {
    match r
    case Fine(_) => NoError
    case Bad(_, e) => Status.Failure(e)
  }

  function ContentSize(layer: seq<Header>): nat {
    if layer == [] then 0 else ContentSize(layer[..|layer| - 1]) + |layer[|layer| - 1].data|
  }

  /** Each byte of the contents counts once. */
  lemma {:induction false} ContentSizeIsSum(a: seq<Header>, b: seq<Header>)
    ensures ContentSize(a + b) == ContentSize(a) + ContentSize(b)
    ensures forall hdr :: ContentSize([hdr]) == |hdr.data|
    decreases |b|
  {
    forall hdr ensures ContentSize([hdr]) == |hdr.data| { assert [hdr][..0] == []; }
    if b == [] {
      assert a + b == a;
    } else {
      var n := |b| - 1;
      ContentSizeIsSum(a, b[..n]);
      assert (a + b)[..|a + b| - 1] == a + b[..n];
    }
  }

  /** `os.Root`: a directory that was opened for extraction. */
  class Root {
    var tree: Tree

    constructor (t: Tree)
      ensures tree == t
    {
      tree := t;
    }

    /** Takes over the result of one operation. */
    method Do(r: Done) returns (err: Status)
      modifies this
      ensures tree == r.tree && err == StatusOf(r)
    {
      tree := r.tree;
      err := StatusOf(r);
    }

    /** createImpliedDirectories. */
    method CreateImpliedDirectories(resolved: ArchivePath) returns (err: Status)
      requires resolved.path != []
      modifies this
      ensures tree == CreateImplied(old(tree), resolved).tree
      ensures err == StatusOf(CreateImplied(old(tree), resolved))
    {
      var parent := Parent(resolved.path);
      if parent == [] || resolved.parentWasPresent {
        return NoError;
      }
      match Lstat(tree, parent) {
        case Found(_) => return NoError;
        case Missing(e) => if !e.NotExist? { return Status.Failure(e); }
      }
      var cur: Path := [];
      var i := 0;
      while i < |parent|
        invariant 0 <= i <= |parent|
        invariant MakeAll(old(tree), [], parent) == MakeAll(tree, cur, parent[i..])
      {
        assert parent[i..][0] == parent[i] && parent[i..][1..] == parent[i + 1..];
        cur := cur + [parent[i]];
        i := i + 1;
        match Create(tree, cur, Dir, IMPLIED_DIRECTORY_MODE) {
          case Fine(t) => tree := t;
          case Bad(_, e) =>
            if !e.Exists? {
              return Status.Failure(e);
            }
            match Follow(tree, cur) {
              case Missing(e') => return Status.Failure(e');
              case Found(loc) =>
                if !tree.IsDir(loc) {
                  return Status.Failure(NotDirectory);
                }
            }
        }
      }
      err := NoError;
    }

    /** createTarFile. */
    method ExtractFile(dstPath: Path, hdr: Header) returns (err: Status)
      modifies this
      ensures tree == CreateTarFile(old(tree), dstPath, hdr).tree
      ensures err == StatusOf(CreateTarFile(old(tree), dstPath, hdr))
    {
      var hardlinkTarget: Path := [];
      if hdr.typeflag.TypeLink? {
        match ResolveHardlinkTarget(tree, hdr.linkname) {
          case Missing(e) => return Status.Failure(e);
          case Found(p) => hardlinkTarget := p;
        }
      }
      err := Do(MakeNode(tree, dstPath, hdr, hardlinkTarget));
      if err != NoError || hdr.typeflag.TypeXGlobalHeader? {
        return;
      }
      err := Do(Lchown(tree, dstPath, hdr.uid, hdr.gid));
      if err != NoError { return; }
      err := Do(ApplyCaps(tree, dstPath, hdr));
      if err != NoError { return; }
      err := Do(ApplyMode(tree, dstPath, hdr, hardlinkTarget));
      if err != NoError { return; }
      err := Do(ApplyTimes(tree, dstPath, hdr, hardlinkTarget));
    }

    /** The walk of an opaque whiteout over a directory, its entries in any
        order. */
    method RemoveUnlisted(dir: Path, unpacked: set<Path>)
      requires tree.Valid() && tree.IsDir(dir)
      modifies this
      ensures tree == Sweep(old(tree), dir, unpacked)
      decreases CountBelow(tree, dir), 1
    {
      hide SweptIn, Sweep, CountBelow, Tree.Valid, Prune;
      ghost var t := tree;
      var names := set p | p in tree.names && p != [] && Parent(p) == dir :: Last(p);
      EntryNames(t, dir, names);
      var todo := names;
      ghost var done: set<Name> := {};
      NothingDone(t, dir, unpacked);
      while todo != {}
        invariant todo <= names && done == names - todo
        invariant SweptIn(t, tree, dir, unpacked, done)
        decreases todo
      {
        var n :| n in todo;
        ChildInCurrentTree(t, tree, dir, unpacked, done, n);
        ghost var before := tree;
        VisitUnlisted(dir, n, unpacked);
        SweepChild(t, before, tree, dir, unpacked, done, n);
        todo := todo - {n};
        done := done + {n};
      }
      SweptAll(t, tree, dir, unpacked, done);
    }

    /** The callback of that walk, and the descent after it: what the layer did
        not write is removed, what it did write is kept and, if it is a
        directory, walked in turn. */
    method VisitUnlisted(dir: Path, n: Name, unpacked: set<Path>)
      requires tree.Valid() && tree.IsDir(dir) && dir + [n] in tree.names
      modifies this
      ensures SweptIn(old(tree), tree, dir, unpacked, {n})
      decreases CountBelow(tree, dir), 0
    {
      var p := dir + [n];
      ParentOf(dir, n);
      if p !in unpacked {
        ChildNotListed(tree, dir, unpacked, n);
        RemovalPrunes(tree, p);
        tree := RemoveAll(tree, p).tree;
      } else {
        ChildListed(tree, dir, unpacked, n);
        if tree.IsDir(p) {
          FewerBelow(tree, dir, p);
          RemoveUnlisted(p, unpacked);
        } else {
          NothingBelowAFile(tree, p, unpacked);
          PruneNothing(tree);
        }
      }
    }

    /** UnpackLayer. */
    method UnpackLayer(layer: seq<Header>) returns (size: nat, err: Status)
      requires tree.Valid()
      modifies this
      ensures tree == ApplyLayer(old(tree), layer).tree
      ensures err == StatusOf(ApplyLayer(old(tree), layer))
      ensures size == if err == NoError then ContentSize(layer) else 0
    {
      var dirs: seq<UnpackedDir> := [];
      var unpackedPaths: set<Path> := {};
      size, err := 0, NoError;
      ghost var start := NewLayer(tree);
      var i := 0;
      while i < |layer|
        invariant 0 <= i <= |layer|
        invariant ApplyEntries(start, layer[..i]) == Going(LayerState(tree, dirs, unpackedPaths))
        invariant size == ContentSize(layer[..i])
        invariant tree.Valid()
      {
        var hdr := layer[i];
        assert layer[..i + 1][..i] == layer[..i] && layer[..i + 1][i] == hdr;
        ApplyEntryIsSafe(LayerState(tree, dirs, unpackedPaths), hdr);
        err, dirs, unpackedPaths := UnpackEntry(hdr, dirs, unpackedPaths);
        if err != NoError {
          StopsThere(start.tree, layer, i + 1);
          return 0, err;
        }
        size := size + |hdr.data|;
        i := i + 1;
      }
      assert layer[..i] == layer;
      err := RestoreTimes(dirs);
      if err != NoError {
        return 0, err;
      }
    }

    /** The loop that sets the times of directories at the end. */
    method RestoreTimes(dirs: seq<UnpackedDir>) returns (err: Status)
      modifies this
      ensures tree == ApplyDirTimes(old(tree), dirs).tree
      ensures err == StatusOf(ApplyDirTimes(old(tree), dirs))
    {
      err := NoError;
      ghost var t := tree;
      var i := 0;
      while i < |dirs|
        invariant 0 <= i <= |dirs|
        invariant ApplyDirTimes(t, dirs[..i]) == Fine(tree) && err == NoError
      {
        assert dirs[..i + 1][..i] == dirs[..i] && dirs[..i + 1][i] == dirs[i];
        err := Do(Chtimes(tree, dirs[i].name, dirs[i].mtime));
        if err != NoError {
          TimesStopThere(t, dirs, i + 1);
          return;
        }
        i := i + 1;
      }
      assert dirs[..i] == dirs;
    }

    /** The body of the entry loop of UnpackLayer. */
    method UnpackEntry(hdr: Header, dirs: seq<UnpackedDir>, unpackedPaths: set<Path>)
      returns (err: Status, dirs': seq<UnpackedDir>, unpackedPaths': set<Path>)
      requires tree.Valid()
      modifies this
      ensures
        var r := ApplyEntry(LayerState(old(tree), dirs, unpackedPaths), hdr);
        && r.state.tree == tree
        && match r
           case Going(s) => err == NoError && s == LayerState(tree, dirs', unpackedPaths')
           case Stopped(_, e) => err == Status.Failure(e)
    {
      err, dirs', unpackedPaths' := NoError, dirs, unpackedPaths;
      var name := EntryName(hdr);
      if name.Inside() && name.names == [] {
        return;
      }
      if !name.Inside() {
        err := Status.Failure(InvalidEntryName);
        return;
      }
      if IsMetadata(name.names) {
        return;
      }
      var resolved;
      match ResolveArchivePath(tree, name.names) {
        case Missing(e) =>
          err := Status.Failure(e);
          return;
        case Found(a) => resolved := a;
      }
      var dstPath := resolved.path;
      CreateImpliedIsSafe(tree, resolved);
      err := CreateImpliedDirectories(resolved);
      if err != NoError {
        return;
      }
      if IsWhiteoutName(Last(dstPath)) {
        err := Whiteout(dstPath, unpackedPaths);
        return;
      }
      err := Do(MakeRoom(tree, dstPath, hdr));
      if err != NoError {
        return;
      }
      if LinksIntoAufs(hdr) {
        err := Status.Failure(InvalidAufsHardlink);
        return;
      }
      err := ExtractFile(dstPath, hdr);
      if err != NoError {
        return;
      }
      if hdr.typeflag.TypeDir? {
        dirs' := dirs + [UnpackedDir(dstPath, BoundTime(hdr.modTime))];
      }
      unpackedPaths' := unpackedPaths + {dstPath};
    }

    /** The whiteout branch of the entry loop. */
    method Whiteout(dstPath: Path, unpackedPaths: set<Path>) returns (err: Status)
      requires tree.Valid() && dstPath != [] && OrdinaryPath(dstPath) && IsWhiteoutName(Last(dstPath))
      modifies this
      ensures forall s: LayerState | s.unpacked == unpackedPaths ::
        var r := ApplyWhiteout(s, old(tree), dstPath);
        && r.state == s.(tree := tree)
        && err == if r.Going? then NoError else Status.Failure(r.error)
    {
      ParentIsOrdinary(dstPath);
      var dir, base := Parent(dstPath), Last(dstPath);
      if base == WHITEOUT_OPAQUE_DIR {
        match Lstat(tree, dir) {
          case Missing(e) => return Status.Failure(e);
          case Found(_) =>
        }
        match Resolve(View(tree), dir) {
          case Failure(e) => return Status.Failure(e);
          case Success(absDir, _, _) =>
            if tree.IsDir(absDir) {
              RemoveUnlisted(absDir, unpackedPaths);
            }
        }
        err := NoError;
      } else {
        err := Do(RemoveJoined(tree, JoinClean(dir, base[|WHITEOUT_PREFIX|..])));
      }
    }

    /** Unpack. */
    method Untar(archive: seq<Header>, options: Options) returns (err: Status)
      modifies this
      ensures tree == UntarAll(options, old(tree), archive).tree
      ensures err == StatusOf(UntarAll(options, old(tree), archive))
    {
      var dirs: seq<UnpackedDir> := [];
      ghost var start := UntarState(tree, []);
      var i := 0;
      while i < |archive|
        invariant 0 <= i <= |archive|
        invariant UntarEntries(options, start, archive[..i]) == Continues(UntarState(tree, dirs))
      {
        assert archive[..i + 1][..i] == archive[..i] && archive[..i + 1][i] == archive[i];
        err, dirs := UntarOne(archive[i], options, dirs);
        if err != NoError {
          UntarStopsThere(options, start, archive, i + 1);
          return;
        }
        i := i + 1;
      }
      assert archive[..i] == archive;
      err := RestoreTimes(dirs);
    }

    /** The body of the entry loop of Unpack. */
    method UntarOne(hdr: Header, options: Options, dirs: seq<UnpackedDir>) returns (err: Status,
                    dirs': seq<UnpackedDir>)
      modifies this
      ensures
        match UntarEntry(options, UntarState(old(tree), dirs), hdr)
        case Continues(s) => err == NoError && s == UntarState(tree, dirs')
        case Fails(t, e) => err == Status.Failure(e) && tree == t
    {
      err, dirs' := NoError, dirs;
      if hdr.typeflag.TypeXGlobalHeader? {
        return;
      }
      var name := EntryName(hdr);
      if name.Inside() && name.names == [] {
        return;
      }
      if !name.Inside() {
        err := Status.Failure(InvalidEntryName);
        return;
      }
      var resolved;
      match ResolveArchivePath(tree, name.names) {
        case Missing(e) =>
          err := Status.Failure(e);
          return;
        case Found(a) => resolved := a;
      }
      var dstPath := resolved.path;
      err := Do(ReplaceTarget(options, tree, dstPath, hdr));
      if err != NoError {
        return;
      }
      err := CreateImpliedDirectories(resolved);
      if err != NoError {
        return;
      }
      if options.overlay {
        var writeFile;
        writeFile, err := ConvertWhiteout(hdr, dstPath);
        if err != NoError || !writeFile {
          return;
        }
      }
      err := ExtractFile(dstPath, hdr);
      if err != NoError {
        return;
      }
      if hdr.typeflag.TypeDir? {
        dirs' := dirs + [UnpackedDir(dstPath, BoundTime(hdr.modTime))];
      }
    }

    /** ConvertRead. */
    method ConvertWhiteout(hdr: Header, filePath: Path) returns (writeFile: bool, err: Status)
      requires filePath != []
      modifies this
      ensures
        match ConvertRead(old(tree), filePath, hdr)
        case WriteIt => writeFile && err == NoError && tree == old(tree)
        case Handled(done) => !writeFile && tree == done.tree && err == StatusOf(done)
    {
      var dir, base := Parent(filePath), Last(filePath);
      if base == WHITEOUT_PREFIX || base == WHITEOUT_PREFIX + "." || base == WHITEOUT_PREFIX + ".." {
        return false, Status.Failure(InvalidWhiteout);
      }
      if base == WHITEOUT_OPAQUE_DIR {
        err := Do(SetOpaque(tree, dir));
        return false, err;
      }
      if !IsWhiteoutName(base) {
        return true, NoError;
      }
      match Follow(tree, dir) {
        case Missing(e) => return false, Status.Failure(e);
        case Found(parent) =>
          if !tree.IsDir(parent) {
            return false, Status.Failure(NotDirectory);
          }
          var original := parent + [base[|WHITEOUT_PREFIX|..]];
          if original in tree.names {
            return false, Status.Failure(Exists);
          }
          tree := CreateAt(tree, original, Char(0, 0), 0);
          if (hdr.uid != 0 || hdr.gid != 0) && tree.Has(original) {
            tree := SetInode(tree, original, tree.At(original).(uid := hdr.uid, gid := hdr.gid));
          }
      }
      return false, NoError;
    }
  }

  // ----- what the loops need -----

  lemma RemovalPrunes(t: Tree, path: Path)
    requires t.Valid() && path in t.names && path != []
    ensures RemoveAll(t, path) == Fine(RemoveAt(t, path))
    ensures RemoveAt(t, path) == Prune(t, set p | p in t.names && path <= p)
  {
    assert t.IsDir(Parent(path));
    Plain.LocatePlain(t, path);
    RemoveAtIsPrune(t, path);
  }

  lemma ChildInCurrentTree(t: Tree, now: Tree, dir: Path, unpacked: set<Path>, done: set<Name>, n: Name)
    requires t.Valid() && t.IsDir(dir) && dir + [n] in t.names && n !in done
    requires SweptIn(t, now, dir, unpacked, done)
    ensures now.Valid() && now.IsDir(dir) && dir + [n] in now.names
    ensures CountBelow(now, dir) <= CountBelow(t, dir)
  {
    var gone := UnlistedIn(t, dir, unpacked, done);
    UnlistedIsDownClosed(t, dir, unpacked, done);
    PruneIsSafe(t, gone);
    ParentOf(dir, n);
    assert (dir + [n])[|dir|] == n;
    assert dir !in gone;
    SubsetSize(set q | q in now.names && Below(dir, q), set q | q in t.names && Below(dir, q));
  }

  lemma NothingBelowAFile(t: Tree, p: Path, unpacked: set<Path>)
    requires t.Valid() && !t.IsDir(p)
    ensures Unlisted(t, p, unpacked) == {}
  {
    forall q | q in t.names && Below(p, q) ensures false { AncestorsAreDirs(t, p, q); }
  }

  lemma {:induction false} StopsThere(t: Tree, layer: seq<Header>, i: nat)
    requires i <= |layer| && ApplyEntries(NewLayer(t), layer[..i]).Stopped?
    ensures ApplyEntries(NewLayer(t), layer) == ApplyEntries(NewLayer(t), layer[..i])
    decreases |layer|
  {
    if i == |layer| {
      assert layer[..i] == layer;
    } else {
      var prefix := layer[..|layer| - 1];
      assert prefix[..i] == layer[..i];
      StopsThere(t, prefix, i);
    }
  }

  lemma {:induction false} UntarStopsThere(options: Options, start: UntarState, archive: seq<Header>, i: nat)
    requires i <= |archive| && UntarEntries(options, start, archive[..i]).Fails?
    ensures UntarEntries(options, start, archive) == UntarEntries(options, start, archive[..i])
    decreases |archive|
  {
    if i == |archive| {
      assert archive[..i] == archive;
    } else {
      var prefix := archive[..|archive| - 1];
      assert prefix[..i] == archive[..i];
      UntarStopsThere(options, start, prefix, i);
    }
  }

  lemma {:induction false} TimesStopThere(t: Tree, dirs: seq<UnpackedDir>, i: nat)
    requires i <= |dirs| && ApplyDirTimes(t, dirs[..i]).Bad?
    ensures ApplyDirTimes(t, dirs) == ApplyDirTimes(t, dirs[..i])
    decreases |dirs|
  {
    if i == |dirs| {
      assert dirs[..i] == dirs;
    } else {
      var prefix := dirs[..|dirs| - 1];
      assert prefix[..i] == dirs[..i];
      TimesStopThere(t, prefix, i);
    }
  }
}
