/** Names that begin with the whiteout prefix: no layer brings a file of such a
    name into being, whatever it contains, and neither does an archive that is
    unpacked in overlay format. */
module WhiteoutNames {
  import opened Names
  import opened Trees
  import opened Headers
  import opened RootFs
  import opened Extract
  import opened Preservation
  import opened Untar

  /** What may come to exist under such a name: a directory that an entry
      implies and, in overlay format, a whiteout. */
  predicate MadeAt(t: Tree, p: Path, devices: bool) {
    t.Has(p) && (t.At(p).kind.Dir? || (devices && t.At(p).kind == Char(0, 0)))
  }

  predicate SameName(t: Tree, t': Tree, p: Path) {
    p in t.names && p in t'.names && t'.names[p] == t.names[p]
  }

  /** Prefixed names are old, or stand for what may come to exist. */
  ghost predicate Restrained(t: Tree, t': Tree, devices: bool) {
    forall p | p in t'.names && Prefixed(p) :: SameName(t, t', p) || MadeAt(t', p, devices)
  }

  lemma RestrainedTransitive(t: Tree, t': Tree, t'': Tree, devices: bool)
    requires t'.Valid() && Safe(t', t'') && Restrained(t, t', devices) && Restrained(t', t'', devices)
    ensures Restrained(t, t'', devices)
  {
    forall p | p in t''.names && Prefixed(p) ensures SameName(t, t'', p) || MadeAt(t'', p, devices) {
      if SameName(t', t'', p) && MadeAt(t', p, devices) { assert t''.Has(p); }
    }
  }

  /** Names may go away. */
  lemma FewerNames(t: Tree, t': Tree, devices: bool)
    requires forall p | p in t'.names :: SameName(t, t', p)
    ensures Restrained(t, t', devices)
  {
  }

  lemma MetadataKeepsNames(t: Tree, dst: Path, hdr: Header, target: Path)
    ensures ApplyMetadata(t, dst, hdr, target).tree.names == t.names
  {
    hide Locate, Lstat, Follow, View;
  }

  lemma RoomTakesNames(t: Tree, dst: Path, hdr: Header)
    ensures forall p | p in MakeRoom(t, dst, hdr).tree.names :: SameName(t, MakeRoom(t, dst, hdr).tree, p)
  {
  }

  lemma NodeAddsOneName(t: Tree, dst: Path, hdr: Header, target: Path)
    requires t.Valid() && dst != [] && OrdinaryPath(dst)
    ensures var t' := MakeNode(t, dst, hdr, target).tree;
      forall p | p in t'.names :: SameName(t, t', p) || (p != [] && Last(p) == Last(dst))
  {
    hide View, Lstat, Tree.Valid, DeviceInRange;
    LocateIsPlace(t, dst);
  }

  lemma FileIsRestrained(t: Tree, dst: Path, hdr: Header, devices: bool)
    requires t.Valid() && dst != [] && OrdinaryPath(dst) && !IsWhiteoutName(Last(dst))
    ensures Restrained(t, CreateTarFile(t, dst, hdr).tree, devices)
  {
    hide ApplyMetadata, MakeNode, ResolveHardlinkTarget;
    var target := if hdr.typeflag.TypeLink? then ResolveHardlinkTarget(t, hdr.linkname) else Errors.Found([]);
    if target.Found? {
      NodeAddsOneName(t, dst, hdr, target.value);
      MetadataKeepsNames(MakeNode(t, dst, hdr, target.value).tree, dst, hdr, target.value);
    }
  }

  lemma {:induction false} MakeAllIsRestrained(t: Tree, cur: Path, rest: Path, devices: bool)
    requires t.Valid() && OrdinaryPath(cur) && OrdinaryPath(rest)
    ensures Restrained(t, MakeAll(t, cur, rest).tree, devices)
    decreases |rest|
  {
    hide Create, Follow, Restrained, Tree.Valid;
    FewerNames(t, t, devices);
    if rest != [] {
      var next := cur + [rest[0]];
      assert Ordinary(rest[0]);
      forall n | n in next ensures Ordinary(n) {}
      forall n | n in rest[1..] ensures Ordinary(n) { assert n in rest; }
      CreateIsSafe(t, next, Dir, IMPLIED_DIRECTORY_MODE);
      match Create(t, next, Dir, IMPLIED_DIRECTORY_MODE)
      case Fine(t') =>
        DirIsRestrained(t, next, devices);
        MakeAllIsSafe(t', next, rest[1..]);
        MakeAllIsRestrained(t', next, rest[1..], devices);
        RestrainedTransitive(t, t', MakeAll(t', next, rest[1..]).tree, devices);
      case Bad(_, _) => MakeAllIsRestrained(t, next, rest[1..], devices);
    }
  }

  lemma DirIsRestrained(t: Tree, path: Path, devices: bool)
    requires t.Valid() && path != [] && OrdinaryPath(path)
    ensures Restrained(t, Create(t, path, Dir, IMPLIED_DIRECTORY_MODE).tree, devices)
  {
    CreateIsSafe(t, path, Dir, IMPLIED_DIRECTORY_MODE);
    LocateIsPlace(t, path);
  }

  lemma ImpliedIsRestrained(t: Tree, a: ArchivePath, devices: bool)
    requires t.Valid() && a.path != [] && OrdinaryPath(a.path)
    ensures Restrained(t, CreateImplied(t, a).tree, devices)
  {
    ParentIsOrdinary(a.path);
    MakeAllIsRestrained(t, [], Parent(a.path), devices);
  }

  // ----- layers -----

  lemma WhiteoutIsRestrained(s: LayerState, t: Tree, dst: Path)
    requires dst != [] && OrdinaryPath(dst) && IsWhiteoutName(Last(dst))
    ensures Restrained(t, ApplyWhiteout(s, t, dst).state.tree, false)
  {
    FewerNames(t, ApplyWhiteout(s, t, dst).state.tree, false);
  }

  lemma ApplyFileIsRestrained(s: LayerState, t: Tree, dst: Path, hdr: Header)
    requires t.Valid() && dst != [] && OrdinaryPath(dst) && !IsWhiteoutName(Last(dst))
    ensures Restrained(t, ApplyFile(s, t, dst, hdr).state.tree, false)
  {
    hide MakeRoom, CreateTarFile, Tree.Valid;
    MakeRoomMakesRoom(t, dst, hdr);
    RoomTakesNames(t, dst, hdr);
    var r := MakeRoom(t, dst, hdr);
    FewerNames(t, r.tree, false);
    if r.Fine? && !LinksIntoAufs(hdr) {
      FileIsRestrained(r.tree, dst, hdr, false);
      CreateTarFileIsSafe(r.tree, dst, hdr);
      RestrainedTransitive(t, r.tree, CreateTarFile(r.tree, dst, hdr).tree, false);
    }
  }

  lemma ApplyEntryIsRestrained(s: LayerState, hdr: Header)
    requires s.tree.Valid()
    ensures Restrained(s.tree, ApplyEntry(s, hdr).state.tree, false)
  {
    hide CreateImplied, ApplyFile, ApplyWhiteout, ResolveArchivePath, Tree.Valid;
    var name := EntryName(hdr);
    FewerNames(s.tree, s.tree, false);
    if name.Inside() && name.names != [] && !IsMetadata(name.names) && ResolveArchivePath(s.tree, name.names).Found? {
      var a := ResolveArchivePath(s.tree, name.names).value;
      CreateImpliedIsSafe(s.tree, a);
      ImpliedIsRestrained(s.tree, a, false);
      var r := CreateImplied(s.tree, a);
      if r.Fine? {
        if IsWhiteoutName(Last(a.path)) {
          WhiteoutIsRestrained(s, r.tree, a.path);
          ApplyWhiteoutIsSafe(s, r.tree, a.path);
        } else {
          ApplyFileIsRestrained(s, r.tree, a.path, hdr);
          ApplyFileIsSafe(s, r.tree, a.path, hdr);
        }
        RestrainedTransitive(s.tree, r.tree, ApplyEntry(s, hdr).state.tree, false);
      }
    }
  }

  lemma {:induction false} ApplyEntriesIsRestrained(s: LayerState, layer: seq<Header>)
    requires s.tree.Valid()
    ensures Restrained(s.tree, ApplyEntries(s, layer).state.tree, false)
    decreases |layer|
  {
    hide ApplyEntry, Tree.Valid, Restrained, KindsKept;
    if layer != [] {
      var prefix := layer[..|layer| - 1];
      ApplyEntriesIsRestrained(s, prefix);
      ApplyEntriesIsSafe(s, prefix);
      var r := ApplyEntries(s, prefix);
      if r.Going? {
        ApplyEntryIsRestrained(r.state, layer[|layer| - 1]);
        ApplyEntryIsSafe(r.state, layer[|layer| - 1]);
        RestrainedTransitive(s.tree, r.state.tree, ApplyEntries(s, layer).state.tree, false);
      }
    } else {
      FewerNames(s.tree, s.tree, false);
    }
  }

  lemma {:induction false} DirTimesKeepNames(t: Tree, dirs: seq<UnpackedDir>)
    ensures ApplyDirTimes(t, dirs).tree.names == t.names
    decreases |dirs|
  {
    if dirs != [] { DirTimesKeepNames(t, dirs[..|dirs| - 1]); }
  }

  /** After any layer a name that begins with the whiteout prefix is an old one, with
      its old inode, or that of a directory. */
  lemma LayersMakeNoWhiteoutFiles(t: Tree, layer: seq<Header>)
    requires t.Valid()
    ensures Restrained(t, ApplyLayer(t, layer).tree, false)
  {
    hide ApplyDirTimes, KindsKept;
    ApplyEntriesIsRestrained(NewLayer(t), layer);
    ApplyEntriesIsSafe(NewLayer(t), layer);
    var r := ApplyEntries(NewLayer(t), layer);
    if r.Going? {
      DirTimesKeepNames(r.state.tree, r.state.dirs);
      FewerNames(r.state.tree, ApplyLayer(t, layer).tree, false);
      ApplyDirTimesIsSafe(r.state.tree, r.state.dirs);
      RestrainedTransitive(t, r.state.tree, ApplyLayer(t, layer).tree, false);
    }
  }

  // ----- archives in overlay format -----

  lemma MadeWhiteoutIsRestrained(t: Tree, dir: Path, name: Name, hdr: Header)
    ensures Restrained(t, MakeWhiteout(t, dir, name, hdr).tree, true)
  {
    hide View, Follow;
  }

  lemma ConvertReadIsRestrained(t: Tree, dst: Path, hdr: Header)
    requires t.Valid() && dst != [] && OrdinaryPath(dst)
    ensures var r := ConvertRead(t, dst, hdr); r.Handled? ==> Restrained(t, r.done.tree, true)
    ensures ConvertRead(t, dst, hdr).WriteIt? ==> !IsWhiteoutName(Last(dst))
  {
    hide View, Follow, MakeWhiteout, Tree.Valid;
    if IsWhiteoutName(Last(dst)) {
      MadeWhiteoutIsRestrained(t, Parent(dst), Last(dst)[|WHITEOUT_PREFIX|..], hdr);
    }
  }

  lemma UntarEntryIsRestrained(opts: Options, s: UntarState, hdr: Header)
    requires s.tree.Valid() && opts.overlay
    ensures Restrained(s.tree, UntarEntry(opts, s, hdr).Tree(), true)
  {
    hide CreateImplied, CreateTarFile, ConvertRead, MakeRoom, ResolveArchivePath, Tree.Valid, Room, Restrained;
    var name, t := EntryName(hdr), s.tree;
    FewerNames(t, t, true);
    var read := !hdr.typeflag.TypeXGlobalHeader? && name.Inside() && name.names != [];
    if read && ResolveArchivePath(t, name.names).Found? {
      var a := ResolveArchivePath(t, name.names).value;
      MakeRoomMakesRoom(t, a.path, hdr);
      RoomTakesNames(t, a.path, hdr);
      var r1 := ReplaceTarget(opts, t, a.path, hdr);
      FewerNames(t, r1.tree, true);
      if r1.Fine? {
        CreateImpliedIsSafe(r1.tree, a);
        ImpliedIsRestrained(r1.tree, a, true);
        var r2 := CreateImplied(r1.tree, a);
        RestrainedTransitive(t, r1.tree, r2.tree, true);
        if r2.Fine? {
          if !hdr.typeflag.TypeDir? { RoomAfterImplied(t, name.names, hdr); }
          ConvertReadIsSafe(r2.tree, a.path, hdr);
          ConvertReadIsRestrained(r2.tree, a.path, hdr);
          CreateTarFileIsSafe(r2.tree, a.path, hdr);
          if !IsWhiteoutName(Last(a.path)) { FileIsRestrained(r2.tree, a.path, hdr, true); }
          RestrainedTransitive(t, r2.tree, UntarAt(opts, t, a, hdr).tree, true);
        }
      }
    }
  }

  lemma {:induction false} UntarEntriesIsRestrained(opts: Options, s: UntarState, archive: seq<Header>)
    requires s.tree.Valid() && opts.overlay
    ensures Restrained(s.tree, UntarEntries(opts, s, archive).Tree(), true)
    decreases |archive|
  {
    hide UntarEntry, Tree.Valid, Restrained, KindsKept;
    if archive != [] {
      var prefix := archive[..|archive| - 1];
      UntarEntriesIsRestrained(opts, s, prefix);
      UntarEntriesIsSafe(opts, s, prefix);
      var r := UntarEntries(opts, s, prefix);
      if r.Continues? {
        UntarEntryIsRestrained(opts, r.state, archive[|archive| - 1]);
        UntarEntryIsSafe(opts, r.state, archive[|archive| - 1]);
        RestrainedTransitive(s.tree, r.state.tree, UntarEntries(opts, s, archive).Tree(), true);
      }
    } else {
      FewerNames(s.tree, s.tree, true);
    }
  }

  /** The same after any archive that is unpacked in overlay format, where whiteouts
      may come to exist as well. */
  lemma ArchivesMakeNoWhiteoutFiles(opts: Options, t: Tree, archive: seq<Header>)
    requires t.Valid() && opts.overlay
    ensures Restrained(t, UntarAll(opts, t, archive).tree, true)
  {
    hide ApplyDirTimes, KindsKept;
    UntarEntriesIsRestrained(opts, UntarState(t, []), archive);
    UntarEntriesIsSafe(opts, UntarState(t, []), archive);
    var r := UntarEntries(opts, UntarState(t, []), archive);
    if r.Continues? {
      DirTimesKeepNames(r.state.tree, r.state.dirs);
      FewerNames(r.state.tree, UntarAll(opts, t, archive).tree, true);
      ApplyDirTimesIsSafe(r.state.tree, r.state.dirs);
      RestrainedTransitive(t, r.state.tree, UntarAll(opts, t, archive).tree, true);
    }
  }
}
