/** What every step of an extraction keeps, whatever the layer contains and also
    when it fails half-way: the tree stays a tree, and no inode that exists has
    its bytes changed.  The second is copy on write: a name that the layer
    replaces gets a new inode, so other names of the old one still see the old
    file. */
module Preservation {
  import opened Names
  import opened Errors
  import opened Trees
  import opened Headers
  import opened Resolver
  import opened RootFs
  import opened Extract

  /** The kind of an inode includes the bytes of a regular file and the target
      of a link. */
  ghost predicate KindsKept(t: Tree, t': Tree) {
    forall i | i in t.inodes :: i in t'.inodes && t'.inodes[i].kind == t.inodes[i].kind
  }

  ghost predicate Safe(t: Tree, t': Tree) {
    t'.Valid() && t.next <= t'.next && t'.now == t.now && KindsKept(t, t')
  }

  /** A path found by `Locate` is a place in a directory of the tree. */
  lemma LocateIsPlace(t: Tree, path: Path)
    requires t.Valid() && path != [] && OrdinaryPath(path)
    ensures Locate(t, path).Found? ==>
      var loc := Locate(t, path).value;
      loc != [] && t.IsDir(Parent(loc)) && Last(loc) == Last(path) && Ordinary(Last(loc)) && OrdinaryPath(loc)
  {
    ParentIsOrdinary(path);
    WalkResolves(View(t), OS_ROOT, START, Parent(path), true);
    WalkReaches(View(t), START, Parent(path), true);
    match Locate(t, path)
    case Missing(_) =>
    case Found(loc) => ParentOf(Parent(loc), Last(path));
  }

  /** What `os.Root` reaches exists. */
  lemma {:induction false} WalkReaches(g: Graph, s: State, parts: seq<string>, more: bool)
    requires s.links <= OS_ROOT.budget
    requires forall q | q <= s.at && q != [] :: q in g
    ensures var o := Walk(g, OS_ROOT, s, parts, more);
      o.Ok? ==> forall q | q <= o.state.at && q != [] :: q in g
    decreases OS_ROOT.budget - s.links, |parts|
  {
    if parts != [] {
      var part := parts[0];
      var more' := more || |parts| > 1;
      var candidate := s.at + [part];
      if part !in ["", ".", ".."] && candidate in g && g[candidate].Link? && s.links < OS_ROOT.budget {
        WalkReaches(g, Enter(s, g[candidate].target), Split(g[candidate].target), more');
      }
      match Step(g, OS_ROOT, s, part, more')
      case Err(_) =>
      case Ok(s') =>
        if part == ".." {
          forall q | q <= s'.at && q != [] ensures q in g { PrefixTransitive(q, s'.at, s.at); }
        } else if candidate in g && s'.at == candidate {
          forall q | q <= candidate && q != [] ensures q in g {
            if q != candidate { ParentOf(s.at, part); BelowParent(q, candidate); }
          }
        }
        WalkReaches(g, s', parts[1..], more);
    }
  }

  // ----- the elementary changes -----

  lemma SafeTransitive(t: Tree, t': Tree, t'': Tree)
    requires Safe(t, t') && Safe(t', t'')
    ensures Safe(t, t'')
  {
  }

  /** Changes of metadata and removals: the names that are left keep their
      inodes, and each of them keeps its parent. */
  ghost predicate Smaller(t: Tree, t': Tree) {
    && t'.next == t.next && t'.now == t.now
    && t'.inodes.Keys == t.inodes.Keys
    && (forall i | i in t.inodes :: SameNature(t.inodes[i], t'.inodes[i]))
    && [] in t'.names
    && (forall p | p in t'.names :: p in t.names && t'.names[p] == t.names[p])
    && (forall p {:trigger Parent(p)} | p in t'.names && p != [] :: Parent(p) in t'.names)
  }

  ghost predicate SameNature(a: Inode, b: Inode) {
    a.kind == b.kind && (BareLink(a) ==> BareLink(b))
  }

  lemma SmallerIsSafe(t: Tree, t': Tree)
    requires t.Valid() && Smaller(t, t')
    ensures Safe(t, t')
  {
    assert forall i | i in t'.inodes :: SameNature(t.inodes[i], t'.inodes[i]);
    assert t'.Numbered() by {
      forall p | p in t'.names ensures t'.Has(p) { assert t.Has(p); }
    }
    assert t'.Nested() by {
      forall p | p in t'.names && p != [] ensures t'.IsDir(Parent(p)) && Ordinary(Last(p)) {
        assert t.IsDir(Parent(p)) && Parent(p) in t'.names;
      }
    }
    assert t'.Unaliased() by {
      forall p, q | t'.IsDir(p) && q in t'.names && t'.names[p] == t'.names[q] ensures p == q {
        assert t.IsDir(p) && t.names[q] == t.names[p];
      }
    }
  }

  lemma SetInodeIsSafe(t: Tree, loc: Path, node: Inode)
    requires t.Valid() && t.Has(loc) && node.kind == t.At(loc).kind
    requires BareLink(node)
    ensures Safe(t, SetInode(t, loc, node))
  {
    SmallerIsSafe(t, SetInode(t, loc, node));
  }

  lemma TouchIsSafe(t: Tree, loc: Path)
    requires t.Valid()
    ensures Safe(t, Touch(t, loc)) && Touch(t, loc).names == t.names
  {
    if loc != [] && t.Has(Parent(loc)) {
      var node := t.At(Parent(loc));
      SetInodeIsSafe(t, Parent(loc), node.(mtime := t.now));
    }
  }

  /** A new name for an inode that is new itself or is no directory. */
  lemma AddNameIsSafe(t: Tree, loc: Path, i: Ino, node: Inode, t': Tree)
    requires t.Valid() && loc != [] && loc !in t.names && t.IsDir(Parent(loc)) && Ordinary(Last(loc))
    requires BareLink(node)
    requires t'.names == t.names[loc := i] && t'.now == t.now && t'.inodes == t.inodes[i := node]
    requires (i == t.next && t'.next == t.next + 1)
      || (i in t.inodes && t.inodes[i] == node && t'.next == t.next && !node.kind.Dir?)
    ensures Safe(t, t')
  {
    assert i == t.next ==> i !in t.inodes;
    assert forall j | j in t.inodes :: t'.inodes[j] == t.inodes[j];
    assert t'.Numbered() by {
      forall p | p in t'.names ensures t'.Has(p) { if p != loc { assert t.Has(p); } }
    }
    assert t'.Nested() by {
      forall p | p in t'.names && p != [] ensures t'.IsDir(Parent(p)) && Ordinary(Last(p)) {
        assert t.IsDir(Parent(p));
      }
    }
    assert t'.Unaliased() by {
      forall p, q | t'.IsDir(p) && q in t'.names && t'.names[p] == t'.names[q] ensures p == q {
        if p != loc { assert t.Has(p) && t.IsDir(p); }
        if q != loc { assert t.Has(q) && t.names[q] == t'.names[q]; }
      }
    }
  }

  lemma CreateAtIsSafe(t: Tree, loc: Path, kind: Kind, perm: Perm)
    requires t.Valid() && loc != [] && loc !in t.names && t.IsDir(Parent(loc)) && Ordinary(Last(loc))
    requires kind.Symlink? ==> perm == SYMLINK_PERM
    ensures Safe(t, CreateAt(t, loc, kind, perm))
  {
    hide Tree.Numbered, Tree.Nested, Tree.Unaliased, Tree.LinksAreBare;
    var node := Fresh(t, kind, perm);
    var made := Tree(t.names[loc := t.next], t.inodes[t.next := node], t.next + 1, t.now);
    AddNameIsSafe(t, loc, t.next, node, made);
    TouchIsSafe(made, loc);
    SafeTransitive(t, made, Touch(made, loc));
  }

  lemma RemoveAtIsSafe(t: Tree, loc: Path)
    requires t.Valid() && loc != []
    ensures Safe(t, RemoveAt(t, loc))
  {
    if loc in t.names {
      var t' := RemoveAt(t, loc);
      assert t'.names == Without(t.names, loc);
      forall p | p in t'.names && p != [] ensures Parent(p) in t'.names {
        assert t.IsDir(Parent(p));
        if loc <= Parent(p) { PrefixTransitive(loc, Parent(p), p); }
      }
      assert [] in t'.names;
      SmallerIsSafe(t, t');
    }
  }

  lemma PruneIsSafe(t: Tree, gone: set<Path>)
    requires t.Valid() && [] !in gone
    requires forall p {:trigger Parent(p)} | p in t.names && p != [] && Parent(p) in gone :: p in gone
    ensures Safe(t, Prune(t, gone))
  {
    var t' := Prune(t, gone);
    forall p | p in t'.names && p != [] ensures Parent(p) in t'.names {
      assert t.IsDir(Parent(p));
    }
    SmallerIsSafe(t, t');
  }

  // ----- the operations -----

  lemma CreateIsSafe(t: Tree, path: Path, kind: Kind, perm: Perm)
    requires t.Valid() && path != [] && OrdinaryPath(path) && (kind.Symlink? ==> perm == SYMLINK_PERM)
    ensures Safe(t, Create(t, path, kind, perm).tree)
  {
    LocateIsPlace(t, path);
    match Locate(t, path)
    case Missing(_) =>
    case Found(loc) => if loc !in t.names { CreateAtIsSafe(t, loc, kind, perm); }
  }

  lemma RemoveAllIsSafe(t: Tree, path: Path)
    requires t.Valid() && OrdinaryPath(path)
    ensures Safe(t, RemoveAll(t, path).tree)
  {
    if path != [] {
      LocateIsPlace(t, path);
      match Locate(t, path)
      case Missing(_) =>
      case Found(loc) => RemoveAtIsSafe(t, loc);
    }
  }

  lemma LinkToIsSafe(t: Tree, target: Path, path: Path)
    requires t.Valid() && path != [] && OrdinaryPath(path)
    ensures Safe(t, LinkTo(t, target, path).tree)
  {
    LocateIsPlace(t, path);
    if LinkTo(t, target, path).Fine? {
      var source, loc := Locate(t, target).value, Locate(t, path).value;
      var made := t.(names := t.names[loc := t.names[source]]);
      AddNameIsSafe(t, loc, t.names[source], t.At(source), made);
      assert t.inodes[t.names[source] := t.At(source)] == t.inodes;
      TouchIsSafe(made, loc);
      SafeTransitive(t, made, Touch(made, loc));
    }
  }

  /** Writing is safe where nothing exists. */
  lemma WriteFileIsSafe(t: Tree, path: Path, data: string, perm: Perm)
    requires t.Valid() && path != [] && OrdinaryPath(path)
    requires Locate(t, path).Found? ==> Locate(t, path).value !in t.names
    ensures Safe(t, WriteFile(t, path, data, perm).tree)
  {
    LocateIsPlace(t, path);
    match Locate(t, path)
    case Missing(_) =>
    case Found(loc) => CreateAtIsSafe(t, loc, Reg(data), perm);
  }

  lemma MetadataIsSafe(t: Tree, dst: Path, hdr: Header, target: Path)
    requires t.Valid() && OrdinaryPath(dst)
    ensures Safe(t, ApplyMetadata(t, dst, hdr, target).tree)
  {
    var r1 := Lchown(t, dst, hdr.uid, hdr.gid);
    if r1.Fine? {
      var node := t.At(Locate(t, dst).value);
      SetInodeIsSafe(t, Locate(t, dst).value,
        node.(uid := hdr.uid, gid := hdr.gid, caps := if node.kind.Dir? then node.caps else ""));
      assert Safe(t, r1.tree);
      CapsAreSafe(r1.tree, dst, hdr);
      var r2 := ApplyCaps(r1.tree, dst, hdr);
      SafeTransitive(t, r1.tree, r2.tree);
      if r2.Fine? {
        ModeIsSafe(r2.tree, dst, hdr, target);
        var r3 := ApplyMode(r2.tree, dst, hdr, target);
        SafeTransitive(t, r2.tree, r3.tree);
        if r3.Fine? {
          TimesAreSafe(r3.tree, dst, hdr, target);
          SafeTransitive(t, r3.tree, ApplyTimes(r3.tree, dst, hdr, target).tree);
        }
      }
    }
  }

  lemma ResolvedIsNoLink(t: Tree, path: Path)
    requires t.Valid() && OrdinaryPath(path)
    ensures var r := Resolve(View(t), path); r.Success? && t.Has(r.path) ==> !t.At(r.path).kind.Symlink?
  {
    WalkResolves(View(t), CHROOT, START, path, false);
  }

  lemma CapsAreSafe(t: Tree, dst: Path, hdr: Header)
    requires t.Valid() && OrdinaryPath(dst)
    ensures Safe(t, ApplyCaps(t, dst, hdr).tree)
  {
    if hdr.caps != "" && SetCaps(t, dst, hdr.caps).Fine? {
      ResolvedIsNoLink(t, dst);
      var loc := Resolve(View(t), dst).path;
      SetInodeIsSafe(t, loc, t.At(loc).(caps := hdr.caps));
    }
  }

  lemma ModeIsSafe(t: Tree, dst: Path, hdr: Header, target: Path)
    requires t.Valid()
    ensures Safe(t, ApplyMode(t, dst, hdr, target).tree)
  {
    if Chmod(t, dst, hdr.perm).Fine? {
      var loc := Locate(t, dst).value;
      SetInodeIsSafe(t, loc, t.At(loc).(perm := hdr.perm));
    }
  }

  lemma ChtimesIsSafe(t: Tree, path: Path, mtime: Time)
    requires t.Valid()
    ensures Safe(t, Chtimes(t, path, mtime).tree)
  {
    if Chtimes(t, path, mtime).Fine? {
      var loc := Follow(t, path).value;
      SetInodeIsSafe(t, loc, t.At(loc).(mtime := mtime));
    }
  }

  lemma TimesAreSafe(t: Tree, dst: Path, hdr: Header, target: Path)
    requires t.Valid()
    ensures Safe(t, ApplyTimes(t, dst, hdr, target).tree)
  {
    var mtime := BoundTime(hdr.modTime);
    ChtimesIsSafe(t, dst, mtime);
    if Lchtimes(t, dst, mtime).Fine? {
      var loc := Locate(t, dst).value;
      SetInodeIsSafe(t, loc, t.At(loc).(mtime := mtime));
    }
  }

  // ----- entries and layers -----

  lemma {:induction false} MakeAllIsSafe(t: Tree, cur: Path, rest: Path)
    requires t.Valid() && OrdinaryPath(cur) && OrdinaryPath(rest)
    ensures Safe(t, MakeAll(t, cur, rest).tree)
    decreases |rest|
  {
    if rest != [] {
      var next := cur + [rest[0]];
      assert Ordinary(rest[0]);
      forall n | n in next ensures Ordinary(n) {}
      forall n | n in rest[1..] ensures Ordinary(n) { assert n in rest; }
      CreateIsSafe(t, next, Dir, IMPLIED_DIRECTORY_MODE);
      match Create(t, next, Dir, IMPLIED_DIRECTORY_MODE)
      case Fine(t') => MakeAllIsSafe(t', next, rest[1..]); SafeTransitive(t, t', MakeAll(t, cur, rest).tree);
      case Bad(_, _) => MakeAllIsSafe(t, next, rest[1..]);
    }
  }

  lemma CreateImpliedIsSafe(t: Tree, a: ArchivePath)
    requires t.Valid() && a.path != [] && OrdinaryPath(a.path)
    ensures Safe(t, CreateImplied(t, a).tree)
  {
    ParentIsOrdinary(a.path);
    MakeAllIsSafe(t, [], Parent(a.path));
  }

  /** Nothing is left where a file is about to be written. */
  ghost predicate Room(t: Tree, dst: Path) {
    Locate(t, dst).Found? ==> Locate(t, dst).value !in t.names
  }

  /** The graph only loses names. */
  ghost predicate Subgraph(h: Graph, g: Graph) {
    forall p | p in h :: p in g && g[p] == h[p]
  }

  lemma TouchKeepsNames(t: Tree, loc: Path)
    requires t.Valid() && loc in t.names && loc != []
    ensures RemoveAt(t, loc).names == Without(t.names, loc)
    ensures forall p | p in RemoveAt(t, loc).names ::
      RemoveAt(t, loc).Has(p) && RemoveAt(t, loc).At(p).kind == t.At(p).kind
  {
  }

  lemma RemovalShrinksView(t: Tree, loc: Path)
    requires t.Valid() && loc in t.names && loc != []
    ensures Subgraph(View(RemoveAt(t, loc)), View(t))
  {
    hide RemoveAt;
    TouchKeepsNames(t, loc);
    forall p | p in RemoveAt(t, loc).names ensures p in t.names && EntryOf(t, p) == EntryOf(RemoveAt(t, loc), p) {
      assert t.Has(p);
    }
  }

  lemma RoomShrinksView(t: Tree, dst: Path, hdr: Header)
    requires t.Valid() && dst != [] && OrdinaryPath(dst)
    ensures Subgraph(View(MakeRoom(t, dst, hdr).tree), View(t))
  {
    hide View, RemoveAt;
    LocateIsPlace(t, dst);
    if Lstat(t, dst).Found? && RemoveAll(t, dst).Fine? {
      RemovalShrinksView(t, Locate(t, dst).value);
    }
  }

  /** Removing the target may make its parent unreachable, when the way there
      led through the target; it never makes it lead elsewhere. */
  lemma MakeRoomMakesRoom(t: Tree, dst: Path, hdr: Header)
    requires t.Valid() && dst != [] && OrdinaryPath(dst)
    ensures var r := MakeRoom(t, dst, hdr);
      Safe(t, r.tree) && (r.Fine? && !hdr.typeflag.TypeDir? ==> Room(r.tree, dst))
  {
    hide View, RemoveAt, Walk, Tree.Nested, Tree.Unaliased, Tree.LinksAreBare;
    RemoveAllIsSafe(t, dst);
    LocateIsPlace(t, dst);
    if Lstat(t, dst).Found? && RemoveAll(t, dst).Fine? {
      var loc := Locate(t, dst).value;
      var t' := RemoveAll(t, dst).tree;
      assert t' == RemoveAt(t, loc) && loc in t.names;
      TouchKeepsNames(t, loc);
      RemovalShrinksView(t, loc);
      WalkInSubgraph(View(t), View(t'), START, Parent(dst), true);
    }
  }

  lemma MakeNodeIsSafe(t: Tree, dst: Path, hdr: Header, target: Path)
    requires t.Valid() && dst != [] && OrdinaryPath(dst)
    requires hdr.typeflag.TypeReg? ==> Room(t, dst)
    ensures Safe(t, MakeNode(t, dst, hdr, target).tree)
  {
    match hdr.typeflag
    case TypeDir => CreateIsSafe(t, dst, Dir, hdr.perm);
    case TypeReg => WriteFileIsSafe(t, dst, hdr.data, hdr.perm);
    case TypeBlock => if DeviceInRange(hdr) { CreateIsSafe(t, dst, Block(hdr.devmajor, hdr.devminor), hdr.perm); }
    case TypeChar => if DeviceInRange(hdr) { CreateIsSafe(t, dst, Char(hdr.devmajor, hdr.devminor), hdr.perm); }
    case TypeFifo => CreateIsSafe(t, dst, Fifo, hdr.perm);
    case TypeLink => LinkToIsSafe(t, target, dst);
    case TypeSymlink => CreateIsSafe(t, dst, Symlink(hdr.linkname), SYMLINK_PERM);
    case TypeXGlobalHeader =>
    case TypeOther =>
  }

  lemma CreateTarFileIsSafe(t: Tree, dst: Path, hdr: Header)
    requires t.Valid() && dst != [] && OrdinaryPath(dst)
    requires hdr.typeflag.TypeReg? ==> Room(t, dst)
    ensures Safe(t, CreateTarFile(t, dst, hdr).tree)
  {
    var target := if hdr.typeflag.TypeLink? then ResolveHardlinkTarget(t, hdr.linkname) else Found([]);
    if target.Found? {
      MakeNodeIsSafe(t, dst, hdr, target.value);
      var r := MakeNode(t, dst, hdr, target.value);
      if r.Fine? && !hdr.typeflag.TypeXGlobalHeader? {
        MetadataIsSafe(r.tree, dst, hdr, target.value);
        SafeTransitive(t, r.tree, ApplyMetadata(r.tree, dst, hdr, target.value).tree);
      }
    }
  }

  lemma ApplyOpaqueIsSafe(t: Tree, dir: Path, unpacked: set<Path>)
    requires t.Valid()
    ensures Safe(t, ApplyOpaque(t, dir, unpacked).tree)
  {
    var r := Resolve(View(t), dir);
    if r.Success? && t.IsDir(r.path) {
      var gone := Unlisted(t, r.path, unpacked);
      forall p | p in t.names && p != [] && Parent(p) in gone ensures p in gone {
        PrefixTransitive(r.path, Parent(p), p);
        var k :| |r.path| < k <= |Parent(p)| && Parent(p)[..k] !in unpacked;
        assert p[..k] == Parent(p)[..k];
      }
      PruneIsSafe(t, gone);
    }
  }

  lemma ApplyFileIsSafe(s: LayerState, t: Tree, dst: Path, hdr: Header)
    requires t.Valid() && dst != [] && OrdinaryPath(dst)
    ensures Safe(t, ApplyFile(s, t, dst, hdr).state.tree)
  {
    MakeRoomMakesRoom(t, dst, hdr);
    var r := MakeRoom(t, dst, hdr);
    if r.Fine? && !LinksIntoAufs(hdr) {
      CreateTarFileIsSafe(r.tree, dst, hdr);
      SafeTransitive(t, r.tree, CreateTarFile(r.tree, dst, hdr).tree);
    }
  }

  lemma ApplyWhiteoutIsSafe(s: LayerState, t: Tree, dst: Path)
    requires t.Valid() && dst != [] && OrdinaryPath(dst) && IsWhiteoutName(Last(dst))
    ensures Safe(t, ApplyWhiteout(s, t, dst).state.tree)
  {
    ParentIsOrdinary(dst);
    if Last(dst) == WHITEOUT_OPAQUE_DIR {
      ApplyOpaqueIsSafe(t, Parent(dst), s.unpacked);
    } else {
      var c := JoinClean(Parent(dst), Last(dst)[|WHITEOUT_PREFIX|..]);
      if c.ups == 0 { RemoveAllIsSafe(t, c.names); }
    }
  }

  lemma ApplyEntryIsSafe(s: LayerState, hdr: Header)
    requires s.tree.Valid()
    ensures Safe(s.tree, ApplyEntry(s, hdr).state.tree)
  {
    var name := EntryName(hdr);
    if name.Inside() && name.names != [] && !IsMetadata(name.names) && ResolveArchivePath(s.tree, name.names).Found? {
      var a := ResolveArchivePath(s.tree, name.names).value;
      CreateImpliedIsSafe(s.tree, a);
      var r := CreateImplied(s.tree, a);
      if r.Fine? {
        if IsWhiteoutName(Last(a.path)) {
          ApplyWhiteoutIsSafe(s, r.tree, a.path);
        } else {
          ApplyFileIsSafe(s, r.tree, a.path, hdr);
        }
        SafeTransitive(s.tree, r.tree, ApplyEntry(s, hdr).state.tree);
      }
    }
  }

  lemma {:induction false} ApplyEntriesIsSafe(s: LayerState, layer: seq<Header>)
    requires s.tree.Valid()
    ensures Safe(s.tree, ApplyEntries(s, layer).state.tree)
    decreases |layer|
  {
    if layer != [] {
      var prefix := layer[..|layer| - 1];
      ApplyEntriesIsSafe(s, prefix);
      var r := ApplyEntries(s, prefix);
      if r.Going? {
        ApplyEntryIsSafe(r.state, layer[|layer| - 1]);
        SafeTransitive(s.tree, r.state.tree, ApplyEntries(s, layer).state.tree);
      }
    }
  }

  lemma {:induction false} ApplyDirTimesIsSafe(t: Tree, dirs: seq<UnpackedDir>)
    requires t.Valid()
    ensures Safe(t, ApplyDirTimes(t, dirs).tree)
    decreases |dirs|
  {
    if dirs != [] {
      ApplyDirTimesIsSafe(t, dirs[..|dirs| - 1]);
      var r := ApplyDirTimes(t, dirs[..|dirs| - 1]);
      if r.Fine? {
        var d := dirs[|dirs| - 1];
        ChtimesIsSafe(r.tree, d.name, d.mtime);
        SafeTransitive(t, r.tree, ApplyDirTimes(t, dirs).tree);
      }
    }
  }

  /** No layer, well formed or not, changes the bytes of an inode that existed
      before, and whether or not it succeeds it leaves a tree behind. */
  lemma LayersCopyOnWrite(t: Tree, layer: seq<Header>)
    requires t.Valid()
    ensures Safe(t, ApplyLayer(t, layer).tree)
  {
    ApplyEntriesIsSafe(NewLayer(t), layer);
    var r := ApplyEntries(NewLayer(t), layer);
    if r.Going? {
      ApplyDirTimesIsSafe(r.state.tree, r.state.dirs);
      SafeTransitive(t, r.state.tree, ApplyLayer(t, layer).tree);
    }
  }
}
