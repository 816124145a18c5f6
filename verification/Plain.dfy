/** Extraction at places whose parent is a directory of the tree, which is where
    well-formed layers put everything: no link is followed, and each operation
    does to the tree what its name says. */
module Plain {
  import opened Names
  import opened Errors
  import opened Trees
  import opened Headers
  import opened Resolver
  import opened RootFs
  import opened Extract
  import opened Preservation

  predicate InDir(t: Tree, p: Path) {
    p != [] && t.IsDir(Parent(p)) && Ordinary(Last(p))
  }

  lemma ResolvedDir(t: Tree, d: Path)
    requires t.Valid() && d in t.names && !t.At(d).kind.Symlink?
    ensures Resolved(View(t), d)
    ensures forall q | q <= d :: q in View(t)
    ensures t.IsDir(d) ==> View(t)[d].Directory?
  {
    NamesAreOrdinary(t, d);
    forall q | Below(q, d) ensures q in View(t) && View(t)[q].Directory? {
      AncestorsAreDirs(t, q, d);
    }
  }

  /** A path in a directory is its own place. */
  lemma LocatePlain(t: Tree, p: Path)
    requires t.Valid() && InDir(t, p)
    ensures Locate(t, p) == Found(p) && OrdinaryPath(p)
  {
    var parent := Parent(p);
    ResolvedDir(t, parent);
    assert [] + parent == parent;
    WalkPlain(View(t), OS_ROOT, START, parent, true);
    ParentAndLast(p);
    forall n | n in p ensures Ordinary(n) { assert n in parent + [Last(p)]; }
  }

  /** Following a name that is no link ends at that name. */
  lemma FollowPlain(t: Tree, p: Path)
    requires t.Valid() && p in t.names && !t.At(p).kind.Symlink?
    ensures Follow(t, p) == Found(p) && Resolve(View(t), p) == Success(p, false, false)
  {
    ResolvedDir(t, p);
    assert [] + p == p;
    WalkPlain(View(t), OS_ROOT, START, p, false);
    WalkPlain(View(t), CHROOT, START, p, false);
  }

  /** An entry below a directory of the tree is written where its name says. */
  lemma ArchivePathPlain(t: Tree, p: Path)
    requires t.Valid() && InDir(t, p)
    ensures OrdinaryPath(p) && ResolveArchivePath(t, p) == Found(ArchivePath(p, true))
    ensures CreateImplied(t, ArchivePath(p, true)) == Fine(t)
  {
    LocatePlain(t, p);
    FollowPlain(t, Parent(p));
  }

  lemma HardlinkTargetPlain(t: Tree, p: Path)
    requires t.Valid() && p != [] && p in t.names
    ensures ResolveHardlinkTarget(t, Join(p)) == Found(p)
  {
    assert t.IsDir(Parent(p));
    ArchivePathPlain(t, p);
    EntryNameReadsBack(p);
  }

  lemma RemoveAllPlain(t: Tree, p: Path)
    requires t.Valid() && InDir(t, p)
    ensures RemoveAll(t, p) == Fine(RemoveAt(t, p))
    ensures var t' := RemoveAt(t, p);
      t'.Valid() && InDir(t', p) && t'.names == Without(t.names, p)
  {
    LocatePlain(t, p);
    RemoveAtIsSafe(t, p);
    var t' := RemoveAt(t, p);
    assert !(p <= Parent(p));
    if p !in t.names {
      forall q | q in t.names && p <= q ensures false {
        if p != q { AncestorsAreDirs(t, p, q); }
      }
      assert Without(t.names, p) == t.names;
    }
    assert Parent(p) in t'.names && t'.Has(Parent(p));
  }

  // ----- metadata -----

  /** The node after ownership, attributes, mode and times of a header have been
      applied to it. */
  function WithMetadata(node: Inode, hdr: Header): Inode {
    node.(
      uid := hdr.uid, gid := hdr.gid,
      caps := if hdr.caps != "" then hdr.caps else if node.kind.Dir? then node.caps else "",
      perm := if node.kind.Symlink? then node.perm else hdr.perm,
      mtime := if node.kind.Symlink? && hdr.typeflag.TypeLink? then node.mtime else BoundTime(hdr.modTime))
  }

  lemma OwnerPlain(t: Tree, p: Path, hdr: Header)
    requires t.Valid() && p in t.names && p != []
    ensures var node := t.At(p);
      var t' := SetInode(t, p, node.(uid := hdr.uid, gid := hdr.gid, caps := if node.kind.Dir? then node.caps else ""));
      Lchown(t, p, hdr.uid, hdr.gid) == Fine(t') && t'.Valid()
  {
    assert t.IsDir(Parent(p));
    LocatePlain(t, p);
    var node := t.At(p);
    SetInodeIsSafe(t, p, node.(uid := hdr.uid, gid := hdr.gid, caps := if node.kind.Dir? then node.caps else ""));
  }

  lemma CapsPlain(t: Tree, p: Path, hdr: Header)
    requires t.Valid() && p in t.names && p != []
    requires t.At(p).kind.Symlink? ==> hdr.caps == ""
    ensures var t' := if hdr.caps == "" then t else SetInode(t, p, t.At(p).(caps := hdr.caps));
      ApplyCaps(t, p, hdr) == Fine(t') && t'.Valid()
  {
    if hdr.caps != "" {
      FollowPlain(t, p);
      SetInodeIsSafe(t, p, t.At(p).(caps := hdr.caps));
    }
  }

  /** A header fits a node: link entries name their own inode, link nodes come
      from link headers. */
  ghost predicate Fits(t: Tree, p: Path, hdr: Header, target: Path) {
    && t.Has(p) && p != []
    && (hdr.typeflag.TypeLink? ==> target != [] && target in t.names && t.names[target] == t.names[p])
    && (hdr.typeflag.TypeSymlink? ==> t.At(p).kind.Symlink?)
    && (t.At(p).kind.Symlink? ==> hdr.caps == "" && (hdr.typeflag.TypeSymlink? || hdr.typeflag.TypeLink?))
  }

  lemma LstatPlain(t: Tree, p: Path)
    requires t.Valid() && p in t.names && p != []
    ensures Lstat(t, p) == Found(t.At(p)) && Locate(t, p) == Found(p)
  {
    assert t.IsDir(Parent(p));
    LocatePlain(t, p);
  }

  lemma ModePlain(t: Tree, p: Path, hdr: Header, target: Path)
    requires t.Valid() && Fits(t, p, hdr, target)
    ensures var t' := if t.At(p).kind.Symlink? then t else SetInode(t, p, t.At(p).(perm := hdr.perm));
      ApplyMode(t, p, hdr, target) == Fine(t') && t'.Valid()
  {
    LstatPlain(t, p);
    if hdr.typeflag.TypeLink? { LstatPlain(t, target); }
    if !t.At(p).kind.Symlink? { SetInodeIsSafe(t, p, t.At(p).(perm := hdr.perm)); }
  }

  lemma TimesPlain(t: Tree, p: Path, hdr: Header, target: Path)
    requires t.Valid() && Fits(t, p, hdr, target)
    ensures var t' :=
        if t.At(p).kind.Symlink? && hdr.typeflag.TypeLink? then t
        else SetInode(t, p, t.At(p).(mtime := BoundTime(hdr.modTime)));
      ApplyTimes(t, p, hdr, target) == Fine(t') && t'.Valid()
  {
    LstatPlain(t, p);
    if hdr.typeflag.TypeLink? { LstatPlain(t, target); }
    SetInodeIsSafe(t, p, t.At(p).(mtime := BoundTime(hdr.modTime)));
    if !t.At(p).kind.Symlink? { FollowPlain(t, p); }
  }

  lemma SetTwice(t: Tree, p: Path, a: Inode, b: Inode)
    requires p in t.names
    ensures SetInode(SetInode(t, p, a), p, b) == SetInode(t, p, b)
    ensures SetInode(t, p, a).Has(p) && SetInode(t, p, a).At(p) == a
  {
  }

  lemma SetSame(t: Tree, p: Path)
    requires t.Has(p)
    ensures SetInode(t, p, t.At(p)) == t
  {
  }

  lemma MetadataInSteps(t: Tree, p: Path, hdr: Header, target: Path, t1: Tree, t2: Tree, t3: Tree, t4: Tree)
    requires Lchown(t, p, hdr.uid, hdr.gid) == Fine(t1) && ApplyCaps(t1, p, hdr) == Fine(t2)
    requires ApplyMode(t2, p, hdr, target) == Fine(t3) && ApplyTimes(t3, p, hdr, target) == Fine(t4)
    ensures ApplyMetadata(t, p, hdr, target) == Fine(t4)
  {
  }

  lemma MetadataPlain(t: Tree, p: Path, hdr: Header, target: Path)
    requires t.Valid() && Fits(t, p, hdr, target)
    ensures var t' := SetInode(t, p, WithMetadata(t.At(p), hdr));
      ApplyMetadata(t, p, hdr, target) == Fine(t') && t'.Valid()
  {
    var n0 := t.At(p);
    var n1 := n0.(uid := hdr.uid, gid := hdr.gid, caps := if n0.kind.Dir? then n0.caps else "");
    var n2 := if hdr.caps == "" then n1 else n1.(caps := hdr.caps);
    var n3 := if n0.kind.Symlink? then n2 else n2.(perm := hdr.perm);
    var n4 := if n0.kind.Symlink? && hdr.typeflag.TypeLink? then n3 else n3.(mtime := BoundTime(hdr.modTime));
    var t1, t2, t3 := SetInode(t, p, n1), SetInode(t, p, n2), SetInode(t, p, n3);
    OwnerPlain(t, p, hdr);
    SetTwice(t, p, n1, n2);
    CapsPlain(t1, p, hdr);
    SetTwice(t, p, n2, n3);
    ModePlain(t2, p, hdr, target);
    SetTwice(t, p, n3, n4);
    TimesPlain(t3, p, hdr, target);
    MetadataInSteps(t, p, hdr, target, t1, t2, t3, SetInode(t, p, n4));
    assert n4 == WithMetadata(n0, hdr);
  }

  // ----- one entry -----

  predicate SameButTime(a: Inode, b: Inode) {
    b == a || (a.kind.Dir? && b == a.(mtime := b.mtime))
  }

  /** The name `p` now leads to inode `i`, which holds `node`.  Unless a
      directory was merged, what was at `p` and below it is gone.  Other inodes
      are as before, but for the times of directories. */
  ghost predicate Placed(t: Tree, t': Tree, p: Path, i: Ino, node: Inode, merged: bool) {
    && t'.Valid() && t'.now == t.now && t.next <= t'.next
    && t'.names == (if merged then t.names else Without(t.names, p))[p := i]
    && (i in t.inodes || (i == t.next && t'.next == t.next + 1))
    && t'.inodes.Keys == t.inodes.Keys + {i}
    && t'.inodes[i] == node
    && forall j | j in t.inodes && j != i :: SameButTime(t.inodes[j], t'.inodes[j])
  }

  /** What MakeRoom leaves: the place is free, the rest is as before. */
  ghost predicate Cleared(t: Tree, t1: Tree, p: Path) {
    && t1.Valid() && InDir(t1, p) && t1.names == Without(t.names, p)
    && t1.next == t.next && t1.now == t.now && t1.inodes.Keys == t.inodes.Keys
    && forall j | j in t.inodes :: SameButTime(t.inodes[j], t1.inodes[j])
  }

  /** A name was added. */
  ghost predicate Named(t: Tree, t1: Tree, p: Path, i: Ino, node: Inode) {
    && t1.Valid() && t1.names == t.names[p := i] && t1.now == t.now
    && (if i in t.inodes then t1.next == t.next && t.inodes[i] == node else i == t.next && t1.next == t.next + 1)
    && t1.inodes.Keys == t.inodes.Keys + {i} && t1.inodes[i] == node
    && forall j | j in t.inodes :: SameButTime(t.inodes[j], t1.inodes[j])
  }

  lemma RemovedInodes(t: Tree, p: Path)
    requires t.Valid() && InDir(t, p)
    ensures var t' := RemoveAt(t, p);
      && t'.next == t.next && t'.now == t.now && t'.inodes.Keys == t.inodes.Keys
      && forall j | j in t.inodes :: SameButTime(t.inodes[j], t'.inodes[j])
  {
  }

  /** The kind of node that a header other than a link entry creates. */
  function NewKind(hdr: Header): Kind
    requires Creates(hdr)
  {
    match hdr.typeflag
    case TypeDir => Dir
    case TypeReg => Reg(hdr.data)
    case TypeBlock => Block(hdr.devmajor, hdr.devminor)
    case TypeChar => Char(hdr.devmajor, hdr.devminor)
    case TypeFifo => Fifo
    case TypeSymlink => Symlink(hdr.linkname)
  }

  function NewPerm(hdr: Header): Perm {
    if hdr.typeflag.TypeSymlink? then SYMLINK_PERM else hdr.perm
  }

  predicate Creates(hdr: Header) {
    && !hdr.typeflag.TypeLink? && !hdr.typeflag.TypeXGlobalHeader? && !hdr.typeflag.TypeOther?
    && DeviceInRange(hdr)
    && (hdr.typeflag.TypeSymlink? ==> hdr.caps == "")
  }

  lemma MakeNodePlain(t: Tree, p: Path, hdr: Header)
    requires t.Valid() && InDir(t, p) && p !in t.names && Creates(hdr)
    ensures MakeNode(t, p, hdr, []) == Fine(CreateAt(t, p, NewKind(hdr), NewPerm(hdr)))
  {
    LocatePlain(t, p);
  }

  lemma CreatedAt(t: Tree, p: Path, kind: Kind, perm: Perm)
    requires t.Valid() && InDir(t, p) && p !in t.names && (kind.Symlink? ==> perm == SYMLINK_PERM)
    ensures var t' := CreateAt(t, p, kind, perm);
      Named(t, t', p, t.next, Fresh(t, kind, perm))
  {
    CreateAtIsSafe(t, p, kind, perm);
    assert t.next !in t.inodes;
    assert t.Has(Parent(p));
    var made := Tree(t.names[p := t.next], t.inodes[t.next := Fresh(t, kind, perm)], t.next + 1, t.now);
    assert made.Has(Parent(p)) && made.At(Parent(p)) == t.At(Parent(p));
  }

  lemma NoNamesBelow(t: Tree, p: Path)
    requires t.Valid() && p !in t.names
    ensures Without(t.names, p) == t.names
  {
    forall q | q in t.names && p <= q ensures false {
      if p != q { AncestorsAreDirs(t, p, q); }
    }
  }

  /** What is there is removed, or nothing is there. */
  lemma RoomPlain(t: Tree, p: Path, hdr: Header)
    requires t.Valid() && InDir(t, p)
    requires p in t.names ==> !t.IsDir(p) || !hdr.typeflag.TypeDir?
    ensures var r := MakeRoom(t, p, hdr);
      r.Fine? && Cleared(t, r.tree, p)
  {
    LocatePlain(t, p);
    if p in t.names {
      RemoveAllPlain(t, p);
      RemovedInodes(t, p);
    } else {
      NoNamesBelow(t, p);
    }
  }

  lemma PlacedInSteps(t: Tree, t1: Tree, t2: Tree, p: Path, i: Ino, node: Inode, node': Inode)
    requires t.Valid() && Cleared(t, t1, p) && Named(t1, t2, p, i, node) && SetInode(t2, p, node').Valid()
    ensures Placed(t, SetInode(t2, p, node'), p, i, node', false)
  {
    var t3 := SetInode(t2, p, node');
    forall j | j in t.inodes && j != i ensures SameButTime(t.inodes[j], t3.inodes[j]) {
      assert SameButTime(t.inodes[j], t1.inodes[j]) && SameButTime(t1.inodes[j], t2.inodes[j]);
    }
  }

  lemma FileInSteps(s: LayerState, t: Tree, p: Path, hdr: Header, t1: Tree, t2: Tree)
    requires MakeRoom(t, p, hdr) == Fine(t1) && !LinksIntoAufs(hdr) && CreateTarFile(t1, p, hdr) == Fine(t2)
    ensures ApplyFile(s, t, p, hdr) == Going(LayerState(t2,
      if hdr.typeflag.TypeDir? then s.dirs + [UnpackedDir(p, BoundTime(hdr.modTime))] else s.dirs,
      s.unpacked + {p}))
  {
  }

  /** The state after an entry was extracted at p. */
  ghost predicate Extracted(s: LayerState, t: Tree, p: Path, hdr: Header, i: Ino, node: Inode, merged: bool) {
    var r := ApplyFile(s, t, p, hdr);
    && r.Going?
    && Placed(t, r.state.tree, p, i, node, merged)
    && r.state.unpacked == s.unpacked + {p}
    && r.state.dirs ==
      if hdr.typeflag.TypeDir? then s.dirs + [UnpackedDir(p, BoundTime(hdr.modTime))] else s.dirs
  }

  lemma CreateTarFilePlain(t: Tree, p: Path, hdr: Header)
    requires t.Valid() && InDir(t, p) && p !in t.names && Creates(hdr)
    ensures var t2 := CreateAt(t, p, NewKind(hdr), NewPerm(hdr));
      var node := WithMetadata(Fresh(t, NewKind(hdr), NewPerm(hdr)), hdr);
      && Named(t, t2, p, t.next, Fresh(t, NewKind(hdr), NewPerm(hdr)))
      && CreateTarFile(t, p, hdr) == Fine(SetInode(t2, p, node)) && SetInode(t2, p, node).Valid()
  {
    MakeNodePlain(t, p, hdr);
    CreatedAt(t, p, NewKind(hdr), NewPerm(hdr));
    MetadataPlain(CreateAt(t, p, NewKind(hdr), NewPerm(hdr)), p, hdr, []);
  }

  /** An entry that replaces what is there. */
  lemma ReplacePlain(s: LayerState, t: Tree, p: Path, hdr: Header)
    requires t.Valid() && InDir(t, p) && Creates(hdr)
    requires !(hdr.typeflag.TypeDir? && t.IsDir(p))
    ensures Extracted(s, t, p, hdr, t.next, WithMetadata(Fresh(t, NewKind(hdr), NewPerm(hdr)), hdr), false)
  {
    RoomPlain(t, p, hdr);
    var t1 := MakeRoom(t, p, hdr).tree;
    CreateTarFilePlain(t1, p, hdr);
    var node := Fresh(t1, NewKind(hdr), NewPerm(hdr));
    PlacedInSteps(t, t1, CreateAt(t1, p, NewKind(hdr), NewPerm(hdr)), p, t.next, node, WithMetadata(node, hdr));
    FileInSteps(s, t, p, hdr, t1, CreateTarFile(t1, p, hdr).tree);
  }

  lemma DirIsThere(t: Tree, p: Path, hdr: Header)
    requires t.Valid() && p != [] && t.IsDir(p) && hdr.typeflag.TypeDir?
    ensures MakeNode(t, p, hdr, []) == Fine(t)
  {
    LstatPlain(t, p);
  }

  lemma RefreshDirPlain(t: Tree, p: Path, hdr: Header)
    requires t.Valid() && p != [] && t.IsDir(p) && Creates(hdr) && hdr.typeflag.TypeDir?
    ensures var t' := SetInode(t, p, WithMetadata(t.At(p), hdr));
      CreateTarFile(t, p, hdr) == Fine(t') && t'.Valid()
  {
    DirIsThere(t, p, hdr);
    MetadataPlain(t, p, hdr, []);
  }

  lemma DirsMerge(t: Tree, p: Path, hdr: Header)
    requires t.Valid() && p != [] && t.IsDir(p) && hdr.typeflag.TypeDir?
    ensures MakeRoom(t, p, hdr) == Fine(t)
  {
    LstatPlain(t, p);
  }

  /** A directory that meets a directory. */
  lemma MergePlain(s: LayerState, t: Tree, p: Path, hdr: Header)
    requires t.Valid() && p != [] && t.IsDir(p) && Creates(hdr) && hdr.typeflag.TypeDir?
    ensures Extracted(s, t, p, hdr, t.names[p], WithMetadata(t.At(p), hdr), true)
  {
    RefreshDirPlain(t, p, hdr);
    DirsMerge(t, p, hdr);
    FileInSteps(s, t, p, hdr, t, CreateTarFile(t, p, hdr).tree);
    assert t.names[p := t.names[p]] == t.names;
  }

  lemma LinkTarFilePlain(t: Tree, p: Path, hdr: Header, target: Path)
    requires t.Valid() && InDir(t, p) && p !in t.names && hdr.typeflag.TypeLink? && hdr.linkname == Join(target)
    requires target != [] && target in t.names && !t.IsDir(target)
    requires t.At(target).kind.Symlink? ==> hdr.caps == ""
    ensures var t2, node := LinkTo(t, target, p).tree, WithMetadata(t.At(target), hdr);
      && Named(t, t2, p, t.names[target], t.At(target))
      && CreateTarFile(t, p, hdr) == Fine(SetInode(t2, p, node)) && SetInode(t2, p, node).Valid()
  {
    hide Locate, View, ResolveHardlinkTarget, ApplyMetadata, LinkTo, Touch;
    hide Tree.Nested, Tree.Unaliased, Tree.LinksAreBare;
    HardlinkTargetPlain(t, target);
    LinkedAt(t, p, target);
    MetadataPlain(LinkTo(t, target, p).tree, p, hdr, target);
  }

  /** A link entry for a file that is in the tree. */
  lemma LinkPlain(s: LayerState, t: Tree, p: Path, hdr: Header, target: Path)
    requires t.Valid() && InDir(t, p)
    requires hdr.typeflag.TypeLink? && hdr.linkname == Join(target)
    requires target != [] && !IsWhiteoutName(target[0]) && target in t.names && !t.IsDir(target) && !(p <= target)
    requires t.At(target).kind.Symlink? ==> hdr.caps == ""
    ensures Extracted(s, t, p, hdr, t.names[target], WithMetadata(t.At(target), hdr), false)
  {
    RoomPlain(t, p, hdr);
    var t1 := MakeRoom(t, p, hdr).tree;
    assert t1.names[target] == t.names[target] && t1.At(target) == t.At(target);
    NotAufs(t, hdr, target);
    LinkTarFilePlain(t1, p, hdr, target);
    PlacedInSteps(t, t1, LinkTo(t1, target, p).tree, p, t.names[target], t.At(target), WithMetadata(t.At(target), hdr));
    FileInSteps(s, t, p, hdr, t1, CreateTarFile(t1, p, hdr).tree);
  }

  lemma NotAufs(t: Tree, hdr: Header, target: Path)
    requires t.Valid() && target != [] && target in t.names && hdr.linkname == Join(target)
    requires !IsWhiteoutName(target[0])
    ensures !LinksIntoAufs(hdr)
  {
    NamesAreOrdinary(t, target);
    EntryNameReadsBack(target);
    if HasPrefix(target[0], WHITEOUT_LINK_DIR) {
      PrefixTransitive(WHITEOUT_PREFIX, WHITEOUT_LINK_DIR, target[0]);
    }
  }

  lemma LinkedAt(t: Tree, p: Path, target: Path)
    requires t.Valid() && InDir(t, p) && p !in t.names
    requires target != [] && target in t.names && !t.IsDir(target)
    ensures var r := LinkTo(t, target, p);
      r.Fine? && Named(t, r.tree, p, t.names[target], t.At(target))
  {
    LstatPlain(t, target);
    LocatePlain(t, p);
    LinkToIsSafe(t, target, p);
    var made := t.(names := t.names[p := t.names[target]]);
    assert made.Has(Parent(p)) && made.At(Parent(p)).kind.Dir?;
    assert t.names[Parent(p)] != t.names[target];
  }

  // ----- names that are not touched -----

  /** What was there is as before, but for the times of directories. */
  ghost predicate KeepsOthers(t: Tree, t': Tree) {
    forall q | q in t.names ::
      t.Has(q) && t'.Has(q) && t'.names[q] == t.names[q] && SameButTime(t.At(q), t'.At(q))
  }

  lemma NewNameKeepsOthers(t: Tree, t': Tree, p: Path, node: Inode)
    requires t.Valid() && p !in t.names && Placed(t, t', p, t.next, node, false)
    ensures KeepsOthers(t, t') && t'.names.Keys == t.names.Keys + {p}
  {
    NoNamesBelow(t, p);
    assert t.next !in t.inodes;
    forall q | q in t.names
      ensures t.Has(q) && t'.Has(q) && t'.names[q] == t.names[q] && SameButTime(t.At(q), t'.At(q))
    {
      assert t.Has(q);
    }
  }

  lemma KeepsOthersTransitive(t: Tree, t1: Tree, t2: Tree)
    requires KeepsOthers(t, t1) && KeepsOthers(t1, t2)
    ensures KeepsOthers(t, t2)
  {
    forall q | q in t.names
      ensures t.Has(q) && t2.Has(q) && t2.names[q] == t.names[q] && SameButTime(t.At(q), t2.At(q))
    {
      assert t1.Has(q) && SameButTime(t.At(q), t1.At(q)) && SameButTime(t1.At(q), t2.At(q));
    }
  }
}
