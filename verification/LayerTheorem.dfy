/** Applying any well-formed layer to any tree succeeds, and the result depends
    only on what the layer puts, deletes and clears. */
module LayerTheorem {
  import opened Names
  import opened Trees
  import opened Headers
  import opened RootFs
  import opened Extract
  import opened Preservation
  import opened Sweeping
  import opened Plain
  import opened Layers

  // ----- what has been built after a part of the layer -----

  ghost predicate NamesBuilt(base: Tree, src: Tree, s: Sum, t: Tree) {
    forall p :: p in t.names <==> Final(base, src, s, p)
  }

  /** Names that the layer did not put lead to the inodes of the base; no file of
      the base has changed, and directories only in their times. */
  ghost predicate BaseKept(base: Tree, s: Sum, t: Tree) {
    && base.next <= t.next
    && (forall i | i in base.inodes ::
          i in t.inodes && t.inodes[i].kind == base.inodes[i].kind
          && (!base.inodes[i].kind.Dir? ==> t.inodes[i] == base.inodes[i]))
    && (forall p | p in t.names && p !in s.puts ::
          p in base.names && t.names[p] == base.names[p] && t.Has(p) && base.Has(p)
          && SameButTime(base.At(p), t.At(p)))
  }

  /** A put file has the kind (so the bytes, the link target, the device), the
      ownership and the mode of its source; files also its capabilities and its
      time, as far as headers carry them.  A directory that was merged keeps
      capabilities that its header does not set. */
  ghost predicate NodeMatches(base: Tree, p: Path, node: Inode, source: Inode) {
    && node.kind == source.kind && node.perm == source.perm && node.uid == source.uid && node.gid == source.gid
    && (!source.kind.Dir? ==> node.caps == source.caps && node.mtime == BoundTime(source.mtime))
    && (source.kind.Dir? ==>
          if source.caps != "" then node.caps == source.caps
          else node.caps == "" || (base.IsDir(p) && node.caps == base.At(p).caps))
  }

  ghost predicate NodesBuilt(base: Tree, src: Tree, s: Sum, t: Tree) {
    forall p | p in s.puts :: t.Has(p) && src.Has(p) && NodeMatches(base, p, t.At(p), src.At(p))
  }

  /** Put files are new inodes; put directories are new or those of the base. */
  ghost predicate InodesNew(base: Tree, src: Tree, s: Sum, t: Tree) {
    forall p | p in s.puts && t.Has(p) && src.Has(p) ::
      t.names[p] >= base.next || (src.IsDir(p) && base.IsDir(p) && t.names[p] == base.names[p])
  }

  ghost predicate PutFile(src: Tree, s: Sum, t: Tree, p: Path) {
    p in s.puts && t.Has(p) && src.Has(p) && !src.IsDir(p)
  }

  /** Two put files share an inode exactly if their sources do. */
  ghost predicate LinksBuilt(src: Tree, s: Sum, t: Tree) {
    forall p, q | PutFile(src, s, t, p) && PutFile(src, s, t, q) ::
      t.names[p] == t.names[q] <==> src.names[p] == src.names[q]
  }

  ghost predicate InodesBuilt(base: Tree, src: Tree, s: Sum, t: Tree) {
    InodesNew(base, src, s, t) && LinksBuilt(src, s, t)
  }

  ghost predicate Built(base: Tree, src: Tree, s: Sum, t: Tree) {
    && t.Valid() && t.now == base.now
    && NamesBuilt(base, src, s, t) && BaseKept(base, s, t) && NodesBuilt(base, src, s, t)
    && InodesBuilt(base, src, s, t)
  }

  ghost predicate Recorded(src: Tree, s: Sum, ls: LayerState) {
    && ls.unpacked == s.puts
    && (forall d | d in ls.dirs :: d.name in s.puts && src.IsDir(d.name) && d.mtime == BoundTime(src.At(d.name).mtime))
    && (forall p | p in s.puts && src.IsDir(p) :: UnpackedDir(p, BoundTime(src.At(p).mtime)) in ls.dirs)
  }

  // ----- the capabilities of directories -----

  function CapsAt(t: Tree, p: Path): string {
    if t.IsDir(p) then t.At(p).caps else ""
  }

  /** Directories that were put keep their capabilities. */
  ghost predicate CapsKept(src: Tree, s: Sum, t: Tree, t': Tree) {
    forall q | q in s.puts && src.IsDir(q) && t.IsDir(q) :: t'.IsDir(q) && t'.At(q).caps == t.At(q).caps
  }

  /** And one that is put now without any keeps those of the directory there. */
  ghost predicate CapsPut(src: Tree, s: Sum, t: Tree, t': Tree, p: Path) {
    CapsKept(src, s, t, t') && (src.IsDir(p) && src.At(p).caps == "" ==> CapsAt(t', p) == CapsAt(t, p))
  }

  // ----- putting a file -----

  /** What a put does, whichever way it does it. */
  ghost predicate PutAt(base: Tree, src: Tree, s: Sum, t: Tree, t': Tree, p: Path, i: Ino, node: Inode, merged: bool) {
    && Placed(t, t', p, i, node, merged)
    && p != [] && src.Has(p) && p in src.names && p !in s.puts && p !in s.dels
    && NodeMatches(base, p, node, src.At(p))
    && (merged ==> t.IsDir(p) && src.IsDir(p) && i == t.names[p])
    && (!merged ==> !(src.IsDir(p) && t.IsDir(p)))
  }

  lemma PutNames(base: Tree, src: Tree, s: Sum, t: Tree, t': Tree, p: Path, i: Ino, node: Inode, merged: bool)
    requires t.Valid() && Closed(src, s) && NamesBuilt(base, src, s, t)
    requires PutAt(base, src, s, t, t', p, i, node, merged)
    ensures NamesBuilt(base, src, s.(puts := s.puts + {p}), t')
  {
    var s' := s.(puts := s.puts + {p});
    forall q ensures q in t'.names <==> Final(base, src, s', q) {
      if q in s.puts {
        if Below(p, q) { AncestorsArePut(src, s, p, q); }
      } else if q != p {
        assert Visible(src, s', q) <==> Visible(src, s, q) && (Below(p, q) ==> src.IsDir(p));
        if q in t.names && Below(p, q) && !merged && src.IsDir(p) {
          AncestorsAreDirs(t, p, q);
        }
      }
    }
  }

  lemma PutBase(base: Tree, src: Tree, s: Sum, t: Tree, t': Tree, p: Path, i: Ino, node: Inode, merged: bool)
    requires t.Valid() && base.Valid() && BaseKept(base, s, t)
    requires PutAt(base, src, s, t, t', p, i, node, merged)
    requires merged || i >= base.next
    ensures BaseKept(base, s.(puts := s.puts + {p}), t')
  {
    forall j | j in base.inodes
      ensures j in t'.inodes && t'.inodes[j].kind == base.inodes[j].kind
      ensures !base.inodes[j].kind.Dir? ==> t'.inodes[j] == base.inodes[j]
    {
      if j != i { assert SameButTime(t.inodes[j], t'.inodes[j]); }
    }
    forall q | q in t'.names && q !in s.puts + {p}
      ensures q in base.names && t'.names[q] == base.names[q] && t'.Has(q) && base.Has(q)
      ensures SameButTime(base.At(q), t'.At(q))
    {
      assert q in t.names && t'.names[q] == t.names[q] && base.names[q] < base.next;
      if merged { assert t.IsDir(p) && t.names[q] != i; }
      assert SameButTime(t.At(q), t'.At(q));
    }
  }

  /** The other names of the inode that a link entry updates are put files of the
      same source inode. */
  lemma PutNodes(base: Tree, src: Tree, s: Sum, t: Tree, t': Tree, p: Path, i: Ino, node: Inode, merged: bool)
    requires t.Valid() && Closed(src, s) && NamesBuilt(base, src, s, t) && NodesBuilt(base, src, s, t)
    requires PutAt(base, src, s, t, t', p, i, node, merged)
    requires forall q | q in s.puts && t.Has(q) && t.names[q] == i ::
      src.Has(q) && src.At(q) == src.At(p) && !src.IsDir(p)
    ensures NodesBuilt(base, src, s.(puts := s.puts + {p}), t')
  {
    forall q | q in s.puts + {p}
      ensures t'.Has(q) && src.Has(q) && NodeMatches(base, q, t'.At(q), src.At(q))
    {
      if q != p {
        if p <= q { AncestorsArePut(src, s, p, q); }
        assert t.Has(q) && NodeMatches(base, q, t.At(q), src.At(q)) && t'.names[q] == t.names[q];
        if t.names[q] != i { assert SameButTime(t.At(q), t'.At(q)); }
      }
    }
  }

  lemma PutInodes(base: Tree, src: Tree, s: Sum, t: Tree, t': Tree, p: Path, i: Ino, node: Inode, merged: bool)
    requires t.Valid() && Closed(src, s) && NodesBuilt(base, src, s, t) && InodesBuilt(base, src, s, t)
    requires PutAt(base, src, s, t, t', p, i, node, merged)
    requires i >= base.next || (merged && base.IsDir(p) && i == base.names[p])
    requires !src.IsDir(p) ==> forall q | PutFile(src, s, t, q) :: t.names[q] == i <==> src.names[q] == src.names[p]
    ensures InodesBuilt(base, src, s.(puts := s.puts + {p}), t')
  {
    hide NodeMatches, Tree.Nested, Tree.Unaliased, Tree.LinksAreBare;
  }

  lemma PutKeepsCaps(base: Tree, src: Tree, s: Sum, t: Tree, t': Tree, p: Path, i: Ino, node: Inode, merged: bool)
    requires t.Valid() && Closed(src, s) && NodesBuilt(base, src, s, t)
    requires PutAt(base, src, s, t, t', p, i, node, merged)
    requires forall q | q in s.puts && t.Has(q) && t.names[q] == i :: !src.IsDir(q)
    requires src.IsDir(p) && src.At(p).caps == "" ==> node.caps == CapsAt(t, p)
    ensures CapsPut(src, s, t, t', p)
  {
    hide Tree.Nested, Tree.Unaliased, Tree.LinksAreBare;
    forall q | q in s.puts && src.IsDir(q) && t.IsDir(q) ensures t'.IsDir(q) && t'.At(q).caps == t.At(q).caps {
      if p <= q { AncestorsArePut(src, s, p, q); }
      assert t'.names[q] == t.names[q] && t.names[q] != i;
      assert SameButTime(t.At(q), t'.At(q));
    }
  }

  /** Why a header of the layer places a matching node. */
  lemma FreshNodeMatches(base: Tree, src: Tree, t: Tree, p: Path)
    requires src.Valid() && src.Has(p) && p in src.names && !src.At(p).kind.Socket?
    ensures var hdr := EntryHeader(src.At(p), p, None);
      Creates(hdr) && NewKind(hdr) == src.At(p).kind
      && NodeMatches(base, p, WithMetadata(Fresh(t, NewKind(hdr), NewPerm(hdr)), hdr), src.At(p))
  {
  }

  lemma MergedNodeMatches(base: Tree, src: Tree, t: Tree, p: Path)
    requires src.Has(p) && t.Has(p) && base.IsDir(p) && src.IsDir(p) && SameButTime(base.At(p), t.At(p))
    ensures NodeMatches(base, p, WithMetadata(t.At(p), EntryHeader(src.At(p), p, None)), src.At(p))
  {
  }

  lemma LinkedNodeMatches(base: Tree, src: Tree, t: Tree, p: Path, x: Path)
    requires src.Valid() && src.Has(p) && src.Has(x) && src.names[x] == src.names[p] && t.Has(x)
    requires NodeMatches(base, x, t.At(x), src.At(x)) && !src.IsDir(p)
    ensures NodeMatches(base, p, WithMetadata(t.At(x), EntryHeader(src.At(p), p, Some(x))), src.At(p))
    ensures t.At(x).kind.Symlink? ==> EntryHeader(src.At(p), p, Some(x)).caps == ""
  {
  }

  // ----- one entry -----

  /** An entry whose name stands in a directory of the tree is dispatched on that
      name. */
  lemma EntryIsDispatched(ls: LayerState, hdr: Header, q: Path)
    requires ls.tree.Valid() && InDir(ls.tree, q) && EntryName(hdr) == Cleaned(false, 0, q)
    requires !HasPrefix(q[0], WHITEOUT_META_PREFIX) || q == [WHITEOUT_OPAQUE_DIR]
    ensures OrdinaryPath(q)
    ensures ApplyEntry(ls, hdr) ==
      if IsWhiteoutName(Last(q)) then ApplyWhiteout(ls, ls.tree, q) else ApplyFile(ls, ls.tree, q, hdr)
  {
    ArchivePathPlain(ls.tree, q);
  }

  lemma NotMetadata(n: Name)
    requires !IsWhiteoutName(n)
    ensures !HasPrefix(n, WHITEOUT_META_PREFIX)
  {
  }

  lemma ParentIsBuilt(base: Tree, src: Tree, s: Sum, t: Tree, p: Path)
    requires t.Valid() && NodesBuilt(base, src, s, t) && p != [] && ParentReady(src, s, p)
    ensures t.IsDir(Parent(p))
  {
  }

  lemma PutIsDispatched(base: Tree, src: Tree, s: Sum, ls: LayerState, hdr: Header, p: Path, link: Option<Path>)
    requires Closed(src, s) && ProperPuts(s) && Built(base, src, s, ls.tree)
    requires Follows(src, s, Put(p, link)) && !Prefixed(p) && hdr == EntryHeader(src.At(p), p, link)
    ensures InDir(ls.tree, p)
    ensures ApplyEntry(ls, hdr) == ApplyFile(ls, ls.tree, p, hdr)
  {
    ParentIsBuilt(base, src, s, ls.tree, p);
    LocatePlain(ls.tree, p);
    EntryNameReadsBack(p);
    if Parent(p) == [] {
      assert p[0] == Last(p);
    } else {
      FirstNameIsNoWhiteout(src, s, Parent(p));
      assert p[0] == Parent(p)[0];
    }
    NotMetadata(p[0]);
    EntryIsDispatched(ls, hdr, p);
  }

  /** The state after putting p. */
  ghost predicate PutDone(base: Tree, src: Tree, s: Sum, ls: LayerState, r: Progress, p: Path) {
    var s' := s.(puts := s.puts + {p});
    && r.Going? && Built(base, src, s', r.state.tree) && Recorded(src, s', r.state)
    && CapsPut(src, s, ls.tree, r.state.tree, p)
  }

  lemma PutRecords(src: Tree, s: Sum, ls: LayerState, r: LayerState, p: Path)
    requires p != [] && src.Has(p) && Recorded(src, s, ls)
    requires r.unpacked == ls.unpacked + {p}
    requires r.dirs == if src.IsDir(p) then ls.dirs + [UnpackedDir(p, BoundTime(src.At(p).mtime))] else ls.dirs
    ensures Recorded(src, s.(puts := s.puts + {p}), r)
  {
  }

  lemma PutNew(base: Tree, src: Tree, s: Sum, ls: LayerState, p: Path)
    requires base.Valid() && src.Valid() && Closed(src, s) && Built(base, src, s, ls.tree) && Recorded(src, s, ls)
    requires Follows(src, s, Put(p, None)) && InDir(ls.tree, p)
    requires !(src.IsDir(p) && ls.tree.IsDir(p))
    ensures PutDone(base, src, s, ls, ApplyFile(ls, ls.tree, p, EntryHeader(src.At(p), p, None)), p)
  {
    var t, hdr := ls.tree, EntryHeader(src.At(p), p, None);
    FreshNodeMatches(base, src, t, p);
    ReplacePlain(ls, t, p, hdr);
    var node := WithMetadata(Fresh(t, NewKind(hdr), NewPerm(hdr)), hdr);
    PutRecords(src, s, ls, ApplyFile(ls, t, p, hdr).state, p);
    PutBuilds(base, src, s, t, ApplyFile(ls, t, p, hdr).state.tree, p, t.next, node, false);
  }

  /** All parts of the invariant after a put. */
  lemma PutBuilds(base: Tree, src: Tree, s: Sum, t: Tree, t': Tree, p: Path, i: Ino, node: Inode, merged: bool)
    requires base.Valid() && Closed(src, s) && Built(base, src, s, t)
    requires PutAt(base, src, s, t, t', p, i, node, merged)
    requires i >= base.next || (merged && base.IsDir(p) && i == base.names[p])
    requires forall q | q in s.puts && t.Has(q) && t.names[q] == i ::
      src.Has(q) && src.At(q) == src.At(p) && !src.IsDir(p)
    requires !src.IsDir(p) ==> forall q | PutFile(src, s, t, q) :: t.names[q] == i <==> src.names[q] == src.names[p]
    requires src.IsDir(p) && src.At(p).caps == "" ==> node.caps == CapsAt(t, p)
    ensures Built(base, src, s.(puts := s.puts + {p}), t') && CapsPut(src, s, t, t', p)
  {
    PutKeepsCaps(base, src, s, t, t', p, i, node, merged);
    PutNames(base, src, s, t, t', p, i, node, merged);
    PutBase(base, src, s, t, t', p, i, node, merged);
    PutNodes(base, src, s, t, t', p, i, node, merged);
    PutInodes(base, src, s, t, t', p, i, node, merged);
  }

  lemma PutMerged(base: Tree, src: Tree, s: Sum, ls: LayerState, p: Path)
    requires base.Valid() && src.Valid() && Closed(src, s) && Built(base, src, s, ls.tree) && Recorded(src, s, ls)
    requires Follows(src, s, Put(p, None)) && src.IsDir(p) && ls.tree.IsDir(p)
    ensures PutDone(base, src, s, ls, ApplyFile(ls, ls.tree, p, EntryHeader(src.At(p), p, None)), p)
  {
    var t, hdr := ls.tree, EntryHeader(src.At(p), p, None);
    assert base.IsDir(p) && SameButTime(base.At(p), t.At(p));
    MergedNodeMatches(base, src, t, p);
    FreshNodeMatches(base, src, t, p);
    MergePlain(ls, t, p, hdr);
    var node := WithMetadata(t.At(p), hdr);
    PutRecords(src, s, ls, ApplyFile(ls, t, p, hdr).state, p);
    assert forall q | q in s.puts && t.Has(q) :: t.names[q] != t.names[p];
    PutBuilds(base, src, s, t, ApplyFile(ls, t, p, hdr).state.tree, p, t.names[p], node, true);
  }

  /** The put names of the inode of a put file are the names of its source. */
  lemma SameSource(base: Tree, src: Tree, s: Sum, t: Tree, x: Path)
    requires NodesBuilt(base, src, s, t) && LinksBuilt(src, s, t) && PutFile(src, s, t, x)
    ensures forall q | PutFile(src, s, t, q) :: t.names[q] == t.names[x] <==> src.names[q] == src.names[x]
    ensures forall q | q in s.puts && t.Has(q) && t.names[q] == t.names[x] ::
      src.Has(q) && src.At(q) == src.At(x) && !src.IsDir(q)
  {
  }

  lemma PutLinked(base: Tree, src: Tree, s: Sum, ls: LayerState, p: Path, x: Path)
    requires base.Valid() && src.Valid() && Closed(src, s) && Built(base, src, s, ls.tree) && Recorded(src, s, ls)
    requires ProperPuts(s) && Follows(src, s, Put(p, Some(x))) && InDir(ls.tree, p)
    ensures PutDone(base, src, s, ls, ApplyFile(ls, ls.tree, p, EntryHeader(src.At(p), p, Some(x))), p)
  {
    var t, hdr := ls.tree, EntryHeader(src.At(p), p, Some(x));
    assert t.Has(x) && NodeMatches(base, x, t.At(x), src.At(x)) && !src.IsDir(x);
    LinkedNodeMatches(base, src, t, p, x);
    FirstNameIsNoWhiteout(src, s, x);
    if p <= x { AncestorsArePut(src, s, p, x); }
    LinkPlain(ls, t, p, hdr, x);
    var node := WithMetadata(t.At(x), hdr);
    PutRecords(src, s, ls, ApplyFile(ls, t, p, hdr).state, p);
    SameSource(base, src, s, t, x);
    PutBuilds(base, src, s, t, ApplyFile(ls, t, p, hdr).state.tree, p, t.names[x], node, false);
  }

  lemma PutStep(base: Tree, src: Tree, s: Sum, ls: LayerState, hdr: Header, p: Path, link: Option<Path>)
    requires base.Valid() && src.Valid() && Closed(src, s) && Built(base, src, s, ls.tree) && Recorded(src, s, ls)
    requires ProperPuts(s) && Follows(src, s, Put(p, link)) && !Prefixed(p) && Encodes(src, Put(p, link), hdr)
    ensures PutDone(base, src, s, ls, ApplyEntry(ls, hdr), p)
  {
    PutIsDispatched(base, src, s, ls, hdr, p, link);
    match link
    case Some(x) => PutLinked(base, src, s, ls, p, x);
    case None =>
      if src.IsDir(p) && ls.tree.IsDir(p) {
        PutMerged(base, src, s, ls, p);
      } else {
        PutNew(base, src, s, ls, p);
      }
  }

  // ----- whiteouts -----

  /** Names were taken away and directories stamped. */
  ghost predicate Shrunk(t: Tree, t': Tree) {
    && t'.Valid() && t'.now == t.now && t'.next == t.next
    && (forall p | p in t'.names :: p in t.names && t'.names[p] == t.names[p])
    && t'.inodes.Keys == t.inodes.Keys
    && forall i | i in t.inodes :: SameButTime(t.inodes[i], t'.inodes[i])
  }

  lemma ShrinkKeepsBase(base: Tree, s: Sum, s': Sum, t: Tree, t': Tree)
    requires t.Valid() && BaseKept(base, s, t) && Shrunk(t, t') && s'.puts == s.puts
    ensures BaseKept(base, s', t')
  {
    forall j | j in base.inodes
      ensures j in t'.inodes && t'.inodes[j].kind == base.inodes[j].kind
      ensures !base.inodes[j].kind.Dir? ==> t'.inodes[j] == base.inodes[j]
    {
      assert SameButTime(t.inodes[j], t'.inodes[j]);
    }
    forall p | p in t'.names && p !in s.puts
      ensures p in base.names && t'.names[p] == base.names[p] && t'.Has(p) && base.Has(p)
      ensures SameButTime(base.At(p), t'.At(p))
    {
      assert p in t.names && t.Has(p) && t'.Has(p);
      assert SameButTime(base.At(p), t.At(p)) && SameButTime(t.At(p), t'.At(p));
    }
  }

  lemma ShrinkKeepsNodes(base: Tree, src: Tree, s: Sum, s': Sum, t: Tree, t': Tree)
    requires NodesBuilt(base, src, s, t) && InodesBuilt(base, src, s, t)
    requires Shrunk(t, t') && s'.puts == s.puts
    requires forall p | p in s.puts :: p in t'.names
    ensures NodesBuilt(base, src, s', t') && InodesBuilt(base, src, s', t') && CapsKept(src, s, t, t')
  {
  }

  lemma ShrinkBuilds(base: Tree, src: Tree, s: Sum, s': Sum, t: Tree, t': Tree)
    requires Built(base, src, s, t) && Shrunk(t, t') && s'.puts == s.puts && NamesBuilt(base, src, s', t')
    ensures Built(base, src, s', t') && CapsKept(src, s, t, t')
  {
    assert forall p | p in s.puts :: p in t'.names;
    ShrinkKeepsBase(base, s, s', t, t');
    ShrinkKeepsNodes(base, src, s, s', t, t');
  }

  lemma DelNames(base: Tree, src: Tree, s: Sum, t: Tree, t': Tree, p: Path)
    requires Closed(src, s) && NamesBuilt(base, src, s, t) && p != [] && p !in s.puts
    requires t'.names == Without(t.names, p)
    ensures NamesBuilt(base, src, s.(dels := s.dels + {p}), t')
  {
    var s' := s.(dels := s.dels + {p});
    forall q ensures q in t'.names <==> Final(base, src, s', q) {
      if q in s.puts {
        if p <= q { AncestorsArePut(src, s, p, q); }
      } else {
        assert Visible(src, s', q) <==> Visible(src, s, q) && !(p <= q);
      }
    }
  }

  lemma DelIsDispatched(base: Tree, src: Tree, s: Sum, ls: LayerState, hdr: Header, p: Path)
    requires Closed(src, s) && ProperPuts(s) && Built(base, src, s, ls.tree)
    requires Follows(src, s, Del(p)) && !NamesMetadata(p) && Encodes(src, Del(p), hdr)
    ensures InDir(ls.tree, p) && OrdinaryPath(p)
    ensures var q := WhiteoutPath(p);
      q != [] && OrdinaryPath(q) && IsWhiteoutName(Last(q)) && ApplyEntry(ls, hdr) == ApplyWhiteout(ls, ls.tree, q)
  {
    var q := WhiteoutPath(p);
    ParentIsBuilt(base, src, s, ls.tree, p);
    LocatePlain(ls.tree, p);
    WhiteoutOf(Last(p));
    ParentOf(Parent(p), WHITEOUT_PREFIX + Last(p));
    if Parent(p) != [] {
      FirstNameIsNoWhiteout(src, s, Parent(p));
      NotMetadata(Parent(p)[0]);
      assert q[0] == Parent(p)[0];
    }
    EntryIsDispatched(ls, hdr, q);
  }

  /** A plain whiteout removes the name after its prefix, prefixed or not. */
  lemma WhiteoutRemoves(ls: LayerState, t: Tree, p: Path)
    requires t.Valid() && InDir(t, p) && OrdinaryPath(p) && OrdinaryPath(WhiteoutPath(p)) && !NamesMarker(p)
    ensures IsWhiteoutName(Last(WhiteoutPath(p)))
    ensures ApplyWhiteout(ls, t, WhiteoutPath(p)) == Going(ls.(tree := RemoveAt(t, p)))
  {
    var q := WhiteoutPath(p);
    WhiteoutOf(Last(p));
    ParentOf(Parent(p), WHITEOUT_PREFIX + Last(p));
    ParentIsOrdinary(p);
    assert Last(q)[|WHITEOUT_PREFIX|..] == Last(p);
    JoinPlain(p);
    RemoveAllPlain(t, p);
  }

  lemma JoinPlain(p: Path)
    requires p != [] && OrdinaryPath(p) && OrdinaryPath(Parent(p)) && Ordinary(Last(p))
    ensures JoinClean(Parent(p), Last(p)) == Cleaned(false, 0, p)
  {
    CleanOrdinary(Cleaned(false, 0, Parent(p)), [Last(p)], []);
    assert [Last(p)] + [] == [Last(p)];
    ParentAndLast(p);
  }

  lemma DelStep(base: Tree, src: Tree, s: Sum, ls: LayerState, hdr: Header, p: Path)
    requires base.Valid() && Closed(src, s) && Built(base, src, s, ls.tree) && Recorded(src, s, ls)
    requires ProperPuts(s) && Follows(src, s, Del(p)) && Encodes(src, Del(p), hdr)
    requires !NamesMarker(p) && !NamesMetadata(p)
    ensures var r, s' := ApplyEntry(ls, hdr), Plus(s, Del(p));
      && r.Going? && Built(base, src, s', r.state.tree) && Recorded(src, s', r.state)
      && CapsKept(src, s, ls.tree, r.state.tree)
  {
    DelIsDispatched(base, src, s, ls, hdr, p);
    WhiteoutRemoves(ls, ls.tree, p);
    var t := ls.tree;
    RemoveAllPlain(t, p);
    RemovedInodes(t, p);
    DelNames(base, src, s, t, RemoveAt(t, p), p);
    ShrinkBuilds(base, src, s, Plus(s, Del(p)), t, RemoveAt(t, p));
  }

  lemma OpqNames(base: Tree, src: Tree, s: Sum, t: Tree, d: Path)
    requires Closed(src, s) && NamesBuilt(base, src, s, t)
    ensures NamesBuilt(base, src, s.(opqs := s.opqs + {d}), Sweep(t, d, s.puts))
  {
    var s' := s.(opqs := s.opqs + {d});
    forall q ensures q in Sweep(t, d, s.puts).names <==> Final(base, src, s', q) {
      Survivors(t, d, s.puts, q);
      if q in s.puts {
        forall r | Below(d, r) && r <= q ensures r in s.puts {
          if r != q { AncestorsArePut(src, s, r, q); }
        }
      } else {
        assert Visible(src, s', q) <==> Visible(src, s, q) && !Below(d, q);
      }
    }
  }

  lemma OpaqueSweeps(ls: LayerState, t: Tree, d: Path)
    requires t.Valid() && t.IsDir(d) && OrdinaryPath(OpaquePath(d))
    ensures OpaquePath(d) != [] && IsWhiteoutName(Last(OpaquePath(d)))
    ensures ApplyWhiteout(ls, t, OpaquePath(d)) == Going(ls.(tree := Sweep(t, d, ls.unpacked)))
  {
    OpaqueName();
    ParentOf(d, WHITEOUT_OPAQUE_DIR);
    FollowPlain(t, d);
    if d != [] { LstatPlain(t, d); }
  }

  lemma SweepShrinks(t: Tree, d: Path, unpacked: set<Path>)
    requires t.Valid()
    ensures Shrunk(t, Sweep(t, d, unpacked))
  {
    var gone := Unlisted(t, d, unpacked);
    forall p | p in t.names && p != [] && Parent(p) in gone ensures p in gone {
      PrefixTransitive(d, Parent(p), p);
      var k :| |d| < k <= |Parent(p)| && Parent(p)[..k] !in unpacked;
      assert p[..k] == Parent(p)[..k];
    }
    PruneIsSafe(t, gone);
    forall i | i in t.inodes ensures SameButTime(t.inodes[i], Prune(t, gone).inodes[i]) {
      if LosesEntry(t, gone, i) {
        var p :| LeavesParent(t, gone, p, i);
        assert t.IsDir(Parent(p));
      }
    }
  }

  lemma OpqStep(base: Tree, src: Tree, s: Sum, ls: LayerState, hdr: Header, d: Path)
    requires base.Valid() && Closed(src, s) && Built(base, src, s, ls.tree) && Recorded(src, s, ls)
    requires ProperPuts(s) && Follows(src, s, Opq(d)) && Encodes(src, Opq(d), hdr)
    ensures var r, s' := ApplyEntry(ls, hdr), Plus(s, Opq(d));
      && r.Going? && Built(base, src, s', r.state.tree) && Recorded(src, s', r.state)
      && CapsKept(src, s, ls.tree, r.state.tree)
  {
    var t, q := ls.tree, OpaquePath(d);
    OpaqueName();
    ParentOf(d, WHITEOUT_OPAQUE_DIR);
    if d == [] {
      assert q == [WHITEOUT_OPAQUE_DIR];
    } else {
      FirstNameIsNoWhiteout(src, s, d);
      NotMetadata(d[0]);
      assert q[0] == d[0];
      assert NodeMatches(base, d, t.At(d), src.At(d));
    }
    EntryIsDispatched(ls, hdr, q);
    OpaqueSweeps(ls, t, d);
    OpqNames(base, src, s, t, d);
    SweepShrinks(t, d, s.puts);
    ShrinkBuilds(base, src, s, Plus(s, Opq(d)), t, Sweep(t, d, s.puts));
  }

  // ----- directories without capabilities -----

  /** A whiteout has cleared a directory above p. */
  predicate Swept(s: Sum, p: Path) {
    exists d | d in s.opqs :: Below(d, p)
  }

  /** What was put where the place had been cleared. */
  ghost function PutAnew(items: seq<Item>): set<Path>
    decreases |items|
  {
    if items == [] then {}
    else
      var n := |items| - 1;
      PutAnew(items[..n])
        + if items[n].Put? && Swept(Effective(SumOf(items[..n])), items[n].path) then {items[n].path} else {}
  }

  lemma AnewMore(items: seq<Item>)
    requires items != []
    ensures var n := |items| - 1;
      var anew, p := PutAnew(items[..n]), items[n].path;
      PutAnew(items) == if items[n].Put? && Swept(Effective(SumOf(items[..n])), p) then anew + {p} else anew
  {
  }

  /** What is put anew was swept when it was put. */
  lemma {:induction false} AnewIsSwept(src: Tree, items: seq<Item>, k: nat)
    requires InShape(src, items) && k < |items| && items[k].Put?
    ensures items[k].path in PutAnew(items) <==> Swept(Effective(SumOf(items[..k])), items[k].path)
    decreases |items|
  {
    var n, p := |items| - 1, items[k].path;
    AnewIsPut(src, items[..n]);
    AnewMore(items);
    if k < n {
      assert items[..n][..k] == items[..k];
      AnewIsSwept(src, items[..n], k);
      ItemsAreSummed(items[..n]);
      assert items[..n][k] in items[..n];
    }
  }

  lemma {:induction false} AnewIsPut(src: Tree, items: seq<Item>)
    requires InShape(src, items)
    ensures PutAnew(items) <= SumOf(items).puts
    decreases |items|
  {
    if items != [] {
      AnewIsPut(src, items[..|items| - 1]);
      AnewMore(items);
    }
  }

  /** A directory of the base that is put again, with a header that sets no
      capabilities, keeps those that it has, unless it was cleared away before. */
  ghost predicate CapsBuilt(base: Tree, src: Tree, s: Sum, anew: set<Path>, t: Tree) {
    forall p | p in s.puts && src.IsDir(p) && base.IsDir(p) && src.At(p).caps == "" ::
      t.IsDir(p) && t.At(p).caps == if p in anew then "" else base.At(p).caps
  }

  /** A directory of the base is still there when it is put, unless it was cleared
      away. */
  lemma DirIsVisible(base: Tree, src: Tree, s: Sum, t: Tree, p: Path)
    requires Closed(src, s) && NamesBuilt(base, src, s, t) && BaseKept(base, s, t)
    requires base.IsDir(p) && p != [] && p !in s.puts && p !in s.dels && ParentReady(src, s, p)
    ensures CapsAt(t, p) == if Swept(s, p) then "" else base.At(p).caps
  {
    forall q | Below(q, p) && q != [] ensures q in s.puts && src.IsDir(q) {
      BelowParent(q, p);
      if q != Parent(p) { AncestorsArePut(src, s, q, Parent(p)); }
    }
    if Swept(s, p) {
      assert !Visible(src, s, p) && p !in t.names;
    } else {
      assert Visible(src, s, p) by {
        forall q | q <= p ensures q !in s.dels { if q != p && q != [] { assert Below(q, p); } }
      }
      assert p in t.names && SameButTime(base.At(p), t.At(p));
    }
  }

  lemma PutBuildsCaps(base: Tree, src: Tree, s: Sum, anew: set<Path>, t: Tree, t': Tree, p: Path, link: Option<Path>)
    requires Closed(src, s) && Built(base, src, s, t) && Follows(src, s, Put(p, link))
    requires CapsBuilt(base, src, s, anew, t) && anew <= s.puts
    requires CapsPut(src, s, t, t', p) && NodesBuilt(base, src, s.(puts := s.puts + {p}), t')
    ensures CapsBuilt(base, src, s.(puts := s.puts + {p}), if Swept(s, p) then anew + {p} else anew, t')
  {
    if base.IsDir(p) && src.IsDir(p) {
      DirIsVisible(base, src, s, t, p);
      assert NodeMatches(base, p, t'.At(p), src.At(p));
    }
  }

  lemma CapsStayBuilt(base: Tree, src: Tree, s: Sum, s': Sum, anew: set<Path>, t: Tree, t': Tree)
    requires CapsBuilt(base, src, s, anew, t) && CapsKept(src, s, t, t') && s'.puts == s.puts
    ensures CapsBuilt(base, src, s', anew, t')
  {
  }

  // ----- deletions that mean something else -----

  lemma MarkerIsEncoded(src: Tree, s: Sum, hdr: Header, p: Path)
    requires Closed(src, s) && Follows(src, s, Del(p)) && Encodes(src, Del(p), hdr) && NamesMarker(p)
    ensures Follows(src, s, Opq(Parent(p))) && Encodes(src, Opq(Parent(p)), hdr)
  {
    WhiteoutOf(Last(p));
    assert WhiteoutPath(p) == OpaquePath(Parent(p));
  }

  lemma MetadataIsSkipped(ls: LayerState, hdr: Header, p: Path)
    requires p != [] && Ordinary(Last(p)) && EntryName(hdr) == Cleaned(false, 0, WhiteoutPath(p)) && NamesMetadata(p)
    ensures ApplyEntry(ls, hdr) == Going(ls)
  {
    WhiteoutOf(Last(p));
    assert WhiteoutPath(p) == [WHITEOUT_PREFIX + Last(p)];
  }

  /** The whiteout of any name keeps the invariant, for what it is understood to
      mean. */
  lemma WhiteoutStep(base: Tree, src: Tree, s: Sum, ls: LayerState, hdr: Header, p: Path)
    requires base.Valid() && Closed(src, s) && Built(base, src, s, ls.tree) && Recorded(src, s, ls)
    requires ProperPuts(s) && Follows(src, s, Del(p)) && Encodes(src, Del(p), hdr)
    ensures var r := ApplyEntry(ls, hdr);
      var s' := if NamesMarker(p) then Plus(s, Opq(Parent(p))) else if NamesMetadata(p) then s else Plus(s, Del(p));
      && r.Going? && Built(base, src, s', r.state.tree) && Recorded(src, s', r.state)
      && CapsKept(src, s, ls.tree, r.state.tree)
  {
    hide Built, Recorded, Closed, ApplyEntry, Tree.Valid, EntryName;
    if NamesMarker(p) {
      MarkerIsEncoded(src, s, hdr, p);
      OpqStep(base, src, s, ls, hdr, Parent(p));
    } else if NamesMetadata(p) {
      MetadataIsSkipped(ls, hdr, p);
    } else {
      DelStep(base, src, s, ls, hdr, p);
    }
  }

  // ----- all entries -----

  lemma NothingBuilt(base: Tree, src: Tree)
    requires base.Valid()
    ensures Built(base, src, NOTHING, base) && Recorded(src, NOTHING, NewLayer(base))
    ensures CapsBuilt(base, src, NOTHING, {}, base)
  {
  }

  /** What follows the items follows what they are understood to mean. */
  lemma EffectIsReady(src: Tree, items: seq<Item>, item: Item)
    requires InShape(src, items) && Follows(src, SumOf(items), item) && ProperPuts(SumOf(items))
    ensures Closed(src, Effective(SumOf(items))) && ProperPuts(Effective(SumOf(items)))
    ensures Follows(src, Effective(SumOf(items)), item)
  {
    ShapeIsClosed(src, items);
    EffectiveIsClosed(src, SumOf(items));
  }

  lemma {:induction false} EntriesBuild(base: Tree, src: Tree, items: seq<Item>, layer: seq<Header>)
    requires base.Valid() && src.Valid() && WellFormed(src, items) && EncodesAll(src, items, layer)
    ensures var r, e := ApplyEntries(NewLayer(base), layer), Effective(SumOf(items));
      && r.Going? && Built(base, src, e, r.state.tree) && Recorded(src, e, r.state)
      && CapsBuilt(base, src, e, PutAnew(items), r.state.tree) && PutAnew(items) <= e.puts
    decreases |items|
  {
    hide Built, Recorded, Closed, ApplyEntry, Encodes, Follows, Tree.Valid, EntryName, Effective;
    hide CapsBuilt, CapsKept, Swept;
    if items == [] {
      NothingBuilt(base, src);
      NothingIsEffective();
    } else {
      var n := |items| - 1;
      EntriesBuild(base, src, items[..n], layer[..n]);
      var r, e, anew := ApplyEntries(NewLayer(base), layer[..n]), Effective(SumOf(items[..n])), PutAnew(items[..n]);
      EffectIsReady(src, items[..n], items[n]);
      EffectOf(SumOf(items[..n]), items[n]);
      AnewMore(items);
      var t, t' := r.state.tree, ApplyEntry(r.state, layer[n]).state.tree;
      match items[n] {
        case Put(p, link) =>
          PutStep(base, src, e, r.state, layer[n], p, link);
          BuiltNodes(base, src, e.(puts := e.puts + {p}), t');
          PutBuildsCaps(base, src, e, anew, t, t', p, link);
        case Del(p) =>
          WhiteoutStep(base, src, e, r.state, layer[n], p);
          CapsStayBuilt(base, src, e, Effective(SumOf(items)), anew, t, t');
        case Opq(d) =>
          OpqStep(base, src, e, r.state, layer[n], d);
          CapsStayBuilt(base, src, e, Effective(SumOf(items)), anew, t, t');
      }
    }
  }

  lemma BuiltNodes(base: Tree, src: Tree, s: Sum, t: Tree)
    requires Built(base, src, s, t)
    ensures NodesBuilt(base, src, s, t)
  {
  }

  lemma NothingIsEffective()
    ensures Effective(NOTHING) == NOTHING
  {
  }

  // ----- the times of directories -----

  /** Directories that are listed have the time listed last for them. */
  ghost predicate Timed(t: Tree, dirs: seq<UnpackedDir>, src: Tree) {
    forall d | d in dirs :: t.IsDir(d.name) && t.At(d.name).mtime == d.mtime
  }

  lemma {:induction false} TimesApply(base: Tree, src: Tree, s: Sum, ls: LayerState, dirs: seq<UnpackedDir>)
    requires Built(base, src, s, ls.tree)
    requires forall d | d in dirs :: d.name in s.puts && src.IsDir(d.name) && d.mtime == BoundTime(src.At(d.name).mtime)
    ensures var r := ApplyDirTimes(ls.tree, dirs);
      && r.Fine? && Built(base, src, s, r.tree) && r.tree.names == ls.tree.names && Timed(r.tree, dirs, src)
      && CapsKept(src, s, ls.tree, r.tree)
    decreases |dirs|
  {
    if dirs != [] {
      var n := |dirs| - 1;
      TimesApply(base, src, s, ls, dirs[..n]);
      var t, d := ApplyDirTimes(ls.tree, dirs[..n]).tree, dirs[n];
      assert d in dirs;
      assert t.Has(d.name) && NodeMatches(base, d.name, t.At(d.name), src.At(d.name));
      ChtimesPlain(t, d.name, d.mtime);
      var t' := SetInode(t, d.name, t.At(d.name).(mtime := d.mtime));
      ShrinkBuilds(base, src, s, s, t, t');
      TimedStep(base, src, s, t, dirs, t');
    }
  }

  lemma ChtimesPlain(t: Tree, p: Path, mtime: Time)
    requires t.Valid() && t.IsDir(p)
    ensures var t' := SetInode(t, p, t.At(p).(mtime := mtime));
      Chtimes(t, p, mtime) == Fine(t') && Shrunk(t, t')
  {
    FollowPlain(t, p);
    SetInodeIsSafe(t, p, t.At(p).(mtime := mtime));
  }

  lemma TimedStep(base: Tree, src: Tree, s: Sum, t: Tree, dirs: seq<UnpackedDir>, t': Tree)
    requires dirs != [] && t.Valid() && Timed(t, dirs[..|dirs| - 1], src)
    requires forall d | d in dirs :: d.name in s.puts && src.IsDir(d.name) && d.mtime == BoundTime(src.At(d.name).mtime)
    requires var d := dirs[|dirs| - 1]; t.IsDir(d.name) && t' == SetInode(t, d.name, t.At(d.name).(mtime := d.mtime))
    ensures Timed(t', dirs, src)
  {
  }

  /** Every directory of the layer ends with the time of its header, although
      entries were created in it later. */
  ghost predicate DirTimesKept(src: Tree, s: Sum, t: Tree) {
    forall p | p in s.puts && src.IsDir(p) :: t.IsDir(p) && t.At(p).mtime == BoundTime(src.At(p).mtime)
  }

  /** The main result: any well-formed layer applies to any tree, and what comes
      out is determined by the paths it puts, deletes and clears, as `Effective`
      understands them. */
  lemma LayerApplies(base: Tree, src: Tree, items: seq<Item>, layer: seq<Header>)
    requires base.Valid() && src.Valid() && WellFormed(src, items) && EncodesAll(src, items, layer)
    ensures var r, e := ApplyLayer(base, layer), Effective(SumOf(items));
      && r.Fine? && Built(base, src, e, r.tree) && DirTimesKept(src, e, r.tree)
      && CapsBuilt(base, src, e, PutAnew(items), r.tree)
  {
    EntriesBuild(base, src, items, layer);
    var ls, s := ApplyEntries(NewLayer(base), layer).state, Effective(SumOf(items));
    TimesApply(base, src, s, ls, ls.dirs);
    CapsStayBuilt(base, src, s, s, PutAnew(items), ls.tree, ApplyDirTimes(ls.tree, ls.dirs).tree);
    var t := ApplyDirTimes(ls.tree, ls.dirs).tree;
    forall p | p in s.puts && src.IsDir(p)
      ensures t.IsDir(p) && t.At(p).mtime == BoundTime(src.At(p).mtime)
    {
      assert UnpackedDir(p, BoundTime(src.At(p).mtime)) in ls.dirs;
    }
  }

  // ----- the order of entries -----

  predicate SameFile(a: Inode, b: Inode) {
    && a.kind == b.kind && a.perm == b.perm && a.uid == b.uid && a.gid == b.gid
    && (a.kind.Dir? || (a.caps == b.caps && a.mtime == b.mtime))
  }

  /** Trees that cannot be told apart but for inode numbers and the capabilities
      and times of directories (the times of directories that a layer puts agree
      as well). */
  ghost predicate Alike(t: Tree, u: Tree) {
    && t.names.Keys == u.names.Keys
    && (forall p | p in t.names :: t.Has(p) && u.Has(p) && SameFile(t.At(p), u.At(p)))
    && (forall p, q | p in t.names && q in t.names && !t.IsDir(p) && !t.IsDir(q) ::
          t.names[p] == t.names[q] <==> u.names[p] == u.names[q])
  }

  lemma BuiltFilesAgree(base: Tree, src: Tree, s: Sum, t: Tree, u: Tree)
    requires Closed(src, s) && Built(base, src, s, t) && Built(base, src, s, u)
    ensures t.names.Keys == u.names.Keys
    ensures forall p | p in t.names :: t.Has(p) && u.Has(p) && SameFile(t.At(p), u.At(p))
  {
  }

  /** Whether two files share an inode is settled by the sum as well. */
  ghost predicate Shared(base: Tree, src: Tree, s: Sum, p: Path, q: Path) {
    if p in s.puts then q in s.puts && src.Has(p) && src.Has(q) && src.names[p] == src.names[q]
    else q !in s.puts && p in base.names && q in base.names && base.names[p] == base.names[q]
  }

  lemma SharingIsSettled(base: Tree, src: Tree, s: Sum, t: Tree, p: Path, q: Path)
    requires base.Valid() && Closed(src, s) && Built(base, src, s, t)
    requires p in t.names && q in t.names && !t.IsDir(p) && !t.IsDir(q)
    ensures t.names[p] == t.names[q] <==> Shared(base, src, s, p, q)
  {
    assert t.Has(p) && t.Has(q);
    if p in s.puts { assert NodeMatches(base, p, t.At(p), src.At(p)); assert PutFile(src, s, t, p); }
    if q in s.puts { assert NodeMatches(base, q, t.At(q), src.At(q)); assert PutFile(src, s, t, q); }
    if p !in s.puts { assert base.Has(p) && t.names[p] == base.names[p] < base.next; }
    if q !in s.puts { assert base.Has(q) && t.names[q] == base.names[q] < base.next; }
  }

  /** Two well-formed layers that put, delete and clear the same give the same tree:
      entries may be reordered in any way that keeps parents first, and an opaque
      whiteout may stand anywhere after its directory. */
  lemma OrderDoesNotMatter(base: Tree, src: Tree, items: seq<Item>, layer: seq<Header>, items': seq<Item>,
                           layer': seq<Header>)
    requires base.Valid() && src.Valid()
    requires WellFormed(src, items) && EncodesAll(src, items, layer)
    requires WellFormed(src, items') && EncodesAll(src, items', layer')
    requires Effective(SumOf(items)) == Effective(SumOf(items'))
    ensures ApplyLayer(base, layer).Fine? && ApplyLayer(base, layer').Fine?
    ensures Alike(ApplyLayer(base, layer).tree, ApplyLayer(base, layer').tree)
    ensures forall p | p in SumOf(items).puts && src.IsDir(p) ::
      var t, u := ApplyLayer(base, layer).tree, ApplyLayer(base, layer').tree;
      t.IsDir(p) && u.IsDir(p) && t.At(p).mtime == u.At(p).mtime
  {
    LayerApplies(base, src, items, layer);
    LayerApplies(base, src, items', layer');
    ShapeIsClosed(src, items);
    EffectiveIsClosed(src, SumOf(items));
    var s, t, u := Effective(SumOf(items)), ApplyLayer(base, layer).tree, ApplyLayer(base, layer').tree;
    BuiltFilesAgree(base, src, s, t, u);
    forall p, q | p in t.names && q in t.names && !t.IsDir(p) && !t.IsDir(q)
      ensures t.names[p] == t.names[q] <==> u.names[p] == u.names[q]
    {
      assert t.Has(p) && t.Has(q) && SameFile(t.At(p), u.At(p)) && SameFile(t.At(q), u.At(q));
      SharingIsSettled(base, src, s, t, p, q);
      SharingIsSettled(base, src, s, u, p, q);
    }
  }
}
