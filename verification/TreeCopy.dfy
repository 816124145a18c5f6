/** The archive of a tree, unpacked in the same format into an empty directory, is a
    copy of the tree: without a whiteout format always, in overlay format with its
    whiteouts and opaque directories if the whiteout prefix does not interfere. */
module TreeCopy {
  import opened Names
  import opened Errors
  import opened Trees
  import opened Headers
  import opened RootFs
  import opened Extract
  import opened Preservation
  import opened Plain
  import opened Layers
  import opened LayerTheorem
  import opened Untar
  import opened WhiteoutNames
  import opened Tar
  import Overlay
  import Unpack

  // ----- what is read back -----

  /** What has been read after one more item, if s was read before.  What is at the
      place of an entry is removed first: for the entry of a whiteout that can be
      another whiteout, whose name has the prefix. */
  ghost function ReadBack(s: Sum, item: Item): Sum {
    match item
    case Put(_, _) => Plus(s, item)
    case Del(p) =>
      if p == [] then s
      else
        var rest := s.(dels := s.dels - {WhiteoutPath(p)});
        if NamesMarker(p) then Plus(rest, Opq(Parent(p))) else Plus(rest, item)
    case Opq(d) => Plus(s.(dels := s.dels - {OpaquePath(d)}), item)
  }

  ghost function ReadAll(items: seq<Item>): Sum
    decreases |items|
  {
    if items == [] then NOTHING else ReadBack(ReadAll(items[..|items| - 1]), items[|items| - 1])
  }

  /** Nothing is read that was not written, but for opaque directories. */
  lemma {:induction false} ReadIsWritten(src: Tree, items: seq<Item>)
    requires InShape(src, items)
    ensures Closed(src, ReadAll(items)) && ReadAll(items).puts == SumOf(items).puts
    ensures ReadAll(items).dels <= SumOf(items).dels && SumOf(items).opqs <= ReadAll(items).opqs
    ensures ReadAll(items).dels == SumOf(items).dels ==> ReadAll(items) == SumOf(items)
    decreases |items|
  {
    if items != [] {
      var n := |items| - 1;
      ReadIsWritten(src, items[..n]);
      ReadKeepsClosed(src, ReadAll(items[..n]), items[n]);
      ReadIsAtMost(src, SumOf(items[..n]), ReadAll(items[..n]), items[n]);
    }
  }

  lemma ReadKeepsClosed(src: Tree, r: Sum, item: Item)
    requires Closed(src, r) && Follows(src, r, item)
    ensures Closed(src, ReadBack(r, item))
  {
    var r' := ReadBack(r, item);
    forall p | p != [] && ParentReady(src, r, p) ensures ParentReady(src, r', p) {}
    forall p | p in r.dels ensures p != [] && ParentReady(src, r', p) { assert ParentReady(src, r, p); }
    forall p | p in r.puts ensures p != [] && ParentReady(src, r', p) { assert ParentReady(src, r, p); }
  }

  lemma ReadIsAtMost(src: Tree, s: Sum, r: Sum, item: Item)
    requires Follows(src, s, item) && r.puts == s.puts && r.dels <= s.dels && s.opqs <= r.opqs
    requires r.dels == s.dels ==> r == s
    ensures var s', r' := Plus(s, item), ReadBack(r, item);
      && r'.puts == s'.puts && r'.dels <= s'.dels && s'.opqs <= r'.opqs
      && (r'.dels == s'.dels ==> r' == s' && r == s)
  {
    var s', r' := Plus(s, item), ReadBack(r, item);
    if r'.dels == s'.dels {
      forall p | p in s.dels ensures p in r.dels { assert p in s'.dels; }
      assert item.Del? ==> item.path in r'.dels;
    }
  }

  /** What was lost stays lost. */
  lemma {:induction false} WholeFromTheStart(src: Tree, items: seq<Item>, k: nat)
    requires InShape(src, items) && k <= |items| && ReadAll(items) == SumOf(items)
    ensures ReadAll(items[..k]) == SumOf(items[..k])
    decreases |items|
  {
    var n := |items| - 1;
    if k <= n {
      ReadIsWritten(src, items[..n]);
      ReadIsAtMost(src, SumOf(items[..n]), ReadAll(items[..n]), items[n]);
      assert items[..n][..k] == items[..k];
      WholeFromTheStart(src, items[..n], k);
    } else {
      assert items[..k] == items;
    }
  }

  /** All whiteouts are read back: none has the name that the opaque marker hides,
      and where there are whiteouts for a name and for the name of its own whiteout
      entry, the first of these comes first. */
  ghost predicate WhiteoutsComeBack(t: Tree) {
    forall p | p != [] && Whiteout(t, p) ::
      !NamesMarker(p) && (Whiteout(t, WhiteoutPath(p)) ==> Less(Last(p), Last(WhiteoutPath(p))))
  }

  /** The place of an entry is free unless whiteouts collide. */
  lemma NothingIsLost(t: Tree, items: seq<Item>, k: nat)
    requires InShape(t, items) && InWalkOrder(items) && k < |items|
    requires forall p | p in SumOf(items).dels :: p != [] && Whiteout(t, p)
    requires forall item | item in items && item.Del? :: item.path in SumOf(items).dels
    requires WhiteoutsComeBack(t)
    ensures ReadBack(SumOf(items[..k]), items[k]) == Plus(SumOf(items[..k]), items[k])
  {
    var s, item := SumOf(items[..k]), items[k];
    WhiteoutsAreItems(items[..k]);
    match item
    case Put(_, _) =>
    case Del(p) =>
      var q := WhiteoutPath(p);
      ParentOf(Parent(p), WHITEOUT_PREFIX + Last(p));
      if q in s.dels {
        var j :| 0 <= j < k && items[j] == Del(q);
        assert Less(Last(q), Last(p));
        LessIsAsymmetric(Last(q), Last(p));
      }
    case Opq(d) =>
      ParentOf(d, WHITEOUT_OPAQUE_DIR);
  }

  lemma {:induction false} ReadsWhole(t: Tree, items: seq<Item>, k: nat)
    requires InShape(t, items) && InWalkOrder(items) && k <= |items|
    requires forall p | p in SumOf(items).dels :: p != [] && Whiteout(t, p)
    requires forall item | item in items && item.Del? :: item.path in SumOf(items).dels
    requires WhiteoutsComeBack(t)
    ensures ReadAll(items[..k]) == SumOf(items[..k])
  {
    if k > 0 {
      ReadsWhole(t, items, k - 1);
      NothingIsLost(t, items, k - 1);
      assert items[..k][..k - 1] == items[..k - 1];
    }
  }

  lemma LostAt(t: Tree, items: seq<Item>, k: nat, p: Path)
    requires InShape(t, items) && k < |items| && items[k] == Del(p) && ReadAll(items) == SumOf(items)
    ensures p != [] && !NamesMarker(p) && WhiteoutPath(p) !in SumOf(items[..k]).dels
  {
    InShapeAt(t, items, k);
    WholeFromTheStart(t, items, k);
    WholeFromTheStart(t, items, k + 1);
    assert items[..k + 1][..k] == items[..k];
    assert p in SumOf(items[..k + 1]).dels && p !in SumOf(items[..k]).dels;
    assert Last(WhiteoutPath(p)) != Last(p) by { assert |Last(WhiteoutPath(p))| > |Last(p)|; }
    assert SumOf(items[..k]).dels <= SumOf(items[..k + 1]).dels;
  }

  /** If everything is read back, no whiteouts collide. */
  lemma CollidingAreLost(t: Tree, items: seq<Item>, p: Path)
    requires InShape(t, items) && InWalkOrder(items) && ReadAll(items) == SumOf(items)
    requires p != [] && p in SumOf(items).dels
    ensures !NamesMarker(p)
    ensures WhiteoutPath(p) in SumOf(items).dels ==> Less(Last(p), Last(WhiteoutPath(p)))
  {
    hide InShape, NamesMarker, Less;
    WhiteoutsAreItems(items);
    var k :| 0 <= k < |items| && items[k] == Del(p);
    LostAt(t, items, k, p);
    var q := WhiteoutPath(p);
    if q in SumOf(items).dels {
      var j :| 0 <= j < |items| && items[j] == Del(q);
      ParentOf(Parent(p), WHITEOUT_PREFIX + Last(p));
      assert j != k by { assert |Last(q)| > |Last(p)|; }
      ItemsAreSummed(items[..k]);
      assert k < j by { assert forall i | 0 <= i < k :: items[i] in items[..k]; }
    }
  }

  /** Of an archive all is read back exactly if no whiteouts collide. */
  lemma ReadBackIsWhole(t: Tree, items: seq<Item>, archive: seq<Header>)
    requires t.Valid() && IsArchive(t, true, items, archive)
    ensures ReadAll(items) == SumOf(items) <==> WhiteoutsComeBack(t)
  {
    var s := SumOf(items);
    if WhiteoutsComeBack(t) {
      ItemsAreSummed(items);
      ReadsWhole(t, items, |items|);
      assert items[..|items|] == items;
    }
    if ReadAll(items) == s {
      forall p | p != [] && Whiteout(t, p)
        ensures !NamesMarker(p) && (Whiteout(t, WhiteoutPath(p)) ==> Less(Last(p), Last(WhiteoutPath(p))))
      {
        assert p in s.dels;
        CollidingAreLost(t, items, p);
      }
    }
  }

  // ----- what has been restored after a part of the archive -----

  /** The names are those that were put or deleted; nothing else was there. */
  ghost predicate NamesRestored(s: Sum, t: Tree) {
    forall p :: p in t.names <==> p == [] || p in s.puts || p in s.dels
  }

  /** A whiteout is a device 0:0 again, a put file is as its header says, and a
      directory is opaque if its marker was read. */
  ghost predicate NodesRestored(src: Tree, s: Sum, t: Tree) {
    && (forall p | p in s.puts :: t.Has(p) && src.Has(p) && NodeMatches(NO_TREE, p, t.At(p), src.At(p)))
    && (forall p | p in s.puts && t.Has(p) :: t.At(p).hidesLower <==> p in s.opqs)
    && forall p | p in s.dels :: t.Has(p) && t.At(p).kind == Char(0, 0)
  }

  ghost predicate Restored(src: Tree, s: Sum, t: Tree) {
    t.Valid() && NamesRestored(s, t) && NodesRestored(src, s, t) && LinksBuilt(src, s, t)
  }

  lemma ParentIsRestored(src: Tree, s: Sum, t: Tree, p: Path)
    requires Restored(src, s, t) && p != [] && ParentReady(src, s, p)
    ensures t.IsDir(Parent(p))
  {
  }

  // ----- entries in directories -----

  lemma FreeIsCleared(t: Tree, p: Path)
    requires t.Valid() && InDir(t, p) && p !in t.names
    ensures Cleared(t, t, p) && Lstat(t, p) == Missing(NotExist) && Without(t.names, p) == t.names
  {
    NoNamesBelow(t, p);
    LocatePlain(t, p);
  }

  /** A directory must not be replaced by a file, nor a file by a directory. */
  predicate Replaceable(opts: Options, t: Tree, p: Path, hdr: Header) {
    p !in t.names || (t.Has(p) && !t.At(p).kind.Dir? && !(opts.keepKinds && hdr.typeflag.TypeDir?))
  }

  /** What an entry is replaced by, or the error. */
  lemma TargetIsReplaced(opts: Options, t: Tree, q: Path, hdr: Header)
    requires t.Valid() && InDir(t, q) && (q in t.names ==> !t.IsDir(q))
    ensures
      if Replaceable(opts, t, q, hdr) then ReplaceTarget(opts, t, q, hdr) == Fine(RemoveAt(t, q))
      else opts.keepKinds && ReplaceTarget(opts, t, q, hdr).Bad?
  {
    if q in t.names {
      LstatPlain(t, q);
      RemoveAllPlain(t, q);
    } else {
      FreeIsCleared(t, q);
    }
  }

  function Progressed(done: Done, q: Path, hdr: Header, dirs: seq<UnpackedDir>, recorded: bool): UntarProgress {
    match done
    case Bad(t, e) => Fails(t, e)
    case Fine(t) => Continues(UntarState(t, if recorded then dirs + [UnpackedDir(q, BoundTime(hdr.modTime))] else dirs))
  }

  /** An entry whose name stands in a directory of the tree is handled there: what
      has its name is removed, then the entry is made or converted. */
  lemma EntryIsRead(opts: Options, s: UntarState, hdr: Header, q: Path)
    requires s.tree.Valid() && InDir(s.tree, q) && (q in s.tree.names ==> !s.tree.IsDir(q))
    requires EntryName(hdr) == Cleaned(false, 0, q) && !hdr.typeflag.TypeXGlobalHeader?
    ensures OrdinaryPath(q)
    ensures
      var t1 := RemoveAt(s.tree, q);
      var read := if opts.overlay then ConvertRead(t1, q, hdr) else WriteIt;
      var done := if read.Handled? then read.done else CreateTarFile(t1, q, hdr);
      var recorded := hdr.typeflag.TypeDir? && !(opts.overlay && IsWhiteoutName(Last(q)));
      if Replaceable(opts, s.tree, q, hdr) then UntarEntry(opts, s, hdr) == Progressed(done, q, hdr, s.dirs, recorded)
      else opts.keepKinds && UntarEntry(opts, s, hdr).Fails?
  {
    hide ConvertRead, CreateTarFile, ReplaceTarget, Tree.Valid, RemoveAt, ResolveArchivePath;
    ArchivePathPlain(s.tree, q);
    TargetIsReplaced(opts, s.tree, q, hdr);
  }

  // ----- files -----

  lemma FileIsNoWhiteout(t: Tree, p: Path, hdr: Header)
    requires p != [] && !Prefixed(p)
    ensures ConvertRead(t, p, hdr) == WriteIt
  {
  }

  /** What a file entry places. */
  ghost predicate Puts(src: Tree, s: Sum, t: Tree, p: Path, t': Tree, i: Ino, node: Inode) {
    && Placed(t, t', p, i, node, false)
    && p != [] && p !in t.names && src.Has(p) && p in src.names
    && NodeMatches(NO_TREE, p, node, src.At(p)) && !node.hidesLower
    && (i in t.inodes ==> !src.IsDir(p) && t.inodes[i].kind == node.kind && !t.inodes[i].hidesLower)
    && (forall q | q in s.puts && t.Has(q) && t.names[q] == i :: src.Has(q) && src.At(q) == src.At(p))
    && (!src.IsDir(p) ==> forall q | PutFile(src, s, t, q) :: t.names[q] == i <==> src.names[q] == src.names[p])
  }

  lemma PutRestoresNodes(src: Tree, s: Sum, t: Tree, p: Path, t': Tree, i: Ino, node: Inode)
    requires Closed(src, s) && Restored(src, s, t) && Puts(src, s, t, p, t', i, node) && p !in s.opqs
    ensures NodesRestored(src, s.(puts := s.puts + {p}), t')
  {
    NoNamesBelow(t, p);
    forall q | q in s.puts + {p}
      ensures t'.Has(q) && src.Has(q) && NodeMatches(NO_TREE, q, t'.At(q), src.At(q))
      ensures t'.At(q).hidesLower <==> q in s.opqs
    {
      if q != p {
        assert t.Has(q) && NodeMatches(NO_TREE, q, t.At(q), src.At(q)) && t'.names[q] == t.names[q];
        if t.names[q] != i { assert SameButTime(t.At(q), t'.At(q)); }
      }
    }
    forall q | q in s.dels ensures t'.Has(q) && t'.At(q).kind == Char(0, 0) {
      assert t.Has(q) && t'.names[q] == t.names[q];
      if t.names[q] != i { assert SameButTime(t.At(q), t'.At(q)); }
    }
  }

  lemma PutRestores(src: Tree, s: Sum, t: Tree, p: Path, t': Tree, i: Ino, node: Inode)
    requires Closed(src, s) && Restored(src, s, t) && Puts(src, s, t, p, t', i, node) && p !in s.opqs
    ensures Restored(src, s.(puts := s.puts + {p}), t')
  {
    var s' := s.(puts := s.puts + {p});
    NoNamesBelow(t, p);
    PutRestoresNodes(src, s, t, p, t', i, node);
    forall a, b | PutFile(src, s', t', a) && PutFile(src, s', t', b)
      ensures t'.names[a] == t'.names[b] <==> src.names[a] == src.names[b]
    {
      assert a != p ==> t.Has(a) && PutFile(src, s, t, a);
      assert b != p ==> t.Has(b) && PutFile(src, s, t, b);
    }
  }

  lemma NewFilePlaced(src: Tree, s: Sum, t: Tree, p: Path)
    requires src.Valid() && Closed(src, s) && Restored(src, s, t) && Follows(src, s, Put(p, None))
    requires InDir(t, p) && p !in t.names
    requires Creates(EntryHeader(src.At(p), p, None))
    ensures var hdr := EntryHeader(src.At(p), p, None);
      var r := CreateTarFile(t, p, hdr);
      r.Fine? && Puts(src, s, t, p, r.tree, t.next, WithMetadata(Fresh(t, NewKind(hdr), NewPerm(hdr)), hdr))
  {
    var hdr := EntryHeader(src.At(p), p, None);
    FreshNodeMatches(NO_TREE, src, t, p);
    CreateTarFilePlain(t, p, hdr);
    FreeIsCleared(t, p);
    var node := Fresh(t, NewKind(hdr), NewPerm(hdr));
    PlacedInSteps(t, t, CreateAt(t, p, NewKind(hdr), NewPerm(hdr)), p, t.next, node, WithMetadata(node, hdr));
    assert t.next !in t.inodes;
  }

  lemma LinkPlaced(src: Tree, s: Sum, t: Tree, p: Path, x: Path)
    requires src.Valid() && Closed(src, s) && Restored(src, s, t) && Follows(src, s, Put(p, Some(x)))
    requires InDir(t, p) && p !in t.names
    ensures var hdr := EntryHeader(src.At(p), p, Some(x));
      var r := CreateTarFile(t, p, hdr);
      r.Fine? && t.Has(x) && Puts(src, s, t, p, r.tree, t.names[x], WithMetadata(t.At(x), hdr))
  {
    var hdr := EntryHeader(src.At(p), p, Some(x));
    assert t.Has(x) && NodeMatches(NO_TREE, x, t.At(x), src.At(x)) && !src.IsDir(x);
    LinkedNodeMatches(NO_TREE, src, t, p, x);
    LinkTarFilePlain(t, p, hdr, x);
    FreeIsCleared(t, p);
    PlacedInSteps(t, t, LinkTo(t, x, p).tree, p, t.names[x], t.At(x), WithMetadata(t.At(x), hdr));
    assert PutFile(src, s, t, x);
    SameSource(NO_TREE, src, s, t, x);
    assert x !in s.opqs;
  }

  /** The state after one more item. */
  ghost predicate StepDone(src: Tree, s: Sum, r: UntarProgress) {
    r.Continues? && Restored(src, s, r.state.tree) && Recorded(src, s, LayerState(r.state.tree, r.state.dirs, s.puts))
  }

  lemma FileRestores(src: Tree, s: Sum, t: Tree, p: Path, link: Option<Path>)
    requires src.Valid() && Closed(src, s) && Restored(src, s, t) && Follows(src, s, Put(p, link))
    requires InDir(t, p) && p !in t.names
    ensures var r := CreateTarFile(t, p, EntryHeader(src.At(p), p, link));
      r.Fine? && Restored(src, s.(puts := s.puts + {p}), r.tree)
  {
    hide Closed, Restored, Puts, CreateTarFile, WithMetadata, Tree.Valid;
    OpaqueArePut(src, s, p, link);
    var hdr := EntryHeader(src.At(p), p, link);
    match link {
      case None =>
        NewFilePlaced(src, s, t, p);
        var node := WithMetadata(Fresh(t, NewKind(hdr), NewPerm(hdr)), hdr);
        PutRestores(src, s, t, p, CreateTarFile(t, p, hdr).tree, t.next, node);
      case Some(x) =>
        LinkPlaced(src, s, t, p, x);
        PutRestores(src, s, t, p, CreateTarFile(t, p, hdr).tree, t.names[x], WithMetadata(t.At(x), hdr));
    }
  }

  lemma OpaqueArePut(src: Tree, s: Sum, p: Path, link: Option<Path>)
    requires src.Valid() && Closed(src, s) && Follows(src, s, Put(p, link))
    ensures p !in s.opqs
    ensures link.None? ==> Creates(EntryHeader(src.At(p), p, link))
  {
  }

  lemma PlaceIsFree(src: Tree, s: Sum, t: Tree, p: Path)
    requires Restored(src, s, t) && p != [] && p !in s.puts && p !in s.dels && ParentReady(src, s, p)
    requires Ordinary(Last(p))
    ensures t.Valid() && InDir(t, p) && p !in t.names
  {
  }

  lemma FileEntryRestores(opts: Options, src: Tree, s: Sum, us: UntarState, hdr: Header, p: Path, link: Option<Path>)
    requires (opts.overlay ==> !Prefixed(p)) && src.Valid() && Closed(src, s)
    requires Restored(src, s, us.tree) && Recorded(src, s, LayerState(us.tree, us.dirs, s.puts))
    requires Follows(src, s, Put(p, link)) && Encodes(src, Put(p, link), hdr)
    ensures StepDone(src, ReadBack(s, Put(p, link)), UntarEntry(opts, us, hdr))
  {
    hide Closed, Restored, CreateTarFile, UntarEntry, Tree.Valid, Recorded, ParentReady;
    var t := us.tree;
    PlaceIsFree(src, s, t, p);
    LocatePlain(t, p);
    EntryNameReadsBack(p);
    if opts.overlay { FileIsNoWhiteout(t, p, hdr); }
    EntryIsRead(opts, us, hdr, p);
    FileRestores(src, s, t, p, link);
    var r' := UntarEntry(opts, us, hdr).state;
    PutRecords(src, s, LayerState(t, us.dirs, s.puts), LayerState(r'.tree, r'.dirs, s.puts + {p}), p);
  }

  // ----- whiteouts -----

  /** The place of a whiteout entry, which holds nothing but perhaps a whiteout, is
      cleared. */
  lemma RemovalRestores(src: Tree, s: Sum, t: Tree, q: Path)
    requires Restored(src, s, t) && InDir(t, q) && q !in s.puts
    ensures q in t.names ==> q in s.dels && !t.IsDir(q)
    ensures Restored(src, s.(dels := s.dels - {q}), RemoveAt(t, q))
  {
    hide NodeMatches, LinksBuilt;
    assert q in t.names ==> q in s.dels && t.Has(q) && t.At(q).kind == Char(0, 0);
    NoNamesUnder(t, q);
    hide NodesRestored, NamesRestored;
    RemoveAllPlain(t, q);
    RemovedInodes(t, q);
    FewerAreRestored(src, s, t, q, RemoveAt(t, q));
  }

  lemma FewerAreRestored(src: Tree, s: Sum, t: Tree, q: Path, t': Tree)
    requires Restored(src, s, t) && t'.Valid() && t'.names.Keys == t.names.Keys - {q} && q != [] && q !in s.puts
    requires forall p | p in t'.names :: t'.names[p] == t.names[p]
    requires t'.inodes.Keys == t.inodes.Keys && forall i | i in t.inodes :: SameButTime(t.inodes[i], t'.inodes[i])
    ensures Restored(src, s.(dels := s.dels - {q}), t')
  {
    var s' := s.(dels := s.dels - {q});
    forall p | p in t'.names ensures t.Has(p) && t'.Has(p) && SameButTime(t.At(p), t'.At(p)) { assert t.Has(p); }
    assert NodesRestored(src, s', t') by {
      forall p | p in s'.puts
        ensures t'.Has(p) && src.Has(p) && NodeMatches(NO_TREE, p, t'.At(p), src.At(p))
        ensures t'.At(p).hidesLower <==> p in s'.opqs
      {
        assert NodeMatches(NO_TREE, p, t.At(p), src.At(p)) && p in t'.names;
      }
    }
    forall p | PutFile(src, s', t', p) ensures PutFile(src, s, t, p) { assert t.Has(p); }
  }

  lemma NoNamesUnder(t: Tree, q: Path)
    requires t.Valid() && !t.IsDir(q)
    ensures forall r | r in t.names && q <= r :: r == q
  {
    forall r | r in t.names && q <= r ensures r == q {
      if r != q { AncestorsAreDirs(t, q, r); }
    }
  }

  /** A whiteout entry makes a whiteout at the hidden name, prefixed or not. */
  lemma WhiteoutIsRead(t: Tree, hdr: Header, p: Path)
    requires t.Valid() && InDir(t, p) && p !in t.names && !NamesMarker(p)
    ensures var r := ConvertRead(t, WhiteoutPath(p), hdr);
      r.Handled? && r.done.Fine? && Placed(t, r.done.tree, p, t.next,
        Fresh(t, Char(0, 0), 0).(uid := hdr.uid, gid := hdr.gid), false)
  {
    hide MakeWhiteout, Placed, Tree.Valid;
    WhiteoutOf(Last(p));
    ParentOf(Parent(p), WHITEOUT_PREFIX + Last(p));
    WhiteoutIsMade(t, hdr, p);
  }

  lemma WhiteoutIsMade(t: Tree, hdr: Header, p: Path)
    requires t.Valid() && InDir(t, p) && p !in t.names
    ensures var r := MakeWhiteout(t, Parent(p), Last(p), hdr);
      r.Fine? && Placed(t, r.tree, p, t.next, Fresh(t, Char(0, 0), 0).(uid := hdr.uid, gid := hdr.gid), false)
  {
    ParentAndLast(p);
    FollowPlain(t, Parent(p));
    CreatedAt(t, p, Char(0, 0), 0);
    FreeIsCleared(t, p);
    var t' := CreateAt(t, p, Char(0, 0), 0);
    var node := Fresh(t, Char(0, 0), 0);
    var node' := node.(uid := hdr.uid, gid := hdr.gid);
    assert t'.At(p) == node;
    SetInodeIsSafe(t', p, node');
    PlacedInSteps(t, t, t', p, t.next, node, node');
    if hdr.uid == 0 && hdr.gid == 0 { SetSame(t', p); }
  }

  lemma DelRestores(src: Tree, s: Sum, t: Tree, p: Path, t': Tree, node: Inode)
    requires src.Valid() && Closed(src, s) && Restored(src, s, t)
    requires p != [] && p !in t.names
    requires Placed(t, t', p, t.next, node, false) && node.kind == Char(0, 0)
    ensures Restored(src, s.(dels := s.dels + {p}), t')
  {
    var s' := s.(dels := s.dels + {p});
    NewNameKeepsOthers(t, t', p, node);
    assert t'.Has(p) && t'.At(p) == node;
    DelKeepsNodes(src, s, t, p, t');
    forall a | PutFile(src, s', t', a) ensures PutFile(src, s, t, a) { assert t.Has(a); }
  }

  lemma DelKeepsNodes(src: Tree, s: Sum, t: Tree, p: Path, t': Tree)
    requires NamesRestored(s, t) && NodesRestored(src, s, t) && KeepsOthers(t, t')
    requires t'.Has(p) && t'.At(p).kind == Char(0, 0)
    ensures NodesRestored(src, s.(dels := s.dels + {p}), t')
  {
    forall q | q in s.puts
      ensures t'.Has(q) && src.Has(q) && NodeMatches(NO_TREE, q, t'.At(q), src.At(q))
      ensures t'.At(q).hidesLower <==> q in s.opqs
    {
      assert t.Has(q) && NodeMatches(NO_TREE, q, t.At(q), src.At(q));
    }
  }

  /** The state after one more item, if the entry did not fail because a directory
      must not replace a whiteout that is lost by it. */
  ghost predicate WhiteoutDone(opts: Options, src: Tree, s: Sum, item: Item, r: UntarProgress) {
    if r.Continues? then StepDone(src, ReadBack(s, item), r)
    else opts.keepKinds && !(s.dels <= ReadBack(s, item).dels)
  }

  lemma WhiteoutRestores(src: Tree, s: Sum, t: Tree, hdr: Header, p: Path)
    requires src.Valid() && Closed(src, s) && Restored(src, s, t) && Follows(src, s, Del(p))
    ensures var r := ConvertRead(t, WhiteoutPath(p), hdr);
      && r.Handled? && r.done.Fine?
      && Restored(src, if NamesMarker(p) then Plus(s, Opq(Parent(p))) else Plus(s, Del(p)), r.done.tree)
  {
    hide Tree.Valid, ConvertRead, NodesRestored, LinksBuilt, Closed;
    ParentIsRestored(src, s, t, p);
    if NamesMarker(p) {
      WhiteoutOf(Last(p));
      assert WhiteoutPath(p) == OpaquePath(Parent(p));
      MarkerRestores(src, s, t, hdr, Parent(p));
    } else {
      WhiteoutIsRead(t, hdr, p);
      var node := Fresh(t, Char(0, 0), 0).(uid := hdr.uid, gid := hdr.gid);
      DelRestores(src, s, t, p, ConvertRead(t, WhiteoutPath(p), hdr).done.tree, node);
    }
  }

  lemma WhiteoutPlace(src: Tree, s: Sum, t: Tree, p: Path)
    requires Restored(src, s, t) && ProperPuts(s) && Follows(src, s, Del(p))
    ensures var q := WhiteoutPath(p); t.Valid() && InDir(t, q) && Prefixed(q) && q !in s.puts
  {
    ParentIsRestored(src, s, t, p);
    WhiteoutOf(Last(p));
    ParentOf(Parent(p), WHITEOUT_PREFIX + Last(p));
  }

  lemma WhiteoutEntryRestores(opts: Options, src: Tree, s: Sum, us: UntarState, hdr: Header, p: Path)
    requires opts.overlay && src.Valid() && Closed(src, s) && ProperPuts(s)
    requires Restored(src, s, us.tree) && Recorded(src, s, LayerState(us.tree, us.dirs, s.puts))
    requires Follows(src, s, Del(p)) && Encodes(src, Del(p), hdr)
    ensures WhiteoutDone(opts, src, s, Del(p), UntarEntry(opts, us, hdr))
  {
    hide UntarEntry, Tree.Valid, Recorded, ConvertRead, Restored, Closed, RemoveAt, InDir;
    var t, q := us.tree, WhiteoutPath(p);
    WhiteoutPlace(src, s, t, p);
    RemovalRestores(src, s, t, q);
    EntryIsRead(opts, us, hdr, q);
    var t1, s1 := RemoveAt(t, q), s.(dels := s.dels - {q});
    ClosedWithout(src, s, q);
    if Replaceable(opts, t, q, hdr) {
      WhiteoutRestores(src, s1, t1, hdr, p);
      StillRecorded(src, s, ReadBack(s, Del(p)), us, ConvertRead(t1, q, hdr).done.tree);
    }
  }

  /** Whiteouts do not touch the memory of directories. */
  lemma StillRecorded(src: Tree, s: Sum, s': Sum, us: UntarState, t': Tree)
    requires Recorded(src, s, LayerState(us.tree, us.dirs, s.puts)) && s'.puts == s.puts
    ensures Recorded(src, s', LayerState(t', us.dirs, s'.puts))
  {
  }

  lemma ClosedWithout(src: Tree, s: Sum, q: Path)
    requires Closed(src, s)
    ensures Closed(src, s.(dels := s.dels - {q}))
  {
    var s' := s.(dels := s.dels - {q});
    forall p | p != [] && ParentReady(src, s, p) ensures ParentReady(src, s', p) {}
    forall p | p in s'.dels ensures p != [] && ParentReady(src, s', p) { assert ParentReady(src, s, p); }
    forall p | p in s'.puts ensures p != [] && ParentReady(src, s', p) { assert ParentReady(src, s, p); }
  }

  // ----- opaque directories -----

  lemma OpaqueIsRead(t: Tree, hdr: Header, d: Path)
    requires t.Valid() && t.IsDir(d)
    ensures var t' := SetInode(t, d, t.At(d).(hidesLower := true));
      ConvertRead(t, OpaquePath(d), hdr) == Handled(Fine(t')) && t'.Valid()
  {
    ParentOf(d, WHITEOUT_OPAQUE_DIR);
    assert |WHITEOUT_OPAQUE_DIR| > |WHITEOUT_PREFIX + ".."|;
    FollowPlain(t, d);
    SetInodeIsSafe(t, d, t.At(d).(hidesLower := true));
  }

  lemma OpqRestores(src: Tree, s: Sum, t: Tree, d: Path)
    requires Closed(src, s) && Restored(src, s, t) && t.IsDir(d) && (d == [] || d in s.puts)
    requires SetInode(t, d, t.At(d).(hidesLower := true)).Valid()
    ensures Restored(src, s.(opqs := s.opqs + {d}), SetInode(t, d, t.At(d).(hidesLower := true)))
  {
    var s', t' := s.(opqs := s.opqs + {d}), SetInode(t, d, t.At(d).(hidesLower := true));
    forall q | q in t.names
      ensures t'.Has(q) && t'.At(q) == (if q == d then t.At(q).(hidesLower := true) else t.At(q))
    {
      assert t.Has(q);
    }
    forall q | q in s'.puts ensures t'.Has(q) && src.Has(q) && NodeMatches(NO_TREE, q, t'.At(q), src.At(q)) {
      assert t.Has(q) && NodeMatches(NO_TREE, q, t.At(q), src.At(q));
    }
    forall a | PutFile(src, s', t', a) ensures PutFile(src, s, t, a) { assert t.Has(a); }
  }

  lemma DirIsRestored(src: Tree, s: Sum, t: Tree, d: Path)
    requires Restored(src, s, t) && (d == [] || (d in s.puts && src.IsDir(d)))
    ensures t.IsDir(d)
  {
    if d != [] { assert NodeMatches(NO_TREE, d, t.At(d), src.At(d)); }
  }

  lemma MarkerRestores(src: Tree, s: Sum, t: Tree, hdr: Header, d: Path)
    requires src.Valid() && Closed(src, s) && Restored(src, s, t) && (d == [] || (d in s.puts && src.IsDir(d)))
    ensures var r := ConvertRead(t, OpaquePath(d), hdr);
      r.Handled? && r.done.Fine? && Restored(src, s.(opqs := s.opqs + {d}), r.done.tree)
  {
    DirIsRestored(src, s, t, d);
    OpaqueIsRead(t, hdr, d);
    OpqRestores(src, s, t, d);
  }

  lemma MarkerEntryRestores(opts: Options, src: Tree, s: Sum, us: UntarState, hdr: Header, d: Path)
    requires opts.overlay && src.Valid() && Closed(src, s) && ProperPuts(s)
    requires Restored(src, s, us.tree) && Recorded(src, s, LayerState(us.tree, us.dirs, s.puts))
    requires Follows(src, s, Opq(d)) && Encodes(src, Opq(d), hdr)
    ensures WhiteoutDone(opts, src, s, Opq(d), UntarEntry(opts, us, hdr))
  {
    hide UntarEntry, Tree.Valid, Recorded, ConvertRead, LinksBuilt;
    var t, q := us.tree, OpaquePath(d);
    OpaqueName();
    ParentOf(d, WHITEOUT_OPAQUE_DIR);
    DirIsRestored(src, s, t, d);
    assert InDir(t, q) && Prefixed(q) && q !in s.puts;
    RemovalRestores(src, s, t, q);
    EntryIsRead(opts, us, hdr, q);
    ClosedWithout(src, s, q);
    if Replaceable(opts, t, q, hdr) {
      MarkerRestores(src, s.(dels := s.dels - {q}), RemoveAt(t, q), hdr, d);
      StillRecorded(src, s, ReadBack(s, Opq(d)), us, ConvertRead(RemoveAt(t, q), q, hdr).done.tree);
    }
  }

  // ----- the whole archive -----

  lemma NothingRestored(base: Tree, src: Tree)
    requires base.Valid() && base.names.Keys == {[]}
    ensures Restored(src, NOTHING, base) && Recorded(src, NOTHING, LayerState(base, [], {}))
  {
  }

  /** What the format can read: in overlay format no prefixed files, otherwise files
      alone. */
  ghost predicate Readable(overlay: bool, s: Sum) {
    if overlay then ProperPuts(s) else s.dels == {} && s.opqs == {}
  }

  lemma {:induction false} EntriesRestore(opts: Options, base: Tree, src: Tree, items: seq<Item>, archive: seq<Header>)
    requires base.Valid() && base.names.Keys == {[]} && src.Valid()
    requires InShape(src, items) && Readable(opts.overlay, SumOf(items)) && EncodesAll(src, items, archive)
    ensures var r := UntarEntries(opts, UntarState(base, []), archive);
      if r.Continues? then StepDone(src, ReadAll(items), r) else opts.keepKinds && ReadAll(items) != SumOf(items)
    decreases |items|
  {
    hide Closed, Restored, Recorded, UntarEntry, Encodes, Tree.Valid, Follows, WhiteoutDone, ReadBack;
    if items == [] {
      NothingRestored(base, src);
    } else {
      var n := |items| - 1;
      EntriesRestore(opts, base, src, items[..n], archive[..n]);
      ReadIsWritten(src, items[..n]);
      var r, s := UntarEntries(opts, UntarState(base, []), archive[..n]), ReadAll(items[..n]);
      NextIsReady(src, items);
      if r.Fails? {
        if ReadAll(items) == SumOf(items) { WholeFromTheStart(src, items, n); }
      } else {
        match items[n]
        case Put(p, link) => FileEntryRestores(opts, src, s, r.state, archive[n], p, link);
        case Del(p) =>
          WhiteoutEntryRestores(opts, src, s, r.state, archive[n], p);
          FailedIsLost(opts, src, items, UntarEntry(opts, r.state, archive[n]));
        case Opq(d) =>
          MarkerEntryRestores(opts, src, s, r.state, archive[n], d);
          FailedIsLost(opts, src, items, UntarEntry(opts, r.state, archive[n]));
      }
    }
  }

  lemma NextIsReady(src: Tree, items: seq<Item>)
    requires items != [] && InShape(src, items)
    ensures Follows(src, ReadAll(items[..|items| - 1]), items[|items| - 1])
  {
    ReadIsWritten(src, items[..|items| - 1]);
  }

  lemma FailedIsLost(opts: Options, src: Tree, items: seq<Item>, r: UntarProgress)
    requires items != [] && InShape(src, items)
    requires WhiteoutDone(opts, src, ReadAll(items[..|items| - 1]), items[|items| - 1], r)
    ensures if r.Continues? then StepDone(src, ReadAll(items), r) else opts.keepKinds && ReadAll(items) != SumOf(items)
  {
    var n := |items| - 1;
    ReadIsWritten(src, items[..n]);
    if r.Fails? {
      var q :| q in ReadAll(items[..n]).dels && q !in ReadAll(items).dels;
      assert q in SumOf(items).dels;
    }
  }

  // ----- the times of directories -----

  ghost predicate DirsOf(src: Tree, s: Sum, dirs: seq<UnpackedDir>) {
    forall d | d in dirs :: d.name in s.puts && src.IsDir(d.name) && d.mtime == BoundTime(src.At(d.name).mtime)
  }

  lemma RecordedDirIsThere(src: Tree, s: Sum, t: Tree, d: Path)
    requires Restored(src, s, t) && d in s.puts && src.IsDir(d)
    ensures t.IsDir(d) && Follow(t, d) == Found(d)
  {
    assert NodeMatches(NO_TREE, d, t.At(d), src.At(d));
    FollowPlain(t, d);
  }

  lemma {:induction false} LastTimeIs(src: Tree, s: Sum, t: Tree, dirs: seq<UnpackedDir>, p: Path)
    requires Restored(src, s, t) && DirsOf(src, s, dirs) && p in t.names
    ensures
      match LastTime(t, dirs, t.names[p])
      case Some(m) => p in s.puts && src.IsDir(p) && t.IsDir(p) && m == BoundTime(src.At(p).mtime)
      case None => forall d | d in dirs :: d.name != p
    decreases |dirs|
  {
    if dirs != [] {
      var n := |dirs| - 1;
      assert dirs == dirs[..n] + [dirs[n]];
      LastTimeIs(src, s, t, dirs[..n], p);
      RecordedDirIsThere(src, s, t, dirs[n].name);
    }
  }

  /** The tree after the times have been set. */
  ghost predicate TimesSet(src: Tree, s: Sum, t: Tree, t': Tree) {
    && t'.names == t.names
    && forall p | p in t.names :: t.Has(p) && t'.Has(p) && t'.At(p) ==
         if p in s.puts && src.IsDir(p) then t.At(p).(mtime := BoundTime(src.At(p).mtime)) else t.At(p)
  }

  lemma TimesAreSet(src: Tree, s: Sum, t: Tree, dirs: seq<UnpackedDir>)
    requires Restored(src, s, t) && Recorded(src, s, LayerState(t, dirs, s.puts))
    ensures var r := ApplyDirTimes(t, dirs); r.Fine? && TimesSet(src, s, t, r.tree)
  {
    forall d | d in dirs ensures Follow(t, d.name).Found? { RecordedDirIsThere(src, s, t, d.name); }
    DirTimesAreDeferred(t, dirs);
    var t' := ApplyDirTimes(t, dirs).tree;
    forall p | p in t.names
      ensures t.Has(p) && t'.Has(p)
      ensures t'.At(p) == if p in s.puts && src.IsDir(p) then t.At(p).(mtime := BoundTime(src.At(p).mtime)) else t.At(p)
    {
      assert t.Has(p);
      LastTimeIs(src, s, t, dirs, p);
      if p in s.puts && src.IsDir(p) {
        assert UnpackedDir(p, BoundTime(src.At(p).mtime)) in dirs;
      }
    }
  }

  // ----- the copy -----

  /** What an archive carries of a file. */
  predicate CopyOf(node: Inode, source: Inode) {
    && node.kind == source.kind && node.perm == source.perm && node.uid == source.uid && node.gid == source.gid
    && node.caps == CapRecord(source.caps) && node.mtime == HeaderTime(source.mtime)
  }

  /** All but sockets is there, with the same hard links.  In overlay format whiteouts
      are whiteouts and opaque directories are opaque; everything else is a copy. */
  ghost predicate IsCopy(src: Tree, overlay: bool, t: Tree) {
    && (forall p :: p in t.names <==> p in src.names && !IsSocket(src, p))
    && (forall p | p in t.names && p != [] :: t.Has(p) && src.Has(p)
          && (Whiteout(t, p) <==> Whiteout(src, p))
          && (OpaqueDir(t, p) <==> overlay && OpaqueDir(src, p))
          && (!(overlay && Whiteout(src, p)) ==> CopyOf(t.At(p), src.At(p))))
    && KeepsLinks(src, overlay, t)
  }

  lemma RestoredIsCopy(src: Tree, overlay: bool, t: Tree, t': Tree)
    requires src.Valid() && Restored(ArchivalTree(src), TreeSum(src, overlay), t)
    requires TimesSet(ArchivalTree(src), TreeSum(src, overlay), t, t')
    ensures IsCopy(src, overlay, t')
  {
    ArchivalNodes(src);
    var a, s := ArchivalTree(src), TreeSum(src, overlay);
    assert src.IsDir([]);
    forall p ensures p in t'.names <==> p in src.names && !IsSocket(src, p) {
      assert p in src.names && p != [] ==> src.Has(p);
    }
    forall p | p in t'.names && p != []
      ensures t'.Has(p) && src.Has(p)
      ensures Whiteout(t', p) <==> Whiteout(src, p)
      ensures OpaqueDir(t', p) <==> overlay && OpaqueDir(src, p)
      ensures !(overlay && Whiteout(src, p)) ==> CopyOf(t'.At(p), src.At(p))
    {
      assert p in t.names && src.Has(p) && (p in s.puts <==> !(overlay && Whiteout(src, p)));
      if p in s.puts { assert NodeMatches(NO_TREE, p, t.At(p), a.At(p)); }
    }
    LinksAreCopied(src, overlay, t, t');
  }

  lemma LinksAreCopied(src: Tree, overlay: bool, t: Tree, t': Tree)
    requires src.Valid() && Restored(ArchivalTree(src), TreeSum(src, overlay), t) && t'.names == t.names
    ensures KeepsLinks(src, overlay, t')
  {
    ArchivalNodes(src);
    var a, s := ArchivalTree(src), TreeSum(src, overlay);
    forall p | ArchivedFile(src, overlay, t', p) ensures PutFile(a, s, t, p) { assert p in s.puts && t.Has(p); }
    forall p, q | ArchivedFile(src, overlay, t', p) && q in t'.names && !Archived(src, overlay, q)
      ensures t'.names[p] != t'.names[q]
    {
      assert PutFile(a, s, t, p) && NodeMatches(NO_TREE, p, t.At(p), a.At(p));
      assert q == [] || q in s.dels;
    }
  }

  /** Where whiteouts were lost, there is no copy. */
  /** The conditions under which the archive of a tree gives a copy. */
  ghost predicate ComesBack(t: Tree, overlay: bool) {
    overlay ==> Overlay.NoWhiteoutNames(t) && WhiteoutsComeBack(t)
  }

  /** A file whose name has the whiteout prefix is no directory. */
  ghost predicate PrefixIsFree(t: Tree, overlay: bool) {
    overlay ==> forall p | Archived(t, true, p) && Prefixed(p) :: !t.IsDir(p)
  }

  /** The round trip of archives: without a whiteout format always; in overlay format,
      if no file has the whiteout prefix, exactly if no whiteouts collide. */
  lemma CopyRoundTrips(base: Tree, src: Tree, opts: Options, items: seq<Item>, archive: seq<Header>)
    requires base.Valid() && base.names.Keys == {[]} && src.Valid() && IsArchive(src, opts.overlay, items, archive)
    ensures ComesBack(src, opts.overlay) ==>
      var r := UntarAll(opts, base, archive); r.Fine? && IsCopy(src, opts.overlay, r.tree)
    ensures PrefixIsFree(src, opts.overlay) || Overlay.NoWhiteoutNames(src) ==>
      var r := UntarAll(opts, base, archive);
      (r.Fine? && IsCopy(src, opts.overlay, r.tree)) <==> ComesBack(src, opts.overlay)
  {
    hide IsCopy, UntarAll, Overlay.NoWhiteoutNames, PrefixIsFree, IsArchive, WhiteoutsComeBack;
    if !opts.overlay || Overlay.NoWhiteoutNames(src) {
      ReadableRoundTrips(base, src, opts, items, archive);
    } else if PrefixIsFree(src, true) {
      PrefixedIsNotCopied(base, src, opts, archive);
    }
  }

  lemma ReadableRoundTrips(base: Tree, src: Tree, opts: Options, items: seq<Item>, archive: seq<Header>)
    requires base.Valid() && base.names.Keys == {[]} && src.Valid() && IsArchive(src, opts.overlay, items, archive)
    requires opts.overlay ==> Overlay.NoWhiteoutNames(src)
    ensures var r := UntarAll(opts, base, archive);
      (r.Fine? && IsCopy(src, opts.overlay, r.tree)) <==> (opts.overlay ==> WhiteoutsComeBack(src))
  {
    hide IsCopy, Restored, TimesSet, WhiteoutsComeBack;
    var a := ArchivalTree(src);
    ArchivalNodes(src);
    ShapeIsWellFormed(src, items);
    ReadIsWritten(a, items);
    EntriesRestore(opts, base, a, items, archive);
    if opts.overlay { ReadBackIsWhole(src, items, archive); }
    var r := UntarEntries(opts, UntarState(base, []), archive);
    if r.Continues? {
      TimesAreSet(a, ReadAll(items), r.state.tree, r.state.dirs);
      var t := ApplyDirTimes(r.state.tree, r.state.dirs).tree;
      if ReadAll(items) == SumOf(items) {
        RestoredIsCopy(src, opts.overlay, r.state.tree, t);
      } else {
        NotWholeIsNoCopy(src, ReadAll(items), r.state.tree, t);
      }
    }
  }

  /** Where whiteouts were lost, there is no copy. */
  lemma NotWholeIsNoCopy(src: Tree, s: Sum, t: Tree, t': Tree)
    requires src.Valid() && Restored(ArchivalTree(src), s, t) && TimesSet(ArchivalTree(src), s, t, t')
    requires s.puts == TreeSum(src, true).puts && s.dels <= TreeSum(src, true).dels && s.dels != TreeSum(src, true).dels
    ensures !IsCopy(src, true, t')
  {
    var p :| p in TreeSum(src, true).dels && p !in s.dels;
    assert p !in t'.names && p in src.names;
  }

  lemma PrefixedIsNotCopied(base: Tree, src: Tree, opts: Options, archive: seq<Header>)
    requires base.Valid() && base.names.Keys == {[]} && src.Valid() && opts.overlay
    requires PrefixIsFree(src, true) && !Overlay.NoWhiteoutNames(src)
    ensures !IsCopy(src, true, UntarAll(opts, base, archive).tree)
  {
    hide UntarAll;
    ArchivesMakeNoWhiteoutFiles(opts, base, archive);
    var p :| Archived(src, true, p) && Prefixed(p);
    assert src.Has(p);
  }

  /** A copy of an upper directory hides and shows the same as the original without its
      sockets, over any lower tree. */
  lemma CopyShowsTheSame(lower: Tree, upper: Tree, t: Tree, p: Path)
    requires upper.Valid() && t.Valid() && IsCopy(upper, true, t)
    ensures Overlay.Shows(lower, t, p) <==> Overlay.Shows(lower, Overlay.WithoutSockets(upper), p)
  {
    Overlay.WithoutSocketsIsValid(upper);
    var w := Overlay.WithoutSockets(upper);
    forall q | q in w.names ensures q in t.names && t.Has(q) && w.Has(q) { assert w.Has(q); }
    forall q | q in w.names && q != []
      ensures w.IsDir(q) && !w.At(q).hidesLower <==> t.IsDir(q) && !t.At(q).hidesLower
    {
      if !Whiteout(upper, q) { assert CopyOf(t.At(q), upper.At(q)); }
    }
  }

  /** Inputs on which the overlay archive gives no copy: a file with the whiteout
      prefix, a whiteout for `.wh..opq`, and whiteouts for `x` and `.wh.x`. */
  lemma FailingCopies(items: seq<Item>, archive: seq<Header>, keepKinds: bool)
    ensures FailsOn(OneFile(".wh.x", Reg("")), items, archive, keepKinds)
    ensures FailsOn(OneFile(".wh..opq", Char(0, 0)), items, archive, keepKinds)
    ensures FailsOn(TwoFiles("x", ".wh.x", Char(0, 0)), items, archive, keepKinds)
  {
    hide FailsOn;
    PrefixFails(items, archive, keepKinds);
    MarkerFails(items, archive, keepKinds);
    CollisionFails(items, archive, keepKinds);
  }

  ghost predicate FailsOn(src: Tree, items: seq<Item>, archive: seq<Header>, keepKinds: bool) {
    var r := UntarAll(Options(true, keepKinds), ROOT_ONLY, archive);
    && src.Valid() && ROOT_ONLY.Valid()
    && (IsArchive(src, true, items, archive) ==> !(r.Fine? && IsCopy(src, true, r.tree)))
  }

  lemma PrefixFails(items: seq<Item>, archive: seq<Header>, keepKinds: bool)
    ensures FailsOn(OneFile(".wh.x", Reg("")), items, archive, keepKinds)
  {
    hide IsCopy, UntarAll, IsArchive, Tree.Valid;
    var src, p := OneFile(".wh.x", Reg("")), [".wh.x"];
    SmallTreesAreValid(".wh.x", Reg(""));
    assert Last(p) == ".wh.x" && WHITEOUT_PREFIX <= ".wh.x";
    assert Archived(src, true, p) && Prefixed(p);
    assert forall q | Archived(src, true, q) :: q == p;
    PrefixedIsNotCopied(ROOT_ONLY, src, Options(true, keepKinds), archive);
  }

  lemma MarkerFails(items: seq<Item>, archive: seq<Header>, keepKinds: bool)
    ensures FailsOn(OneFile(".wh..opq", Char(0, 0)), items, archive, keepKinds)
  {
    hide IsCopy, UntarAll, IsArchive, Tree.Valid;
    var src, p := OneFile(".wh..opq", Char(0, 0)), [".wh..opq"];
    SmallTreesAreValid(".wh..opq", Char(0, 0));
    assert Last(p) == MARKER_REMAINDER && NamesMarker(p) && Whiteout(src, p);
    assert forall q :: !Archived(src, true, q);
    if IsArchive(src, true, items, archive) {
      CopyRoundTrips(ROOT_ONLY, src, Options(true, keepKinds), items, archive);
    }
  }

  lemma CollisionFails(items: seq<Item>, archive: seq<Header>, keepKinds: bool)
    ensures FailsOn(TwoFiles("x", ".wh.x", Char(0, 0)), items, archive, keepKinds)
  {
    hide IsCopy, UntarAll, IsArchive, Tree.Valid;
    var src, p, q := TwoFiles("x", ".wh.x", Char(0, 0)), ["x"], [".wh.x"];
    SmallTreesAreValid("x", Char(0, 0));
    TwoFilesAreValid("x", ".wh.x", Char(0, 0));
    assert p[0] != q[0] && Whiteout(src, p) && Whiteout(src, q);
    assert WhiteoutPath(p) == q by { assert WHITEOUT_PREFIX + "x" == ".wh.x"; }
    assert !Less("x", ".wh.x") by { assert "x"[0] > ".wh.x"[0]; }
    assert forall q :: !Archived(src, true, q);
    if IsArchive(src, true, items, archive) {
      CopyRoundTrips(ROOT_ONLY, src, Options(true, keepKinds), items, archive);
    }
  }

  /** Archiving a directory and unpacking the archive into an empty one. */
  method CopyTree(root: Unpack.Root, src: Tree, overlay: bool) returns (err: Unpack.Status)
    requires root.tree.Valid() && root.tree.names.Keys == {[]} && src.Valid()
    modifies root
    ensures ComesBack(src, overlay) ==> err == Unpack.NoError && IsCopy(src, overlay, root.tree)
    ensures PrefixIsFree(src, overlay) || Overlay.NoWhiteoutNames(src) ==>
      (err == Unpack.NoError && IsCopy(src, overlay, root.tree) <==> ComesBack(src, overlay))
  {
    hide IsCopy, UntarAll, ComesBack, PrefixIsFree, Overlay.NoWhiteoutNames, IsArchive;
    var archive := TarTree(src, overlay);
    ghost var items :| IsArchive(src, overlay, items, archive);
    var opts := Options(overlay, false);
    CopyRoundTrips(root.tree, src, opts, items, archive);
    err := root.Untar(archive, opts);
  }
}
