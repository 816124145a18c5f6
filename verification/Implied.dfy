/** Entries below directories that do not exist yet, and entries behind links: the
    missing directories come to exist, and links lead where they say. */
module Implied {
  import opened Names
  import opened Errors
  import opened Trees
  import opened Headers
  import opened Resolver
  import opened RootFs
  import opened Extract
  import opened Plain
  import opened Untar
  import opened PathLaws

  // ----- the way to a place -----

  /** What exists of the way to p is directories. */
  ghost predicate WayIsClear(t: Tree, p: Path) {
    forall q | Below(q, p) && q in t.names :: t.IsDir(q)
  }

  /** No name on the way to p, p included, is a link. */
  ghost predicate NoLinks(t: Tree, p: Path) {
    forall q | q <= p && t.Has(q) :: !t.At(q).kind.Symlink?
  }

  /** Behind a directory of the tree a walk ends where the next name is missing or a
      file. */
  lemma StopsThere(t: Tree, q: Path, rest: seq<string>, more: bool)
    requires t.Valid() && q != [] && t.IsDir(Parent(q)) && Ordinary(Last(q))
    ensures q !in t.names ==> Walk(View(t), OS_ROOT, START, q + rest, more) == Err(NotExist)
    ensures q in t.names && !t.IsDir(q) && !t.At(q).kind.Symlink? && (more || rest != []) ==>
      Walk(View(t), OS_ROOT, START, q + rest, more) == Err(NotDirectory)
  {
    var parts := [Last(q)] + rest;
    assert q + rest == Parent(q) + parts;
    WalkAppend(View(t), OS_ROOT, START, Parent(q), parts, more);
    ResolvedDir(t, Parent(q));
    assert [] + Parent(q) == Parent(q);
    WalkPlain(View(t), OS_ROOT, START, Parent(q), true);
    ParentAndLast(q);
    var s := START.(at := Parent(q));
    assert parts[0] == Last(q) && s.at + [Last(q)] == q;
    assert Walk(View(t), OS_ROOT, START, q + rest, more) == Walk(View(t), OS_ROOT, s, parts, more);
    if q !in t.names {
      assert q !in View(t);
      assert Step(View(t), OS_ROOT, s, Last(q), more || |parts| > 1) == Err(NotExist);
    } else if !t.IsDir(q) && !t.At(q).kind.Symlink? && (more || rest != []) {
      assert Step(View(t), OS_ROOT, s, Last(q), more || |parts| > 1) == Err(NotDirectory);
    }
  }

  /** The first missing name on the way to p stands in a directory. */
  lemma {:induction false} FirstMissing(t: Tree, p: Path) returns (q: Path)
    requires t.Valid() && p !in t.names
    ensures q != [] && q <= p && q !in t.names && Parent(q) in t.names
    decreases |p|
  {
    assert [] in t.names;
    if Parent(p) in t.names {
      q := p;
    } else {
      q := FirstMissing(t, Parent(p));
      PrefixTransitive(q, Parent(p), p);
    }
  }

  lemma MissingIsNotFound(t: Tree, p: Path, more: bool)
    requires t.Valid() && OrdinaryPath(p) && p !in t.names && WayIsClear(t, p)
    ensures Walk(View(t), OS_ROOT, START, p, more) == Err(NotExist)
    ensures Lstat(t, p) == Missing(NotExist)
  {
    assert [] in t.names;
    var q := FirstMissing(t, p);
    assert Below(Parent(q), p) by { PrefixTransitive(Parent(q), q, p); }
    assert Last(q) in p by { assert p[|q| - 1] == q[|q| - 1]; }
    assert q + p[|q|..] == p;
    StopsThere(t, q, p[|q|..], more);
    if Parent(p) in t.names {
      assert t.IsDir(Parent(p)) && Last(p) in p;
      LocatePlain(t, p);
    } else {
      assert q != p && q <= Parent(p);
      assert q + Parent(p)[|q|..] == Parent(p);
      StopsThere(t, q, Parent(p)[|q|..], true);
    }
  }

  lemma FileIsInTheWay(t: Tree, p: Path, q: Path)
    requires t.Valid() && OrdinaryPath(p) && Below(q, p) && q in t.names && !t.IsDir(q) && !t.At(q).kind.Symlink?
    ensures Locate(t, p) == Missing(NotDirectory) && Lstat(t, p) == Missing(NotDirectory)
  {
    assert t.IsDir([]);
    assert q <= Parent(p) && q + Parent(p)[|q|..] == Parent(p);
    StopsThere(t, q, Parent(p)[|q|..], true);
  }

  /** Removing what does not exist is no error and does nothing; below a file it is one. */
  lemma RemovesNothing(t: Tree, p: Path)
    requires t.Valid() && p != [] && OrdinaryPath(p) && p !in t.names
    ensures WayIsClear(t, p) ==> RemoveAll(t, p) == Fine(t)
    ensures (exists q :: Below(q, p) && q in t.names && !t.IsDir(q) && !t.At(q).kind.Symlink?) ==>
      RemoveAll(t, p) == Bad(t, NotDirectory)
  {
    hide Lstat;
    if WayIsClear(t, p) { MissingIsNotFound(t, p, true); MissingPlace(t, p); }
    if q :| Below(q, p) && q in t.names && !t.IsDir(q) && !t.At(q).kind.Symlink? { FileIsInTheWay(t, p, q); }
  }

  lemma MissingPlace(t: Tree, p: Path)
    requires t.Valid() && p != [] && Lstat(t, p) == Missing(NotExist)
    ensures RemoveAll(t, p) == Fine(t)
  {
    assert Locate(t, p).Found? ==> !t.Has(Locate(t, p).value);
  }

  // ----- making directories -----

  predicate IsImplied(t: Tree, q: Path) {
    t.Has(q) && t.At(q).kind.Dir? && t.At(q).perm == 0x1ed && t.At(q).uid == 0 && t.At(q).gid == 0
    && t.At(q).caps == "" && !t.At(q).hidesLower
  }

  /** The directories down to p are there: those that were missing are new, and nothing
      else has changed but the times of directories. */
  ghost predicate Made(t: Tree, t': Tree, p: Path) {
    && t'.Valid() && t'.now == t.now && t.next <= t'.next
    && (forall q :: q in t'.names <==> q in t.names || q <= p)
    && (forall q | q in t.names :: t'.names[q] == t.names[q])
    && (forall i | i in t.inodes :: i in t'.inodes && SameButTime(t.inodes[i], t'.inodes[i]))
    && (forall q | q <= p && q !in t.names :: IsImplied(t', q) && t'.names[q] >= t.next)
  }

  lemma NothingToMake(t: Tree, p: Path)
    requires t.Valid() && p in t.names
    ensures Made(t, t, p)
  {
    forall q | q <= p ensures q in t.names { if q != p { AncestorsAreDirs(t, q, p); } }
  }

  lemma OneIsMade(t: Tree, p: Path)
    requires t.Valid() && InDir(t, p) && p !in t.names
    ensures Create(t, p, Dir, IMPLIED_DIRECTORY_MODE).Fine?
    ensures var t' := Create(t, p, Dir, IMPLIED_DIRECTORY_MODE).tree; Made(t, t', p) && t'.IsDir(p)
  {
    LocatePlain(t, p);
    CreatedAt(t, p, Dir, IMPLIED_DIRECTORY_MODE);
    forall q | Below(q, p) ensures q in t.names {
      BelowParent(q, p);
      if q != Parent(p) { AncestorsAreDirs(t, q, Parent(p)); }
    }
    var t' := Create(t, p, Dir, IMPLIED_DIRECTORY_MODE).tree;
    forall q | q <= p && q !in t.names ensures IsImplied(t', q) && t'.names[q] >= t.next {
      assert q == p || Below(q, p);
    }
  }

  lemma StaysImplied(t: Tree, t': Tree, p: Path)
    requires IsImplied(t, p) && p in t'.names && t'.names[p] == t.names[p]
    requires forall i | i in t.inodes :: i in t'.inodes && SameButTime(t.inodes[i], t'.inodes[i])
    ensures IsImplied(t', p)
  {
  }

  lemma MadeInSteps(t: Tree, t1: Tree, t2: Tree, p: Path, q: Path)
    requires Made(t, t1, p) && Made(t1, t2, q) && p <= q
    ensures Made(t, t2, q)
  {
    hide IsImplied, Tree.Valid;
    forall r | r in t2.names ensures r in t.names || r <= q { if r <= p { PrefixTransitive(r, p, q); } }
    forall r | r <= q && r !in t.names ensures IsImplied(t2, r) && t2.names[r] >= t.next {
      if r in t1.names { StaysImplied(t1, t2, r); }
    }
    forall i | i in t.inodes ensures i in t2.inodes && SameButTime(t.inodes[i], t2.inodes[i]) {
      assert SameButTime(t.inodes[i], t1.inodes[i]) && SameButTime(t1.inodes[i], t2.inodes[i]);
    }
  }

  lemma {:induction false} MakeAllMakes(t: Tree, cur: Path, rest: Path)
    requires t.Valid() && t.IsDir(cur) && OrdinaryPath(cur + rest)
    requires forall q | q <= cur + rest && q in t.names :: t.IsDir(q)
    ensures var r := MakeAll(t, cur, rest); r.Fine? && Made(t, r.tree, cur + rest) && r.tree.IsDir(cur + rest)
    decreases |rest|
  {
    hide Create, Follow, IsImplied;
    if rest == [] {
      assert cur + rest == cur;
      NothingToMake(t, cur);
    } else {
      var next := cur + [rest[0]];
      assert next + rest[1..] == cur + rest && next <= cur + rest;
      assert rest[0] in cur + rest;
      ParentOf(cur, rest[0]);
      if next in t.names {
        LocatePlain(t, next);
        FollowPlain(t, next);
        assert Create(t, next, Dir, IMPLIED_DIRECTORY_MODE) == Bad(t, Exists) by { DirExists(t, next); }
        MakeAllMakes(t, next, rest[1..]);
      } else {
        OneIsMade(t, next);
        var t' := Create(t, next, Dir, IMPLIED_DIRECTORY_MODE).tree;
        forall q | q <= cur + rest && q in t'.names ensures t'.IsDir(q) { StillDirs(t, t', next, q); }
        MakeAllMakes(t', next, rest[1..]);
        MadeInSteps(t, t', MakeAll(t', next, rest[1..]).tree, next, cur + rest);
      }
    }
  }

  /** A file where a directory should be made is an error. */
  lemma FileStopsMaking(t: Tree, cur: Path, rest: Path)
    requires t.Valid() && t.IsDir(cur) && rest != [] && cur + [rest[0]] in t.names && !t.IsDir(cur + [rest[0]])
    requires !t.At(cur + [rest[0]]).kind.Symlink?
    ensures MakeAll(t, cur, rest) == Bad(t, NotDirectory)
  {
    hide Create, Follow, Locate, View, Resolve;
    var next := cur + [rest[0]];
    EntryIsThere(t, cur, rest[0]);
    DirExists(t, next);
    FollowPlain(t, next);
  }

  lemma EntryIsThere(t: Tree, cur: Path, n: Name)
    requires t.Valid() && t.IsDir(cur) && cur + [n] in t.names
    ensures Locate(t, cur + [n]) == Found(cur + [n])
  {
    ParentOf(cur, n);
    assert t.IsDir(Parent(cur + [n])) && Ordinary(Last(cur + [n]));
    LocatePlain(t, cur + [n]);
  }

  lemma DirExists(t: Tree, p: Path)
    requires Locate(t, p) == Found(p) && p in t.names
    ensures Create(t, p, Dir, IMPLIED_DIRECTORY_MODE) == Bad(t, Exists)
  {
  }

  lemma StillDirs(t: Tree, t': Tree, p: Path, q: Path)
    requires Made(t, t', p) && q in t'.names && (q in t.names ==> t.IsDir(q))
    ensures t'.IsDir(q)
  {
  }

  /** createImpliedDirectories, where no link is on the way: it succeeds exactly if
      what exists on the way is directories; then those that were missing are there,
      and otherwise nothing has changed. */
  lemma ImpliedExactly(t: Tree, a: ArchivePath)
    requires t.Valid() && a.path != [] && OrdinaryPath(a.path) && !a.parentWasPresent && NoLinks(t, Parent(a.path))
    ensures var r, parent := CreateImplied(t, a), Parent(a.path);
      && (r.Fine? <==> WayIsClear(t, parent))
      && (r.Fine? ==> Made(t, r.tree, parent) && (parent !in t.names || t.IsDir(parent) ==> r.tree.IsDir(parent)))
      && (r.Bad? ==> r.tree == t && r.error == NotDirectory)
  {
    hide MakeAll, Lstat;
    var parent := Parent(a.path);
    ParentIsOrdinary(a.path);
    assert t.IsDir([]);
    if parent in t.names {
      NothingToMake(t, parent);
      if parent != [] { LstatPlain(t, parent); }
      forall q | Below(q, parent) && q in t.names ensures t.IsDir(q) { AncestorsAreDirs(t, q, parent); }
    } else if WayIsClear(t, parent) {
      MissingIsNotFound(t, parent, true);
      assert [] + parent == parent;
      MakeAllMakes(t, [], parent);
    } else {
      var q :| Below(q, parent) && q in t.names && !t.IsDir(q);
      assert t.Has(q);
      FileIsInTheWay(t, parent, q);
    }
  }

  /** What resolveArchivePath returns has no link on the way, so making its
      directories never fails. */
  lemma ImpliedSucceeds(t: Tree, name: Path)
    requires t.Valid() && name != [] && OrdinaryPath(name) && ResolveArchivePath(t, name).Found?
    ensures var a := ResolveArchivePath(t, name).value;
      var r := CreateImplied(t, a);
      r.Fine? && if a.parentWasPresent then r.tree == t else Made(t, r.tree, Parent(a.path))
  {
    hide CreateImplied, Made;
    var a := ResolveArchivePath(t, name).value;
    if a.parentWasPresent {
      NothingImplied(t, a);
    } else {
      ResolvedParent(t, name);
      var parent := Parent(a.path);
      forall q | q <= parent && t.Has(q) ensures !t.At(q).kind.Symlink? { assert q == [] || q in View(t); }
      forall q | Below(q, parent) && q in t.names ensures t.IsDir(q) {
        assert t.IsDir([]) && t.Has(q);
        if q != [] { assert View(t)[q].Directory?; }
      }
      ImpliedExactly(t, a);
    }
  }

  lemma NothingImplied(t: Tree, a: ArchivePath)
    requires a.path != [] && a.parentWasPresent
    ensures CreateImplied(t, a) == Fine(t)
  {
  }

  // ----- entries below directories that do not exist -----

  lemma WayIsResolved(t: Tree, p: Path)
    requires t.Valid() && OrdinaryPath(p) && WayIsClear(t, p) && p !in t.names
    ensures Resolved(View(t), p)
  {
    forall q | Below(q, p) && q in View(t) ensures View(t)[q].Directory? { assert t.IsDir(q); }
    forall q | q <= p && q in View(t) ensures View(t)[q].Directory? { assert q == p || Below(q, p); }
  }

  lemma ParentWayIsClear(t: Tree, p: Path)
    requires p != [] && WayIsClear(t, p)
    ensures WayIsClear(t, Parent(p)) && NoLinks(t, Parent(p))
  {
    forall q | Below(q, Parent(p)) && q in t.names ensures t.IsDir(q) { PrefixTransitive(q, Parent(p), p); }
    forall q | q <= Parent(p) && t.Has(q) ensures !t.At(q).kind.Symlink? {
      PrefixTransitive(q, Parent(p), p);
      assert Below(q, p);
    }
  }

  /** The place of an entry whose directory does not exist. */
  lemma PlaceIsNew(t: Tree, p: Path)
    requires t.Valid() && p != [] && OrdinaryPath(p) && WayIsClear(t, p) && Parent(p) !in t.names
    ensures ResolveArchivePath(t, p) == Found(ArchivePath(p, false))
    ensures Lstat(t, p) == Missing(NotExist) && p !in t.names
    ensures var r := CreateImplied(t, ArchivePath(p, false));
      r.Fine? && Made(t, r.tree, Parent(p)) && InDir(r.tree, p) && p !in r.tree.names
  {
    hide CreateImplied, View, Follow, Walk;
    var parent := Parent(p);
    ParentIsOrdinary(p);
    ParentWayIsClear(t, p);
    assert t.IsDir([]);
    MissingIsNotFound(t, parent, false);
    MissingIsNotFound(t, p, false);
    ParentIsMissing(t, p);
    ImpliedExactly(t, ArchivePath(p, false));
    var t' := CreateImplied(t, ArchivePath(p, false)).tree;
    assert parent in t'.names && IsImplied(t', parent);
    assert !(p <= parent);
  }

  lemma ParentIsMissing(t: Tree, p: Path)
    requires t.Valid() && p != [] && OrdinaryPath(p) && WayIsClear(t, Parent(p)) && Parent(p) !in t.names
    requires OrdinaryPath(Parent(p)) && Walk(View(t), OS_ROOT, START, Parent(p), false) == Err(NotExist)
    ensures ResolveArchivePath(t, p) == Found(ArchivePath(p, false))
  {
    var parent := Parent(p);
    assert t.IsDir([]);
    WayIsResolved(t, parent);
    assert [] + parent == parent;
    WalkPlain(View(t), CHROOT, START, parent, false);
    ParentAndLast(p);
  }

  /** The file of a header is at p, in directories that have been made where they were
      missing; all else has kept its place and, but for the times of directories, its
      contents. */
  ghost predicate Arrived(t: Tree, t': Tree, p: Path, hdr: Header)
    requires Creates(hdr)
  {
    && t'.Valid()
    && (forall q :: q in t'.names <==> q in t.names || q <= p)
    && KeepsOthers(t, t')
    && (forall q | Below(q, p) && q !in t.names :: IsImplied(t', q))
    && t'.Has(p) && t'.At(p).kind == NewKind(hdr)
    && t'.At(p).uid == hdr.uid && t'.At(p).gid == hdr.gid
    && (!hdr.typeflag.TypeSymlink? ==> t'.At(p).perm == hdr.perm)
    && t'.At(p).mtime == BoundTime(hdr.modTime)
  }

  lemma MadeKeepsOthers(t: Tree, t': Tree, p: Path)
    requires t.Valid() && Made(t, t', p)
    ensures KeepsOthers(t, t')
  {
    forall q | q in t.names ensures t.Has(q) && t'.Has(q) && SameButTime(t.At(q), t'.At(q)) { assert t.Has(q); }
  }

  lemma ArrivesInSteps(t: Tree, t1: Tree, t2: Tree, p: Path, hdr: Header)
    requires t.Valid() && p != [] && Parent(p) !in t.names && Made(t, t1, Parent(p)) && InDir(t1, p) && p !in t1.names
    requires Creates(hdr)
    requires Placed(t1, t2, p, t1.next, WithMetadata(Fresh(t1, NewKind(hdr), NewPerm(hdr)), hdr), false)
    ensures Arrived(t, t2, p, hdr)
  {
    hide IsImplied, Tree.Valid;
    NewNameKeepsOthers(t1, t2, p, WithMetadata(Fresh(t1, NewKind(hdr), NewPerm(hdr)), hdr));
    MadeKeepsOthers(t, t1, Parent(p));
    KeepsOthersTransitive(t, t1, t2);
    forall q ensures q in t2.names <==> q in t.names || q <= p {
      if q <= Parent(p) { PrefixTransitive(q, Parent(p), p); }
      if q <= p && q != p { BelowParent(q, p); }
    }
    forall q | Below(q, p) && q !in t.names ensures IsImplied(t2, q) {
      BelowParent(q, p);
      ImpliedIsKept(t1, t2, q);
    }
  }

  lemma ImpliedIsKept(t: Tree, t': Tree, p: Path)
    requires IsImplied(t, p) && KeepsOthers(t, t')
    ensures IsImplied(t', p)
  {
    assert SameButTime(t.At(p), t'.At(p));
  }

  /** An archive entry for a file below directories that do not exist: the directories
      are made, and the file is at its place. */
  lemma FileArrives(opts: Options, s: UntarState, hdr: Header, p: Path)
    requires s.tree.Valid() && p != [] && OrdinaryPath(p) && EntryName(hdr) == Cleaned(false, 0, p) && Creates(hdr)
    requires WayIsClear(s.tree, p) && Parent(p) !in s.tree.names && (opts.overlay ==> !Prefixed(p))
    ensures var r := UntarEntry(opts, s, hdr);
      && r.Continues? && Arrived(s.tree, r.state.tree, p, hdr)
      && r.state.dirs == if hdr.typeflag.TypeDir? then s.dirs + [UnpackedDir(p, BoundTime(hdr.modTime))] else s.dirs
  {
    hide CreateImplied, CreateTarFile, Lstat, ResolveArchivePath, Made, Placed, Arrived;
    PlaceIsNew(s.tree, p);
    var t1 := CreateImplied(s.tree, ArchivePath(p, false)).tree;
    MadeIsValid(s.tree, t1, Parent(p));
    FileIsPlaced(t1, p, hdr);
    ArrivesInSteps(s.tree, t1, CreateTarFile(t1, p, hdr).tree, p, hdr);
  }

  lemma MadeIsValid(t: Tree, t': Tree, p: Path)
    requires Made(t, t', p)
    ensures t'.Valid()
  {
  }

  lemma FileIsPlaced(t: Tree, p: Path, hdr: Header)
    requires t.Valid() && InDir(t, p) && p !in t.names && Creates(hdr)
    ensures var r := CreateTarFile(t, p, hdr);
      r.Fine? && Placed(t, r.tree, p, t.next, WithMetadata(Fresh(t, NewKind(hdr), NewPerm(hdr)), hdr), false)
  {
    CreateTarFilePlain(t, p, hdr);
    NoNamesBelow(t, p);
    var node := Fresh(t, NewKind(hdr), NewPerm(hdr));
    assert Cleared(t, t, p);
    PlacedInSteps(t, t, CreateAt(t, p, NewKind(hdr), NewPerm(hdr)), p, t.next, node, WithMetadata(node, hdr));
  }

  /** The same for an entry of a layer that is no whiteout and no metadata. */
  lemma LayerFileArrives(ls: LayerState, hdr: Header, p: Path)
    requires ls.tree.Valid() && p != [] && OrdinaryPath(p) && EntryName(hdr) == Cleaned(false, 0, p) && Creates(hdr)
    requires WayIsClear(ls.tree, p) && Parent(p) !in ls.tree.names && !Prefixed(p) && !IsMetadata(p)
    ensures var r := ApplyEntry(ls, hdr);
      && r.Going? && Arrived(ls.tree, r.state.tree, p, hdr) && r.state.unpacked == ls.unpacked + {p}
      && r.state.dirs == if hdr.typeflag.TypeDir? then ls.dirs + [UnpackedDir(p, BoundTime(hdr.modTime))] else ls.dirs
  {
    hide CreateImplied, ApplyFile, ResolveArchivePath, Made, Placed, Arrived;
    PlaceIsNew(ls.tree, p);
    var t1 := CreateImplied(ls.tree, ArchivePath(p, false)).tree;
    MadeIsValid(ls.tree, t1, Parent(p));
    ReplacePlain(ls, t1, p, hdr);
    ArrivesInSteps(ls.tree, t1, ApplyFile(ls, t1, p, hdr).state.tree, p, hdr);
  }

  /** A file on the way is an error, and nothing is done. */
  lemma FileStopsEntry(opts: Options, s: UntarState, hdr: Header, p: Path, q: Path)
    requires s.tree.Valid() && OrdinaryPath(p) && EntryName(hdr) == Cleaned(false, 0, p) && Creates(hdr)
    requires Below(q, p) && q in s.tree.names && !s.tree.IsDir(q) && !s.tree.At(q).kind.Symlink?
    requires opts.overlay ==> !Prefixed(p)
    ensures UntarEntry(opts, s, hdr) == Fails(s.tree, NotDirectory)
  {
    hide CreateTarFile, ResolveArchivePath, Walk, View;
    FileIsInTheWay(s.tree, p, q);
    WayIsBlocked(s.tree, p, q);
    NoPlaceForFile(s.tree, p, hdr);
  }

  /** Behind a file there is no parent, or it is the file itself. */
  lemma WayIsBlocked(t: Tree, p: Path, q: Path)
    requires t.Valid() && OrdinaryPath(p) && Below(q, p) && q in t.names && !t.IsDir(q) && !t.At(q).kind.Symlink?
    ensures ResolveArchivePath(t, p) == if q == Parent(p) then Found(ArchivePath(p, true)) else Missing(NotDirectory)
  {
    hide View, Resolve;
    assert t.IsDir([]);
    if q == Parent(p) {
      FollowPlain(t, q);
    } else {
      assert q + Parent(p)[|q|..] == Parent(p);
      BelowParent(q, p);
      StopsThere(t, q, Parent(p)[|q|..], false);
    }
  }

  lemma NoPlaceForFile(t: Tree, p: Path, hdr: Header)
    requires Locate(t, p) == Missing(NotDirectory) && Creates(hdr)
    ensures CreateTarFile(t, p, hdr) == Bad(t, NotDirectory)
  {
  }

  // ----- archives with one file -----

  /** Unpacking one file, however deep, into any tree. */
  lemma OneFileArchive(opts: Options, t: Tree, hdr: Header, p: Path)
    requires t.Valid() && p != [] && OrdinaryPath(p) && EntryName(hdr) == Cleaned(false, 0, p)
    requires Creates(hdr) && !hdr.typeflag.TypeDir?
    requires WayIsClear(t, p) && Parent(p) !in t.names && !Prefixed(p) && !IsMetadata(p)
    ensures UntarAll(opts, t, [hdr]).Fine? && Arrived(t, UntarAll(opts, t, [hdr]).tree, p, hdr)
    ensures ApplyLayer(t, [hdr]).Fine? && Arrived(t, ApplyLayer(t, [hdr]).tree, p, hdr)
  {
    hide UntarEntry, ApplyEntry, Arrived;
    FileArrives(opts, UntarState(t, []), hdr, p);
    LayerFileArrives(NewLayer(t), hdr, p);
    assert [hdr][..0] == [];
    assert UntarEntries(opts, UntarState(t, []), [hdr]) == UntarEntry(opts, UntarState(t, []), hdr);
    assert ApplyEntries(NewLayer(t), [hdr]) == ApplyEntry(NewLayer(t), hdr);
  }

  // ----- entries behind links -----

  lemma DirIsReached(t: Tree, pol: Policy, d: Path)
    requires t.Valid() && t.IsDir(d)
    ensures Reached(View(t), pol, d)
  {
    ResolvedDir(t, d);
  }

  predicate IsLink(t: Tree, p: Path, target: string) {
    t.Has(p) && t.At(p).kind == Symlink(target)
  }

  /** Walking on from a directory of the tree. */
  lemma FromDir(t: Tree, pol: Policy, b: nat, d: Path)
    requires t.Valid() && t.IsDir(d)
    ensures ResolveWithin(View(t), pol, b, d) == Success(d, false, false)
    ensures ResolveWithin(View(t), pol, b, d + [""]) == Success(d, false, false)
  {
    DirIsReached(t, pol, d);
    FromReached(View(t), pol, b, d, []);
    FromReached(View(t), pol, b, d, [""]);
    assert d + [] == d && [""][1..] == [];
  }

  /** A path that can be entered. */
  lemma Entered(t: Tree, path: Path, p: Path)
    requires ResolveWithin(View(t), OS_ROOT, OS_ROOT.budget, path + [""]) == Success(p, false, false)
    ensures var o := Walk(View(t), OS_ROOT, START, path, true); o.Ok? && o.state.at == p
  {
    WalkAppend(View(t), OS_ROOT, START, path, [""], false);
    var o := Walk(View(t), OS_ROOT, START, path, true);
    assert [""][1..] == [];
    if o.Ok? { assert Walk(View(t), OS_ROOT, o.state, [""], false) == o; }
  }

  lemma SplitRooted(e: Path)
    requires e != [] && OrdinaryPath(e)
    ensures Split(Join(e)) == e && Split("/" + Join(e)) == [""] + e && !IsAbs(Join(e))
  {
    SplitJoin(e);
    JoinStart(e);
    SplitFirst('/', Join(e));
    assert "/" + Join(e) == ['/'] + Join(e);
  }

  /** A relative link in a directory leads from that directory on. */
  lemma RelativeLinkLeads(t: Tree, pol: Policy, b: nat, d: Path, n: Name, e: Path)
    requires t.Valid() && t.IsDir(d) && Ordinary(n) && e != [] && OrdinaryPath(e)
    requires IsLink(t, d + [n], Join(e)) && t.IsDir(d + e) && b > 0
    ensures ResolveWithin(View(t), pol, b, d + [n]) == Success(d + e, false, false)
    ensures ResolveWithin(View(t), pol, b, d + [n] + [""]) == Success(d + e, false, false)
  {
    RelativeLinkStep(t, pol, b, d, n, e, []);
    RelativeLinkStep(t, pol, b, d, n, e, [""]);
    assert d + [n] + [] == d + [n] && d + e + [] == d + e;
    FromDir(t, pol, b - 1, d + e);
  }

  lemma RelativeLinkStep(t: Tree, pol: Policy, b: nat, d: Path, n: Name, e: Path, q: seq<string>)
    requires t.Valid() && t.IsDir(d) && Ordinary(n) && e != [] && OrdinaryPath(e)
    requires IsLink(t, d + [n], Join(e)) && b > 0
    ensures ResolveWithin(View(t), pol, b, d + [n] + q) == ResolveWithin(View(t), pol, b - 1, d + e + q)
  {
    DirIsReached(t, pol, d);
    SplitRooted(e);
    LinkFollows(View(t), pol, b, d, n, q);
  }

  /** An absolute link leads from the root on; a confined resolution refuses it. */
  lemma AbsoluteLinkLeads(t: Tree, pol: Policy, b: nat, d: Path, n: Name, e: Path)
    requires t.Valid() && t.IsDir(d) && Ordinary(n) && e != [] && OrdinaryPath(e)
    requires IsLink(t, d + [n], "/" + Join(e)) && t.IsDir(e) && b > 0
    ensures ResolveWithin(View(t), pol, b, d + [n]) ==
      if pol.confine then Failure(EscapesByLink) else Success(e, true, false)
  {
    DirIsReached(t, pol, d);
    DirIsReached(t, pol, []);
    SplitRooted(e);
    LinkFollows(View(t), pol, b, d, n, []);
    assert d + [n] + [] == d + [n] && [""] + e + [] == [""] + e;
    FromDir(t, pol, b - 1, e);
    SkipsEmpty(View(t), pol, b - 1, e);
  }

  lemma SkipsEmpty(g: Graph, pol: Policy, b: nat, e: Path)
    ensures ResolveWithin(g, pol, b, [""] + e) == ResolveWithin(g, pol, b, e)
  {
    var p, parts := pol.(budget := b), [""] + e;
    assert parts[0] == "" && parts[1..] == e;
    assert Walk(g, p, START, parts, false) == Walk(g, p, START, e, false);
  }

  /** An entry behind a relative link to a directory is written in that directory. */
  lemma RelativeLinkPlace(t: Tree, d: Path, n: Name, e: Path, x: Name)
    requires t.Valid() && t.IsDir(d) && e != [] && OrdinaryPath(e) && OrdinaryPath(d + [n, x])
    requires IsLink(t, d + [n], Join(e)) && t.IsDir(d + e)
    ensures ResolveArchivePath(t, d + [n, x]) == Found(ArchivePath(d + [n, x], true))
    ensures Locate(t, d + [n, x]) == Found(d + e + [x])
  {
    var name, parent := d + [n, x], d + [n];
    assert name == parent + [x] && name[|d|] == n;
    ParentOf(parent, x);
    RelativeLinkLeads(t, OS_ROOT, OS_ROOT.budget, d, n, e);
    Entered(t, parent, d + e);
  }

  /** One behind an absolute link is written in the directory below the root. */
  lemma AbsoluteLinkPlace(t: Tree, d: Path, n: Name, e: Path, x: Name)
    requires t.Valid() && t.IsDir(d) && e != [] && OrdinaryPath(e) && OrdinaryPath(d + [n, x])
    requires IsLink(t, d + [n], "/" + Join(e)) && t.IsDir(e)
    ensures ResolveArchivePath(t, d + [n, x]) == Found(ArchivePath(e + [x], false))
    ensures CreateImplied(t, ArchivePath(e + [x], false)) == Fine(t) && Locate(t, e + [x]) == Found(e + [x])
  {
    hide View, Walk, Resolve, Lstat, Locate;
    LinkedName(d, n, x);
    AbsoluteIsResolved(t, d, n, e);
    InDirectory(t, e, x);
  }

  lemma LinkedName(d: Path, n: Name, x: Name)
    requires OrdinaryPath(d + [n, x])
    ensures Parent(d + [n, x]) == d + [n] && Last(d + [n, x]) == x && Ordinary(n) && Ordinary(x) && |d + [n, x]| > 1
  {
    var name := d + [n, x];
    assert name == d + [n] + [x] && name[|d|] == n && name[|d| + 1] == x;
  }

  lemma InDirectory(t: Tree, e: Path, x: Name)
    requires t.Valid() && t.IsDir(e) && e != [] && Ordinary(x)
    ensures Parent(e + [x]) == e && Locate(t, e + [x]) == Found(e + [x])
    ensures CreateImplied(t, ArchivePath(e + [x], false)) == Fine(t)
  {
    ParentOf(e, x);
    LocatePlain(t, e + [x]);
    LstatPlain(t, e);
  }

  lemma AbsoluteIsResolved(t: Tree, d: Path, n: Name, e: Path)
    requires t.Valid() && t.IsDir(d) && e != [] && OrdinaryPath(e) && Ordinary(n)
    requires IsLink(t, d + [n], "/" + Join(e)) && t.IsDir(e)
    ensures Follow(t, d + [n]) == Missing(EscapesByLink) && Resolve(View(t), d + [n]) == Success(e, true, false)
  {
    hide View, IsLink, Tree.Valid, Walk;
    AbsoluteLinkLeads(t, OS_ROOT, OS_ROOT.budget, d, n, e);
    AbsoluteLinkLeads(t, CHROOT, 255, d, n, e);
    assert CHROOT.(budget := 255) == CHROOT && OS_ROOT.(budget := OS_ROOT.budget) == OS_ROOT;
  }
}
