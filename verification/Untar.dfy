/** Unpack: what any archive keeps, and what setting recorded times at the end
    does. */
module Untar {
  import opened Names
  import opened Trees
  import opened Headers
  import opened Resolver
  import opened RootFs
  import opened Extract
  import opened Preservation
  import opened Plain

  // ----- copy on write -----

  /** Making the directories of a resolved path makes nothing else. */
  lemma {:induction false} MakeAllStaysResolved(t: Tree, cur: Path, rest: Path)
    requires t.Valid() && OrdinaryPath(cur + rest) && Resolved(View(t), cur + rest)
    ensures var t' := MakeAll(t, cur, rest).tree;
      Resolved(View(t'), cur + rest) && forall q | q in t'.names :: q in t.names || q <= cur + rest
    decreases |rest|
  {
    if rest != [] {
      var next := cur + [rest[0]];
      ResolvedCreate(t, cur, rest);
      assert next + rest[1..] == cur + rest;
      match Create(t, next, Dir, IMPLIED_DIRECTORY_MODE)
      case Fine(t') => MakeAllStaysResolved(t', next, rest[1..]);
      case Bad(_, _) => MakeAllStaysResolved(t, next, rest[1..]);
    }
  }

  lemma ResolvedCreate(t: Tree, cur: Path, rest: Path)
    requires t.Valid() && OrdinaryPath(cur + rest) && Resolved(View(t), cur + rest) && rest != []
    ensures var r := Create(t, cur + [rest[0]], Dir, IMPLIED_DIRECTORY_MODE);
      r.Fine? ==>
        && r.tree.Valid() && Resolved(View(r.tree), cur + rest)
        && forall q | q in r.tree.names :: q in t.names || q <= cur + rest
  {
    hide CreateAt, View, Tree.Numbered, Tree.Unaliased, Tree.LinksAreBare, KindsKept;
    var next := cur + [rest[0]];
    assert next <= cur + rest && cur <= cur + rest;
    forall n | n in next ensures Ordinary(n) { assert n in cur + rest; }
    CreateIsSafe(t, next, Dir, IMPLIED_DIRECTORY_MODE);
    ResolvedPrefix(View(t), cur + rest, cur);
    LocateResolved(View(t), cur);
    ParentOf(cur, rest[0]);
    LocateIsPlace(t, next);
    var r := Create(t, next, Dir, IMPLIED_DIRECTORY_MODE);
    if r.Fine? {
      assert r.tree == CreateAt(t, next, Dir, IMPLIED_DIRECTORY_MODE);
      CreatedView(t, next);
    }
  }

  lemma CreatedView(t: Tree, p: Path)
    requires t.Valid() && InDir(t, p) && p !in t.names
    ensures var t' := CreateAt(t, p, Dir, IMPLIED_DIRECTORY_MODE);
      t'.names.Keys == t.names.Keys + {p} && View(t') == View(t)[p := Directory]
  {
    hide CreateAt, Tree.Nested, Tree.Unaliased, Tree.LinksAreBare;
    var t' := CreateAt(t, p, Dir, IMPLIED_DIRECTORY_MODE);
    CreatedAt(t, p, Dir, IMPLIED_DIRECTORY_MODE);
    forall q | q in t.names ensures EntryOf(t', q) == EntryOf(t, q) {
      assert t.Has(q) && SameButTime(t.inodes[t.names[q]], t'.inodes[t.names[q]]);
    }
    SameGraph(View(t'), View(t)[p := Directory]);
  }

  /** The target stays free while the directories on the way to it are made. */
  lemma RoomAfterImplied(t: Tree, name: Path, hdr: Header)
    requires t.Valid() && name != [] && OrdinaryPath(name) && !hdr.typeflag.TypeDir?
    requires ResolveArchivePath(t, name).Found? && MakeRoom(t, ResolveArchivePath(t, name).value.path, hdr).Fine?
    ensures var a := ResolveArchivePath(t, name).value;
      var r := CreateImplied(MakeRoom(t, a.path, hdr).tree, a);
      r.Fine? ==> Room(r.tree, a.path)
  {
    hide View, MakeAll, ResolveArchivePath, Locate;
    var a := ResolveArchivePath(t, name).value;
    var t1 := MakeRoom(t, a.path, hdr).tree;
    MakeRoomMakesRoom(t, a.path, hdr);
    var parent := Parent(a.path);
    if parent != [] && !a.parentWasPresent && Lstat(t1, parent).Missing? {
      ResolvedParent(t, name);
      ParentIsOrdinary(a.path);
      RoomShrinksView(t, a.path, hdr);
      assert Resolved(View(t1), parent);
      RoomAfterMakeAll(t1, a.path);
    }
  }

  lemma ResolvedParent(t: Tree, name: Path)
    requires name != [] && OrdinaryPath(name) && ResolveArchivePath(t, name).Found?
    ensures var a := ResolveArchivePath(t, name).value; !a.parentWasPresent ==> Resolved(View(t), Parent(a.path))
  {
    ParentIsOrdinary(name);
    WalkResolves(View(t), CHROOT, START, Parent(name), false);
  }

  lemma RoomAfterMakeAll(t: Tree, dst: Path)
    requires t.Valid() && dst != [] && OrdinaryPath(dst) && Resolved(View(t), Parent(dst)) && Room(t, dst)
    ensures Room(MakeAll(t, [], Parent(dst)).tree, dst)
  {
    hide View, Resolved, MakeAll;
    var parent := Parent(dst);
    ParentIsOrdinary(dst);
    assert [] + parent == parent;
    MakeAllStaysResolved(t, [], parent);
    LocateResolved(View(MakeAll(t, [], parent).tree), parent);
    ParentAndLast(dst);
    if dst in t.names {
      assert t.IsDir(parent);
      LocatePlain(t, dst);
    }
  }

  lemma ConvertReadIsSafe(t: Tree, dst: Path, hdr: Header)
    requires t.Valid() && dst != [] && OrdinaryPath(dst)
    ensures var r := ConvertRead(t, dst, hdr); r.Handled? ==> Safe(t, r.done.tree)
  {
    ParentIsOrdinary(dst);
    var dir, base := Parent(dst), Last(dst);
    if ConvertRead(t, dst, hdr).Handled? && ConvertRead(t, dst, hdr).done.Fine? {
      var loc := Follow(t, dir).value;
      if base == WHITEOUT_OPAQUE_DIR {
        SetInodeIsSafe(t, loc, t.At(loc).(hidesLower := true));
      } else {
        var name := base[|WHITEOUT_PREFIX|..];
        OriginalIsOrdinary(base);
        ParentOf(loc, name);
        CreateAtIsSafe(t, loc + [name], Char(0, 0), 0);
        var t' := CreateAt(t, loc + [name], Char(0, 0), 0);
        CreatedAt(t, loc + [name], Char(0, 0), 0);
        if hdr.uid != 0 || hdr.gid != 0 {
          SetInodeIsSafe(t', loc + [name], t'.At(loc + [name]).(uid := hdr.uid, gid := hdr.gid));
        }
      }
    }
  }

  lemma OriginalIsOrdinary(base: Name)
    requires Ordinary(base) && IsWhiteoutName(base)
    requires base !in [WHITEOUT_PREFIX, WHITEOUT_PREFIX + ".", WHITEOUT_PREFIX + ".."]
    ensures Ordinary(base[|WHITEOUT_PREFIX|..])
  {
    assert base == WHITEOUT_PREFIX + base[|WHITEOUT_PREFIX|..];
    assert WHITEOUT_PREFIX + "" == WHITEOUT_PREFIX;
  }

  lemma UntarEntryIsSafe(opts: Options, s: UntarState, hdr: Header)
    requires s.tree.Valid()
    ensures Safe(s.tree, UntarEntry(opts, s, hdr).Tree())
  {
    hide Tree.Valid, MakeRoom, CreateImplied, CreateTarFile, ConvertRead, ResolveArchivePath, Room;
    var name, t := EntryName(hdr), s.tree;
    var read := !hdr.typeflag.TypeXGlobalHeader? && name.Inside() && name.names != [];
    if read && ResolveArchivePath(t, name.names).Found? {
      var a := ResolveArchivePath(t, name.names).value;
      MakeRoomMakesRoom(t, a.path, hdr);
      var r1 := ReplaceTarget(opts, t, a.path, hdr);
      if r1.Fine? {
        CreateImpliedIsSafe(r1.tree, a);
        var r2 := CreateImplied(r1.tree, a);
        SafeTransitive(t, r1.tree, r2.tree);
        if r2.Fine? {
          if !hdr.typeflag.TypeDir? { RoomAfterImplied(t, name.names, hdr); }
          ConvertReadIsSafe(r2.tree, a.path, hdr);
          CreateTarFileIsSafe(r2.tree, a.path, hdr);
          SafeTransitive(t, r2.tree, UntarAt(opts, t, a, hdr).tree);
        }
      }
    }
  }

  lemma {:induction false} UntarEntriesIsSafe(opts: Options, s: UntarState, archive: seq<Header>)
    requires s.tree.Valid()
    ensures Safe(s.tree, UntarEntries(opts, s, archive).Tree())
    decreases |archive|
  {
    if archive != [] {
      var prefix := archive[..|archive| - 1];
      UntarEntriesIsSafe(opts, s, prefix);
      var r := UntarEntries(opts, s, prefix);
      if r.Continues? {
        UntarEntryIsSafe(opts, r.state, archive[|archive| - 1]);
        SafeTransitive(s.tree, r.state.tree, UntarEntries(opts, s, archive).Tree());
      }
    }
  }

  /** No archive changes the bytes of an inode that existed before, whatever it
      contains and whether or not it is unpacked to its end. */
  lemma ArchivesCopyOnWrite(opts: Options, t: Tree, archive: seq<Header>)
    requires t.Valid()
    ensures Safe(t, UntarAll(opts, t, archive).tree)
  {
    UntarEntriesIsSafe(opts, UntarState(t, []), archive);
    var r := UntarEntries(opts, UntarState(t, []), archive);
    if r.Continues? {
      ApplyDirTimesIsSafe(r.state.tree, r.state.dirs);
      SafeTransitive(t, r.state.tree, UntarAll(opts, t, archive).tree);
    }
  }

  // ----- deferred times -----

  /** The time that was recorded last for a directory with inode i. */
  function LastTime(t: Tree, dirs: seq<UnpackedDir>, i: Ino): Option<Time>
    decreases |dirs|
  {
    if dirs == [] then None
    else
      var d := dirs[|dirs| - 1];
      var loc := Follow(t, d.name);
      if loc.Found? && loc.value in t.names && t.names[loc.value] == i then Some(d.mtime)
      else LastTime(t, dirs[..|dirs| - 1], i)
  }

  /** Each inode has the time recorded last for it; nothing else has changed. */
  ghost predicate Stamped(t: Tree, dirs: seq<UnpackedDir>, t': Tree) {
    && t'.names == t.names && t'.inodes.Keys == t.inodes.Keys && View(t') == View(t)
    && forall i | i in t.inodes :: t'.inodes[i] ==
         match LastTime(t, dirs, i) case None => t.inodes[i] case Some(m) => t.inodes[i].(mtime := m)
  }

  /** Setting the recorded times fails only if a recorded path no longer leads
      anywhere; otherwise each inode ends with the time recorded last for it,
      and nothing else changes. */
  lemma {:induction false} DirTimesAreDeferred(t: Tree, dirs: seq<UnpackedDir>)
    requires t.Valid()
    ensures ApplyDirTimes(t, dirs).Fine? <==> forall d | d in dirs :: Follow(t, d.name).Found?
    ensures ApplyDirTimes(t, dirs).Fine? ==> Stamped(t, dirs, ApplyDirTimes(t, dirs).tree)
    decreases |dirs|
  {
    hide View, Follow, Tree.Valid;
    if dirs != [] {
      var n := |dirs| - 1;
      DirTimesAreDeferred(t, dirs[..n]);
      assert dirs == dirs[..n] + [dirs[n]];
      var r := ApplyDirTimes(t, dirs[..n]);
      if r.Fine? {
        SameFollow(t, r.tree, dirs[n].name);
        OneTimeMore(t, dirs, r.tree);
      }
    }
  }

  lemma OneTimeMore(t: Tree, dirs: seq<UnpackedDir>, t1: Tree)
    requires dirs != [] && Stamped(t, dirs[..|dirs| - 1], t1)
    requires Follow(t1, dirs[|dirs| - 1].name) == Follow(t, dirs[|dirs| - 1].name)
    requires var loc := Follow(t, dirs[|dirs| - 1].name); loc.Found? ==> t.Has(loc.value)
    ensures var d := dirs[|dirs| - 1];
      var r := Chtimes(t1, d.name, d.mtime);
      if Follow(t, d.name).Found? then r.Fine? && Stamped(t, dirs, r.tree) else r.Bad?
  {
    hide View, Follow;
    var d := dirs[|dirs| - 1];
    if Follow(t, d.name).Found? { TimeKeepsView(t1, Follow(t, d.name).value, d.mtime); }
  }

  lemma TimeKeepsView(t: Tree, loc: Path, mtime: Time)
    requires t.Has(loc)
    ensures View(SetInode(t, loc, t.At(loc).(mtime := mtime))) == View(t)
  {
  }

  lemma SameGraph(g: Graph, h: Graph)
    requires g.Keys == h.Keys && forall p | p in g :: g[p] == h[p]
    ensures g == h
  {
  }

  lemma SameFollow(t: Tree, t': Tree, path: Path)
    requires t.Valid() && View(t') == View(t) && t'.names == t.names && t'.inodes.Keys == t.inodes.Keys
    ensures Follow(t', path) == Follow(t, path)
    ensures Follow(t, path).Found? ==> t.Has(Follow(t, path).value)
  {
  }
}
