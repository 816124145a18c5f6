/** TarWithOptions on a directory, without patterns: the walk over the tree and the
    archive that it writes, in overlay format or without a whiteout format. */
module Tar {
  import opened Names
  import opened Trees
  import opened Headers
  import opened Layers
  import opened Export
  import Walker

  // ----- what the archive of a tree says -----

  /** The overlay file system marks a deleted name with a device 0:0. */
  predicate Whiteout(t: Tree, p: Path) {
    t.Has(p) && p in t.names && IsOverlayWhiteout(t.At(p))
  }

  predicate IsSocket(t: Tree, p: Path) {
    p != [] && t.Has(p) && t.At(p).kind.Socket?
  }

  /** Archived as a file. */
  predicate Archived(t: Tree, overlay: bool, p: Path) {
    p != [] && p in t.names && t.Has(p) && !(overlay && Whiteout(t, p)) && !t.At(p).kind.Socket?
  }

  predicate OpaqueDir(t: Tree, p: Path) {
    t.IsDir(p) && t.At(p).hidesLower
  }

  ghost function SumOn(t: Tree, overlay: bool, visited: set<Path>): Sum {
    Sum(set p | p in visited && Archived(t, overlay, p),
        set p | p in visited && p != [] && overlay && Whiteout(t, p),
        set p | p in visited && Archived(t, overlay, p) && overlay && OpaqueDir(t, p))
  }

  ghost function TreeSum(t: Tree, overlay: bool): Sum {
    SumOn(t, overlay, t.names.Keys)
  }

  // ----- the order of the walk -----

  /** The entries of a directory come in the order of their names, and its marker
      before them. */
  ghost predicate InWalkOrder(items: seq<Item>) {
    forall j, k | 0 <= j < k < |items| && !items[j].Opq? && items[j].path != [] ::
      if items[k].Opq? then Parent(items[j].path) != items[k].path
      else items[k].path != [] && Parent(items[j].path) == Parent(items[k].path) ==>
             Less(Last(items[j].path), Last(items[k].path))
  }

  /** The names visited in a directory sort before n. */
  ghost predicate SmallerVisited(t: Tree, dir: Path, seen: set<Path>, n: Name) {
    forall q | q in seen && q in t.names && q != [] && Parent(q) == dir :: Less(Last(q), n)
  }

  /** Nothing below a path has been written before the path. */
  lemma NothingInside(t: Tree, before: seq<Item>, p: Path)
    requires InShape(t, before) && p != [] && p !in SumOf(before).puts
    ensures forall item | item in before && !item.Opq? && item.path != [] :: Parent(item.path) != p
  {
    ItemsAreSummed(before);
    ShapeIsClosed(t, before);
    forall item | item in before && !item.Opq? && item.path != [] ensures Parent(item.path) != p {
      assert ParentReady(t, SumOf(before), item.path);
    }
  }

  lemma EntryKeepsOrder(t: Tree, overlay: bool, before: seq<Item>, seen: set<Path>, p: Path, item: Item)
    requires InWalkOrder(before) && SumOf(before) == SumOn(t, overlay, seen)
    requires p != [] && SmallerVisited(t, Parent(p), seen, Last(p)) && !item.Opq? && item.path == p
    ensures InWalkOrder(before + [item])
  {
    ItemsAreSummed(before);
    assert forall i | 0 <= i < |before| && !before[i].Opq? :: before[i] in before && before[i].path in seen;
  }

  lemma MarkerKeepsOrder(t: Tree, before: seq<Item>, p: Path, item: Item, marker: seq<Item>)
    requires InWalkOrder(before + [item]) && InShape(t, before) && p != [] && p !in SumOf(before).puts
    requires item.path == p && (marker == [] || marker == [Opq(p)])
    ensures InWalkOrder(before + [item] + marker)
  {
    NothingInside(t, before, p);
    var all := before + [item];
    assert all + [] == all;
    assert forall i | 0 <= i < |all| && !all[i].Opq? && all[i].path != [] :: Parent(all[i].path) != p by {
      assert forall i | 0 <= i < |before| :: before[i] in before && all[i] == before[i];
    }
  }

  // ----- the walk itself -----

  ghost function StrictlyBelow(t: Tree, dir: Path, names: set<Name>): set<Path> {
    set p | p in t.names && Below(dir, p) && p[|dir|] in names
  }

  ghost function AllBelow(t: Tree, dir: Path): set<Path> {
    set p | p in t.names && Below(dir, p)
  }

  /** What has been visited has been written, parents first and in order. */
  ghost predicate Written(ta: TarAppender, visited: set<Path>)
    reads ta
  {
    && ta.Valid() && ta.src.Valid() && InShape(ta.src, ta.items) && InWalkOrder(ta.items)
    && SumOf(ta.items) == SumOn(ta.src, ta.overlay, visited)
  }

  ghost function Listed(listing: seq<Walker.NameIno>): set<Name> {
    set x | x in listing :: x.name
  }

  /** Tarballer.Do: the walk below `dir`, each directory before its entries, the
      entries in the order of their names. */
  method WalkDir(ta: TarAppender, dir: Path, ghost visited: set<Path>)
    requires Written(ta, visited)
    requires ta.src.IsDir(dir) && (dir != [] ==> dir in visited) && AllBelow(ta.src, dir) !! visited
    modifies ta
    ensures Written(ta, visited + AllBelow(ta.src, dir))
    decreases CountBelow(ta.src, dir), 1
  {
    hide InShape, InWalkOrder, SumOn, StrictlyBelow, Tree.Valid, TarAppender.Valid, CountBelow, Listed;
    var listing := Walker.ReadDirNames(ta.src, dir);
    NoneBelow(ta.src, dir, visited);
    for i := 0 to |listing|
      invariant Written(ta, visited + StrictlyBelow(ta.src, dir, Listed(listing[..i])))
    {
      NextName(listing, i);
      WalkEntry(ta, dir, listing[i].name, visited, Listed(listing[..i]));
    }
    WholeListing(ta.src, dir, listing);
    WholeDir(ta.src, dir, Listed(listing[..|listing|]));
  }

  lemma NextName(listing: seq<Walker.NameIno>, i: nat)
    requires Walker.SortedNames(listing) && i < |listing|
    ensures forall m | m in Listed(listing[..i]) :: Less(m, listing[i].name)
    ensures listing[i].name !in Listed(listing[..i])
    ensures Listed(listing[..i + 1]) == Listed(listing[..i]) + {listing[i].name}
  {
    var n := listing[i].name;
    assert listing[..i + 1] == listing[..i] + [listing[i]];
    forall m | m in Listed(listing[..i]) ensures Less(m, n) && m != n {
      var j :| 0 <= j < i && listing[j].name == m;
      LessIsAsymmetric(m, n);
    }
  }

  lemma WholeListing(t: Tree, dir: Path, listing: seq<Walker.NameIno>)
    requires Walker.IsListing(t, dir, listing)
    ensures forall n | dir + [n] in t.names :: n in Listed(listing[..|listing|])
  {
    forall n | dir + [n] in t.names ensures n in Listed(listing[..|listing|]) {
      assert Walker.Lists(listing, n);
    }
  }

  /** The callback of the walk on one entry, and the descent into a directory. */
  method WalkEntry(ta: TarAppender, dir: Path, n: Name, ghost visited: set<Path>, ghost done: set<Name>)
    requires Written(ta, visited + StrictlyBelow(ta.src, dir, done))
    requires ta.src.IsDir(dir) && (dir != [] ==> dir in visited) && AllBelow(ta.src, dir) !! visited
    requires dir + [n] in ta.src.names && n !in done && forall m | m in done :: Less(m, n)
    modifies ta
    ensures Written(ta, visited + StrictlyBelow(ta.src, dir, done + {n}))
    decreases CountBelow(ta.src, dir), 0
  {
    hide InShape, InWalkOrder, SumOn, StrictlyBelow, Tree.Valid, TarAppender.Valid, CountBelow;
    hide TarAppender.Wrote, SmallerVisited;
    var p := dir + [n];
    ghost var seen := visited + StrictlyBelow(ta.src, dir, done);
    NextEntry(ta.src, dir, done, n, visited);
    VisitedIsSmaller(ta.src, dir, done, n, visited);
    ghost var before := ta.items;
    ta.AddTarFile(p);
    EntryIsWritten(ta, before, ta.items, dir, p, seen);
    if ta.src.IsDir(p) {
      FewerBelow(ta.src, dir, p);
      WalkDir(ta, p, seen + {p});
    } else {
      NothingBelow(ta.src, p);
      assert seen + {p} + {} == seen + {p};
    }
  }

  lemma EntryIsWritten(ta: TarAppender, before: seq<Item>, after: seq<Item>, dir: Path, p: Path, seen: set<Path>)
    requires ta.src.Valid() && InShape(ta.src, before) && InWalkOrder(before)
    requires SumOf(before) == SumOn(ta.src, ta.overlay, seen)
    requires p != [] && Parent(p) == dir && p in ta.src.names && p !in seen && (dir != [] ==> dir in seen)
    requires SmallerVisited(ta.src, dir, seen, Last(p))
    requires ta.Wrote(before, after, p)
    ensures InShape(ta.src, after) && InWalkOrder(after)
    ensures SumOf(after) == SumOn(ta.src, ta.overlay, seen + {p})
  {
    hide InWalkOrder, SmallerVisited;
    var t := ta.src;
    EntryIsReady(t, ta.overlay, seen, dir, p);
    if ta.overlay && Whiteout(t, p) {
      WhiteoutIsWritten(t, before, p, seen);
      EntryKeepsOrder(t, ta.overlay, before, seen, p, Del(p));
    } else if Archived(t, ta.overlay, p) {
      var link :| LinkIsFirst(t, SumOf(before), p, link) && after == before + [Put(p, link)] + ta.Marker(p);
      FileIsWritten(t, ta.overlay, before, p, link, seen, ta.Marker(p));
      EntryKeepsOrder(t, ta.overlay, before, seen, p, Put(p, link));
      MarkerKeepsOrder(t, before, p, Put(p, link), ta.Marker(p));
    } else {
      SumOnMore(t, ta.overlay, seen, p);
    }
  }

  lemma WhiteoutIsWritten(t: Tree, before: seq<Item>, p: Path, seen: set<Path>)
    requires InShape(t, before) && SumOf(before) == SumOn(t, true, seen)
    requires p != [] && Whiteout(t, p) && Follows(t, SumOf(before), Del(p))
    ensures InShape(t, before + [Del(p)]) && SumOf(before + [Del(p)]) == SumOn(t, true, seen + {p})
  {
  }

  lemma FileIsWritten(t: Tree, overlay: bool, before: seq<Item>, p: Path, link: Option<Path>, seen: set<Path>,
                      marker: seq<Item>)
    requires InShape(t, before) && SumOf(before) == SumOn(t, overlay, seen)
    requires Archived(t, overlay, p) && Follows(t, SumOf(before), Put(p, link))
    requires marker == if overlay && OpaqueDir(t, p) then [Opq(p)] else []
    ensures var after := before + [Put(p, link)] + marker;
      InShape(t, after) && SumOf(after) == SumOn(t, overlay, seen + {p})
  {
    AppendPut(t, before, p, link, marker);
    SumOnMore(t, overlay, seen, p);
  }

  lemma EntryIsReady(t: Tree, overlay: bool, seen: set<Path>, dir: Path, p: Path)
    requires t.Valid()
    requires p != [] && Parent(p) == dir && p in t.names && p !in seen && (dir != [] ==> dir in seen)
    ensures t.Has(p) && Ordinary(Last(p)) && ParentReady(t, SumOn(t, overlay, seen), p)
    ensures p !in SumOn(t, overlay, seen).puts && p !in SumOn(t, overlay, seen).dels
  {
  }

  /** A file and, for an opaque directory, its marker. */
  lemma AppendPut(t: Tree, before: seq<Item>, p: Path, link: Option<Path>, marker: seq<Item>)
    requires InShape(t, before) && Follows(t, SumOf(before), Put(p, link))
    requires marker == [] || (marker == [Opq(p)] && t.IsDir(p))
    ensures InShape(t, before + [Put(p, link)] + marker)
    ensures SumOf(before + [Put(p, link)] + marker) ==
      if marker == [] then Plus(SumOf(before), Put(p, link)) else Plus(Plus(SumOf(before), Put(p, link)), Opq(p))
  {
    AppendItem(t, before, Put(p, link));
    if marker == [] {
      assert before + [Put(p, link)] + marker == before + [Put(p, link)];
    } else {
      AppendItem(t, before + [Put(p, link)], Opq(p));
    }
  }

  lemma SumOnMore(t: Tree, overlay: bool, seen: set<Path>, p: Path)
    requires p != []
    ensures var s, s' := SumOn(t, overlay, seen), SumOn(t, overlay, seen + {p});
      && s'.puts == s.puts + (if Archived(t, overlay, p) then {p} else {})
      && s'.dels == s.dels + (if overlay && Whiteout(t, p) then {p} else {})
      && s'.opqs == s.opqs + (if Archived(t, overlay, p) && overlay && OpaqueDir(t, p) then {p} else {})
  {
  }

  lemma NextEntry(t: Tree, dir: Path, done: set<Name>, n: Name, visited: set<Path>)
    requires t.Valid() && dir + [n] in t.names && n !in done && AllBelow(t, dir) !! visited
    ensures var p, seen := dir + [n], visited + StrictlyBelow(t, dir, done);
      && p != [] && Parent(p) == dir && Last(p) == n && p !in seen && Below(dir, p)
      && AllBelow(t, p) !! seen + {p}
      && visited + StrictlyBelow(t, dir, done + {n}) == seen + {p} + AllBelow(t, p)
  {
  }

  lemma VisitedIsSmaller(t: Tree, dir: Path, done: set<Name>, n: Name, visited: set<Path>)
    requires AllBelow(t, dir) !! visited && forall m | m in done :: Less(m, n)
    ensures SmallerVisited(t, dir, visited + StrictlyBelow(t, dir, done), n)
  {
  }

  lemma NothingBelow(t: Tree, p: Path)
    requires t.Valid() && !t.IsDir(p)
    ensures AllBelow(t, p) == {}
  {
    forall q | q in t.names && Below(p, q) ensures false { AncestorsAreDirs(t, p, q); }
  }

  lemma NoneBelow(t: Tree, dir: Path, visited: set<Path>)
    ensures visited + StrictlyBelow(t, dir, Listed([])) == visited
  {
  }

  lemma WholeDir(t: Tree, dir: Path, names: set<Name>)
    requires t.Valid() && forall n | dir + [n] in t.names :: n in names
    ensures StrictlyBelow(t, dir, names) == AllBelow(t, dir)
  {
    forall p | p in AllBelow(t, dir) ensures p in StrictlyBelow(t, dir, names) {
      var child := dir + [p[|dir|]];
      assert p[..|dir|] == dir && p[..|dir| + 1] == child;
      if child != p { AncestorsAreDirs(t, child, p); }
    }
  }

  // ----- hard links -----

  predicate ArchivedFile(src: Tree, overlay: bool, t: Tree, p: Path) {
    Archived(src, overlay, p) && !src.IsDir(p) && p in t.names
  }

  /** Hard links of the archived tree are hard links again, and its files share their
      inodes with nothing else. */
  ghost predicate KeepsLinks(src: Tree, overlay: bool, t: Tree) {
    && (forall p, q | ArchivedFile(src, overlay, t, p) && ArchivedFile(src, overlay, t, q) ::
          t.names[p] == t.names[q] <==> src.names[p] == src.names[q])
    && (forall p, q | ArchivedFile(src, overlay, t, p) && q in t.names && !Archived(src, overlay, q) ::
          t.names[p] != t.names[q])
  }

  // ----- the archive -----

  /** An archive of a tree: it puts the files, in overlay format deletes the whiteouts
      and marks the opaque directories, and each link names an earlier file of its
      inode. */
  ghost predicate IsArchive(t: Tree, overlay: bool, items: seq<Item>, archive: seq<Header>) {
    && InShape(t, items) && EncodesAll(ArchivalTree(t), items, archive) && InWalkOrder(items)
    && SumOf(items) == TreeSum(t, overlay) && LinksShareInodes(t, items, archive)
  }

  lemma NothingWritten(t: Tree, overlay: bool)
    ensures InShape(t, []) && InWalkOrder([]) && SumOf([]) == SumOn(t, overlay, {})
  {
  }

  lemma WholeTree(t: Tree, overlay: bool)
    requires t.Valid()
    ensures t.IsDir([]) && SumOn(t, overlay, {} + AllBelow(t, [])) == TreeSum(t, overlay)
  {
  }

  /** TarWithOptions. */
  method TarTree(t: Tree, overlay: bool) returns (archive: seq<Header>)
    requires t.Valid()
    ensures exists items :: IsArchive(t, overlay, items, archive)
    ensures HardlinksClosed(archive)
  {
    hide EncodesAll, LinksShareInodes, LinksNameFiles, HardlinksClosed, Remembers, InWalkOrder;
    var ta := new TarAppender(t, overlay);
    NothingWritten(t, overlay);
    WalkDir(ta, [], {});
    WholeTree(t, overlay);
    archive := ta.out;
    WrittenIsClosed(t, ta.items, archive);
    assert IsArchive(t, overlay, ta.items, archive);
  }
}
