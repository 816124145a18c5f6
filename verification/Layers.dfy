/** Well-formed layers, independent of how they are produced.

    A layer is read off a source tree: it puts files of that tree, deletes names
    with plain whiteouts and clears directories with opaque whiteouts.  It is
    well formed if every entry comes after the directories that contain it, no
    path is put or deleted twice, and nothing is both put and deleted.  `Final`
    says which names there are after any such layer, in terms of the sets of
    paths alone, so not of the order of entries. */
module Layers {
  import opened Names
  import opened Trees
  import opened Headers
  import opened Extract

  datatype Item =
    | Put(path: Path, link: Option<Path>)
    | Del(path: Path)
    | Opq(path: Path)

  datatype Sum = Sum(puts: set<Path>, dels: set<Path>, opqs: set<Path>)

  const NOTHING := Sum({}, {}, {})

  function Plus(s: Sum, item: Item): Sum {
    match item
    case Put(p, _) => s.(puts := s.puts + {p})
    case Del(p) => s.(dels := s.dels + {p})
    case Opq(p) => s.(opqs := s.opqs + {p})
  }

  function SumOf(items: seq<Item>): Sum
    decreases |items|
  {
    if items == [] then NOTHING else Plus(SumOf(items[..|items| - 1]), items[|items| - 1])
  }

  // ----- headers -----

  function FlagOf(k: Kind): TypeFlag {
    match k
    case Dir => TypeDir
    case Reg(_) => TypeReg
    case Symlink(_) => TypeSymlink
    case Block(_, _) => TypeBlock
    case Char(_, _) => TypeChar
    case Fifo => TypeFifo
    case Socket => TypeOther
  }

  function Zeros(n: nat): (r: string)
    ensures |r| == n
  {
    if n == 0 then "" else [0 as char] + Zeros(n - 1)
  }

  /** ReadSecurityXattrToTarHeader: a capability of revision 3 becomes one of revision
      2, which has 20 bytes; what the value does not have of them is zero. */
  function CapRecord(caps: string): string {
    if |caps| >= 4 && caps[3] == 3 as char then caps[..3] + [2 as char] + (caps[4..] + Zeros(16))[..16] else caps
  }

  /** A revision 2 value is left as it is; of a revision 3 value the first 20 bytes
      remain, with the other revision. */
  lemma RevisionTwo(caps: string)
    ensures |caps| < 4 || caps[3] as int != 3 ==> CapRecord(caps) == caps
    ensures |caps| >= 4 && caps[3] as int == 3 ==>
      var r := CapRecord(caps);
      && |r| == 20 && r[3] as int == 2
      && forall i | 0 <= i < 20 && i != 3 :: if i < |caps| then r[i] == caps[i] else r[i] as int == 0
  {
    ZerosAreZero(16);
  }

  lemma {:induction false} ZerosAreZero(n: nat)
    ensures forall i | 0 <= i < n :: Zeros(n)[i] as int == 0
  {
    if n > 0 { ZerosAreZero(n - 1); }
  }

  /** The header that stands for a node at p, as a link to an earlier entry of the
      same inode if there is one. */
  function EntryHeader(node: Inode, p: Path, link: Option<Path>): Header {
    Header(
      if node.kind.Dir? then Join(p) + "/" else Join(p),
      if link.Some? then TypeLink else FlagOf(node.kind),
      match link { case Some(x) => Join(x) case None => if node.kind.Symlink? then node.kind.target else "" },
      node.perm, node.uid, node.gid, node.mtime,
      Rdev(node.kind).0, Rdev(node.kind).1,
      node.caps,
      if link.None? && node.kind.Reg? then node.kind.data else "")
  }

  /** What addTarFile makes of a node: whole seconds, no capabilities of
      revision 3. */
  function Archival(node: Inode): Inode {
    node.(mtime := TruncateTime(node.mtime), caps := CapRecord(node.caps))
  }

  /** The time that comes back from the header of a file. */
  function HeaderTime(m: Time): Time {
    BoundTime(TruncateTime(m))
  }

  /** What addTarFile writes for a file. */
  function FileHeader(node: Inode, p: Path, link: Option<Path>): Header {
    EntryHeader(Archival(node), p, link)
  }

  /** Headers have whole seconds. */
  lemma WholeSeconds(node: Inode, p: Path, link: Option<Path>)
    ensures FileHeader(node, p, link).modTime == Time(node.mtime.sec, 0)
  {
  }

  lemma {:induction false} JoinEnds(p: Path)
    requires p != [] && OrdinaryPath(p)
    ensures Join(p) != "" && Join(p)[|Join(p)| - 1] != '/'
  {
    assert Ordinary(p[0]);
    if |p| == 1 {
      var n := p[0];
      assert n[|n| - 1] in n;
    } else {
      forall n | n in p[1..] ensures Ordinary(n) { assert n in p; }
      JoinEnds(p[1..]);
    }
  }

  /** The names of directories, and of no other files, end in a slash. */
  lemma DirectoriesEndInSlash(node: Inode, p: Path, link: Option<Path>)
    requires p != [] && OrdinaryPath(p)
    ensures var name := FileHeader(node, p, link).name;
      name != "" && (name[|name| - 1] == '/' <==> node.kind.Dir?)
  {
    JoinEnds(p);
  }

  /** The tree that an archive of `src` carries. */
  ghost function ArchivalTree(src: Tree): Tree {
    src.(inodes := map i | i in src.inodes :: Archival(src.inodes[i]))
  }

  lemma ArchivalNodes(src: Tree)
    ensures forall p :: ArchivalTree(src).Has(p) <==> src.Has(p)
    ensures forall p | src.Has(p) :: ArchivalTree(src).At(p) == Archival(src.At(p))
    ensures forall p :: ArchivalTree(src).IsDir(p) <==> src.IsDir(p)
    ensures src.Valid() ==> ArchivalTree(src).Valid()
  {
    var a := ArchivalTree(src);
    if src.Valid() {
      assert a.Unaliased() by {
        forall p, q | a.IsDir(p) && q in a.names && a.names[p] == a.names[q] ensures p == q { assert src.IsDir(p); }
      }
      assert a.Nested() by {
        forall p | p in a.names && p != [] ensures a.IsDir(Parent(p)) && Ordinary(Last(p)) {
          assert src.IsDir(Parent(p));
        }
      }
      assert a.LinksAreBare() by {
        forall i | i in a.inodes ensures BareLink(a.inodes[i]) { assert BareLink(src.inodes[i]); }
      }
    }
  }

  /** The name of the whiteout for p. */
  function WhiteoutPath(p: Path): Path
    requires p != []
  {
    Parent(p) + [WHITEOUT_PREFIX + Last(p)]
  }

  function OpaquePath(d: Path): Path {
    d + [WHITEOUT_OPAQUE_DIR]
  }

  /** A header that stands for an item.  Of a whiteout only the name matters, if
      the header describes an entry at all. */
  ghost predicate Encodes(src: Tree, item: Item, hdr: Header) {
    match item
    case Put(p, link) => src.Has(p) && hdr == EntryHeader(src.At(p), p, link)
    case Del(p) => p != [] && EntryName(hdr) == Cleaned(false, 0, WhiteoutPath(p)) && !hdr.typeflag.TypeXGlobalHeader?
    case Opq(d) => EntryName(hdr) == Cleaned(false, 0, OpaquePath(d)) && !hdr.typeflag.TypeXGlobalHeader?
  }

  ghost predicate EncodesAll(src: Tree, items: seq<Item>, layer: seq<Header>) {
    |items| == |layer| && forall i | 0 <= i < |items| :: Encodes(src, items[i], layer[i])
  }

  // ----- well-formed layers -----

  ghost predicate ParentReady(src: Tree, s: Sum, p: Path)
    requires p != []
  {
    Parent(p) == [] || (Parent(p) in s.puts && src.IsDir(Parent(p)))
  }

  /** What may come next: each path once, after the directory that contains it. */
  ghost predicate Follows(src: Tree, s: Sum, item: Item) {
    match item
    case Put(p, link) =>
      && p != [] && src.Has(p) && p in src.names && !src.At(p).kind.Socket? && Ordinary(Last(p))
      && p !in s.puts && p !in s.dels && ParentReady(src, s, p)
      && LinkIsFirst(src, s, p, link)
    case Del(p) =>
      p != [] && Ordinary(Last(p)) && p !in s.puts && p !in s.dels && ParentReady(src, s, p)
    case Opq(d) => d == [] || (d in s.puts && src.IsDir(d))
  }

  /** A file is put as a link exactly if a file of its inode was put before. */
  ghost predicate LinkIsFirst(src: Tree, s: Sum, p: Path, link: Option<Path>)
    requires src.Has(p)
  {
    match link
    case Some(x) => x in s.puts && src.Has(x) && src.names[x] == src.names[p] && !src.IsDir(p)
    case None => src.IsDir(p) || forall x | x in s.puts && src.Has(x) :: src.names[x] != src.names[p]
  }

  /** What may be written for a tree, whatever its names are. */
  ghost predicate InShape(src: Tree, items: seq<Item>)
    decreases |items|
  {
    items == [] ||
    (InShape(src, items[..|items| - 1]) && Follows(src, SumOf(items[..|items| - 1]), items[|items| - 1]))
  }

  /** No name that is put begins with the whiteout prefix. */
  ghost predicate ProperPuts(s: Sum) {
    forall p | p in s.puts :: !Prefixed(p)
  }

  ghost predicate WellFormed(src: Tree, items: seq<Item>) {
    InShape(src, items) && ProperPuts(SumOf(items))
  }

  lemma FollowsArchival(src: Tree, s: Sum, item: Item)
    requires Follows(src, s, item)
    ensures Follows(ArchivalTree(src), s, item)
  {
    ArchivalNodes(src);
  }

  /** An archive of a tree is a well-formed layer if the names it puts are proper. */
  lemma {:induction false} ShapeIsWellFormed(src: Tree, items: seq<Item>)
    requires InShape(src, items)
    ensures InShape(ArchivalTree(src), items)
    ensures ProperPuts(SumOf(items)) ==> WellFormed(ArchivalTree(src), items)
    decreases |items|
  {
    if items != [] {
      ShapeIsWellFormed(src, items[..|items| - 1]);
      FollowsArchival(src, SumOf(items[..|items| - 1]), items[|items| - 1]);
    }
  }

  /** What all sums of layers in shape have in common. */
  ghost predicate Closed(src: Tree, s: Sum) {
    && s.puts !! s.dels
    && (forall p | p in s.puts :: p != [] && src.Has(p) && Ordinary(Last(p)))
    && (forall p {:trigger Parent(p)} | p in s.puts && p != [] :: ParentReady(src, s, p))
    && (forall p | p in s.dels :: p != [])
    && (forall p {:trigger Parent(p)} | p in s.dels && p != [] :: ParentReady(src, s, p))
    && (forall d | d in s.opqs :: d == [] || (d in s.puts && src.IsDir(d)))
  }

  lemma PlusKeepsClosed(src: Tree, s: Sum, item: Item)
    requires Closed(src, s) && Follows(src, s, item)
    ensures Closed(src, Plus(s, item))
  {
    var s' := Plus(s, item);
    forall p | p != [] && ParentReady(src, s, p) ensures ParentReady(src, s', p) {}
    forall p | p in s.dels ensures p != [] && ParentReady(src, s', p) { assert ParentReady(src, s, p); }
    forall p | p in s.puts ensures p != [] && ParentReady(src, s', p) { assert ParentReady(src, s, p); }
  }

  lemma {:induction false} ShapeIsClosed(src: Tree, items: seq<Item>)
    requires InShape(src, items)
    ensures Closed(src, SumOf(items))
    decreases |items|
  {
    if items != [] {
      ShapeIsClosed(src, items[..|items| - 1]);
      PlusKeepsClosed(src, SumOf(items[..|items| - 1]), items[|items| - 1]);
    }
  }

  lemma AppendItem(src: Tree, items: seq<Item>, item: Item)
    requires InShape(src, items) && Follows(src, SumOf(items), item)
    ensures InShape(src, items + [item]) && SumOf(items + [item]) == Plus(SumOf(items), item)
  {
  }

  lemma {:induction false} InShapeAt(src: Tree, items: seq<Item>, i: nat)
    requires InShape(src, items) && i < |items|
    ensures InShape(src, items[..i]) && Follows(src, SumOf(items[..i]), items[i])
    decreases |items|
  {
    var n := |items| - 1;
    if i < n {
      assert items[..n][..i] == items[..i] && items[..n][i] == items[i];
      InShapeAt(src, items[..n], i);
    }
  }

  // ----- items and their sum -----

  lemma {:induction false} ItemsAreSummed(items: seq<Item>)
    ensures forall item | item in items && item.Put? :: item.path in SumOf(items).puts
    ensures forall item | item in items && item.Del? :: item.path in SumOf(items).dels
    ensures forall item | item in items && item.Opq? :: item.path in SumOf(items).opqs
    decreases |items|
  {
    if items != [] {
      var n := |items| - 1;
      assert items == items[..n] + [items[n]];
      ItemsAreSummed(items[..n]);
    }
  }

  lemma {:induction false} WhiteoutsAreItems(items: seq<Item>)
    ensures forall p | p in SumOf(items).dels :: Del(p) in items
    ensures forall d | d in SumOf(items).opqs :: Opq(d) in items
    decreases |items|
  {
    if items != [] {
      var n := |items| - 1;
      assert items == items[..n] + [items[n]];
      WhiteoutsAreItems(items[..n]);
    }
  }

  lemma {:induction false} PutsAreItems(items: seq<Item>, p: Path)
    requires p in SumOf(items).puts
    ensures exists k :: 0 <= k < |items| && items[k].Put? && items[k].path == p
    decreases |items|
  {
    var n := |items| - 1;
    if !(items[n].Put? && items[n].path == p) {
      PutsAreItems(items[..n], p);
      var k :| 0 <= k < n && items[..n][k].Put? && items[..n][k].path == p;
      assert items[k] == items[..n][k];
    }
  }

  // ----- deletions that mean something else -----

  /** What a layer says, as it is understood: some deletions clear a directory, and
      some are taken for metadata and do nothing. */
  ghost function Effective(s: Sum): Sum {
    Sum(s.puts,
        set p | p in s.dels && !NamesMarker(p) && !NamesMetadata(p),
        (set p | p in s.dels && NamesMarker(p) :: Parent(p)) + s.opqs)
  }

  lemma EffectiveIsClosed(src: Tree, s: Sum)
    requires Closed(src, s)
    ensures Closed(src, Effective(s))
  {
    var e := Effective(s);
    forall p | p != [] && ParentReady(src, s, p) ensures ParentReady(src, e, p) {}
    forall p | p in s.dels ensures p != [] && ParentReady(src, e, p) { assert ParentReady(src, s, p); }
    forall p | p in s.puts ensures p != [] && ParentReady(src, e, p) { assert ParentReady(src, s, p); }
  }

  lemma EffectOf(s: Sum, item: Item)
    ensures Effective(Plus(s, item)) ==
      match item
      case Del(p) =>
        if NamesMarker(p) then Plus(Effective(s), Opq(Parent(p)))
        else if NamesMetadata(p) then Effective(s)
        else Plus(Effective(s), item)
      case _ => Plus(Effective(s), item)
  {
  }

  /** Every ancestor of what was put was put, as a directory. */
  lemma {:induction false} AncestorsArePut(src: Tree, s: Sum, p: Path, q: Path)
    requires Closed(src, s) && q in s.puts && p != [] && Below(p, q)
    ensures p in s.puts && src.IsDir(p)
    decreases |q|
  {
    assert ParentReady(src, s, q);
    BelowParent(p, q);
    if p != Parent(q) {
      AncestorsArePut(src, s, p, Parent(q));
    }
  }

  lemma FirstNameIsNoWhiteout(src: Tree, s: Sum, q: Path)
    requires Closed(src, s) && ProperPuts(s) && q in s.puts
    ensures q != [] && !IsWhiteoutName(q[0])
  {
    var p := [q[0]];
    assert p <= q && Last(p) == q[0];
    if p != q { AncestorsArePut(src, s, p, q); }
    assert !Prefixed(p);
  }

  // ----- the names after a layer -----

  /** A name of the base is still seen through the layer: nothing on the way to
      it was deleted, replaced by something that is no directory, or cleared. */
  ghost predicate Visible(src: Tree, s: Sum, p: Path) {
    && (forall q | q <= p :: q !in s.dels)
    && (forall q | Below(q, p) :: q !in s.opqs && (q in s.puts ==> src.IsDir(q)))
  }

  /** The names after the layer. */
  ghost predicate Final(base: Tree, src: Tree, s: Sum, p: Path) {
    p in s.puts || (p in base.names && Visible(src, s, p))
  }
}
