/** The tree of FileInfo nodes that changes.go compares, and the comparison. */
module FileInfos {
  import opened Names
  import opened Trees
  import opened Changes

  class FileInfo {
    const parent: FileInfo?
    const name: Name
    const stat: Inode
    const capability: string
    var children: map<Name, FileInfo>
    var added: bool

    /** The path that the node stands for. */
    ghost const place: Path

    constructor (parent: FileInfo?, name: Name, stat: Inode, ghost place: Path)
      ensures this.parent == parent && this.name == name && this.stat == stat && this.capability == stat.caps
      ensures children == map[] && !added && this.place == place
    {
      this.parent, this.name, this.stat, this.capability, this.place := parent, name, stat, stat.caps, place;
      children, added := map[], false;
    }

    predicate IsDir() {
      parent == null || stat.kind.Dir?
    }
  }

  /** The slice that `addChanges` appends to. */
  class ChangeList {
    var items: seq<Change>

    constructor ()
      ensures items == []
    {
      items := [];
    }

    /** Appends a place, shifts what is behind `k` by one and overwrites `k`. */
    method Insert(k: nat, change: Change)
      requires k <= |items|
      modifies this
      ensures items == old(items)[..k] + [change] + old(items)[k..]
    {
      items := items + [change];
      items := items[..k + 1] + items[k..|items| - 1];
      items := items[k := change];
    }
  }

  lemma InsertedAfter(a: seq<Change>, c: Change, b: seq<Change>)
    ensures (a + b)[..|a|] + [c] + (a + b)[|a|..] == a + ([c] + b)
  {
  }

  type Places = map<Path, FileInfo>

  /** The node at a path stands for that path of the tree: parent and child
      pointers agree. */
  ghost predicate NodeStandsFor(at: Places, t: Tree, p: Path, node: FileInfo)
    reads node`children
  {
    && t.Has(p) && p in t.names && node.place == p
    && (p == [] ==> node.parent == null)
    && (p != [] ==>
          && Parent(p) in at && node.parent == at[Parent(p)] && node.name == Last(p)
          && node.stat == t.At(p) && node.capability == t.At(p).caps)
    && (forall n :: n in node.children <==> p + [n] in at)
    && (forall n | n in node.children :: p + [n] in at && node.children[n] == at[p + [n]])
  }

  ghost predicate Represents(at: Places, t: Tree)
    reads at.Values`children
  {
    && [] in at && at.Keys == t.names.Keys
    && forall p | p in at :: NodeStandsFor(at, t, p, at[p])
  }

  /** The nodes at and below a path. */
  ghost function Subtree(at: Places, p: Path): set<FileInfo> {
    set q | q in at && p <= q :: at[q]
  }

  ghost function Inside(at: Places, p: Path): set<FileInfo> {
    set q | q in at && Below(p, q) :: at[q]
  }

  /** path(): the names on the way up to the root. */
  method PathOf(info: FileInfo, ghost at: Places, ghost t: Tree, ghost p: Path) returns (r: Path)
    requires Represents(at, t) && p in at && at[p] == info
    ensures r == p
    decreases |p|
  {
    assert NodeStandsFor(at, t, p, at[p]);
    if info.parent == null {
      return [];
    }
    r := PathOf(info.parent, at, t, Parent(p));
    ParentAndLast(p);
    r := r + [info.name];
  }

  // ----- parts of the list of changes -----

  /** Each path once, and every directory before what is inside it. */
  ghost predicate Ordered(s: seq<Change>) {
    forall i, j | 0 <= i < j < |s| :: s[i].path != s[j].path && !Below(s[j].path, s[i].path)
  }

  /** The changes below the entries `names` of the directory p. */
  ghost predicate Covers(older: Tree, newer: Tree, p: Path, names: set<Name>, s: seq<Change>) {
    && Ordered(s)
    && forall c :: c in s <==> Reported(older, newer, c) && Below(p, c.path) && c.path[|p|] in names
  }

  /** The changes at and below p; without the one at p if `known`. */
  ghost predicate CoversAt(older: Tree, newer: Tree, p: Path, known: bool, s: seq<Change>) {
    && Ordered(s)
    && forall c :: c in s <==> Reported(older, newer, c) && p <= c.path && (known ==> c.path != p)
  }

  lemma AtChild(p: Path, n: Name, q: Path)
    ensures p + [n] <= q <==> Below(p, q) && q[|p|] == n
  {
  }

  /** A child's changes join those of its earlier siblings. */
  lemma CoversMore(older: Tree, newer: Tree, p: Path, names: set<Name>, n: Name, s: seq<Change>, r: seq<Change>)
    requires n !in names && Covers(older, newer, p, names, s) && CoversAt(older, newer, p + [n], false, r)
    ensures Covers(older, newer, p, names + {n}, s + r)
  {
  }

  /** The change at a child itself comes before the changes inside it. */
  lemma CoversWithHead(older: Tree, newer: Tree, p: Path, head: Change, r: seq<Change>)
    requires head.path == p && Reported(older, newer, head) && CoversAt(older, newer, p, true, r)
    ensures CoversAt(older, newer, p, false, [head] + r)
  {
  }

  lemma CoversWithOwnChange(older: Tree, newer: Tree, p: Path, changed: bool, head: seq<Change>, r: seq<Change>)
    requires head == if changed then [Change(p, Modify)] else []
    requires changed ==> Reported(older, newer, Change(p, Modify))
    requires CoversAt(older, newer, p, changed, r)
    ensures CoversAt(older, newer, p, false, head + r)
  {
    if changed {
      CoversWithHead(older, newer, p, Change(p, Modify), r);
    } else {
      assert head + r == r;
    }
  }

  lemma CoversWithoutHead(older: Tree, newer: Tree, p: Path, r: seq<Change>)
    requires CoversAt(older, newer, p, true, r) && forall c: Change | c.path == p :: !Reported(older, newer, c)
    ensures CoversAt(older, newer, p, false, r)
  {
  }

  lemma CoversDeletion(older: Tree, newer: Tree, p: Path)
    requires newer.Valid() && Deleted(older, newer, p)
    ensures CoversAt(older, newer, p, false, [Change(p, Delete)])
  {
    forall c | Reported(older, newer, c) && p <= c.path ensures c == Change(p, Delete) {
      GoneBelow(newer, p, c.path);
      if c.path != p {
        assert Deleted(older, newer, c.path);
        BelowParent(p, c.path);
        GoneBelow(newer, p, Parent(c.path));
      }
    }
  }

  lemma GoneBelow(newer: Tree, p: Path, q: Path)
    requires newer.Valid() && p !in newer.names && p <= q
    ensures q !in newer.names
  {
    if q in newer.names && p != q { AncestorsAreDirs(newer, p, q); }
  }

  /** All changes strictly below a directory are changes below its entries in the
      newer tree or deletions of its entries in the older tree. */
  lemma NothingElse(older: Tree, newer: Tree, p: Path, names: set<Name>, s: seq<Change>)
    requires newer.Valid() && Covers(older, newer, p, names, s)
    requires forall n | p + [n] in newer.names :: n in names
    requires forall n | p + [n] in older.names && newer.IsDir(p) :: n in names
    ensures CoversAt(older, newer, p, true, s)
  {
    forall c | Reported(older, newer, c) && p <= c.path && c.path != p ensures c.path[|p|] in names {
      var n := c.path[|p|];
      var child := p + [n];
      AtChild(p, n, c.path);
      if child !in newer.names {
        GoneBelow(newer, child, c.path);
        if child != c.path {
          BelowParent(child, c.path);
          GoneBelow(newer, child, Parent(c.path));
        } else {
          ParentOf(p, n);
        }
      }
    }
  }

  /** The directory itself is reported exactly if something inside it is. */
  lemma DirtyIffSomething(older: Tree, newer: Tree, p: Path, s: seq<Change>)
    requires CoversAt(older, newer, p, true, s)
    ensures DirtyBelow(older, newer, p) <==> s != []
  {
    if s != [] {
      assert s[0] in s;
      ReportedIsDirtyAtOrBelow(older, newer, s[0]);
      var q :| s[0].path <= q && Dirty(older, newer, q);
      PrefixTransitive(p, s[0].path, q);
      assert Below(p, q);
    }
    if DirtyBelow(older, newer, p) {
      var q :| Below(p, q) && Dirty(older, newer, q);
      DirtyIsReported(older, newer, q);
      var k :| Reported(older, newer, Change(q, k));
      assert Change(q, k) in s;
    }
  }

  // ----- addChanges -----

  /** The two trees of nodes; the comparison does not change them. */
  ghost predicate Linked(newAt: Places, newer: Tree, oldAt: Places, older: Tree)
    reads newAt.Values`children, oldAt.Values`children
  {
    newer.Valid() && older.Valid() && Represents(newAt, newer) && Represents(oldAt, older)
  }

  /** The nodes for p in the newer tree and, if there is one, in the older tree. */
  ghost predicate Pair(newAt: Places, oldAt: Places, p: Path, info: FileInfo, oldInfo: FileInfo?) {
    && p in newAt && newAt[p] == info
    && if oldInfo == null then p !in oldAt else p in oldAt && oldAt[p] == oldInfo
  }

  /** No node inside p has been marked, but for the entries in `done`. */
  ghost predicate Unmarked(at: Places, p: Path, done: set<Name>)
    reads at.Values`added
  {
    forall q | q in at && Below(p, q) && q[|p|] !in done :: !at[q].added
  }

  /** addChanges on nodes of which nothing inside has been marked.  The node
      itself has been marked if the caller has recorded its change. */
  method AddChanges(info: FileInfo, oldInfo: FileInfo?, changes: ChangeList,
                    ghost newAt: Places, ghost newer: Tree, ghost oldAt: Places, ghost older: Tree, ghost p: Path)
    returns (ghost s: seq<Change>)
    requires Linked(newAt, newer, oldAt, older) && Pair(newAt, oldAt, p, info, oldInfo) && Unmarked(newAt, p, {})
    requires info.added <==> Changed(older, newer, p)
    modifies changes, Subtree(newAt, p)`added
    ensures changes.items == old(changes.items) + s
    ensures CoversAt(older, newer, p, old(info.added), s)
    decreases |Subtree(newAt, p)|, 2
  {
    hide Linked, Unmarked, CoversAt, Subtree, Inside, Changed, Modified;
    var sizeAtEntry := |changes.items|;
    ghost var atEntry := changes.items;
    SelfInSubtree(newAt, newer, oldAt, older, p);
    if oldInfo == null {
      RecordAddition(info, changes, newAt, newer, oldAt, older, p);
    }
    ghost var body := CompareChildren(info, oldInfo, changes, newAt, newer, oldAt, older, p);
    if oldInfo == null {
      s := [Change(p, Add)] + body;
      AddedHasHead(newAt, newer, oldAt, older, p, info, body);
    } else {
      s := RecordDirectory(info, oldInfo, changes, sizeAtEntry, newAt, newer, oldAt, older, p, atEntry, body);
    }
  }

  /** The beginning of addChanges for a node without counterpart. */
  method RecordAddition(info: FileInfo, changes: ChangeList,
                        ghost newAt: Places, ghost newer: Tree, ghost oldAt: Places, ghost older: Tree, ghost p: Path)
    requires Linked(newAt, newer, oldAt, older) && Pair(newAt, oldAt, p, info, null) && Unmarked(newAt, p, {})
    modifies changes, info`added
    ensures changes.items == old(changes.items) + [Change(p, Add)]
    ensures info.added && Unmarked(newAt, p, {})
  {
    hide Linked, Unmarked;
    ghost var marked := Marked(newAt);
    UnmarkedMeans(newAt, p);
    PairMeans(newAt, newer, oldAt, older, p, info, null);
    var path := PathOf(info, newAt, newer, p);
    changes.items := changes.items + [Change(path, Add)];
    info.added := true;
    MarkingAbove(newAt, newer, p, marked);
  }

  /** The end of addChanges: a directory is recorded if anything inside it was,
      before what is inside it. */
  method RecordDirectory(info: FileInfo, ghost oldInfo: FileInfo, changes: ChangeList, sizeAtEntry: nat,
                         ghost newAt: Places, ghost newer: Tree, ghost oldAt: Places, ghost older: Tree, ghost p: Path,
                         ghost before: seq<Change>, ghost body: seq<Change>)
    returns (ghost s: seq<Change>)
    requires Linked(newAt, newer, oldAt, older) && Pair(newAt, oldAt, p, info, oldInfo)
    requires info.added <==> Changed(older, newer, p)
    requires changes.items == before + body && sizeAtEntry == |before| && CoversAt(older, newer, p, true, body)
    modifies changes
    ensures changes.items == before + s
    ensures CoversAt(older, newer, p, info.added, s)
  {
    hide Linked, CoversAt, Changed, Modified;
    PairMeans(newAt, newer, oldAt, older, p, info, oldInfo);
    DirtyIffSomething(older, newer, p, body);
    var path := PathOf(info, newAt, newer, p);
    s := body;
    if |changes.items| > sizeAtEntry && info.IsDir() && !info.added && path != [] {
      changes.Insert(sizeAtEntry, Change(path, Modify));
      InsertedAfter(before, Change(p, Modify), body);
      ReportedAt(older, newer, p);
      s := [Change(p, Modify)] + body;
      CoversWithHead(older, newer, p, Change(p, Modify), body);
    } else if !info.added {
      UnreportedAt(older, newer, p);
      CoversWithoutHead(older, newer, p, body);
    }
  }

  /** The two loops of addChanges, in any order of the entries: those of the newer
      directory, then what is left of the older one. */
  method CompareChildren(info: FileInfo, oldInfo: FileInfo?, changes: ChangeList,
                         ghost newAt: Places, ghost newer: Tree, ghost oldAt: Places, ghost older: Tree, ghost p: Path)
    returns (ghost s: seq<Change>)
    requires Linked(newAt, newer, oldAt, older) && Pair(newAt, oldAt, p, info, oldInfo) && Unmarked(newAt, p, {})
    modifies changes, Inside(newAt, p)`added
    ensures changes.items == old(changes.items) + s
    ensures CoversAt(older, newer, p, true, s)
    decreases |Subtree(newAt, p)|, 1
  {
    hide Linked, Unmarked, Covers, CoversAt, Subtree, Inside, Entries;
    var oldChildren: map<Name, FileInfo> := map[];
    if oldInfo != null && info.IsDir() {
      oldChildren := oldInfo.children;
    }
    EntriesOf(newAt, newer, oldAt, older, p, info, oldInfo, oldChildren);
    s := [];
    NothingCovered(older, newer, p);
    ghost var allOld := oldChildren;
    ghost var entries := info.children;
    var todo := info.children.Keys;
    ghost var done: set<Name> := {};
    while todo != {}
      invariant todo <= info.children.Keys && done == info.children.Keys - todo
      invariant oldChildren == allOld - done
      invariant changes.items == old(changes.items) + s && Covers(older, newer, p, done, s)
      invariant Unmarked(newAt, p, done)
      decreases todo
    {
      var name :| name in todo;
      var oldChild := if name in oldChildren then oldChildren[name] else null;
      EntryAt(newAt, newer, oldAt, older, p, entries, allOld, name);
      InsideOf(newAt, newer, oldAt, older, p, name);
      ghost var r := CompareChild(info.children[name], oldChild, changes, newAt, newer, oldAt, older, p, name, done);
      CoversMore(older, newer, p, done, name, s, r);
      s := s + r;
      oldChildren := oldChildren - {name};
      todo := todo - {name};
      done := done + {name};
    }
    assert done == entries.Keys;
    s := ReportDeleted(oldChildren, changes, newAt, newer, oldAt, older, p, entries, allOld, old(changes.items), s);
    EntriesAreAll(newAt, newer, oldAt, older, p, entries, allOld, s);
  }

  /** The body of the first loop: the change of an entry itself, then what is
      inside it. */
  method CompareChild(newChild: FileInfo, oldChild: FileInfo?, changes: ChangeList,
                      ghost newAt: Places, ghost newer: Tree, ghost oldAt: Places, ghost older: Tree, ghost p: Path,
                      ghost n: Name, ghost done: set<Name>)
    returns (ghost s: seq<Change>)
    requires Linked(newAt, newer, oldAt, older) && p in newAt && Unmarked(newAt, p, done) && n !in done
    requires Pair(newAt, oldAt, p + [n], newChild, oldChild)
    modifies changes, Inside(newAt, p)`added
    ensures changes.items == old(changes.items) + s
    ensures CoversAt(older, newer, p + [n], false, s)
    ensures Unmarked(newAt, p, done + {n})
    decreases |Subtree(newAt, p)|, 0
  {
    hide Linked, Unmarked, CoversAt, Subtree, Inside, Changed, Reported, NoneIn, Ordered, Modified, Deleted, Added;
    ghost var child, marked := p + [n], Marked(newAt);
    UnmarkedBut(newAt, p, done);
    InsideOf(newAt, newer, oldAt, older, p, n);
    UnmarkedChild(newAt, newer, oldAt, older, p, n, done);
    ghost var head := RecordOwnChange(newChild, oldChild, changes, newAt, newer, oldAt, older, child);
    ghost var changed := newChild.added;
    ghost var r := AddChanges(newChild, oldChild, changes, newAt, newer, oldAt, older, child);
    s := head + r;
    CoversWithOwnChange(older, newer, child, changed, head, r);
    StillUnmarked(newAt, newer, oldAt, older, p, n, done, marked);
  }

  /** The comparison of one entry with its counterpart. */
  method RecordOwnChange(newChild: FileInfo, oldChild: FileInfo?, changes: ChangeList,
                         ghost newAt: Places, ghost newer: Tree, ghost oldAt: Places, ghost older: Tree, ghost p: Path)
    returns (ghost head: seq<Change>)
    requires Linked(newAt, newer, oldAt, older) && p != [] && Pair(newAt, oldAt, p, newChild, oldChild)
    requires Unmarked(newAt, p, {}) && !newChild.added
    modifies changes, newChild`added
    ensures changes.items == old(changes.items) + head
    ensures newChild.added <==> Changed(older, newer, p)
    ensures head == if newChild.added then [Change(p, Modify)] else []
    ensures newChild.added ==> Reported(older, newer, Change(p, Modify))
    ensures Unmarked(newAt, p, {})
  {
    hide Linked, Unmarked, StatDifferent;
    ghost var marked := Marked(newAt);
    UnmarkedMeans(newAt, p);
    PairMeans(newAt, newer, oldAt, older, p, newChild, oldChild);
    head := [];
    if oldChild != null {
      DiffersAt(newAt, newer, oldAt, older, p);
      if StatDifferent(oldChild.stat, newChild.stat) || oldChild.capability != newChild.capability {
        var path := PathOf(newChild, newAt, newer, p);
        changes.items := changes.items + [Change(path, Modify)];
        newChild.added := true;
        head := [Change(p, Modify)];
      }
    }
    MarkingAbove(newAt, newer, p, marked);
  }

  /** The second loop of addChanges. */
  method ReportDeleted(oldChildren: map<Name, FileInfo>, changes: ChangeList,
                       ghost newAt: Places, ghost newer: Tree, ghost oldAt: Places, ghost older: Tree, ghost p: Path,
                       ghost entries: map<Name, FileInfo>, ghost allOld: map<Name, FileInfo>,
                       ghost start: seq<Change>, ghost before: seq<Change>)
    returns (ghost s: seq<Change>)
    requires Linked(newAt, newer, oldAt, older) && Entries(newAt, newer, oldAt, older, p, entries, allOld)
    requires oldChildren == allOld - entries.Keys && Covers(older, newer, p, entries.Keys, before)
    requires changes.items == start + before
    modifies changes
    ensures changes.items == start + s
    ensures Covers(older, newer, p, entries.Keys + oldChildren.Keys, s)
  {
    hide Linked, Covers, CoversAt, Deleted, Entries, Represents, Tree.Valid;
    var left := oldChildren.Keys;
    ghost var done := entries.Keys;
    s := before;
    while left != {}
      invariant left <= oldChildren.Keys && done == entries.Keys + (oldChildren.Keys - left)
      invariant changes.items == start + s
      invariant Covers(older, newer, p, done, s)
      decreases left
    {
      var name :| name in left;
      DeletionAt(newAt, newer, oldAt, older, p, entries, allOld, name);
      var path := PathOf(oldChildren[name], oldAt, older, p + [name]);
      changes.items := changes.items + [Change(path, Delete)];
      CoversDeletion(older, newer, p + [name]);
      CoversMore(older, newer, p, done, name, s, [Change(path, Delete)]);
      s := s + [Change(path, Delete)];
      MoveOne(entries.Keys, oldChildren.Keys, left, name);
      left := left - {name};
      done := done + {name};
    }
    assert done == entries.Keys + oldChildren.Keys;
  }

  // ----- what the methods need about nodes -----

  lemma SelfInSubtree(newAt: Places, newer: Tree, oldAt: Places, older: Tree, p: Path)
    requires Linked(newAt, newer, oldAt, older) && p in newAt
    ensures newAt[p] in Subtree(newAt, p) && Inside(newAt, p) <= Subtree(newAt, p) && newAt[p] !in Inside(newAt, p)
  {
  }

  lemma PairMeans(newAt: Places, newer: Tree, oldAt: Places, older: Tree, p: Path, info: FileInfo, oldInfo: FileInfo?)
    requires Linked(newAt, newer, oldAt, older) && Pair(newAt, oldAt, p, info, oldInfo)
    ensures Represents(newAt, newer) && Represents(oldAt, older) && newer.Valid() && older.Valid()
    ensures newer.Has(p) && p in newer.names && (oldInfo != null <==> p in older.names)
    ensures oldInfo != null ==> older.Has(p) && p in older.names
    ensures info.IsDir() <==> newer.IsDir(p)
  {
  }

  lemma AddedHasHead(newAt: Places, newer: Tree, oldAt: Places, older: Tree, p: Path, info: FileInfo, body: seq<Change>)
    requires Linked(newAt, newer, oldAt, older) && Pair(newAt, oldAt, p, info, null)
    requires CoversAt(older, newer, p, true, body)
    ensures CoversAt(older, newer, p, false, [Change(p, Add)] + body)
    ensures !Changed(older, newer, p)
  {
    PairMeans(newAt, newer, oldAt, older, p, info, null);
    CoversWithHead(older, newer, p, Change(p, Add), body);
  }

  /** A path in both trees is reported only as modified. */
  lemma UnreportedAt(older: Tree, newer: Tree, p: Path)
    requires older.Has(p) && newer.Has(p) && p in older.names && p in newer.names && !Changed(older, newer, p)
    requires p == [] || !newer.IsDir(p) || !DirtyBelow(older, newer, p)
    ensures forall c: Change | c.path == p :: !Reported(older, newer, c)
  {
  }

  lemma ReportedAt(older: Tree, newer: Tree, p: Path)
    requires older.Has(p) && newer.IsDir(p) && p != [] && DirtyBelow(older, newer, p)
    ensures Reported(older, newer, Change(p, Modify))
  {
  }

  lemma MoveOne(a: set<Name>, b: set<Name>, left: set<Name>, x: Name)
    requires x in left && left <= b
    ensures a + (b - left) + {x} == a + (b - (left - {x}))
  {
  }

  lemma NothingCovered(older: Tree, newer: Tree, p: Path)
    ensures Covers(older, newer, p, {}, [])
  {
  }

  /** An entry's nodes are inside the directory's, and fewer. */
  lemma InsideOf(newAt: Places, newer: Tree, oldAt: Places, older: Tree, p: Path, n: Name)
    requires Linked(newAt, newer, oldAt, older) && p in newAt && p + [n] in newAt
    ensures Subtree(newAt, p + [n]) <= Inside(newAt, p) && newAt[p + [n]] in Inside(newAt, p)
    ensures newAt[p + [n]] in Subtree(newAt, p + [n])
    ensures |Subtree(newAt, p + [n])| < |Subtree(newAt, p)|
  {
    var small, big := Subtree(newAt, p + [n]), Subtree(newAt, p);
    forall q | q in newAt && p + [n] <= q ensures Below(p, q) { AtChild(p, n, q); }
    assert p + [n] <= p + [n] && p <= p;
    assert NodeStandsFor(newAt, newer, p, newAt[p]);
    assert newAt[p] in big && newAt[p] !in small by {
      forall q | q in newAt && p + [n] <= q
        ensures newAt[q] != newAt[p]
      {
        assert NodeStandsFor(newAt, newer, q, newAt[q]);
      }
    }
    SubsetSize(small, big);
  }

  lemma UnmarkedChild(newAt: Places, newer: Tree, oldAt: Places, older: Tree, p: Path, n: Name, done: set<Name>)
    requires Linked(newAt, newer, oldAt, older) && p in newAt && p + [n] in newAt && Unmarked(newAt, p, done)
    requires n !in done
    ensures Unmarked(newAt, p + [n], {}) && !newAt[p + [n]].added
  {
    AtChild(p, n, p + [n]);
    forall q | q in newAt && Below(p + [n], q) ensures !newAt[q].added { AtChild(p, n, q); }
  }

  ghost function Marked(at: Places): set<FileInfo>
    reads at.Values`added
  {
    set o | o in at.Values && o.added
  }

  /** A node stands for one path. */
  lemma NotInSubtree(at: Places, t: Tree, p: Path, q: Path)
    requires Represents(at, t) && p in at && !(q <= p)
    ensures at[p] !in Subtree(at, q) && (q in at ==> at[q] != at[p])
  {
  }

  /** Marking a node marks nothing inside it. */
  lemma MarkingAbove(at: Places, t: Tree, p: Path, before: set<FileInfo>)
    requires Represents(at, t) && p in at
    requires forall q | q in at && Below(p, q) :: at[q] !in before
    requires Marked(at) <= before + {at[p]}
    ensures Unmarked(at, p, {})
  {
    forall q | q in at && Below(p, q) ensures !at[q].added {
      NotInSubtree(at, t, p, q);
      assert at[q] !in before + {at[p]};
    }
  }

  lemma UnmarkedMeans(at: Places, p: Path)
    requires Unmarked(at, p, {})
    ensures forall q | q in at && Below(p, q) :: at[q] !in Marked(at)
  {
  }

  ghost predicate NoneIn(at: Places, p: Path, done: set<Name>, s: set<FileInfo>) {
    forall q | q in at && Below(p, q) && q[|p|] !in done :: at[q] !in s
  }

  /** Comparing one entry marks nothing in the others. */
  lemma StillUnmarked(newAt: Places, newer: Tree, oldAt: Places, older: Tree, p: Path, n: Name, done: set<Name>,
                      before: set<FileInfo>)
    requires Linked(newAt, newer, oldAt, older) && p in newAt
    requires NoneIn(newAt, p, done, before)
    requires Marked(newAt) <= before + Subtree(newAt, p + [n])
    ensures Unmarked(newAt, p, done + {n})
  {
    forall q | q in newAt && Below(p, q) && q[|p|] !in done + {n} ensures !newAt[q].added {
      AtChild(p, n, q);
      NotInSubtree(newAt, newer, q, p + [n]);
      assert newAt[q] !in before + Subtree(newAt, p + [n]);
    }
  }

  lemma UnmarkedBut(at: Places, p: Path, done: set<Name>)
    requires Unmarked(at, p, done)
    ensures NoneIn(at, p, done, Marked(at))
  {
  }

  /** The entries of the newer directory and those of the older one that are
      compared with them. */
  ghost predicate Entries(newAt: Places, newer: Tree, oldAt: Places, older: Tree, p: Path,
                          entries: map<Name, FileInfo>, allOld: map<Name, FileInfo>)
  {
    NewEntries(newAt, newer, oldAt, p, entries, allOld) && OldEntries(newer, oldAt, older, p, entries, allOld)
  }

  ghost predicate NewEntries(newAt: Places, newer: Tree, oldAt: Places, p: Path,
                             entries: map<Name, FileInfo>, allOld: map<Name, FileInfo>)
  {
    && (forall n :: n in entries <==> p + [n] in newer.names)
    && (forall n | n in entries :: Pair(newAt, oldAt, p + [n], entries[n], if n in allOld then allOld[n] else null))
  }

  ghost predicate OldEntries(newer: Tree, oldAt: Places, older: Tree, p: Path,
                             entries: map<Name, FileInfo>, allOld: map<Name, FileInfo>)
  {
    && (forall n | n in allOld :: p + [n] in oldAt && oldAt[p + [n]] == allOld[n])
    && (forall n | n in allOld && n !in entries :: Deleted(older, newer, p + [n]))
    && (forall n | p + [n] in older.names && newer.IsDir(p) :: (n in allOld))
  }

  lemma EntriesOf(newAt: Places, newer: Tree, oldAt: Places, older: Tree, p: Path, info: FileInfo, oldInfo: FileInfo?,
                  allOld: map<Name, FileInfo>)
    requires Linked(newAt, newer, oldAt, older) && Pair(newAt, oldAt, p, info, oldInfo)
    requires allOld == if oldInfo != null && info.IsDir() then oldInfo.children else map[]
    ensures Entries(newAt, newer, oldAt, older, p, info.children, allOld)
  {
    NewEntriesOf(newAt, newer, oldAt, older, p, info, oldInfo, allOld);
    OldEntriesOf(newAt, newer, oldAt, older, p, info, oldInfo, allOld);
  }

  lemma NewEntriesOf(newAt: Places, newer: Tree, oldAt: Places, older: Tree, p: Path, info: FileInfo,
                     oldInfo: FileInfo?,
                     allOld: map<Name, FileInfo>)
    requires Linked(newAt, newer, oldAt, older) && Pair(newAt, oldAt, p, info, oldInfo)
    requires allOld == if oldInfo != null && info.IsDir() then oldInfo.children else map[]
    ensures NewEntries(newAt, newer, oldAt, p, info.children, allOld)
  {
    hide Linked, Represents, Tree.Valid;
    PairMeans(newAt, newer, oldAt, older, p, info, oldInfo);
    ChildrenOf(newAt, newer, p);
    EntriesNeedDir(newer, p);
    forall n | n in info.children
      ensures Pair(newAt, oldAt, p + [n], info.children[n], if n in allOld then allOld[n] else null)
    {
      CounterpartOf(newAt, newer, oldAt, older, p, info, oldInfo, n);
    }
  }

  lemma CounterpartOf(newAt: Places, newer: Tree, oldAt: Places, older: Tree, p: Path, info: FileInfo,
                      oldInfo: FileInfo?, n: Name)
    requires Linked(newAt, newer, oldAt, older) && Pair(newAt, oldAt, p, info, oldInfo)
    ensures oldInfo != null ==> (n in oldInfo.children <==> p + [n] in oldAt)
    ensures oldInfo != null && n in oldInfo.children ==> oldAt[p + [n]] == oldInfo.children[n]
    ensures oldInfo == null ==> p + [n] !in oldAt
  {
    if oldInfo != null {
      assert NodeStandsFor(oldAt, older, p, oldAt[p]);
    } else {
      EntriesNeedDir(older, p);
    }
  }

  lemma OldEntriesOf(newAt: Places, newer: Tree, oldAt: Places, older: Tree, p: Path, info: FileInfo,
                     oldInfo: FileInfo?,
                     allOld: map<Name, FileInfo>)
    requires Linked(newAt, newer, oldAt, older) && Pair(newAt, oldAt, p, info, oldInfo)
    requires allOld == if oldInfo != null && info.IsDir() then oldInfo.children else map[]
    ensures OldEntries(newer, oldAt, older, p, info.children, allOld)
  {
    hide Linked;
    PairMeans(newAt, newer, oldAt, older, p, info, oldInfo);
    ChildrenOf(newAt, newer, p);
    if oldInfo != null { ChildrenOf(oldAt, older, p); }
    EntriesNeedDir(older, p);
  }

  lemma ChildrenOf(at: Places, t: Tree, p: Path)
    requires Represents(at, t) && p in at
    ensures forall n :: n in at[p].children <==> p + [n] in t.names
    ensures forall n | n in at[p].children :: p + [n] in at && at[p + [n]] == at[p].children[n]
  {
  }

  lemma EntriesNeedDir(t: Tree, p: Path)
    requires t.Valid()
    ensures forall n | p + [n] in t.names :: t.IsDir(p)
    ensures forall n :: p + [n] != [] && Parent(p + [n]) == p
  {
    forall n ensures p + [n] != [] && Parent(p + [n]) == p { ParentOf(p, n); }
    forall n | p + [n] in t.names ensures t.IsDir(p) {
      assert t.IsDir(Parent(p + [n]));
    }
  }

  lemma EntryAt(newAt: Places, newer: Tree, oldAt: Places, older: Tree, p: Path,
                entries: map<Name, FileInfo>, allOld: map<Name, FileInfo>, n: Name)
    requires Entries(newAt, newer, oldAt, older, p, entries, allOld) && n in entries
    ensures Pair(newAt, oldAt, p + [n], entries[n], if n in allOld then allOld[n] else null)
  {
  }

  lemma DeletionAt(newAt: Places, newer: Tree, oldAt: Places, older: Tree, p: Path,
                   entries: map<Name, FileInfo>, allOld: map<Name, FileInfo>, n: Name)
    requires Linked(newAt, newer, oldAt, older) && Entries(newAt, newer, oldAt, older, p, entries, allOld)
    requires n in allOld && n !in entries
    ensures newer.Valid() && Represents(oldAt, older)
    ensures p + [n] in oldAt && oldAt[p + [n]] == allOld[n] && Deleted(older, newer, p + [n])
  {
  }

  lemma EntriesAreAll(newAt: Places, newer: Tree, oldAt: Places, older: Tree, p: Path,
                      entries: map<Name, FileInfo>, allOld: map<Name, FileInfo>, s: seq<Change>)
    requires Linked(newAt, newer, oldAt, older) && Entries(newAt, newer, oldAt, older, p, entries, allOld)
    requires Covers(older, newer, p, entries.Keys + (allOld - entries.Keys).Keys, s)
    ensures CoversAt(older, newer, p, true, s)
  {
    NothingElse(older, newer, p, entries.Keys + (allOld - entries.Keys).Keys, s);
  }

  lemma DiffersAt(newAt: Places, newer: Tree, oldAt: Places, older: Tree, p: Path)
    requires Linked(newAt, newer, oldAt, older) && p in newAt && p in oldAt && p != []
    ensures older.Has(p) && newer.Has(p)
    ensures Changed(older, newer, p) <==>
      StatDifferent(oldAt[p].stat, newAt[p].stat) || oldAt[p].capability != newAt[p].capability
  {
  }

  // ----- LookUp and Changes -----

  lemma {:induction false} PlacesAreNested(at: Places, t: Tree, p: Path, k: nat)
    requires Represents(at, t) && p in at && k <= |p|
    ensures p[..k] in at
    decreases |p| - k
  {
    if k == |p| {
      assert p[..k] == p;
    } else {
      PlacesAreNested(at, t, p, k + 1);
      assert NodeStandsFor(at, t, p[..k + 1], at[p[..k + 1]]);
      assert Parent(p[..k + 1]) == p[..k];
    }
  }

  /** One component further: what the children say about it. */
  lemma NextElement(at: Places, t: Tree, elems: Path, i: nat)
    requires Represents(at, t) && i < |elems| && elems[..i] in at
    ensures var node, next := at[elems[..i]], elems[..i + 1];
      && (elems[i] in node.children <==> next in at)
      && (next in at ==> node.children[elems[i]] == at[next])
      && (elems in at ==> next in at)
  {
    ChildrenAreAt(at, t, elems[..i], elems[i]);
    assert elems[..i] + [elems[i]] == elems[..i + 1];
    if elems in at { PlacesAreNested(at, t, elems, i + 1); }
  }

  /** LookUp: the node for a path, or null. */
  method LookUp(info: FileInfo, elems: Path, ghost at: Places, ghost t: Tree) returns (r: FileInfo?)
    requires Represents(at, t) && at[[]] == info
    ensures if elems in at then r == at[elems] else r == null
  {
    assert [] in at && elems[..0] == [];
    hide Represents;
    var parent := info;
    var i := 0;
    while i < |elems|
      invariant 0 <= i <= |elems| && elems[..i] in at && parent == at[elems[..i]]
    {
      NextElement(at, t, elems, i);
      if elems[i] !in parent.children {
        return null;
      }
      parent := parent.children[elems[i]];
      i := i + 1;
    }
    assert elems[..i] == elems;
    r := parent;
  }

  lemma ChildrenAreAt(at: Places, t: Tree, p: Path, n: Name)
    requires Represents(at, t) && p in at
    ensures n in at[p].children <==> p + [n] in at
    ensures n in at[p].children ==> at[p].children[n] == at[p + [n]]
  {
  }

  /** Changes: the comparison of two roots of which nothing has been marked
      reports exactly the changes between the trees, each path once and every
      directory before what is inside it. */
  method ChangesOf(info: FileInfo, oldInfo: FileInfo,
                   ghost newAt: Places, ghost newer: Tree, ghost oldAt: Places, ghost older: Tree)
    returns (list: seq<Change>)
    requires Linked(newAt, newer, oldAt, older) && newAt[[]] == info && oldAt[[]] == oldInfo
    requires forall q | q in newAt :: !newAt[q].added
    modifies newAt.Values`added
    ensures forall c :: c in list <==> Reported(older, newer, c)
    ensures Ordered(list)
  {
    var changes := new ChangeList();
    assert Subtree(newAt, []) <= newAt.Values;
    ghost var s := AddChanges(info, oldInfo, changes, newAt, newer, oldAt, older, []);
    assert changes.items == s;
    list := changes.items;
  }
}
