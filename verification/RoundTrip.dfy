/** The diff of two trees, exported as a layer and applied to the older tree,
    gives the newer tree. */
module RoundTrip {
  import opened Names
  import opened Trees
  import opened Headers
  import opened Extract
  import opened Plain
  import opened Layers
  import opened LayerTheorem
  import opened Changes
  import opened Export
  import opened WhiteoutNames
  import FileInfos
  import Walker
  import Unpack

  // ----- lists of changes -----

  ghost predicate NoDuplicates(s: seq<Change>) {
    forall i, j | 0 <= i < j < |s| :: s[i] != s[j]
  }

  /** All changes between two trees, each once. */
  ghost predicate IsDiff(older: Tree, newer: Tree, changes: seq<Change>) {
    (forall c :: c in changes <==> Reported(older, newer, c)) && NoDuplicates(changes)
  }

  /** changesByPath. */
  ghost predicate SortedByPath(changes: seq<Change>) {
    forall i, j | 0 <= i < j < |changes| :: !Less(Render(changes[j].path), Render(changes[i].path))
  }

  lemma {:induction false} CountsOfDistinct(s: seq<Change>)
    ensures NoDuplicates(s) <==> forall x | x in s :: multiset(s)[x] == 1
    decreases |s|
  {
    if s != [] {
      var n := |s| - 1;
      var rest, last := s[..n], s[n];
      assert s == rest + [last];
      CountsOfDistinct(rest);
      if NoDuplicates(s) {
        assert last !in rest;
        forall x | x in s ensures multiset(s)[x] == 1 {
          if x != last { assert x in rest; }
        }
      }
      if forall x | x in s :: multiset(s)[x] == 1 {
        assert multiset(s)[last] == 1;
        assert last !in rest;
        forall x | x in rest ensures multiset(rest)[x] == 1 { assert x in s; }
      }
    }
  }

  lemma PermutationsKeepDistinct(s: seq<Change>, t: seq<Change>)
    requires NoDuplicates(s) && multiset(s) == multiset(t)
    ensures NoDuplicates(t)
  {
    CountsOfDistinct(s);
    CountsOfDistinct(t);
    forall x | x in t ensures multiset(t)[x] == 1 { assert x in multiset(t); }
  }

  lemma NotLessIsTransitive(a: string, b: string, c: string)
    requires !Less(b, a) && !Less(c, b)
    ensures !Less(c, a)
  {
  }

  /** `sort.Sort(changesByPath(changes))`; equal paths may end in any order. */
  method SortChanges(changes: seq<Change>) returns (sorted: seq<Change>)
    ensures SortedByPath(sorted) && multiset(sorted) == multiset(changes)
  {
    hide Less, Render;
    sorted := [];
    for i := 0 to |changes|
      invariant SortedByPath(sorted) && multiset(sorted) == multiset(changes[..i])
    {
      var c := changes[i];
      assert changes[..i + 1] == changes[..i] + [c];
      var k := |sorted|;
      while k > 0 && Less(Render(c.path), Render(sorted[k - 1].path))
        invariant 0 <= k <= |sorted|
        invariant forall j | k <= j < |sorted| :: Less(Render(c.path), Render(sorted[j].path))
      {
        k := k - 1;
      }
      InsertIsSorted(sorted, c, k);
      InsertAddsOne(sorted, c, k);
      sorted := sorted[..k] + [c] + sorted[k..];
    }
    assert changes[..|changes|] == changes;
  }

  lemma InsertAddsOne(sorted: seq<Change>, c: Change, k: nat)
    requires k <= |sorted|
    ensures multiset(sorted[..k] + [c] + sorted[k..]) == multiset(sorted) + multiset{c}
  {
    assert sorted == sorted[..k] + sorted[k..];
  }

  lemma InsertIsSorted(sorted: seq<Change>, c: Change, k: nat)
    requires SortedByPath(sorted) && k <= |sorted|
    requires k > 0 ==> !Less(Render(c.path), Render(sorted[k - 1].path))
    requires forall j | k <= j < |sorted| :: Less(Render(c.path), Render(sorted[j].path))
    ensures SortedByPath(sorted[..k] + [c] + sorted[k..])
  {
    var r := sorted[..k] + [c] + sorted[k..];
    forall i | 0 <= i < k ensures !Less(Render(c.path), Render(sorted[i].path)) {
      if i < k - 1 {
        NotLessIsTransitive(Render(sorted[i].path), Render(sorted[k - 1].path), Render(c.path));
      }
    }
    forall j | k <= j < |sorted| ensures !Less(Render(sorted[j].path), Render(c.path)) {
      LessIsAsymmetric(Render(c.path), Render(sorted[j].path));
    }
    forall i, j | 0 <= i < j < |r| ensures !Less(Render(r[j].path), Render(r[i].path)) {
      assert i < k ==> r[i] == sorted[i];
      assert i > k ==> r[i] == sorted[i - 1];
      assert j < k ==> r[j] == sorted[j];
      assert j > k ==> r[j] == sorted[j - 1];
    }
  }

  /** In a sorted list every reported ancestor comes first, although the paths
      are compared as strings. */
  lemma SortedIsParentsFirst(changes: seq<Change>, i: nat, j: nat)
    requires SortedByPath(changes) && i < |changes| && j < |changes|
    requires changes[i].path != [] && Below(changes[i].path, changes[j].path)
    ensures i < j
  {
    AncestorsSortFirst(changes[i].path, changes[j].path);
  }

  // ----- export -----

  predicate Exportable(newer: Tree, c: Change) {
    !c.kind.Delete? && newer.Has(c.path) && !newer.At(c.path).kind.Socket?
  }

  /** What a list of changes makes of a layer. */
  ghost function SumOfChanges(newer: Tree, changes: seq<Change>): Sum {
    Sum(set c | c in changes && Exportable(newer, c) :: c.path,
        set c | c in changes && c.kind.Delete? :: c.path,
        {})
  }

  /** No name of a file that is exported begins with the whiteout prefix. */
  ghost predicate NoWhiteoutNames(older: Tree, newer: Tree) {
    forall c | Reported(older, newer, c) && Exportable(newer, c) :: !Prefixed(c.path)
  }

  /** Everything below d is reported, so that it comes with the layer. */
  ghost predicate AllReportedBelow(older: Tree, newer: Tree, d: Path) {
    forall q | q in newer.names && Below(d, q) :: HasChange(older, newer, q)
  }

  /** The whiteouts of the deleted names mean what they should: where one is the
      opaque marker, nothing that has not changed is swept away, and where one is
      taken for metadata, the root is swept anyway. */
  ghost predicate DeletionsAreMeant(older: Tree, newer: Tree) {
    forall p | Reported(older, newer, Change(p, Delete)) ::
      && (NamesMarker(p) ==> AllReportedBelow(older, newer, Parent(p)))
      && (NamesMetadata(p) ==> Reported(older, newer, Change([MARKER_REMAINDER], Delete)))
  }

  /** What was at p is swept away before the entry for p is applied. */
  ghost predicate SweptFirst(older: Tree, newer: Tree, p: Path) {
    exists m :: Reported(older, newer, Change(m, Delete)) && SweepsBefore(m, p)
  }

  /** The whiteout of m sweeps a directory above p and sorts before p. */
  predicate SweepsBefore(m: Path, p: Path) {
    NamesMarker(m) && Below(Parent(m), p) && Less(Render(m), Render(p))
  }

  /** Entries stand in the order of their printed paths. */
  ghost predicate InOrder(items: seq<Item>) {
    forall i, j | 0 <= i < j < |items| :: !Less(Render(items[j].path), Render(items[i].path))
  }

  ghost predicate IsExported(older: Tree, newer: Tree, p: Path) {
    exists c :: Reported(older, newer, c) && Exportable(newer, c) && c.path == p
  }

  /** A layer that carries the diff. */
  ghost predicate CarriesDiff(older: Tree, newer: Tree, items: seq<Item>) {
    && InShape(newer, items)
    && SumOf(items).opqs == {}
    && (forall p :: p in SumOf(items).puts <==> IsExported(older, newer, p))
    && (forall p :: p in SumOf(items).dels <==> Reported(older, newer, Change(p, Delete)))
  }

  /** The layer that is exported for a diff: it carries the diff in the order of
      printed paths, and each link names an earlier file of its inode. */
  ghost predicate IsExport(older: Tree, newer: Tree, items: seq<Item>, layer: seq<Header>) {
    && EncodesAll(ArchivalTree(newer), items, layer) && CarriesDiff(older, newer, items)
    && InOrder(items) && LinksShareInodes(newer, items, layer)
  }

  /** ExportChanges. */
  method ExportChanges(newer: Tree, changes: seq<Change>, ghost older: Tree)
    returns (layer: seq<Header>)
    requires older.Valid() && newer.Valid() && IsDiff(older, newer, changes)
    ensures exists items :: IsExport(older, newer, items, layer)
    ensures HardlinksClosed(layer)
  {
    hide InShape, EncodesAll, Remembers, LinksNameFiles, SumOfChanges, CarriesDiff, IsDiff, Tree.Valid;
    var ta := new TarAppender(newer, false);
    var sorted := SortChanges(changes);
    SortingKeepsDiff(older, newer, changes, sorted);
    NothingExported(newer);
    assert sorted[..0] == [];
    for i := 0 to |sorted|
      invariant ta.Valid() && ta.src == newer && !ta.overlay
      invariant InShape(newer, ta.items) && SumOf(ta.items) == SumOfChanges(newer, sorted[..i])
      invariant InOrder(ta.items) && UpTo(ta.items, sorted, i)
    {
      ChangeCanFollow(older, newer, sorted, i);
      assert sorted[..i + 1] == sorted[..i] + [sorted[i]];
      SumOfMore(newer, sorted[..i], sorted[i]);
      ghost var before := ta.items;
      ExportChange(ta, sorted[i], older);
      StaysInOrder(before, ta.items, sorted, i);
    }
    assert sorted[..|sorted|] == sorted;
    layer := ta.out;
    WrittenIsClosed(newer, ta.items, layer);
    SumCarriesDiff(older, newer, sorted, ta.items);
    assert IsExport(older, newer, ta.items, layer);
  }

  lemma NothingExported(newer: Tree)
    ensures InShape(newer, []) && SumOf([]) == SumOfChanges(newer, [])
  {
  }

  /** No item comes after the change at i. */
  ghost predicate UpTo(items: seq<Item>, sorted: seq<Change>, i: nat)
    requires i <= |sorted|
  {
    forall k, j | 0 <= k < |items| && i <= j < |sorted| :: !Less(Render(sorted[j].path), Render(items[k].path))
  }

  ghost predicate AddsItemFor(before: seq<Item>, after: seq<Item>, p: Path) {
    |after| == |before| + 1 && after[..|before|] == before && after[|before|].path == p
  }

  lemma StaysInOrder(before: seq<Item>, after: seq<Item>, sorted: seq<Change>, i: nat)
    requires SortedByPath(sorted) && i < |sorted| && InOrder(before) && UpTo(before, sorted, i)
    requires after == before || AddsItemFor(before, after, sorted[i].path)
    ensures InOrder(after) && UpTo(after, sorted, i + 1)
  {
  }

  /** The body of the export loop: a whiteout for what was deleted, otherwise
      the file. */
  method ExportChange(ta: TarAppender, change: Change, ghost older: Tree)
    requires ta.Valid() && !ta.overlay && ta.src.Valid() && older.Valid() && InShape(ta.src, ta.items)
    requires Ready(ta.src, SumOf(ta.items), change.path)
    requires change.kind.Delete? ==> change.path in older.names
    requires !change.kind.Delete? ==> ta.src.Has(change.path) && change.path in ta.src.names
    modifies ta
    ensures ta.Valid() && InShape(ta.src, ta.items)
    ensures SumOf(ta.items) ==
      if change.kind.Delete? then Plus(SumOf(old(ta.items)), Del(change.path))
      else if Exportable(ta.src, change) then Plus(SumOf(old(ta.items)), Put(change.path, None))
      else SumOf(old(ta.items))
    ensures ta.items == old(ta.items) || AddsItemFor(old(ta.items), ta.items, change.path)
  {
    ghost var before := ta.items;
    if change.kind.Delete? {
      NamesAreOrdinary(older, change.path);
      ta.WriteDeletion(change.path);
      AppendItem(ta.src, before, Del(change.path));
    } else {
      ta.AddTarFile(change.path);
      AfterFile(before, ta.items, change.path, ta);
    }
  }

  lemma SortingKeepsDiff(older: Tree, newer: Tree, changes: seq<Change>, sorted: seq<Change>)
    requires IsDiff(older, newer, changes) && multiset(sorted) == multiset(changes)
    ensures IsDiff(older, newer, sorted)
  {
    PermutationsKeepDistinct(changes, sorted);
    forall c ensures c in sorted <==> Reported(older, newer, c) {
      assert c in sorted <==> c in multiset(sorted);
      assert c in changes <==> c in multiset(changes);
    }
  }

  lemma SumOfMore(newer: Tree, changes: seq<Change>, c: Change)
    ensures var s := SumOfChanges(newer, changes);
      SumOfChanges(newer, changes + [c]) ==
        if c.kind.Delete? then Plus(s, Del(c.path))
        else if Exportable(newer, c) then Plus(s, Put(c.path, None))
        else s
  {
  }

  /** What the export knows about the next change. */
  ghost predicate Ready(newer: Tree, s: Sum, p: Path) {
    && p != [] && Ordinary(Last(p))
    && p !in s.puts && p !in s.dels && ParentReady(newer, s, p)
  }

  lemma ChangeCanFollow(older: Tree, newer: Tree, sorted: seq<Change>, i: nat)
    requires older.Valid() && newer.Valid()
    requires IsDiff(older, newer, sorted) && SortedByPath(sorted) && i < |sorted|
    ensures Ready(newer, SumOfChanges(newer, sorted[..i]), sorted[i].path)
    ensures sorted[i].kind.Delete? ==> sorted[i].path in older.names
    ensures !sorted[i].kind.Delete? ==> newer.Has(sorted[i].path)
  {
    var c, s := sorted[i], SumOfChanges(newer, sorted[..i]);
    assert c in sorted && Reported(older, newer, c);
    assert c.path != [] by { assert older.IsDir([]) && newer.IsDir([]); }
    assert Ordinary(Last(c.path)) by {
      if c.path in older.names { assert older.IsDir(Parent(c.path)); } else { assert newer.IsDir(Parent(c.path)); }
    }
    forall d | d in sorted[..i] ensures d.path != c.path {
      var j :| 0 <= j < i && sorted[j] == d;
      assert d in sorted && d != c;
      if d.path == c.path { OneKindPerPath(older, newer, c, d); }
    }
    ParentIsReady(older, newer, sorted, i);
  }

  lemma ParentIsReady(older: Tree, newer: Tree, sorted: seq<Change>, i: nat)
    requires older.Valid() && newer.Valid() && IsDiff(older, newer, sorted) && SortedByPath(sorted) && i < |sorted|
    requires sorted[i].path != []
    ensures ParentReady(newer, SumOfChanges(newer, sorted[..i]), sorted[i].path)
  {
    var c := sorted[i];
    assert c in sorted;
    var p := Parent(c.path);
    AncestorsAreReported(older, newer, c, p);
    if p != [] {
      var d := if Reported(older, newer, Change(p, Add)) then Change(p, Add) else Change(p, Modify);
      assert d in sorted;
      var j :| 0 <= j < |sorted| && sorted[j] == d;
      SortedIsParentsFirst(sorted, j, i);
      assert sorted[..i][j] == d;
      assert d in sorted[..i] && Exportable(newer, d);
      assert p in SumOfChanges(newer, sorted[..i]).puts;
    }
  }

  lemma AfterFile(before: seq<Item>, after: seq<Item>, p: Path, ta: TarAppender)
    requires !ta.overlay && ta.src.Has(p) && p in ta.src.names
    requires ta.Wrote(before, after, p) && InShape(ta.src, before) && Ready(ta.src, SumOf(before), p)
    ensures InShape(ta.src, after)
    ensures SumOf(after) == if ta.src.At(p).kind.Socket? then SumOf(before) else Plus(SumOf(before), Put(p, None))
    ensures after == before || AddsItemFor(before, after, p)
  {
    var newer := ta.src;
    if !newer.At(p).kind.Socket? {
      var link :| LinkIsFirst(newer, SumOf(before), p, link) && after == before + [Put(p, link)] + ta.Marker(p);
      assert after == before + [Put(p, link)];
      AppendItem(newer, before, Put(p, link));
    }
  }

  lemma SumCarriesDiff(older: Tree, newer: Tree, sorted: seq<Change>, items: seq<Item>)
    requires forall c :: c in sorted <==> Reported(older, newer, c)
    requires InShape(newer, items) && SumOf(items) == SumOfChanges(newer, sorted)
    ensures CarriesDiff(older, newer, items)
  {
  }

  // ----- the round trip -----

  predicate TimeInRange(m: Time) {
    !Before(TruncateTime(m), MIN_TIME) && !Before(MAX_TIME, TruncateTime(m))
  }

  /** An archive can carry the file at p: it is no socket, its capabilities are
      not of revision 3, a file's time is one that can be set, and a directory
      does not have to lose capabilities that it has in the older tree, unless it
      is made anew. */
  ghost predicate Carried(older: Tree, newer: Tree, p: Path) {
    newer.Has(p) ==>
      var node := newer.At(p);
      && !node.kind.Socket?
      && CapRecord(node.caps) == node.caps
      && (!node.kind.Dir? ==> TimeInRange(node.mtime))
      && (node.kind.Dir? && node.caps == "" && older.IsDir(p) ==>
            older.At(p).caps == "" || SweptFirst(older, newer, p))
  }

  ghost predicate AllCarried(older: Tree, newer: Tree) {
    forall c | Reported(older, newer, c) && !c.kind.Delete? :: Carried(older, newer, c.path)
  }

  /** Sizes and device numbers belong to the kind. */
  lemma MatchingIsNoDifference(older: Tree, newer: Tree, p: Path, node: Inode)
    requires newer.Has(p) && NodeMatches(older, p, node, Archival(newer.At(p))) && !newer.At(p).kind.Socket?
    requires newer.IsDir(p) && older.IsDir(p) && CapRecord(newer.At(p).caps) == "" ==>
      node.caps == if SweptFirst(older, newer, p) then "" else older.At(p).caps
    ensures Differs(node, newer.At(p)) <==> !Carried(older, newer, p)
    ensures Differs(newer.At(p), node) <==> !Carried(older, newer, p)
  {
  }

  lemma SameButTimeIsNoDifference(a: Inode, b: Inode, c: Inode)
    requires SameButTime(a, b)
    ensures Differs(a, c) <==> Differs(b, c)
    ensures Differs(a, c) <==> Differs(c, b)
  {
  }

  /** What is not put was not reported, or is a socket. */
  lemma UnputIsUnchanged(older: Tree, newer: Tree, items: seq<Item>, p: Path)
    requires older.Valid() && newer.Valid() && CarriesDiff(older, newer, items)
    requires p in newer.names && p !in SumOf(items).puts && p != []
    ensures p in older.names || newer.At(p).kind.Socket?
    ensures p in older.names && !newer.At(p).kind.Socket? ==> !Differs(older.At(p), newer.At(p))
    ensures p in older.names && newer.At(p).kind.Socket? && Reported(older, newer, Change(p, Modify)) ==>
      Differs(older.At(p), newer.At(p))
  {
    if p !in older.names {
      assert Reported(older, newer, Change(p, Add));
      assert Exportable(newer, Change(p, Add)) ==> p in SumOf(items).puts;
    } else if Differs(older.At(p), newer.At(p)) {
      assert older.Has(p) && newer.Has(p) && Reported(older, newer, Change(p, Modify));
      assert Exportable(newer, Change(p, Modify)) ==> p in SumOf(items).puts;
    }
  }

  lemma PutsAreReported(older: Tree, newer: Tree, items: seq<Item>, p: Path)
    requires CarriesDiff(older, newer, items) && p in SumOf(items).puts
    ensures newer.Has(p) && p in newer.names && !newer.At(p).kind.Socket?
    ensures exists c :: Reported(older, newer, c) && !c.kind.Delete? && c.path == p
  {
  }

  ghost predicate NoSocketReported(older: Tree, newer: Tree) {
    forall c | Reported(older, newer, c) && !c.kind.Delete? && newer.Has(c.path) :: !newer.At(c.path).kind.Socket?
  }

  /** Without sockets among the changes, the names after the layer are those of
      the newer tree if the deletions mean what they should. */
  lemma FinalIsNewer(older: Tree, newer: Tree, items: seq<Item>, p: Path)
    requires older.Valid() && newer.Valid() && CarriesDiff(older, newer, items)
    requires NoSocketReported(older, newer) && DeletionsAreMeant(older, newer)
    ensures Final(older, newer, Effective(SumOf(items)), p) <==> p in newer.names
  {
    var s := SumOf(items);
    if p in newer.names && p !in s.puts {
      if p != [] { UnputIsUnchanged(older, newer, items, p); UnputIsOld(older, newer, items, p); }
      NewNamesAreVisible(older, newer, items, p);
    }
    if p in s.puts { PutsAreReported(older, newer, items, p); }
    if p in older.names && p !in newer.names { GoneIsInvisible(older, newer, items, p); }
  }

  lemma GoneIsInvisible(older: Tree, newer: Tree, items: seq<Item>, p: Path)
    requires older.Valid() && newer.Valid() && CarriesDiff(older, newer, items)
    requires NoSocketReported(older, newer) && DeletionsAreMeant(older, newer)
    requires p in older.names && p !in newer.names
    ensures !Visible(newer, Effective(SumOf(items)), p)
  {
    TopmostIsReported(older, newer, p);
    var q, k :| Removes(older, newer, q, k, p);
    if k.Delete? {
      DeletedIsInvisible(older, newer, items, q, p);
    } else {
      assert Exportable(newer, Change(q, k));
      assert q in SumOf(items).puts && Below(q, p);
    }
  }

  lemma DeletedIsInvisible(older: Tree, newer: Tree, items: seq<Item>, q: Path, p: Path)
    requires CarriesDiff(older, newer, items) && DeletionsAreMeant(older, newer)
    requires Reported(older, newer, Change(q, Delete)) && q != [] && q <= p
    ensures !Visible(newer, Effective(SumOf(items)), p)
  {
    var s, e := SumOf(items), Effective(SumOf(items));
    assert q in s.dels;
    if NamesMarker(q) {
      assert Parent(q) in e.opqs && Below(Parent(q), p);
    } else if NamesMetadata(q) {
      var m := [MARKER_REMAINDER];
      assert m in s.dels && NamesMarker(m) && Parent(m) == [];
      assert [] in e.opqs && Below([], p);
    } else {
      assert q in e.dels;
    }
  }

  lemma UnputIsOld(older: Tree, newer: Tree, items: seq<Item>, p: Path)
    requires older.Valid() && newer.Valid() && CarriesDiff(older, newer, items)
    requires NoSocketReported(older, newer)
    requires p in newer.names && p !in SumOf(items).puts && p != []
    ensures p in older.names
  {
    var c := Change(p, Add);
    assert newer.Has(p) && (Reported(older, newer, c) ==> Exportable(newer, c));
  }

  lemma NewNamesAreVisible(older: Tree, newer: Tree, items: seq<Item>, p: Path)
    requires older.Valid() && newer.Valid() && CarriesDiff(older, newer, items)
    requires NoSocketReported(older, newer) && DeletionsAreMeant(older, newer)
    requires p in newer.names && p !in SumOf(items).puts
    ensures Visible(newer, Effective(SumOf(items)), p)
  {
    var e := Effective(SumOf(items));
    forall q | q <= p ensures q !in e.dels {
      if q != p { AncestorsAreDirs(newer, q, p); }
    }
    forall q | Below(q, p) ensures newer.IsDir(q) && q !in e.opqs {
      AncestorsAreDirs(newer, q, p);
      if q in e.opqs { SweptIsReported(older, newer, items, q, p); }
    }
  }

  lemma SweptIsReported(older: Tree, newer: Tree, items: seq<Item>, d: Path, p: Path)
    requires newer.Valid() && CarriesDiff(older, newer, items)
    requires NoSocketReported(older, newer) && DeletionsAreMeant(older, newer)
    requires d in Effective(SumOf(items)).opqs && Below(d, p) && p in newer.names
    ensures p in SumOf(items).puts
  {
    var m :| m in SumOf(items).dels && NamesMarker(m) && Parent(m) == d;
    assert Reported(older, newer, Change(m, Delete)) && AllReportedBelow(older, newer, d);
    var k :| Reported(older, newer, Change(p, k));
    assert newer.Has(p) && Exportable(newer, Change(p, k));
  }

  lemma RenderIsInjective(p: Path, q: Path)
    requires p != [] && q != [] && OrdinaryPath(p) && OrdinaryPath(q) && Render(p) == Render(q)
    ensures p == q
  {
    assert Render(p)[1..] == Join(p) && Render(q)[1..] == Join(q);
    SplitJoin(p);
    SplitJoin(q);
  }

  lemma DeletionSortsFirst(older: Tree, newer: Tree, items: seq<Item>, j: nat, k: nat)
    requires older.Valid() && newer.Valid() && CarriesDiff(older, newer, items) && InOrder(items)
    requires j < k < |items| && items[j].Del? && items[k].Put?
    ensures Reported(older, newer, Change(items[j].path, Delete))
    ensures Less(Render(items[j].path), Render(items[k].path))
  {
    var m, p := items[j].path, items[k].path;
    ItemsAreSummed(items);
    assert m in SumOf(items).dels && p in SumOf(items).puts;
    assert older.IsDir([]);
    PutsAreReported(older, newer, items, p);
    NamesAreOrdinary(older, m);
    NamesAreOrdinary(newer, p);
    LessIsTotal(Render(m), Render(p));
    ShapeIsClosed(newer, items);
    if Render(m) == Render(p) { RenderIsInjective(m, p); }
  }

  lemma SweptIsFirst(older: Tree, newer: Tree, items: seq<Item>, k: nat)
    requires older.Valid() && newer.Valid() && CarriesDiff(older, newer, items) && InOrder(items)
    requires k < |items| && items[k].Put? && Swept(Effective(SumOf(items[..k])), items[k].path)
    ensures SweptFirst(older, newer, items[k].path)
  {
    hide InShape, InOrder, Less, Reported, Tree.Valid, IsExported;
    var s, p := SumOf(items[..k]), items[k].path;
    var d :| d in Effective(s).opqs && Below(d, p);
    WhiteoutsAreItems(items[..k]);
    ItemsAreSummed(items);
    assert forall item | item in items[..k] :: item in items;
    var m :| m in s.dels && NamesMarker(m) && Parent(m) == d;
    assert Del(m) in items[..k];
    var j :| 0 <= j < k && items[j] == Del(m);
    DeletionSortsFirst(older, newer, items, j, k);
    assert SweepsBefore(m, p);
  }

  lemma FirstIsSwept(older: Tree, newer: Tree, items: seq<Item>, k: nat)
    requires CarriesDiff(older, newer, items) && InOrder(items)
    requires k < |items| && items[k].Put? && SweptFirst(older, newer, items[k].path)
    ensures Swept(Effective(SumOf(items[..k])), items[k].path)
  {
    hide InShape, Less, Reported, IsExported;
    var p := items[k].path;
    var m :| Reported(older, newer, Change(m, Delete)) && SweepsBefore(m, p);
    WhiteoutsAreItems(items);
    var j :| 0 <= j < |items| && items[j] == Del(m);
    assert j < k;
    assert items[j] in items[..k];
    ItemsAreSummed(items[..k]);
    assert Parent(m) in Effective(SumOf(items[..k])).opqs;
  }

  /** In the order of the export, what is put anew is swept first. */
  lemma AnewIsSweptFirst(older: Tree, newer: Tree, items: seq<Item>, p: Path)
    requires older.Valid() && newer.Valid() && CarriesDiff(older, newer, items) && InOrder(items)
    requires p in SumOf(items).puts
    ensures p in PutAnew(items) <==> SweptFirst(older, newer, p)
  {
    hide InOrder, SweptFirst, Swept, Tree.Valid, IsExported;
    PutsAreItems(items, p);
    var k :| 0 <= k < |items| && items[k].Put? && items[k].path == p;
    AnewIsSwept(newer, items, k);
    if p in PutAnew(items) { SweptIsFirst(older, newer, items, k); }
    if SweptFirst(older, newer, p) { FirstIsSwept(older, newer, items, k); }
  }

  /** What has been built from a layer in the order of the export. */
  ghost predicate Patched(older: Tree, newer: Tree, items: seq<Item>, t: Tree) {
    var a, e := ArchivalTree(newer), Effective(SumOf(items));
    CarriesDiff(older, newer, items) && InOrder(items) && Built(older, a, e, t)
    && CapsBuilt(older, a, e, PutAnew(items), t)
  }

  /** The patched tree compared with the newer one: a file that was exported. */
  lemma PatchedNode(older: Tree, newer: Tree, items: seq<Item>, t: Tree, p: Path)
    requires older.Valid() && newer.Valid() && Patched(older, newer, items, t)
    requires p in t.names && p in newer.names && p in SumOf(items).puts
    ensures t.Has(p) && newer.Has(p)
    ensures Differs(t.At(p), newer.At(p)) <==> Differs(newer.At(p), t.At(p))
    ensures Differs(t.At(p), newer.At(p)) <==> !Carried(older, newer, p)
  {
    ArchivalNodes(newer);
    assert t.Has(p) && newer.Has(p);
    PutsAreReported(older, newer, items, p);
    assert NodeMatches(older, p, t.At(p), Archival(newer.At(p)));
    AnewIsSweptFirst(older, newer, items, p);
    MatchingIsNoDifference(older, newer, p, t.At(p));
  }

  /** And one that was not. */
  lemma UnputNode(older: Tree, newer: Tree, items: seq<Item>, t: Tree, p: Path)
    requires newer.Valid() && Built(older, ArchivalTree(newer), Effective(SumOf(items)), t)
    requires p in t.names && p in newer.names && p !in SumOf(items).puts
    ensures t.Has(p) && newer.Has(p) && older.Has(p)
    ensures Differs(t.At(p), newer.At(p)) <==> Differs(newer.At(p), t.At(p))
    ensures Differs(t.At(p), newer.At(p)) <==> Differs(older.At(p), newer.At(p))
  {
    assert SameButTime(older.At(p), t.At(p));
    SameButTimeIsNoDifference(older.At(p), t.At(p), newer.At(p));
  }

  /** If everything that is reported can be carried, nothing is left to report. */
  lemma CarriedRoundTrips(older: Tree, newer: Tree, items: seq<Item>, t: Tree)
    requires older.Valid() && newer.Valid() && Patched(older, newer, items, t)
    requires AllCarried(older, newer) && DeletionsAreMeant(older, newer)
    ensures NothingLeft(t, newer) && NothingLeft(newer, t)
  {
    hide Differs, CapsBuilt, InOrder, InShape, DeletionsAreMeant, Effective;
    ArchivalNodes(newer);
    forall p ensures p in t.names <==> p in newer.names {
      FinalIsNewer(older, newer, items, p);
      assert p in t.names <==> Final(older, ArchivalTree(newer), Effective(SumOf(items)), p);
    }
    forall p | p in t.names && p != [] ensures !Differs(t.At(p), newer.At(p)) && !Differs(newer.At(p), t.At(p)) {
      if p in SumOf(items).puts {
        PutsAreReported(older, newer, items, p);
        PatchedNode(older, newer, items, t, p);
      } else {
        UnputNode(older, newer, items, t, p);
        if Differs(older.At(p), newer.At(p)) { DifferingIsPut(older, newer, items, p); }
      }
    }
    assert t.names.Keys == newer.names.Keys;
    NothingReported(t, newer);
    NothingReported(newer, t);
  }

  lemma DifferingIsPut(older: Tree, newer: Tree, items: seq<Item>, p: Path)
    requires CarriesDiff(older, newer, items) && AllCarried(older, newer)
    requires older.Has(p) && newer.Has(p) && p != [] && Differs(older.At(p), newer.At(p))
    ensures p in SumOf(items).puts
  {
    var c := Change(p, Modify);
    assert Reported(older, newer, c) && Exportable(newer, c);
  }

  /** If nothing is left to report, everything that was reported was carried. */
  lemma RoundTripCarries(older: Tree, newer: Tree, items: seq<Item>, t: Tree)
    requires older.Valid() && newer.Valid() && Patched(older, newer, items, t) && NothingLeft(t, newer)
    ensures AllCarried(older, newer)
  {
    NothingReported(t, newer);
    forall c | Reported(older, newer, c) && !c.kind.Delete? ensures Carried(older, newer, c.path) {
      var p := c.path;
      assert older.IsDir([]);
      assert p in newer.names && p != [] && p in t.names && newer.Has(p);
      if p in SumOf(items).puts {
        PatchedNode(older, newer, items, t, p);
      } else {
        UnputNode(older, newer, items, t, p);
        assert !Exportable(newer, c);
        UnputIsUnchanged(older, newer, items, p);
      }
    }
  }

  /** And the deletions meant what they should. */
  lemma RoundTripDeletes(older: Tree, newer: Tree, items: seq<Item>, t: Tree)
    requires older.Valid() && newer.Valid() && CarriesDiff(older, newer, items)
    requires Built(older, ArchivalTree(newer), Effective(SumOf(items)), t)
    requires NothingLeft(t, newer)
    ensures DeletionsAreMeant(older, newer)
  {
    NothingReported(t, newer);
    var s, e, a := SumOf(items), Effective(SumOf(items)), ArchivalTree(newer);
    assert forall q :: q in newer.names <==> Final(older, a, e, q);
    forall p | Reported(older, newer, Change(p, Delete))
      ensures NamesMarker(p) ==> AllReportedBelow(older, newer, Parent(p))
      ensures NamesMetadata(p) ==> Reported(older, newer, Change([MARKER_REMAINDER], Delete))
    {
      assert p in s.dels;
      if NamesMarker(p) {
        assert Parent(p) in e.opqs;
        forall q | q in newer.names && Below(Parent(p), q) ensures HasChange(older, newer, q) {
          assert Final(older, a, e, q);
          assert q in s.puts && IsExported(older, newer, q);
        }
      } else if NamesMetadata(p) {
        RootIsSwept(older, newer, items, p);
      }
    }
  }

  lemma RootIsSwept(older: Tree, newer: Tree, items: seq<Item>, p: Path)
    requires newer.Valid() && CarriesDiff(older, newer, items)
    requires Reported(older, newer, Change(p, Delete)) && NamesMetadata(p)
    requires !Final(older, ArchivalTree(newer), Effective(SumOf(items)), p)
    ensures Reported(older, newer, Change([MARKER_REMAINDER], Delete))
  {
    var s, e := SumOf(items), Effective(SumOf(items));
    ShapeIsClosed(newer, items);
    assert p in older.names && |p| == 1;
    forall q | q <= p ensures q !in e.dels && q != p ==> q == [] { assert q == [] || q == p; }
    assert [] in e.opqs;
    var m :| m in s.dels && NamesMarker(m) && Parent(m) == [];
    assert m == [MARKER_REMAINDER];
  }

  /** The names of a diff are those of the sum. */
  lemma CarriedIsWellFormed(older: Tree, newer: Tree, items: seq<Item>)
    requires CarriesDiff(older, newer, items) && NoWhiteoutNames(older, newer)
    ensures WellFormed(ArchivalTree(newer), items)
  {
    ShapeIsWellFormed(newer, items);
  }

  ghost predicate NothingLeft(t: Tree, newer: Tree) {
    forall c :: !Reported(t, newer, c)
  }

  /** The diff round trip: if no file that is exported has a prefixed name, a layer
      that carries the diff of two trees in the order of printed paths applies to the
      older tree, and the result cannot be told from the newer tree by a new diff, in
      either direction, exactly if every reported file is one that an archive can
      carry and the deletions mean what they should. */
  lemma DiffRoundTrip(older: Tree, newer: Tree, items: seq<Item>, layer: seq<Header>)
    requires older.Valid() && newer.Valid()
    requires CarriesDiff(older, newer, items) && InOrder(items) && EncodesAll(ArchivalTree(newer), items, layer)
    ensures ApplyLayer(older, layer).tree.Valid()
    ensures NoWhiteoutNames(older, newer) ==>
      var r := ApplyLayer(older, layer);
      && r.Fine?
      && (NothingLeft(r.tree, newer) <==> AllCarried(older, newer) && DeletionsAreMeant(older, newer))
      && (NothingLeft(r.tree, newer) ==> NothingLeft(newer, r.tree))
    ensures PrefixIsFree(older, newer) ==>
      var r := ApplyLayer(older, layer);
      (r.Fine? && NothingLeft(r.tree, newer)) <==>
        (AllCarried(older, newer) && NoWhiteoutNames(older, newer) && DeletionsAreMeant(older, newer))
  {
    hide AllCarried, NoWhiteoutNames, ApplyLayer, Tree.Valid, PrefixIsFree, NothingLeft, DeletionsAreMeant;
    hide Built, CapsBuilt, InOrder;
    Preservation.LayersCopyOnWrite(older, layer);
    var t := ApplyLayer(older, layer).tree;
    if NoWhiteoutNames(older, newer) {
      CarriedIsWellFormed(older, newer, items);
      ArchivalNodes(newer);
      LayerApplies(older, ArchivalTree(newer), items, layer);
      if AllCarried(older, newer) && DeletionsAreMeant(older, newer) { CarriedRoundTrips(older, newer, items, t); }
      if NothingLeft(t, newer) {
        RoundTripDeletes(older, newer, items, t);
        RoundTripCarries(older, newer, items, t);
      }
    } else if PrefixIsFree(older, newer) {
      PrefixedNamesAreLost(older, newer, layer);
    }
  }

  /** So if all that is met, the patched tree has the names of the newer one, with files
      that look alike: of the same type, size, owner, permissions, capabilities and
      device, and of the same time up to lost nanoseconds. */
  lemma PatchedLooksLikeNewer(older: Tree, newer: Tree, items: seq<Item>, layer: seq<Header>)
    requires older.Valid() && newer.Valid()
    requires CarriesDiff(older, newer, items) && InOrder(items) && EncodesAll(ArchivalTree(newer), items, layer)
    requires AllCarried(older, newer) && NoWhiteoutNames(older, newer) && DeletionsAreMeant(older, newer)
    ensures var t := ApplyLayer(older, layer).tree;
      && (forall p :: p in t.names <==> p in newer.names)
      && forall p | p in t.names && p != [] && t.Has(p) && newer.Has(p) :: LooksLike(t.At(p), newer.At(p))
  {
    hide ApplyLayer, LooksLike, AllCarried, NoWhiteoutNames, DeletionsAreMeant, Reported;
    DiffRoundTrip(older, newer, items, layer);
    WhatIsCompared(ApplyLayer(older, layer).tree, newer);
  }

  /** Where a file with a prefixed name is exported, it is new, or one of another type
      or size, and no directory. */
  ghost predicate PrefixIsFree(older: Tree, newer: Tree) {
    forall c | Reported(older, newer, c) && Exportable(newer, c) && Prefixed(c.path) ::
      && !newer.IsDir(c.path)
      && (older.Has(c.path) ==> LooksDifferent(older.At(c.path).kind, newer.At(c.path).kind))
  }

  predicate LooksDifferent(a: Kind, b: Kind) {
    !SameType(a, b) || Rdev(a) != Rdev(b) || Size(a) != Size(b)
  }

  /** No layer whatever makes such a file. */
  lemma PrefixedNamesAreLost(older: Tree, newer: Tree, layer: seq<Header>)
    requires older.Valid() && newer.Valid() && PrefixIsFree(older, newer) && !NoWhiteoutNames(older, newer)
    ensures !NothingLeft(ApplyLayer(older, layer).tree, newer)
  {
    hide ApplyLayer;
    var t := ApplyLayer(older, layer).tree;
    Preservation.LayersCopyOnWrite(older, layer);
    LayersMakeNoWhiteoutFiles(older, layer);
    var c :| Reported(older, newer, c) && Exportable(newer, c) && Prefixed(c.path);
    assert c.path in older.names ==> older.Has(c.path);
    assert newer.IsDir([]) && newer.Has(c.path) && c.path in newer.names;
    NothingReported(t, newer);
    assert SameFiles(t, newer) ==> c.path in t.names;
  }

  /** The files that were reported have their bytes, and share them through hard
      links exactly as in the newer tree; what was not reported is the old file
      itself. */
  lemma PatchedContents(older: Tree, newer: Tree, items: seq<Item>, layer: seq<Header>, c: Change)
    requires older.Valid() && newer.Valid()
    requires CarriesDiff(older, newer, items) && EncodesAll(ArchivalTree(newer), items, layer)
    requires NoWhiteoutNames(older, newer)
    requires c.path != [] && Exportable(newer, c)
    ensures var t := ApplyLayer(older, layer).tree;
      Reported(older, newer, c) ==>
        && t.Has(c.path) && t.At(c.path).kind == newer.At(c.path).kind
        && forall d | Reported(older, newer, d) && Exportable(newer, d) && !newer.IsDir(c.path) && !newer.IsDir(d.path)
             :: t.Has(d.path) && (t.names[c.path] == t.names[d.path] <==> newer.names[c.path] == newer.names[d.path])
    ensures var t := ApplyLayer(older, layer).tree;
      c.path in t.names && !HasChange(older, newer, c.path) ==>
        c.path in older.names && t.names[c.path] == older.names[c.path]
  {
    CarriedIsWellFormed(older, newer, items);
    ArchivalNodes(newer);
    LayerApplies(older, ArchivalTree(newer), items, layer);
    var t, s := ApplyLayer(older, layer).tree, Effective(SumOf(items));
    if Reported(older, newer, c) {
      assert c.path in s.puts && t.Has(c.path);
      assert NodeMatches(older, c.path, t.At(c.path), Archival(newer.At(c.path)));
      forall d | Reported(older, newer, d) && Exportable(newer, d) && !newer.IsDir(c.path) && !newer.IsDir(d.path)
        ensures t.Has(d.path) && (t.names[c.path] == t.names[d.path] <==> newer.names[c.path] == newer.names[d.path])
      {
        assert d.path in s.puts && t.Has(d.path);
        assert PutFile(ArchivalTree(newer), s, t, c.path) && PutFile(ArchivalTree(newer), s, t, d.path);
      }
    }
    if c.path in s.puts {
      PutsAreReported(older, newer, items, c.path);
    }
  }

  /** An entry whose name begins with the whiteout prefix is read as a whiteout, so it
      does not come to exist, whatever it stands for. */
  lemma WhiteoutNamesAreLost(ls: LayerState, hdr: Header, p: Path)
    requires ls.tree.Valid() && InDir(ls.tree, p) && p !in ls.tree.names && IsWhiteoutName(Last(p))
    requires EntryName(hdr) == Cleaned(false, 0, p)
    ensures p !in ApplyEntry(ls, hdr).state.tree.names
  {
    if !IsMetadata(p) {
      EntryIsDispatched(ls, hdr, p);
      RemovalsOnlyRemove(ls, p);
    }
  }

  lemma RemovalsOnlyRemove(ls: LayerState, p: Path)
    requires p != [] && OrdinaryPath(p) && IsWhiteoutName(Last(p))
    ensures ApplyWhiteout(ls, ls.tree, p).state.tree.names.Keys <= ls.tree.names.Keys
  {
  }

  // ----- failing inputs -----

  /** Inputs on which the second diff is not empty: a new file with the whiteout
      prefix, a deleted one at the root, and a deleted `.wh..opq` beside a file that
      has not changed. */
  lemma FailingDiffs(items: seq<Item>, layer: seq<Header>)
    ensures FailsOn(ROOT_ONLY, OneFile(".wh.x", Reg("")), items, layer)
    ensures FailsOn(OneFile(".wh.x", Reg("")), ROOT_ONLY, items, layer)
    ensures FailsOn(TwoFiles("a", ".wh..opq", Reg("")), OneFile("a", Reg("")), items, layer)
  {
    NewPrefixFails(items, layer);
    OldPrefixFails(items, layer);
    MarkerFails(items, layer);
  }

  ghost predicate FailsOn(older: Tree, newer: Tree, items: seq<Item>, layer: seq<Header>) {
    && older.Valid() && newer.Valid()
    && (CarriesDiff(older, newer, items) && InOrder(items) && EncodesAll(ArchivalTree(newer), items, layer) ==>
          !NothingLeft(ApplyLayer(older, layer).tree, newer))
  }

  lemma NewPrefixFails(items: seq<Item>, layer: seq<Header>)
    ensures FailsOn(ROOT_ONLY, OneFile(".wh.x", Reg("")), items, layer)
  {
    hide ApplyLayer, NothingLeft, CarriesDiff, EncodesAll, Tree.Valid;
    var newer, p := OneFile(".wh.x", Reg("")), [".wh.x"];
    SmallTreesAreValid(".wh.x", Reg(""));
    assert Last(p) == ".wh.x" && WHITEOUT_PREFIX <= ".wh.x";
    assert Reported(ROOT_ONLY, newer, Change(p, Add)) && Exportable(newer, Change(p, Add)) && Prefixed(p);
    assert forall c | Reported(ROOT_ONLY, newer, c) && Exportable(newer, c) && Prefixed(c.path) :: c.path == p;
    PrefixedNamesAreLost(ROOT_ONLY, newer, layer);
  }

  lemma OldPrefixFails(items: seq<Item>, layer: seq<Header>)
    ensures FailsOn(OneFile(".wh.x", Reg("")), ROOT_ONLY, items, layer)
  {
    hide ApplyLayer, NothingLeft, CarriesDiff, EncodesAll, Tree.Valid;
    var older, p := OneFile(".wh.x", Reg("")), [".wh.x"];
    SmallTreesAreValid(".wh.x", Reg(""));
    assert Last(p) == ".wh.x" && WHITEOUT_PREFIX <= ".wh.x" && NamesMetadata(p);
    assert ROOT_ONLY.IsDir(Parent(p)) && Reported(older, ROOT_ONLY, Change(p, Delete));
    assert [MARKER_REMAINDER] !in older.names by { assert [MARKER_REMAINDER][0] != p[0]; }
    if CarriesDiff(older, ROOT_ONLY, items) && InOrder(items) && EncodesAll(ArchivalTree(ROOT_ONLY), items, layer) {
      DiffRoundTrip(older, ROOT_ONLY, items, layer);
    }
  }

  lemma MarkerFails(items: seq<Item>, layer: seq<Header>)
    ensures FailsOn(TwoFiles("a", ".wh..opq", Reg("")), OneFile("a", Reg("")), items, layer)
  {
    hide ApplyLayer, NothingLeft, CarriesDiff, EncodesAll, Tree.Valid;
    var older, newer, p, q := TwoFiles("a", ".wh..opq", Reg("")), OneFile("a", Reg("")), [".wh..opq"], ["a"];
    SmallTreesAreValid("a", Reg(""));
    TwoFilesAreValid("a", ".wh..opq", Reg(""));
    assert p[0] != q[0] && Last(p) == MARKER_REMAINDER && NamesMarker(p) && Parent(p) == [];
    assert newer.IsDir(Parent(p)) && Reported(older, newer, Change(p, Delete));
    assert Below(Parent(p), q) && !HasChange(older, newer, q);
    assert !Prefixed(q) by { assert Last(q)[0] != WHITEOUT_PREFIX[0]; }
    assert NoWhiteoutNames(older, newer);
    if CarriesDiff(older, newer, items) && InOrder(items) && EncodesAll(ArchivalTree(newer), items, layer) {
      DiffRoundTrip(older, newer, items, layer);
    }
  }

  // ----- from trees to trees -----

  lemma OrderedIsDiff(older: Tree, newer: Tree, list: seq<Change>)
    requires FileInfos.Ordered(list) && forall c :: c in list <==> Reported(older, newer, c)
    ensures IsDiff(older, newer, list)
  {
  }

  /** Compares, exports, applies and compares again, the second time completely:
      what the second comparison finds is nothing under the conditions of the
      round trip. */
  method Synchronize(root: Unpack.Root, newer: Tree) returns (err: Unpack.Status, left: seq<Change>)
    requires root.tree.Valid() && newer.Valid() && Walker.SameInodeSameTree(root.tree, newer)
    modifies root
    ensures root.tree.Valid()
    ensures NoWhiteoutNames(old(root.tree), newer) ==>
      && err == Unpack.NoError
      && (left == [] <==> AllCarried(old(root.tree), newer) && DeletionsAreMeant(old(root.tree), newer))
    ensures PrefixIsFree(old(root.tree), newer) ==>
      (err == Unpack.NoError && left == [] <==>
         AllCarried(old(root.tree), newer) && NoWhiteoutNames(old(root.tree), newer)
         && DeletionsAreMeant(old(root.tree), newer))
  {
    hide Reported, AllCarried, NoWhiteoutNames, Tree.Valid, Walker.SameInodeSameTree, FileInfos.Ordered;
    hide CarriesDiff, IsDiff, EncodesAll, InOrder, PrefixIsFree, LinksShareInodes, DeletionsAreMeant;
    ghost var older := root.tree;
    var ok, changes := Walker.ChangesDirs(newer, root.tree);
    OrderedIsDiff(older, newer, changes);
    var layer := ExportChanges(newer, changes, older);
    ghost var items :| IsExport(older, newer, items, layer);
    DiffRoundTrip(older, newer, items, layer);
    var size;
    size, err := root.UnpackLayer(layer);
    ok, left := Walker.ChangesDirsComplete(newer, root.tree);
    EmptyMeansNothing(root.tree, newer, left);
  }

  lemma EmptyMeansNothing(older: Tree, newer: Tree, list: seq<Change>)
    requires forall c :: c in list <==> Reported(older, newer, c)
    ensures list == [] <==> NothingLeft(older, newer)
  {
    if list != [] { assert list[0] in list; }
  }
}
