/** The two collectors of FileInfo trees: the simple one, which reads a directory
    tree completely, and the Linux walker, which reads two trees side by side and
    leaves out what it can tell to be the same from inode numbers alone. */
module Walker {
  import opened Names
  import opened Trees
  import opened Changes
  import opened FileInfos

  // ----- pruning -----

  /** The same inode under the same name in directories on one device. */
  predicate Pruned(older: Tree, newer: Tree, p: Path) {
    && p != [] && p in older.names && p in newer.names && older.names[p] == newer.names[p]
    && older.Has(Parent(p)) && newer.Has(Parent(p)) && older.At(Parent(p)).dev == newer.At(Parent(p)).dev
  }

  /** No ancestor was pruned, nor the path itself. */
  ghost predicate Unpruned(older: Tree, newer: Tree, p: Path) {
    forall q | q <= p :: !Pruned(older, newer, q)
  }

  /** The tree with some of its names only. */
  ghost function Only(t: Tree, keys: set<Path>): Tree {
    t.(names := map p | p in t.names && p in keys :: t.names[p])
  }

  ghost predicate PrefixClosed(t: Tree, keys: set<Path>) {
    && [] in keys && keys <= t.names.Keys
    && forall p {:trigger Parent(p)} | p in keys && p != [] :: Parent(p) in keys
  }

  lemma OnlyIsValid(t: Tree, keys: set<Path>)
    requires t.Valid() && PrefixClosed(t, keys)
    ensures Only(t, keys).Valid() && Only(t, keys).names.Keys == keys
    ensures forall p | p in keys :: Only(t, keys).Has(p) && Only(t, keys).At(p) == t.At(p)
  {
    var r := Only(t, keys);
    assert r.Numbered() by {
      forall p | p in r.names ensures r.Has(p) { assert t.Has(p); }
    }
    assert r.Nested() by {
      forall p | p in r.names && p != [] ensures r.IsDir(Parent(p)) && Ordinary(Last(p)) {
        assert t.IsDir(Parent(p)) && Parent(p) in keys;
      }
    }
    assert r.Unaliased() by {
      forall p, q | r.IsDir(p) && q in r.names && r.names[p] == r.names[q] ensures p == q {
        assert t.IsDir(p) && t.names[q] == t.names[p];
      }
    }
  }

  ghost function KeptNames(t: Tree, older: Tree, newer: Tree): set<Path> {
    set p | p in t.names && Unpruned(older, newer, p)
  }

  /** Equal inodes on one device mean equal subtrees. */
  ghost predicate SameInodeSameTree(older: Tree, newer: Tree) {
    forall p, q | Pruned(older, newer, p) && p <= q ::
      (q in older.names <==> q in newer.names)
      && (q in older.names ==> older.Has(q) && newer.Has(q) && !Differs(older.At(q), newer.At(q)))
  }

  lemma KeptIsClosed(t: Tree, older: Tree, newer: Tree)
    requires t.Valid()
    ensures PrefixClosed(t, KeptNames(t, older, newer))
  {
  }

  /** What differs was not pruned. */
  lemma DirtyIsKept(older: Tree, newer: Tree, q: Path)
    requires older.Valid() && newer.Valid() && SameInodeSameTree(older, newer) && Dirty(older, newer, q)
    ensures Unpruned(older, newer, q)
  {
  }

  lemma DirtySurvives(older: Tree, newer: Tree, q: Path)
    requires older.Valid() && newer.Valid() && SameInodeSameTree(older, newer)
    ensures var o, n := Only(older, KeptNames(older, older, newer)), Only(newer, KeptNames(newer, older, newer));
      Dirty(o, n, q) <==> Dirty(older, newer, q)
  {
    var o, n := Only(older, KeptNames(older, older, newer)), Only(newer, KeptNames(newer, older, newer));
    KeptIsClosed(older, older, newer);
    KeptIsClosed(newer, older, newer);
    OnlyIsValid(older, KeptNames(older, older, newer));
    OnlyIsValid(newer, KeptNames(newer, older, newer));
    if Dirty(older, newer, q) {
      DirtyIsKept(older, newer, q);
      DirtyIsNested(older, newer, q);
      forall r | r <= Parent(q) ensures !Pruned(older, newer, r) { PrefixTransitive(r, Parent(q), q); }
    }
    if Dirty(o, n, q) {
      DirtyIsNested(o, n, q);
    }
  }

  /** The pruned trees have the same changes as the complete ones. */
  lemma FastRefinesSimple(older: Tree, newer: Tree, c: Change)
    requires older.Valid() && newer.Valid() && SameInodeSameTree(older, newer)
    ensures var o, n := Only(older, KeptNames(older, older, newer)), Only(newer, KeptNames(newer, older, newer));
      Reported(o, n, c) <==> Reported(older, newer, c)
  {
    var o, n := Only(older, KeptNames(older, older, newer)), Only(newer, KeptNames(newer, older, newer));
    var p := c.path;
    DirtySurvives(older, newer, p);
    forall q ensures Dirty(o, n, q) <==> Dirty(older, newer, q) { DirtySurvives(older, newer, q); }
    assert DirtyBelow(o, n, p) <==> DirtyBelow(older, newer, p);
    KeptIsClosed(older, older, newer);
    KeptIsClosed(newer, older, newer);
    OnlyIsValid(older, KeptNames(older, older, newer));
    OnlyIsValid(newer, KeptNames(newer, older, newer));
    if DirtyBelow(older, newer, p) {
      var q :| Below(p, q) && Dirty(older, newer, q);
      DirtyIsKept(older, newer, q);
      forall r | r <= p ensures !Pruned(older, newer, r) { PrefixTransitive(r, p, q); }
    }
    if Dirty(older, newer, p) { DirtyIsKept(older, newer, p); }
  }

  // ----- merging two listings -----

  datatype NameIno = NameIno(name: Name, ino: Ino)

  ghost predicate SortedNames(s: seq<NameIno>) {
    forall i, j | 0 <= i < j < |s| :: Less(s[i].name, s[j].name)
  }

  ghost predicate Lists(s: seq<NameIno>, n: Name) {
    exists i :: 0 <= i < |s| && s[i].name == n
  }

  /** A listing of a directory: every entry, sorted by name. */
  ghost predicate IsListing(t: Tree, dir: Path, s: seq<NameIno>) {
    && SortedNames(s)
    && (forall i | 0 <= i < |s| :: dir + [s[i].name] in t.names && t.names[dir + [s[i].name]] == s[i].ino)
    && (forall n | dir + [n] in t.names :: Lists(s, n))
  }

  /** A name that is listed after position k is not smaller than the one there. */
  lemma SmallerIsNotLater(s: seq<NameIno>, k: nat, n: Name)
    requires SortedNames(s) && k < |s| && Less(n, s[k].name)
    ensures forall j | k <= j < |s| :: Less(n, s[j].name) && s[j].name != n
  {
    forall j | k <= j < |s| ensures Less(n, s[j].name) && s[j].name != n {
      if j > k { LessIsTransitive(n, s[k].name, s[j].name); }
      LessIsAsymmetric(n, s[j].name);
    }
  }

  lemma LaterIsDifferent(s: seq<NameIno>, k: nat)
    requires SortedNames(s) && k < |s|
    ensures forall j | k < j < |s| :: s[j].name != s[k].name
  {
    forall j | k < j < |s| ensures s[j].name != s[k].name { LessIsAsymmetric(s[k].name, s[j].name); }
  }

  /** Both listings have the name, with one inode, on one device. */
  ghost predicate Matched(names1: seq<NameIno>, names2: seq<NameIno>, sameDevice: bool, n: Name) {
    sameDevice && exists i, j ::
      && 0 <= i < |names1| && 0 <= j < |names2|
      && names1[i].name == n && names2[j].name == n && names1[i].ino == names2[j].ino
  }

  ghost predicate ListedBefore(s: seq<NameIno>, k: nat, n: Name)
    requires k <= |s|
  {
    exists i :: 0 <= i < k && s[i].name == n
  }

  ghost predicate Distinct(names: seq<Name>) {
    forall i, j | 0 <= i < j < |names| :: names[i] != names[j]
  }

  lemma NotBefore(s: seq<NameIno>, k: nat)
    requires SortedNames(s) && k < |s|
    ensures !ListedBefore(s, k, s[k].name)
  {
    forall i | 0 <= i < k ensures s[i].name != s[k].name { LessIsAsymmetric(s[i].name, s[k].name); }
  }

  /** What the merge has produced up to two positions. */
  ghost predicate Merged(names1: seq<NameIno>, names2: seq<NameIno>, sameDevice: bool, ix1: nat, ix2: nat,
                         names: seq<Name>)
    requires ix1 <= |names1| && ix2 <= |names2|
  {
    && Distinct(names)
    && (forall n :: n in names <==>
          (ListedBefore(names1, ix1, n) || ListedBefore(names2, ix2, n)) && !Matched(names1, names2, sameDevice, n))
    && (forall i | ix1 <= i < |names1| :: !ListedBefore(names2, ix2, names1[i].name))
    && (forall j | ix2 <= j < |names2| :: !ListedBefore(names1, ix1, names2[j].name))
  }

  lemma BeforeNext(s: seq<NameIno>, k: nat)
    requires k < |s|
    ensures forall n :: ListedBefore(s, k + 1, n) <==> ListedBefore(s, k, n) || n == s[k].name
  {
    forall n ensures ListedBefore(s, k + 1, n) <==> ListedBefore(s, k, n) || n == s[k].name {
      if n == s[k].name { assert 0 <= k < k + 1 && s[k].name == n; }
      if ListedBefore(s, k, n) {
        var i :| 0 <= i < k && s[i].name == n;
        assert 0 <= i < k + 1 && s[i].name == n;
      }
    }
  }

  lemma TakeFirst(names1: seq<NameIno>, names2: seq<NameIno>, sameDevice: bool, ix1: nat, ix2: nat, names: seq<Name>)
    requires SortedNames(names1) && ix1 < |names1| && ix2 <= |names2|
    requires Merged(names1, names2, sameDevice, ix1, ix2, names)
    requires forall j | ix2 <= j < |names2| :: names2[j].name != names1[ix1].name
    ensures Merged(names1, names2, sameDevice, ix1 + 1, ix2, names + [names1[ix1].name])
  {
    BeforeNext(names1, ix1);
    NotBefore(names1, ix1);
    var n := names1[ix1].name;
    assert forall j | 0 <= j < ix2 :: ListedBefore(names2, ix2, names2[j].name);
    assert !Matched(names1, names2, sameDevice, n);
  }

  lemma TakeSecond(names1: seq<NameIno>, names2: seq<NameIno>, sameDevice: bool, ix1: nat, ix2: nat, names: seq<Name>)
    requires SortedNames(names2) && ix1 <= |names1| && ix2 < |names2|
    requires Merged(names1, names2, sameDevice, ix1, ix2, names)
    requires forall i | ix1 <= i < |names1| :: names1[i].name != names2[ix2].name
    ensures Merged(names1, names2, sameDevice, ix1, ix2 + 1, names + [names2[ix2].name])
  {
    BeforeNext(names2, ix2);
    NotBefore(names2, ix2);
    var n := names2[ix2].name;
    assert forall i | 0 <= i < ix1 :: ListedBefore(names1, ix1, names1[i].name);
    assert !Matched(names1, names2, sameDevice, n);
  }

  lemma BothAdvance(names1: seq<NameIno>, names2: seq<NameIno>, ix1: nat, ix2: nat)
    requires SortedNames(names1) && SortedNames(names2) && ix1 < |names1| && ix2 < |names2|
    requires names1[ix1].name == names2[ix2].name
    requires forall i | ix1 <= i < |names1| :: !ListedBefore(names2, ix2, names1[i].name)
    ensures forall i | ix1 < i < |names1| :: !ListedBefore(names2, ix2 + 1, names1[i].name)
  {
    hide Less;
    BeforeNext(names2, ix2);
    LaterIsDifferent(names1, ix1);
  }

  /** A name at both positions is matched if the two entries match. */
  lemma MatchedHere(names1: seq<NameIno>, names2: seq<NameIno>, sameDevice: bool, ix1: nat, ix2: nat)
    requires SortedNames(names1) && SortedNames(names2) && ix1 < |names1| && ix2 < |names2|
    requires names1[ix1].name == names2[ix2].name
    ensures Matched(names1, names2, sameDevice, names1[ix1].name) <==> names1[ix1].ino == names2[ix2].ino && sameDevice
  {
    hide Less;
    LaterIsDifferent(names1, ix1);
    LaterIsDifferent(names2, ix2);
    NotBefore(names1, ix1);
    NotBefore(names2, ix2);
    forall i | 0 <= i < |names1| && i != ix1 ensures names1[i].name != names1[ix1].name {
      if i < ix1 { assert !(0 <= i < ix1 && names1[i].name == names1[ix1].name); }
    }
    forall j | 0 <= j < |names2| && j != ix2 ensures names2[j].name != names2[ix2].name {
      if j < ix2 { assert !(0 <= j < ix2 && names2[j].name == names2[ix2].name); }
    }
  }

  lemma TakeBoth(names1: seq<NameIno>, names2: seq<NameIno>, sameDevice: bool, ix1: nat, ix2: nat, names: seq<Name>)
    requires SortedNames(names1) && SortedNames(names2) && ix1 < |names1| && ix2 < |names2|
    requires Merged(names1, names2, sameDevice, ix1, ix2, names) && names1[ix1].name == names2[ix2].name
    ensures Merged(names1, names2, sameDevice, ix1 + 1, ix2 + 1,
      if names1[ix1].ino != names2[ix2].ino || !sameDevice then names + [names1[ix1].name] else names)
  {
    hide Less, SortedNames, Matched, Before;
    BothAdvance(names1, names2, ix1, ix2);
    BothAdvance(names2, names1, ix2, ix1);
    MatchedHere(names1, names2, sameDevice, ix1, ix2);
    BeforeNext(names1, ix1);
    BeforeNext(names2, ix2);
    NotBefore(names1, ix1);
    NotBefore(names2, ix2);
  }

  ghost predicate Ascending(names: seq<Name>) {
    forall i, j | 0 <= i < j < |names| :: Less(names[i], names[j])
  }

  ghost predicate AllLess(names: seq<Name>, n: Name) {
    forall i | 0 <= i < |names| :: Less(names[i], n)
  }

  /** The names are smaller than what is still to be merged. */
  ghost predicate AheadOf(names: seq<Name>, s: seq<NameIno>, k: nat) {
    k < |s| ==> AllLess(names, s[k].name)
  }

  lemma AllLessThanNext(names: seq<Name>, n: Name, m: Name)
    requires AllLess(names, n) && Less(n, m)
    ensures AllLess(names, m) && AllLess(names + [n], m)
  {
    forall i | 0 <= i < |names| ensures Less(names[i], m) { LessIsTransitive(names[i], n, m); }
  }

  /** Taking the smallest name that is left. */
  lemma Ascends(names: seq<Name>, s: seq<NameIno>, k: nat)
    requires SortedNames(s) && k < |s| && Ascending(names) && AllLess(names, s[k].name)
    ensures Ascending(names + [s[k].name])
    ensures AheadOf(names + [s[k].name], s, k + 1) && AheadOf(names, s, k + 1)
  {
    hide Less;
    if k + 1 < |s| { AllLessThanNext(names, s[k].name, s[k + 1].name); }
  }

  /** The merge loop of walk: the union of both listings, without the matches, in
      order. */
  method MergeNames(names1: seq<NameIno>, names2: seq<NameIno>, sameDevice: bool) returns (names: seq<Name>)
    requires SortedNames(names1) && SortedNames(names2)
    ensures Distinct(names) && Ascending(names)
    ensures forall n :: n in names <==>
      (Lists(names1, n) || Lists(names2, n)) && !Matched(names1, names2, sameDevice, n)
  {
    hide Merged, Matched, Less, AllLess, Ascending, SortedNames;
    names := [];
    var ix1, ix2 := 0, 0;
    NothingMerged(names1, names2, sameDevice);
    NothingAscends(names1, names2);
    while ix1 < |names1| && ix2 < |names2|
      invariant ix1 <= |names1| && ix2 <= |names2| && Merged(names1, names2, sameDevice, ix1, ix2, names)
      invariant Ascending(names) && AheadOf(names, names1, ix1) && AheadOf(names, names2, ix2)
    {
      var ni1, ni2 := names1[ix1], names2[ix2];
      LessIsTotal(ni1.name, ni2.name);
      if Less(ni1.name, ni2.name) {
        SmallerIsNotLater(names2, ix2, ni1.name);
        TakeFirst(names1, names2, sameDevice, ix1, ix2, names);
        Ascends(names, names1, ix1);
        AllLessThanNext(names, ni1.name, ni2.name);
        names := names + [ni1.name];
        ix1 := ix1 + 1;
      } else if ni1.name == ni2.name {
        TakeBoth(names1, names2, sameDevice, ix1, ix2, names);
        Ascends(names, names1, ix1);
        Ascends(names, names2, ix2);
        if ni1.ino != ni2.ino || !sameDevice {
          names := names + [ni1.name];
        }
        ix1 := ix1 + 1;
        ix2 := ix2 + 1;
      } else {
        SmallerIsNotLater(names1, ix1, ni2.name);
        TakeSecond(names1, names2, sameDevice, ix1, ix2, names);
        Ascends(names, names2, ix2);
        AllLessThanNext(names, ni2.name, ni1.name);
        names := names + [ni2.name];
        ix2 := ix2 + 1;
      }
    }
    while ix1 < |names1|
      invariant ix1 <= |names1| && (ix1 < |names1| ==> ix2 == |names2|) && ix2 <= |names2|
      invariant Merged(names1, names2, sameDevice, ix1, ix2, names)
      invariant Ascending(names) && AheadOf(names, names1, ix1) && AheadOf(names, names2, ix2)
    {
      TakeFirst(names1, names2, sameDevice, ix1, ix2, names);
      Ascends(names, names1, ix1);
      names := names + [names1[ix1].name];
      ix1 := ix1 + 1;
    }
    while ix2 < |names2|
      invariant ix1 == |names1| && ix2 <= |names2|
      invariant Merged(names1, names2, sameDevice, ix1, ix2, names)
      invariant Ascending(names) && AheadOf(names, names2, ix2)
    {
      TakeSecond(names1, names2, sameDevice, ix1, ix2, names);
      Ascends(names, names2, ix2);
      names := names + [names2[ix2].name];
      ix2 := ix2 + 1;
    }
    AllMerged(names1, names2, sameDevice, names);
  }

  lemma NothingAscends(names1: seq<NameIno>, names2: seq<NameIno>)
    ensures Ascending([]) && AheadOf([], names1, 0) && AheadOf([], names2, 0)
  {
  }

  lemma NothingMerged(names1: seq<NameIno>, names2: seq<NameIno>, sameDevice: bool)
    ensures Merged(names1, names2, sameDevice, 0, 0, [])
  {
  }

  lemma AllMerged(names1: seq<NameIno>, names2: seq<NameIno>, sameDevice: bool, names: seq<Name>)
    requires Merged(names1, names2, sameDevice, |names1|, |names2|, names)
    ensures Distinct(names)
    ensures forall n :: n in names <==>
      (Lists(names1, n) || Lists(names2, n)) && !Matched(names1, names2, sameDevice, n)
  {
  }

  /** readdirnames: the entries of a directory, sorted by name. */
  method ReadDirNames(t: Tree, dir: Path) returns (s: seq<NameIno>)
    ensures IsListing(t, dir, s)
  {
    var left := set p | p in t.names && p != [] && Parent(p) == dir :: Last(p);
    EntryNames(t, dir, left);
    ghost var all := left;
    s := [];
    while left != {}
      invariant left <= all && SortedNames(s)
      invariant forall i | 0 <= i < |s| :: s[i].name in all - left && s[i].ino == t.names[dir + [s[i].name]]
      invariant forall n | n in all - left :: Lists(s, n)
      decreases left
    {
      var n :| n in left;
      s := InsertName(s, NameIno(n, t.names[dir + [n]]));
      left := left - {n};
    }
  }

  method InsertName(s: seq<NameIno>, x: NameIno) returns (r: seq<NameIno>)
    requires SortedNames(s) && forall i | 0 <= i < |s| :: s[i].name != x.name
    ensures SortedNames(r)
    ensures forall i | 0 <= i < |r| :: r[i] == x || r[i] in s
    ensures Lists(r, x.name) && forall n | Lists(s, n) :: Lists(r, n)
  {
    var k := |s|;
    while k > 0 && Less(x.name, s[k - 1].name)
      invariant 0 <= k <= |s|
      invariant forall j | k <= j < |s| :: Less(x.name, s[j].name)
    {
      k := k - 1;
    }
    r := s[..k] + [x] + s[k..];
    Inserted(s, x, k, r);
  }

  lemma Inserted(s: seq<NameIno>, x: NameIno, k: nat, r: seq<NameIno>)
    requires SortedNames(s) && k <= |s| && r == s[..k] + [x] + s[k..]
    requires forall i | 0 <= i < |s| :: s[i].name != x.name
    requires k > 0 ==> !Less(x.name, s[k - 1].name)
    requires forall j | k <= j < |s| :: Less(x.name, s[j].name)
    ensures SortedNames(r)
    ensures forall i | 0 <= i < |r| :: r[i] == x || r[i] in s
    ensures Lists(r, x.name) && forall n | Lists(s, n) :: Lists(r, n)
  {
    forall i | 0 <= i < k ensures Less(s[i].name, x.name) {
      LessIsTotal(s[k - 1].name, x.name);
      if i < k - 1 { LessIsTransitive(s[i].name, s[k - 1].name, x.name); }
    }
    InsertedElements(s, x, k, r);
    forall i, j | 0 <= i < j < |r| ensures Less(r[i].name, r[j].name) {
      assert r[i] == InsertedAt(s, x, k, i) && r[j] == InsertedAt(s, x, k, j);
    }
  }

  function InsertedAt(s: seq<NameIno>, x: NameIno, k: nat, i: nat): NameIno
    requires k <= |s| && i <= |s|
  {
    if i < k then s[i] else if i == k then x else s[i - 1]
  }

  lemma InsertedElements(s: seq<NameIno>, x: NameIno, k: nat, r: seq<NameIno>)
    requires k <= |s| && r == s[..k] + [x] + s[k..]
    ensures |r| == |s| + 1 && forall i | 0 <= i < |r| :: r[i] == InsertedAt(s, x, k, i)
    ensures forall i | 0 <= i < |r| :: r[i] == x || r[i] in s
    ensures Lists(r, x.name) && forall n | Lists(s, n) :: Lists(r, n)
  {
    assert r[k].name == x.name;
    forall n | Lists(s, n) ensures Lists(r, n) {
      var i :| 0 <= i < |s| && s[i].name == n;
      assert r[if i < k then i else i + 1].name == n;
    }
  }

  // ----- building the nodes -----

  /** The nodes that have been registered stand for some names of the tree. */
  ghost predicate Registered(at: Places, t: Tree, keys: set<Path>)
    reads at.Values
  {
    && t.Valid() && PrefixClosed(t, keys) && Represents(at, Only(t, keys))
    && forall q | q in at :: !at[q].added
  }

  ghost predicate ChildrenMatch(at: Places, p: Path, children: map<Name, FileInfo>) {
    && (forall n :: n in children <==> p + [n] in at)
    && (forall n | n in children :: p + [n] in at && children[n] == at[p + [n]])
  }

  lemma MatchOther(at: Places, at': Places, path: Path, p: Path, children: map<Name, FileInfo>, info: FileInfo)
    requires ChildrenMatch(at, p, children) && at' == at[path := info] && path != [] && p != Parent(path)
    ensures ChildrenMatch(at', p, children)
  {
  }

  lemma MatchParent(at: Places, at': Places, path: Path, children: map<Name, FileInfo>, info: FileInfo)
    requires path != [] && ChildrenMatch(at, Parent(path), children) && at' == at[path := info]
    ensures ChildrenMatch(at', Parent(path), children[Last(path) := info])
  {
    ParentAndLast(path);
    forall n ensures Parent(path) + [n] == path <==> n == Last(path) { ParentOf(Parent(path), n); }
  }

  lemma MatchNew(at: Places, at': Places, t: Tree, keys: set<Path>, path: Path, info: FileInfo)
    requires PrefixClosed(t, keys) && at.Keys == keys && path !in keys && at' == at[path := info]
    ensures ChildrenMatch(at', path, map[])
  {
    forall n ensures path + [n] !in at' { ParentOf(path, n); }
  }

  /** What never changes about the node of a path. */
  ghost predicate Fixed(at: Places, t: Tree, p: Path)
    requires p in at
  {
    && t.Has(p) && p in t.names && at[p].place == p
    && (p == [] ==> at[p].parent == null)
    && (p != [] ==>
          && Parent(p) in at && at[p].parent == at[Parent(p)] && at[p].name == Last(p)
          && at[p].stat == t.At(p) && at[p].capability == t.At(p).caps)
  }

  lemma RegisteredIf(at: Places, t: Tree, keys: set<Path>)
    requires t.Valid() && PrefixClosed(t, keys) && at.Keys == keys
    requires forall p | p in keys :: Fixed(at, t, p) && ChildrenMatch(at, p, at[p].children) && !at[p].added
    ensures Registered(at, t, keys)
  {
  }

  ghost predicate WasRegistered(at: Places, t: Tree, keys: set<Path>, children: map<Path, map<Name, FileInfo>>) {
    && t.Valid() && PrefixClosed(t, keys) && at.Keys == keys && children.Keys == keys
    && forall p | p in keys :: Fixed(at, t, p) && ChildrenMatch(at, p, children[p])
  }

  lemma Snapshot(at: Places, t: Tree, keys: set<Path>, children: map<Path, map<Name, FileInfo>>)
    requires Registered(at, t, keys) && children.Keys == keys
    requires forall p | p in keys && p in at :: children[p] == at[p].children
    ensures WasRegistered(at, t, keys, children)
  {
  }

  /** One more node, known to its parent. */
  lemma RegisteredMore(at: Places, at': Places, t: Tree, keys: set<Path>, path: Path, info: FileInfo,
                       children: map<Path, map<Name, FileInfo>>)
    requires WasRegistered(at, t, keys, children)
    requires path != [] && path in t.names && t.Has(path) && path !in keys && Parent(path) in keys
    requires at' == at[path := info]
    requires info.place == path && info.parent == at[Parent(path)] && info.name == Last(path)
    requires info.stat == t.At(path) && info.capability == t.At(path).caps && info.children == map[] && !info.added
    requires forall p | p in keys :: !at[p].added
    requires forall p | p in keys && p != Parent(path) :: at[p].children == children[p]
    requires at[Parent(path)].children == children[Parent(path)][Last(path) := info]
    ensures Registered(at', t, keys + {path})
  {
    forall p | p in keys + {path}
      ensures Fixed(at', t, p) && ChildrenMatch(at', p, at'[p].children) && !at'[p].added
    {
      if p == path {
        MatchNew(at, at', t, keys, path, info);
      } else if p == Parent(path) {
        MatchParent(at, at', path, children[p], info);
      } else {
        MatchOther(at, at', path, p, children[p], info);
      }
    }
    RegisteredIf(at', t, keys + {path});
  }

  lemma AllRegistered(at: Places, t: Tree, keys: set<Path>)
    requires Registered(at, t, keys)
    ensures at.Keys == keys && Represents(at, Only(t, keys)) && [] in keys
    ensures forall p, q | p in keys && q in keys && at[p] == at[q] :: p == q
    ensures forall p | p in keys :: !at[p].added
  {
  }

  /** walkchunk: registers one file below its parent. */
  method WalkChunk(path: Path, fi: Inode, root: FileInfo, ghost at: Places, ghost t: Tree, ghost keys: set<Path>)
    returns (ok: bool, ghost at': Places)
    requires Registered(at, t, keys) && [] in at && at[[]] == root
    requires path != [] && path in t.names && t.Has(path) && fi == t.At(path) && path !in keys && Parent(path) in keys
    modifies at.Values`children
    ensures ok && Registered(at', t, keys + {path})
    ensures [] in at' && at'[[]] == root
    ensures fresh(NewNodes(at, at'))
  {
    hide Registered, WasRegistered, Represents, Only, PrefixClosed;
    AllRegistered(at, t, keys);
    var parent := LookUp(root, Parent(path), at, Only(t, keys));
    if parent == null {
      return false, at;
    }
    ghost var children := map p | p in keys :: at[p].children;
    Snapshot(at, t, keys, children);
    var info := new FileInfo(parent, Last(path), fi, path);
    parent.children := parent.children[info.name := info];
    at' := at[path := info];
    RegisteredMore(at, at', t, keys, path, info, children);
    ok := true;
  }

  /** The nodes that came in. */
  ghost function NewNodes(at: Places, at': Places): set<FileInfo> {
    at'.Values - at.Values
  }

  // ----- the walk -----

  /** The names at and below a path of which no ancestor below it was pruned. */
  ghost function Under(older: Tree, newer: Tree, t: Tree, path: Path): set<Path> {
    set q | q in t.names && path <= q && forall r | Below(path, r) && r <= q :: !Pruned(older, newer, r)
  }

  ghost function UnderIn(older: Tree, newer: Tree, t: Tree, path: Path, names: set<Name>): set<Path> {
    set q | q in Under(older, newer, t, path) && |path| < |q| && q[|path|] in names
  }

  /** A child that was not pruned brings in what is under it. */
  lemma UnderChild(older: Tree, newer: Tree, t: Tree, path: Path, names: set<Name>, n: Name)
    requires n !in names && !Pruned(older, newer, path + [n])
    ensures UnderIn(older, newer, t, path, names + {n}) ==
      UnderIn(older, newer, t, path, names) + Under(older, newer, t, path + [n])
    ensures UnderIn(older, newer, t, path, names) !! Under(older, newer, t, path + [n])
  {
  }

  /** The names that the merge keeps are the entries that were not pruned. */
  lemma KeptEntries(older: Tree, newer: Tree, t: Tree, path: Path, names: set<Name>)
    requires t.Valid()
    requires forall n | path + [n] in t.names && !Pruned(older, newer, path + [n]) :: n in names
    ensures UnderIn(older, newer, t, path, names) + (if path in t.names then {path} else {}) ==
      Under(older, newer, t, path)
  {
    assert path in t.names ==> path in Under(older, newer, t, path);
    forall q | q in Under(older, newer, t, path) && q != path ensures q in UnderIn(older, newer, t, path, names) {
      var c := path + [q[|path|]];
      AtChild(path, q[|path|], q);
      assert Below(path, c) && c <= q;
      if c != q { AncestorsAreDirs(t, c, q); }
    }
  }

  lemma MatchedIsPruned(older: Tree, newer: Tree, path: Path, names1: seq<NameIno>, names2: seq<NameIno>,
                        sameDevice: bool, n: Name)
    requires older.Valid() && newer.Valid()
    requires IsListing(older, path, names1) || (names1 == [] && !older.IsDir(path))
    requires IsListing(newer, path, names2) || (names2 == [] && !newer.IsDir(path))
    requires sameDevice <==> older.Has(path) && newer.Has(path) && older.At(path).dev == newer.At(path).dev
    ensures Lists(names1, n) <==> path + [n] in older.names
    ensures Lists(names2, n) <==> path + [n] in newer.names
    ensures Matched(names1, names2, sameDevice, n) <==> Pruned(older, newer, path + [n])
  {
    ParentOf(path, n);
    assert path + [n] in older.names ==> older.IsDir(Parent(path + [n]));
    assert path + [n] in newer.names ==> newer.IsDir(Parent(path + [n]));
    if Pruned(older, newer, path + [n]) {
      assert Lists(names1, n) && Lists(names2, n);
    }
  }

  /** The walker over two trees; `at` and `keys` say which nodes it has built. */
  class TreeWalker {
    const tree1: Tree
    const tree2: Tree
    const root1: FileInfo
    const root2: FileInfo

    ghost var at1: Places
    ghost var at2: Places
    ghost var keys1: set<Path>
    ghost var keys2: set<Path>

    ghost predicate Valid()
      reads this, at1.Values, at2.Values
    {
      && Registered(at1, tree1, keys1) && Registered(at2, tree2, keys2)
      && [] in at1 && at1[[]] == root1 && [] in at2 && at2[[]] == root2
      && at1.Values !! at2.Values
    }

    constructor (older: Tree, newer: Tree)
      requires older.Valid() && newer.Valid()
      ensures tree1 == older && tree2 == newer
      ensures Valid() && keys1 == {[]} && keys2 == {[]}
      ensures fresh(at1.Values) && fresh(at2.Values)
    {
      hide Registered, Represents, Only, PrefixClosed, Tree.Unaliased, Tree.LinksAreBare;
      tree1, tree2 := older, newer;
      var r1 := new FileInfo(null, "/", older.inodes[older.names[[]]], []);
      var r2 := new FileInfo(null, "/", newer.inodes[newer.names[[]]], []);
      root1, root2 := r1, r2;
      at1, at2 := map[[] := r1], map[[] := r2];
      keys1, keys2 := {[]}, {[]};
      new;
      RootRegistered(at1, tree1);
      RootRegistered(at2, tree2);
    }

    /** The part of walk that registers both files, if they exist. */
    method Register(path: Path) returns (ok: bool)
      requires Valid() && Next(tree1, keys1, path) && Next(tree2, keys2, path)
      modifies this, at1.Values, at2.Values
      ensures ok && Valid()
      ensures keys1 == old(keys1) + Here(tree1, path) && keys2 == old(keys2) + Here(tree2, path)
      ensures fresh(NewNodes(old(at1), at1)) && fresh(NewNodes(old(at2), at2))
    {
      hide Registered, Represents, Next, Here, NewNodes;
      ok := Register1(path);
      if ok {
        ok := Register2(path);
      }
    }

    method Register1(path: Path) returns (ok: bool)
      requires Valid() && Next(tree1, keys1, path)
      modifies this`at1, this`keys1, at1.Values
      ensures ok && Valid()
      ensures keys1 == old(keys1) + Here(tree1, path)
      ensures fresh(NewNodes(old(at1), at1))
    {
      hide Registered, Represents;
      ok := true;
      if path in tree1.names {
        HasNames(at1, tree1, keys1, path);
        ghost var before := at1;
        ok, at1 := WalkChunk(path, tree1.At(path), root1, at1, tree1, keys1);
        keys1 := keys1 + {path};
        NodesSplit(before, at1);
      }
    }

    method Register2(path: Path) returns (ok: bool)
      requires Valid() && Next(tree2, keys2, path)
      modifies this`at2, this`keys2, at2.Values
      ensures ok && Valid()
      ensures keys2 == old(keys2) + Here(tree2, path)
      ensures fresh(NewNodes(old(at2), at2))
    {
      hide Registered, Represents;
      ok := true;
      if path in tree2.names {
        HasNames(at2, tree2, keys2, path);
        ghost var before := at2;
        ok, at2 := WalkChunk(path, tree2.At(path), root2, at2, tree2, keys2);
        keys2 := keys2 + {path};
        NodesSplit(before, at2);
      }
    }

    /** walk. */
    method Visit(path: Path) returns (ok: bool)
      requires Valid() && (path in tree1.names || path in tree2.names)
      requires path == [] ==> keys1 == {[]} && keys2 == {[]}
      requires path != [] ==> Next(tree1, keys1, path) && Next(tree2, keys2, path)
      modifies this, at1.Values, at2.Values
      ensures ok && Valid()
      ensures keys1 == old(keys1) + Under(tree1, tree2, tree1, path)
      ensures keys2 == old(keys2) + Under(tree1, tree2, tree2, path)
      ensures fresh(NewNodes(old(at1), at1)) && fresh(NewNodes(old(at2), at2))
      decreases CountUnder(tree1, tree2, path), 1
    {
      hide Registered, Represents, Tree.Valid, Under, UnderIn, Next, CountUnder, ToVisit, At;
      ok := true;
      if path != [] {
        ok := Register(path);
        if !ok { return; }
      }
      ghost var k1, k2, a1, a2 := keys1, keys2, at1, at2;
      NodesSplit(old(at1), at1);
      NodesSplit(old(at2), at2);
      TreesAreValid();
      Reached(tree1, old(keys1), keys1, path);
      Reached(tree2, old(keys2), keys2, path);
      var names := NamesBelow(path);
      ok := VisitEntries(path, names);
      NodesJoin(old(at1), a1, at1);
      NodesJoin(old(at2), a2, at2);
      AllUnder(tree1, tree2, tree1, path, names, old(keys1), k1, keys1);
      AllUnder(tree1, tree2, tree2, path, names, old(keys2), k2, keys2);
    }

    /** The part of walk that lists both directories and merges the listings. */
    method NamesBelow(path: Path) returns (names: seq<Name>)
      requires tree1.Valid() && tree2.Valid()
      ensures ToVisit(tree1, tree2, path, names)
    {
      hide Tree.Valid, Distinct, Matched, Lists;
      var is1Dir, is2Dir := tree1.IsDir(path), tree2.IsDir(path);
      var sameDevice := tree1.Has(path) && tree2.Has(path) && tree1.At(path).dev == tree2.At(path).dev;
      var names1, names2: seq<NameIno> := [], [];
      if is1Dir { names1 := ReadDirNames(tree1, path); }
      if is2Dir { names2 := ReadDirNames(tree2, path); }
      names := MergeNames(names1, names2, sameDevice);
      NamesToVisit(tree1, tree2, path, names1, names2, sameDevice, names);
    }

    /** The loop of walk over the merged names. */
    method VisitEntries(path: Path, names: seq<Name>) returns (ok: bool)
      requires Valid() && At(tree1, keys1, path) && At(tree2, keys2, path) && ToVisit(tree1, tree2, path, names)
      requires path in tree1.names || path in tree2.names
      modifies this, at1.Values, at2.Values
      ensures ok && Valid()
      ensures keys1 == old(keys1) + UnderIn(tree1, tree2, tree1, path, NameSet(names))
      ensures keys2 == old(keys2) + UnderIn(tree1, tree2, tree2, path, NameSet(names))
      ensures fresh(NewNodes(old(at1), at1)) && fresh(NewNodes(old(at2), at2))
      decreases CountUnder(tree1, tree2, path), 0
    {
      hide Registered, Represents, Tree.Valid, Under, UnderIn, At, ToVisit, Next, NameSet, CountUnder;
      ok := true;
      ghost var k1, k2, a1, a2 := keys1, keys2, at1, at2;
      NothingVisited(tree1, tree2, path, names, k1, k2);
      var i := 0;
      while i < |names|
        invariant 0 <= i <= |names| && ok && Valid()
        invariant keys1 == k1 + UnderIn(tree1, tree2, tree1, path, NameSet(names[..i]))
        invariant keys2 == k2 + UnderIn(tree1, tree2, tree2, path, NameSet(names[..i]))
        invariant fresh(NewNodes(a1, at1)) && fresh(NewNodes(a2, at2))
      {
        TreesAreValid();
        EntryIsNext(tree1, tree2, tree1, path, names, i, k1, keys1);
        EntryIsNext(tree1, tree2, tree2, path, names, i, k2, keys2);
        EntryExists(tree1, tree2, path, names, i);
        ghost var b1, b2, c1, c2 := keys1, keys2, at1, at2;
        NodesSplit(a1, at1);
        NodesSplit(a2, at2);
        ok := Visit(path + [names[i]]);
        NodesJoin(a1, c1, at1);
        NodesJoin(a2, c2, at2);
        EntryVisited(tree1, tree2, tree1, path, names, i, k1, b1, keys1);
        EntryVisited(tree1, tree2, tree2, path, names, i, k2, b2, keys2);
        i := i + 1;
      }
      assert names[..i] == names;
    }

    lemma TreesAreValid()
      requires Valid()
      ensures tree1.Valid() && tree2.Valid()
    {
    }
  }

  lemma NodesSplit(a: Places, b: Places)
    ensures b.Values <= a.Values + NewNodes(a, b)
  {
  }

  lemma NodesJoin(a: Places, b: Places, c: Places)
    ensures NewNodes(a, c) <= NewNodes(a, b) + NewNodes(b, c)
  {
  }

  ghost function NameSet(names: seq<Name>): set<Name> {
    set n | n in names
  }

  ghost function Here(t: Tree, path: Path): set<Path> {
    if path in t.names then {path} else {}
  }

  /** Nothing at or below the path has been registered, but its parent has. */
  ghost predicate Next(t: Tree, keys: set<Path>, path: Path) {
    && path != []
    && (forall q | q in keys :: !(path <= q))
    && (path in t.names ==> Parent(path) in keys)
  }

  /** The path has been registered, if it exists, and nothing below it. */
  ghost predicate At(t: Tree, keys: set<Path>, path: Path) {
    && (path in t.names <==> path in keys)
    && (forall q | q in keys :: !Below(path, q))
  }

  ghost predicate ToVisit(older: Tree, newer: Tree, path: Path, names: seq<Name>) {
    && Distinct(names)
    && forall n :: n in names <==>
         (path + [n] in older.names || path + [n] in newer.names) && !Pruned(older, newer, path + [n])
  }

  ghost function CountUnder(older: Tree, newer: Tree, path: Path): nat {
    |set q | (q in older.names.Keys + newer.names.Keys) && path <= q|
  }

  lemma HasNames(at: Places, t: Tree, keys: set<Path>, path: Path)
    requires Registered(at, t, keys) && path in t.names
    ensures t.Has(path)
  {
  }

  lemma Reached(t: Tree, keys: set<Path>, keys': set<Path>, path: Path)
    requires path == [] ==> keys == keys' == {[]} && t.Valid()
    requires path != [] ==> Next(t, keys, path) && keys' == keys + Here(t, path)
    ensures At(t, keys', path)
  {
  }

  lemma NamesToVisit(older: Tree, newer: Tree, path: Path, names1: seq<NameIno>, names2: seq<NameIno>,
                     sameDevice: bool, names: seq<Name>)
    requires older.Valid() && newer.Valid()
    requires IsListing(older, path, names1) || (names1 == [] && !older.IsDir(path))
    requires IsListing(newer, path, names2) || (names2 == [] && !newer.IsDir(path))
    requires sameDevice <==> older.Has(path) && newer.Has(path) && older.At(path).dev == newer.At(path).dev
    requires Distinct(names)
    requires forall n :: n in names <==>
      (Lists(names1, n) || Lists(names2, n)) && !Matched(names1, names2, sameDevice, n)
    ensures ToVisit(older, newer, path, names)
  {
    forall n ensures n in names <==>
      (path + [n] in older.names || path + [n] in newer.names) && !Pruned(older, newer, path + [n])
    {
      MatchedIsPruned(older, newer, path, names1, names2, sameDevice, n);
    }
  }

  lemma NothingVisited(older: Tree, newer: Tree, path: Path, names: seq<Name>, k1: set<Path>, k2: set<Path>)
    ensures k1 == k1 + UnderIn(older, newer, older, path, NameSet(names[..0]))
    ensures k2 == k2 + UnderIn(older, newer, newer, path, NameSet(names[..0]))
  {
  }

  lemma NameNotBefore(names: seq<Name>, i: nat)
    requires Distinct(names) && i < |names|
    ensures names[i] !in NameSet(names[..i]) && NameSet(names[..i + 1]) == NameSet(names[..i]) + {names[i]}
  {
  }

  lemma EntryIsNext(older: Tree, newer: Tree, t: Tree, path: Path, names: seq<Name>, i: nat, k: set<Path>,
                    keys: set<Path>)
    requires t.Valid() && At(t, k, path) && ToVisit(older, newer, path, names) && i < |names|
    requires keys == k + UnderIn(older, newer, t, path, NameSet(names[..i]))
    ensures Next(t, keys, path + [names[i]]) && path + [names[i]] != []
  {
  }

  lemma EntryExists(older: Tree, newer: Tree, path: Path, names: seq<Name>, i: nat)
    requires ToVisit(older, newer, path, names) && i < |names|
    requires path in older.names || path in newer.names
    ensures path + [names[i]] in older.names || path + [names[i]] in newer.names
    ensures CountUnder(older, newer, path + [names[i]]) < CountUnder(older, newer, path)
  {
    var c := path + [names[i]];
    assert names[i] in names;
    var small := set q | (q in older.names.Keys + newer.names.Keys) && c <= q;
    var big := set q | (q in older.names.Keys + newer.names.Keys) && path <= q;
    forall q | q in small ensures q in big { AtChild(path, names[i], q); }
    assert path <= path && path in big && path !in small;
    assert |big| == |big - small| + |small|;
  }

  lemma EntryVisited(older: Tree, newer: Tree, t: Tree, path: Path, names: seq<Name>, i: nat, k: set<Path>,
                     before: set<Path>, after: set<Path>)
    requires ToVisit(older, newer, path, names) && i < |names|
    requires before == k + UnderIn(older, newer, t, path, NameSet(names[..i]))
    requires after == before + Under(older, newer, t, path + [names[i]])
    ensures after == k + UnderIn(older, newer, t, path, NameSet(names[..i + 1]))
  {
    NameNotBefore(names, i);
    assert names[i] in names;
    UnderChild(older, newer, t, path, NameSet(names[..i]), names[i]);
  }

  lemma AllUnder(older: Tree, newer: Tree, t: Tree, path: Path, names: seq<Name>, before: set<Path>, here: set<Path>,
                 after: set<Path>)
    requires t.Valid() && (t == older || t == newer) && ToVisit(older, newer, path, names)
    requires here == before + Here(t, path) && after == here + UnderIn(older, newer, t, path, NameSet(names))
    ensures after == before + Under(older, newer, t, path)
  {
    KeptEntries(older, newer, t, path, NameSet(names));
  }

  lemma RootRegistered(at: Places, t: Tree)
    requires t.Valid() && at.Keys == {[]} && at[[]].place == [] && at[[]].parent == null
    requires at[[]].children == map[] && !at[[]].added
    ensures Registered(at, t, {[]})
  {
  }

  // ----- both collectors -----

  lemma UnderRootIsKept(older: Tree, newer: Tree, t: Tree)
    requires t.Valid()
    ensures {[]} + Under(older, newer, t, []) == KeptNames(t, older, newer)
  {
  }

  /** collectFileInfoForChanges: both trees, without what was pruned. */
  method CollectFileInfoForChanges(older: Tree, newer: Tree)
    returns (ok: bool, oldRoot: FileInfo, newRoot: FileInfo, ghost oldAt: Places, ghost newAt: Places)
    requires older.Valid() && newer.Valid()
    ensures ok && Registered(oldAt, older, KeptNames(older, older, newer))
    ensures Registered(newAt, newer, KeptNames(newer, older, newer))
    ensures [] in oldAt && oldAt[[]] == oldRoot && [] in newAt && newAt[[]] == newRoot
    ensures fresh(oldAt.Values) && fresh(newAt.Values)
  {
    hide Registered, Represents, Under, KeptNames, Tree.Valid;
    var w := new TreeWalker(older, newer);
    ghost var a1, a2 := w.at1, w.at2;
    RootExists(older);
    ok := w.Visit([]);
    NodesSplit(a1, w.at1);
    NodesSplit(a2, w.at2);
    UnderRootIsKept(older, newer, older);
    UnderRootIsKept(older, newer, newer);
    oldRoot, newRoot, oldAt, newAt := w.root1, w.root2, w.at1, w.at2;
  }

  lemma RootExists(t: Tree)
    requires t.Valid()
    ensures [] in t.names
  {
  }

  lemma RegisteredIsLinked(newAt: Places, newer: Tree, newKeys: set<Path>, oldAt: Places, older: Tree,
                           oldKeys: set<Path>)
    requires Registered(newAt, newer, newKeys) && Registered(oldAt, older, oldKeys)
    ensures Linked(newAt, Only(newer, newKeys), oldAt, Only(older, oldKeys))
    ensures forall q | q in newAt :: !newAt[q].added
  {
    OnlyIsValid(newer, newKeys);
    OnlyIsValid(older, oldKeys);
  }

  /** ChangesDirs: although the trees were pruned, the list has exactly the
      changes between the complete trees. */
  method ChangesDirs(newer: Tree, older: Tree) returns (ok: bool, list: seq<Change>)
    requires older.Valid() && newer.Valid() && SameInodeSameTree(older, newer)
    ensures ok && Ordered(list)
    ensures forall c :: c in list <==> Reported(older, newer, c)
  {
    hide Registered, Represents, KeptNames, Tree.Valid, Linked, Reported, SameInodeSameTree, Ordered;
    var oldRoot, newRoot;
    ghost var oldAt, newAt;
    ok, oldRoot, newRoot, oldAt, newAt := CollectFileInfoForChanges(older, newer);
    ghost var o, n := Only(older, KeptNames(older, older, newer)), Only(newer, KeptNames(newer, older, newer));
    RegisteredIsLinked(newAt, newer, KeptNames(newer, older, newer), oldAt, older, KeptNames(older, older, newer));
    list := ChangesOf(newRoot, oldRoot, newAt, n, oldAt, o);
    forall c ensures c in list <==> Reported(older, newer, c) { FastRefinesSimple(older, newer, c); }
  }

  // ----- the simple collector -----

  /** Beside a tree without names nothing is pruned. */
  lemma ListingToVisit(t: Tree, path: Path, listing: seq<NameIno>, names: seq<Name>)
    requires t.Valid() && (if t.IsDir(path) then IsListing(t, path, listing) else listing == [])
    requires |names| == |listing| && forall i | 0 <= i < |names| :: names[i] == listing[i].name
    ensures ToVisit(NO_TREE, t, path, names)
  {
    forall i, j | 0 <= i < j < |names| ensures names[i] != names[j] { LessIsAsymmetric(names[i], names[j]); }
    forall n ensures n in names <==> path + [n] in t.names {
      ParentOf(path, n);
      if path + [n] in t.names {
        assert t.IsDir(Parent(path + [n])) && Lists(listing, n);
        var i :| 0 <= i < |listing| && listing[i].name == n;
        assert names[i] == n;
      }
    }
  }

  /** WalkDir with the callback of collectFileInfo: registers a file, then what
      is below it. */
  method CollectUnder(t: Tree, path: Path, root: FileInfo, ghost at: Places, ghost keys: set<Path>)
    returns (ok: bool, ghost at': Places, ghost keys': set<Path>)
    requires Registered(at, t, keys) && [] in at && at[[]] == root && path in t.names
    requires if path == [] then keys == {[]} else Next(t, keys, path)
    modifies at.Values`children
    ensures ok && Registered(at', t, keys') && [] in at' && at'[[]] == root
    ensures keys' == keys + Under(NO_TREE, t, t, path)
    ensures fresh(NewNodes(at, at'))
    decreases CountUnder(NO_TREE, t, path), 1
  {
    hide Registered, Represents, Tree.Valid, Under, UnderIn, Next, CountUnder, ToVisit, At, IsListing;
    ok, at', keys' := true, at, keys;
    HasNames(at, t, keys, path);
    if path != [] {
      ParentIsRegistered(at, t, keys, path);
      ok, at' := WalkChunk(path, t.At(path), root, at, t, keys);
      if !ok { return; }
      keys' := keys + {path};
    }
    ghost var at1, keys1 := at', keys';
    NodesSplit(at, at1);
    RegisteredIsValid(at1, t, keys1);
    Reached(t, keys, keys1, path);
    var listing: seq<NameIno> := [];
    if t.IsDir(path) { listing := ReadDirNames(t, path); }
    var names := seq(|listing|, i requires 0 <= i < |listing| => listing[i].name);
    ListingToVisit(t, path, listing, names);
    ok, at', keys' := CollectEntries(t, path, names, root, at1, keys1);
    NodesJoin(at, at1, at');
    AllUnder(NO_TREE, t, t, path, names, keys, keys1, keys');
  }

  method CollectEntries(t: Tree, path: Path, names: seq<Name>, root: FileInfo, ghost at: Places, ghost keys: set<Path>)
    returns (ok: bool, ghost at': Places, ghost keys': set<Path>)
    requires Registered(at, t, keys) && [] in at && at[[]] == root && path in t.names
    requires At(t, keys, path) && ToVisit(NO_TREE, t, path, names)
    modifies at.Values`children
    ensures ok && Registered(at', t, keys') && [] in at' && at'[[]] == root
    ensures keys' == keys + UnderIn(NO_TREE, t, t, path, NameSet(names))
    ensures fresh(NewNodes(at, at'))
    decreases CountUnder(NO_TREE, t, path), 0
  {
    hide Registered, Represents, Tree.Valid, Under, UnderIn, Next, CountUnder, ToVisit, At, NameSet;
    ok, at', keys' := true, at, keys;
    RegisteredIsValid(at, t, keys);
    NothingVisited(NO_TREE, t, path, names, keys, keys);
    var i := 0;
    while i < |names|
      invariant 0 <= i <= |names| && ok
      invariant Registered(at', t, keys') && [] in at' && at'[[]] == root
      invariant keys' == keys + UnderIn(NO_TREE, t, t, path, NameSet(names[..i]))
      invariant fresh(NewNodes(at, at'))
    {
      EntryIsNext(NO_TREE, t, t, path, names, i, keys, keys');
      EntryExists(NO_TREE, t, path, names, i);
      ghost var at1, keys1 := at', keys';
      NodesSplit(at, at1);
      ok, at', keys' := CollectUnder(t, path + [names[i]], root, at1, keys1);
      NodesJoin(at, at1, at');
      EntryVisited(NO_TREE, t, t, path, names, i, keys, keys1, keys');
      i := i + 1;
    }
    assert names[..i] == names;
  }

  lemma RegisteredIsValid(at: Places, t: Tree, keys: set<Path>)
    requires Registered(at, t, keys)
    ensures t.Valid()
  {
  }

  lemma ParentIsRegistered(at: Places, t: Tree, keys: set<Path>, path: Path)
    requires Registered(at, t, keys) && path in t.names && path != [] && Next(t, keys, path)
    ensures path !in keys && Parent(path) in keys && t.Has(path)
    ensures Here(t, path) == {path}
  {
  }

  /** collectFileInfo: the complete tree. */
  method CollectFileInfo(t: Tree) returns (ok: bool, root: FileInfo, ghost at: Places)
    requires t.Valid()
    ensures ok && Registered(at, t, t.names.Keys) && [] in at && at[[]] == root
    ensures fresh(at.Values)
  {
    hide Registered, Represents, Under, Tree.Valid;
    RootExists(t);
    var r := new FileInfo(null, "/", RootInode(t), []);
    ghost var at0: Places := map[[] := r];
    RootRegistered(at0, t);
    ghost var keys;
    ok, at, keys := CollectUnder(t, [], r, at0, {[]});
    NodesSplit(at0, at);
    EverythingIsUnderRoot(t);
    root := r;
  }

  function RootInode(t: Tree): Inode
    requires t.Valid()
  {
    t.inodes[t.names[[]]]
  }

  lemma EverythingIsUnderRoot(t: Tree)
    requires t.Valid()
    ensures {[]} + Under(NO_TREE, t, t, []) == t.names.Keys
  {
  }

  lemma OnlyAll(t: Tree)
    ensures Only(t, t.names.Keys) == t
  {
  }

  /** ChangesDirs on platforms without the walker. */
  method ChangesDirsComplete(newer: Tree, older: Tree) returns (ok: bool, list: seq<Change>)
    requires older.Valid() && newer.Valid()
    ensures ok && Ordered(list)
    ensures forall c :: c in list <==> Reported(older, newer, c)
  {
    hide Registered, Represents, Tree.Valid, Linked, Reported, Ordered, Only;
    var oldRoot, newRoot;
    ghost var oldAt, newAt;
    ok, oldRoot, oldAt := CollectFileInfo(older);
    ok, newRoot, newAt := CollectFileInfo(newer);
    RegisteredIsLinked(newAt, newer, newer.names.Keys, oldAt, older, older.names.Keys);
    OnlyAll(older);
    OnlyAll(newer);
    list := ChangesOf(newRoot, oldRoot, newAt, newer, oldAt, older);
  }
}
