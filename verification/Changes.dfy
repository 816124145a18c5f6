/** The differences between two trees, as changes.go and changes_unix.go define
    them, stated on paths. */
module Changes {
  import opened Names
  import opened Trees

  datatype ChangeKind = Modify | Add | Delete

  datatype Change = Change(path: Path, kind: ChangeKind)

  /** statDifferent. */
  predicate StatDifferent(a: Inode, b: Inode) {
    || !SameType(a.kind, b.kind) || a.perm != b.perm
    || a.uid != b.uid || a.gid != b.gid
    || Rdev(a.kind) != Rdev(b.kind)
    || (!a.kind.Dir? && (!SameFsTime(a.mtime, b.mtime) || Size(a.kind) != Size(b.kind)))
  }

  predicate Differs(a: Inode, b: Inode) {
    StatDifferent(a, b) || a.caps != b.caps
  }

  /** What a comparison looks at in a file: its type with the length of its contents or
      of the link target or the device number, its permissions, its owner, its
      capabilities and, unless it is a directory, its time, which may have lost its
      nanoseconds on one side. */
  predicate LooksLike(a: Inode, b: Inode) {
    && (match a.kind
        case Dir => b.kind.Dir?
        case Reg(data) => b.kind.Reg? && |b.kind.data| == |data|
        case Symlink(target) => b.kind.Symlink? && |b.kind.target| == |target|
        case Block(major, minor) => b.kind == Block(major, minor)
        case Char(major, minor) => b.kind == Char(major, minor)
        case Fifo => b.kind.Fifo?
        case Socket => b.kind.Socket?)
    && a.perm == b.perm && a.uid == b.uid && a.gid == b.gid && a.caps == b.caps
    && (a.kind.Dir?
        || (a.mtime.sec == b.mtime.sec
            && (a.mtime.nsec == b.mtime.nsec || a.mtime.nsec == 0 || b.mtime.nsec == 0)))
  }

  /** Exactly these differences count. */
  lemma DifferencesAreVisible(a: Inode, b: Inode)
    ensures Differs(a, b) <==> !LooksLike(a, b)
  {
  }

  // ----- what is reported -----

  predicate Added(older: Tree, newer: Tree, p: Path) {
    p in newer.names && p !in older.names
  }

  /** Only the topmost path of what has gone, and only if what contains it is
      still a directory. */
  predicate Deleted(older: Tree, newer: Tree, p: Path) {
    p != [] && p in older.names && p !in newer.names && newer.IsDir(Parent(p))
  }

  predicate Changed(older: Tree, newer: Tree, p: Path) {
    p != [] && older.Has(p) && newer.Has(p) && Differs(older.At(p), newer.At(p))
  }

  predicate Dirty(older: Tree, newer: Tree, p: Path) {
    Added(older, newer, p) || Deleted(older, newer, p) || Changed(older, newer, p)
  }

  ghost predicate DirtyBelow(older: Tree, newer: Tree, p: Path) {
    exists q :: Below(p, q) && Dirty(older, newer, q)
  }

  ghost predicate Modified(older: Tree, newer: Tree, p: Path) {
    && p != [] && older.Has(p) && newer.Has(p)
    && (Differs(older.At(p), newer.At(p)) || (newer.IsDir(p) && DirtyBelow(older, newer, p)))
  }

  /** The changes between two trees. */
  ghost predicate Reported(older: Tree, newer: Tree, c: Change) {
    match c.kind
    case Add => Added(older, newer, c.path)
    case Delete => Deleted(older, newer, c.path)
    case Modify => Modified(older, newer, c.path)
  }

  ghost predicate HasChange(older: Tree, newer: Tree, p: Path) {
    exists k :: Reported(older, newer, Change(p, k))
  }

  /** A path is reported in one way only. */
  lemma OneKindPerPath(older: Tree, newer: Tree, c: Change, d: Change)
    requires Reported(older, newer, c) && Reported(older, newer, d) && c.path == d.path
    ensures c == d
  {
  }

  lemma DirtyIsReported(older: Tree, newer: Tree, p: Path)
    requires Dirty(older, newer, p)
    ensures HasChange(older, newer, p)
  {
    if Added(older, newer, p) {
      assert Reported(older, newer, Change(p, Add));
    } else if Deleted(older, newer, p) {
      assert Reported(older, newer, Change(p, Delete));
    } else {
      assert Reported(older, newer, Change(p, Modify));
    }
  }

  lemma ReportedIsDirtyAtOrBelow(older: Tree, newer: Tree, c: Change)
    requires Reported(older, newer, c)
    ensures exists q :: c.path <= q && Dirty(older, newer, q)
  {
    if c.kind.Modify? && !Differs(older.At(c.path), newer.At(c.path)) {
      var q :| Below(c.path, q) && Dirty(older, newer, q);
      assert c.path <= q && Dirty(older, newer, q);
    } else {
      assert c.path <= c.path && Dirty(older, newer, c.path);
    }
  }

  lemma DirtyIsNested(older: Tree, newer: Tree, q: Path)
    requires older.Valid() && newer.Valid() && Dirty(older, newer, q)
    ensures q != [] && newer.IsDir(Parent(q))
  {
  }

  /** Every non-root ancestor of a reported path is reported, and it is a
      directory of the newer tree. */
  lemma AncestorsAreReported(older: Tree, newer: Tree, c: Change, p: Path)
    requires older.Valid() && newer.Valid() && Reported(older, newer, c) && Below(p, c.path)
    ensures newer.IsDir(p)
    ensures p != [] ==> Reported(older, newer, Change(p, Add)) || Reported(older, newer, Change(p, Modify))
  {
    ReportedIsDirtyAtOrBelow(older, newer, c);
    var q :| c.path <= q && Dirty(older, newer, q);
    PrefixTransitive(p, c.path, q);
    assert Below(p, q);
    DirtyIsNested(older, newer, q);
    BelowParent(p, q);
    if p != Parent(q) {
      AncestorsAreDirs(newer, p, Parent(q));
    }
    if p != [] && p in older.names {
      assert older.Has(p) && newer.Has(p) && DirtyBelow(older, newer, p);
      assert Reported(older, newer, Change(p, Modify));
    } else if p != [] {
      assert Reported(older, newer, Change(p, Add));
    }
  }

  // ----- comparing twice -----

  ghost predicate SameFiles(older: Tree, newer: Tree) {
    && older.names.Keys == newer.names.Keys
    && forall p | p in older.names && p != [] ::
         older.Has(p) && newer.Has(p) && !Differs(older.At(p), newer.At(p))
  }

  /** Nothing is reported exactly when the same names lead to nodes that do not
      differ. */
  lemma NothingReported(older: Tree, newer: Tree)
    requires older.Valid() && newer.Valid()
    ensures (forall c :: !Reported(older, newer, c)) <==> SameFiles(older, newer)
  {
    if forall c :: !Reported(older, newer, c) {
      forall p ensures p in older.names <==> p in newer.names {
        assert !Reported(older, newer, Change(p, Add));
        if p in older.names && p !in newer.names { TopmostIsReported(older, newer, p); }
      }
      forall p | p in older.names && p != [] ensures !Differs(older.At(p), newer.At(p)) {
        assert !Reported(older, newer, Change(p, Modify));
      }
    }
    if SameFiles(older, newer) {
      forall c ensures !Reported(older, newer, c) {
        if Reported(older, newer, c) { ReportedIsDirtyAtOrBelow(older, newer, c); }
      }
    }
  }

  /** A directory is reported as modified exactly if it does not look alike or
      something below it is reported. */
  lemma DirectoryIsReported(older: Tree, newer: Tree, p: Path)
    requires older.Valid() && newer.Valid() && p != [] && older.Has(p) && newer.IsDir(p)
    ensures Reported(older, newer, Change(p, Modify)) <==>
      !LooksLike(older.At(p), newer.At(p)) || exists c :: Reported(older, newer, c) && Below(p, c.path)
  {
    DifferencesAreVisible(older.At(p), newer.At(p));
    if DirtyBelow(older, newer, p) {
      var q :| Below(p, q) && Dirty(older, newer, q);
      DirtyIsReported(older, newer, q);
      var k :| Reported(older, newer, Change(q, k));
      assert Below(p, Change(q, k).path);
    }
    if c :| Reported(older, newer, c) && Below(p, c.path) {
      ReportedIsDirtyAtOrBelow(older, newer, c);
      var q :| c.path <= q && Dirty(older, newer, q);
      PrefixTransitive(p, c.path, q);
      assert DirtyBelow(older, newer, p);
    }
  }

  /** An empty comparison means that the same names lead to files that look alike; a
      file is reported as modified exactly if it does not. */
  lemma WhatIsCompared(older: Tree, newer: Tree)
    requires older.Valid() && newer.Valid()
    ensures (forall c :: !Reported(older, newer, c)) <==>
      && (forall p :: p in older.names <==> p in newer.names)
      && (forall p | p in older.names && p != [] && older.Has(p) && newer.Has(p) ::
            LooksLike(older.At(p), newer.At(p)))
    ensures forall p | p != [] && older.Has(p) && newer.Has(p) && !newer.IsDir(p) ::
      Reported(older, newer, Change(p, Modify)) <==> !LooksLike(older.At(p), newer.At(p))
  {
    NothingReported(older, newer);
    forall p | p in older.names ensures older.Has(p) {}
    forall p | p in newer.names ensures newer.Has(p) {}
    if forall p :: p in older.names <==> p in newer.names { assert older.names.Keys == newer.names.Keys; }
    forall p | p != [] && older.Has(p) && newer.Has(p)
      ensures Differs(older.At(p), newer.At(p)) <==> !LooksLike(older.At(p), newer.At(p))
    {
      DifferencesAreVisible(older.At(p), newer.At(p));
    }
  }

  /** The change at q takes p away: it deletes p or an ancestor, or an ancestor is
      no directory any more. */
  ghost predicate Removes(older: Tree, newer: Tree, q: Path, k: ChangeKind, p: Path) {
    && q <= p && q != [] && Reported(older, newer, Change(q, k))
    && (k.Delete? || (k.Modify? && q != p && !newer.IsDir(q)))
  }

  /** A path that has gone lies under a path that is reported. */
  lemma {:induction false} TopmostIsReported(older: Tree, newer: Tree, p: Path)
    requires older.Valid() && newer.Valid() && p in older.names && p !in newer.names
    ensures exists q, k :: Removes(older, newer, q, k, p)
    decreases |p|
  {
    assert newer.IsDir([]);
    var parent := Parent(p);
    assert older.IsDir(parent);
    if newer.IsDir(parent) {
      assert Removes(older, newer, p, Delete, p);
    } else if parent in newer.names {
      assert newer.Has(parent) && Differs(older.At(parent), newer.At(parent));
      assert Removes(older, newer, parent, Modify, p);
    } else {
      TopmostIsReported(older, newer, parent);
      var q, k :| Removes(older, newer, q, k, parent);
      PrefixTransitive(q, parent, p);
      assert Removes(older, newer, q, k, p);
    }
  }
}
