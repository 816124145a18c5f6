/** The opaque whiteout walk, piece by piece: taking out the unlisted part of
    one child after the other takes out the unlisted part of the directory. */
module Sweeping {
  import opened Names
  import opened Trees
  import opened RootFs
  import opened Extract

  /** The part of the unlisted paths that is below the children in `done`. */
  ghost function UnlistedIn(t: Tree, dir: Path, unpacked: set<Path>, done: set<Name>): set<Path> {
    set p | p in Unlisted(t, dir, unpacked) && |dir| < |p| && p[|dir|] in done
  }

  ghost predicate DownClosed(t: Tree, gone: set<Path>) {
    forall p {:trigger Parent(p)} | p in t.names && p != [] && Parent(p) in gone :: p in gone
  }

  /** Removing one part after another that is unrelated to it is removing both. */
  lemma PruneTwice(t: Tree, a: set<Path>, b: set<Path>)
    requires DownClosed(t, a) && a !! b
    requires forall p {:trigger Parent(p)} | p in a && p != [] :: Parent(p) !in b
    requires forall p {:trigger Parent(p)} | p in b && p != [] :: Parent(p) !in a
    ensures Prune(Prune(t, a), b) == Prune(t, a + b)
  {
    var t1, t2, u := Prune(t, a), Prune(Prune(t, a), b), Prune(t, a + b);
    assert t2.names == u.names;
    forall i | i in t.inodes
      ensures LosesEntry(t, a, i) || LosesEntry(t1, b, i) <==> LosesEntry(t, a + b, i)
    {
      if LosesEntry(t, a, i) {
        var p :| LeavesParent(t, a, p, i);
        assert LeavesParent(t, a + b, p, i);
      }
      if LosesEntry(t1, b, i) {
        var p :| LeavesParent(t1, b, p, i);
        assert LeavesParent(t, a + b, p, i);
      }
      if LosesEntry(t, a + b, i) {
        var p :| LeavesParent(t, a + b, p, i);
        assert if p in b then LeavesParent(t1, b, p, i) else LeavesParent(t, a, p, i);
      }
    }
    assert t2.inodes == u.inodes;
  }

  /** removeAll at a place takes out the place and everything below it. */
  lemma RemoveAtIsPrune(t: Tree, loc: Path)
    requires t.Valid() && loc != [] && loc in t.names
    ensures RemoveAt(t, loc) == Prune(t, set p | p in t.names && loc <= p)
  {
    var gone := set p | p in t.names && loc <= p;
    var r, u := RemoveAt(t, loc), Prune(t, gone);
    assert t.IsDir(Parent(loc));
    assert !(loc <= Parent(loc));
    assert r.names == u.names;
    forall i | i in t.inodes
      ensures LosesEntry(t, gone, i) <==> i == t.names[Parent(loc)]
    {
      if LosesEntry(t, gone, i) {
        var p :| LeavesParent(t, gone, p, i);
        if loc != p { BelowParent(loc, p); }
      }
      if i == t.names[Parent(loc)] {
        assert LeavesParent(t, gone, loc, i);
      }
    }
    assert r.inodes == u.inodes;
  }

  lemma UnlistedIsDownClosed(t: Tree, dir: Path, unpacked: set<Path>, done: set<Name>)
    requires t.Valid()
    ensures DownClosed(t, UnlistedIn(t, dir, unpacked, done))
  {
    var gone := UnlistedIn(t, dir, unpacked, done);
    forall p | p in t.names && p != [] && Parent(p) in gone ensures p in gone {
      PrefixTransitive(dir, Parent(p), p);
      var k :| |dir| < k <= |Parent(p)| && Parent(p)[..k] !in unpacked;
      assert p[..k] == Parent(p)[..k];
    }
  }

  lemma ChildOf(dir: Path, n: Name, p: Path)
    ensures dir + [n] <= p <==> Below(dir, p) && p[|dir|] == n
  {
  }

  lemma SplitsByChild(t: Tree, dir: Path, unpacked: set<Path>, done: set<Name>, n: Name)
    ensures UnlistedIn(t, dir, unpacked, done + {n}) ==
      UnlistedIn(t, dir, unpacked, done) + UnlistedIn(t, dir, unpacked, {n})
  {
  }

  /** A child that the layer did not write goes with all it contains. */
  lemma ChildNotListed(t: Tree, dir: Path, unpacked: set<Path>, n: Name)
    requires dir + [n] !in unpacked
    ensures UnlistedIn(t, dir, unpacked, {n}) == set p | p in t.names && dir + [n] <= p
  {
    forall p | p in t.names && dir + [n] <= p ensures p in UnlistedIn(t, dir, unpacked, {n}) {
      ChildOf(dir, n, p);
      assert p[..|dir| + 1] == dir + [n];
      assert !Kept(dir, unpacked, p);
    }
    forall p | p in UnlistedIn(t, dir, unpacked, {n}) ensures dir + [n] <= p {
      ChildOf(dir, n, p);
    }
  }

  /** From a child that the layer wrote, what is unlisted below it goes. */
  lemma ChildListed(t: Tree, dir: Path, unpacked: set<Path>, n: Name)
    requires dir + [n] in unpacked
    ensures UnlistedIn(t, dir, unpacked, {n}) == Unlisted(t, dir + [n], unpacked)
  {
    var child := dir + [n];
    assert Kept(dir, unpacked, child) by { assert child[..|child|] == child; }
    forall p | p in t.names && child <= p
      ensures Kept(dir, unpacked, p) <==> Kept(child, unpacked, p)
    {
      assert p[..|dir| + 1] == child;
    }
    forall p | p in UnlistedIn(t, dir, unpacked, {n}) ensures p in Unlisted(t, child, unpacked) {
      ChildOf(dir, n, p);
      assert p != child;
    }
    forall p | p in Unlisted(t, child, unpacked) ensures p in UnlistedIn(t, dir, unpacked, {n}) {
      ChildOf(dir, n, p);
    }
  }

  /** The part below one child is the same whether or not other children have
      been dealt with. */
  lemma OtherChildrenDoNotMatter(t: Tree, dir: Path, unpacked: set<Path>, done: set<Name>, n: Name)
    requires n !in done
    ensures var gone := UnlistedIn(t, dir, unpacked, done);
      UnlistedIn(Prune(t, gone), dir, unpacked, {n}) == UnlistedIn(t, dir, unpacked, {n})
  {
  }

  lemma ChildrenAreUnrelated(t: Tree, dir: Path, unpacked: set<Path>, done: set<Name>, n: Name)
    requires n !in done
    ensures var a, b := UnlistedIn(t, dir, unpacked, done), UnlistedIn(t, dir, unpacked, {n});
      && a !! b
      && (forall p {:trigger Parent(p)} | p in a && p != [] :: Parent(p) !in b)
      && (forall p {:trigger Parent(p)} | p in b && p != [] :: Parent(p) !in a)
  {
  }

  /** Everything unlisted below the children in `done` is gone. */
  ghost predicate SweptIn(t: Tree, now: Tree, dir: Path, unpacked: set<Path>, done: set<Name>) {
    now == Prune(t, UnlistedIn(t, dir, unpacked, done))
  }

  /** One turn of the loop over the children. */
  lemma SweepChild(t: Tree, before: Tree, after: Tree, dir: Path, unpacked: set<Path>, done: set<Name>, n: Name)
    requires t.Valid() && n !in done
    requires SweptIn(t, before, dir, unpacked, done) && SweptIn(before, after, dir, unpacked, {n})
    ensures SweptIn(t, after, dir, unpacked, done + {n})
  {
    OtherChildrenDoNotMatter(t, dir, unpacked, done, n);
    UnlistedIsDownClosed(t, dir, unpacked, done);
    ChildrenAreUnrelated(t, dir, unpacked, done, n);
    PruneTwice(t, UnlistedIn(t, dir, unpacked, done), UnlistedIn(t, dir, unpacked, {n}));
    SplitsByChild(t, dir, unpacked, done, n);
  }

  lemma PruneNothing(t: Tree)
    ensures Prune(t, {}) == t
  {
  }

  lemma NothingDone(t: Tree, dir: Path, unpacked: set<Path>)
    ensures SweptIn(t, t, dir, unpacked, {})
  {
  }

  lemma SweptAll(t: Tree, now: Tree, dir: Path, unpacked: set<Path>, names: set<Name>)
    requires t.Valid() && SweptIn(t, now, dir, unpacked, names)
    requires forall n | dir + [n] in t.names :: n in names
    ensures now == Sweep(t, dir, unpacked)
  {
    forall p | p in Unlisted(t, dir, unpacked) ensures p in UnlistedIn(t, dir, unpacked, names) {
      var child := dir + [p[|dir|]];
      ChildOf(dir, p[|dir|], p);
      if child != p { AncestorsAreDirs(t, child, p); }
    }
    assert UnlistedIn(t, dir, unpacked, names) == Unlisted(t, dir, unpacked);
  }

  /** No directory outside loses an entry. */
  lemma OutsideIsUntouched(t: Tree, dir: Path, unpacked: set<Path>, p: Path)
    requires t.Valid() && p in t.names && !(dir <= p)
    ensures t.Has(p) && Sweep(t, dir, unpacked).Has(p) && Sweep(t, dir, unpacked).At(p) == t.At(p)
  {
    var gone := Unlisted(t, dir, unpacked);
    forall q | q in gone && q in t.names && q != [] && Parent(q) in t.names ensures t.names[Parent(q)] != t.names[p] {
      BelowParent(dir, q);
      assert t.IsDir(Parent(q));
    }
    assert t.Has(p) && !LosesEntry(t, gone, t.names[p]);
  }

  /** The survivors of an opaque whiteout: outside the directory everything,
      below it exactly what the layer wrote, reached through directories that
      the layer wrote. */
  lemma Survivors(t: Tree, dir: Path, unpacked: set<Path>, p: Path)
    ensures p in Sweep(t, dir, unpacked).names <==>
      p in t.names && (Below(dir, p) ==> forall q | Below(dir, q) && q <= p :: q in unpacked)
    ensures p in Sweep(t, dir, unpacked).names ==> Sweep(t, dir, unpacked).names[p] == t.names[p]
    ensures t.Valid() && p in t.names && !(dir <= p) ==>
      t.Has(p) && Sweep(t, dir, unpacked).Has(p) && Sweep(t, dir, unpacked).At(p) == t.At(p)
  {
    if t.Valid() && p in t.names && !(dir <= p) { OutsideIsUntouched(t, dir, unpacked, p); }
    if p in t.names && Below(dir, p) {
      if Kept(dir, unpacked, p) {
        forall q | Below(dir, q) && q <= p ensures q in unpacked {
          assert p[..|q|] == q;
        }
      }
      if forall q | Below(dir, q) && q <= p :: q in unpacked {
        forall k | |dir| < k <= |p| ensures p[..k] in unpacked {
          assert p[..k] <= p && p[..k][..|dir|] == p[..|dir|] == dir;
          assert Below(dir, p[..k]);
        }
      }
    }
  }
}
