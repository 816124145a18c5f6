/** An overlay upper directory, archived in overlay format and applied to a lower
    tree, gives the overlay merge of the two. */
module Overlay {
  import opened Names
  import opened Trees
  import opened Headers
  import opened Extract
  import opened Plain
  import opened Layers
  import opened Tar
  import opened LayerTheorem
  import opened Unpack
  import opened WhiteoutNames

  // ----- the overlay file system -----

  /** What an overlay mount shows: a device 0:0 hides a name, an opaque directory
      hides the lower entries, a directory meets a directory, and anything else
      in the upper tree replaces what is below. */
  ghost predicate Shows(lower: Tree, upper: Tree, p: Path) {
    if p in upper.names then !Whiteout(upper, p)
    else
      && p in lower.names
      && forall q | Below(q, p) && q != [] && q in upper.names :: upper.IsDir(q) && !upper.At(q).hidesLower
  }

  /** What the archive of an upper directory says. */
  ghost function UpperSum(upper: Tree): Sum {
    TreeSum(upper, true)
  }

  /** Nothing that is archived as a file has the whiteout prefix. */
  ghost predicate NoWhiteoutNames(upper: Tree) {
    forall p | Archived(upper, true, p) :: !Prefixed(p)
  }

  /** Below d the mount shows no more than the upper tree. */
  ghost predicate NothingShownBelow(lower: Tree, upper: Tree, d: Path) {
    forall q | q in lower.names && q !in upper.names && Below(d, q) :: !Shows(lower, upper, q)
  }

  /** The whiteouts hide in a layer what they hide in the mount: where one is taken
      for the opaque marker, there is nothing else to hide, and where one is taken
      for metadata, there is nothing to hide, or the root is swept anyway. */
  ghost predicate WhiteoutsHold(lower: Tree, upper: Tree) {
    forall p | p != [] && Whiteout(upper, p) ::
      && (NamesMarker(p) ==> NothingShownBelow(lower, upper, Parent(p)))
      && (NamesMetadata(p) ==> p !in lower.names || Whiteout(upper, [MARKER_REMAINDER]))
  }

  // ----- the merge -----

  /** The tree that an overlay merge is, as far as an archive can carry it. */
  ghost predicate IsMerge(lower: Tree, upper: Tree, t: Tree) {
    && (forall p :: p in t.names <==> Shows(lower, upper, p))
    && (forall p | p in t.names && p in upper.names && p != [] ::
          t.Has(p) && upper.Has(p) && NodeMatches(lower, p, t.At(p), Archival(upper.At(p)))
          && (upper.IsDir(p) ==> t.At(p).mtime == HeaderTime(upper.At(p).mtime)))
    && (forall p | p in t.names && p !in upper.names ::
          t.Has(p) && lower.Has(p) && t.names[p] == lower.names[p] && SameButTime(lower.At(p), t.At(p)))
  }

  // ----- sockets -----

  /** Sockets are not archived. */
  ghost function WithoutSockets(upper: Tree): Tree {
    upper.(names := map p | p in upper.names && !IsSocket(upper, p) :: upper.names[p])
  }

  lemma WithoutSocketsIsValid(upper: Tree)
    requires upper.Valid()
    ensures WithoutSockets(upper).Valid() && UpperSum(WithoutSockets(upper)) == UpperSum(upper)
    ensures forall p | p in WithoutSockets(upper).names ::
      upper.Has(p) && WithoutSockets(upper).Has(p) && WithoutSockets(upper).At(p) == upper.At(p)
    ensures forall p :: WithoutSockets(upper).IsDir(p) <==> upper.IsDir(p)
  {
    var w := WithoutSockets(upper);
    forall p | p in w.names ensures upper.Has(p) && w.Has(p) && w.At(p) == upper.At(p) { assert upper.Has(p); }
    assert w.Nested() by {
      assert upper.IsDir([]);
      forall p | p in w.names && p != [] ensures w.IsDir(Parent(p)) && Ordinary(Last(p)) {
        assert upper.IsDir(Parent(p));
      }
    }
    assert w.Unaliased() by {
      forall p, q | w.IsDir(p) && q in w.names && w.names[p] == w.names[q] ensures p == q {
        assert upper.IsDir(p) && upper.names[q] == upper.names[p];
      }
    }
  }

  /** The same socket is seen in the lower tree. */
  ghost predicate SocketIsThere(lower: Tree, upper: Tree, p: Path) {
    && lower.Has(p) && upper.Has(p) && NodeMatches(lower, p, lower.At(p), Archival(upper.At(p)))
    && forall q | Below(q, p) && q != [] && upper.IsDir(q) :: !upper.At(q).hidesLower
  }

  ghost predicate SocketsAreThere(lower: Tree, upper: Tree) {
    forall p | p in upper.names && IsSocket(upper, p) :: SocketIsThere(lower, upper, p)
  }

  /** The merge without sockets shows a socket if it is seen in the lower tree. */
  lemma ShowsSocket(lower: Tree, upper: Tree, p: Path)
    requires upper.Valid() && p in upper.names && IsSocket(upper, p)
    ensures Shows(lower, upper, p)
    ensures Shows(lower, WithoutSockets(upper), p) <==>
      p in lower.names && forall q | Below(q, p) && q != [] && upper.IsDir(q) :: !upper.At(q).hidesLower
  {
    WithoutSocketsIsValid(upper);
    var w := WithoutSockets(upper);
    forall q | Below(q, p)
      ensures upper.IsDir(q) && q in w.names && w.At(q) == upper.At(q)
    {
      AncestorsAreDirs(upper, q, p);
    }
  }

  /** Elsewhere the two merges show the same, unless a directory is seen where the
      upper tree has a socket. */
  lemma ShowsOther(lower: Tree, upper: Tree, p: Path)
    requires lower.Valid() && upper.Valid() && !(p in upper.names && IsSocket(upper, p))
    requires forall q | q in upper.names && IsSocket(upper, q) && Below(q, p) :: !lower.IsDir(q)
    ensures Shows(lower, WithoutSockets(upper), p) <==> Shows(lower, upper, p)
  {
    WithoutSocketsIsValid(upper);
    var w := WithoutSockets(upper);
    if p !in upper.names && p in lower.names {
      forall q | Below(q, p) && q in upper.names ensures q in w.names && w.At(q) == upper.At(q) {
        AncestorsAreDirs(lower, q, p);
        assert upper.Has(q);
      }
    }
  }

  /** A merge without the sockets is the merge exactly if they are there. */
  lemma SocketsDecide(lower: Tree, upper: Tree, t: Tree)
    requires lower.Valid() && upper.Valid() && t.Valid() && IsMerge(lower, WithoutSockets(upper), t)
    ensures IsMerge(lower, upper, t) <==> SocketsAreThere(lower, upper)
  {
    if IsMerge(lower, upper, t) { SocketsWereThere(lower, upper, t); }
    if SocketsAreThere(lower, upper) { SocketsShow(lower, upper, t); }
  }

  lemma SocketsWereThere(lower: Tree, upper: Tree, t: Tree)
    requires lower.Valid() && upper.Valid() && IsMerge(lower, WithoutSockets(upper), t) && IsMerge(lower, upper, t)
    ensures SocketsAreThere(lower, upper)
  {
    forall p | p in upper.names && IsSocket(upper, p) ensures SocketIsThere(lower, upper, p) {
      ShowsSocket(lower, upper, p);
      assert p in t.names && p !in WithoutSockets(upper).names;
      assert SameButTime(lower.At(p), t.At(p)) && NodeMatches(lower, p, t.At(p), Archival(upper.At(p)));
    }
  }

  lemma SocketsShow(lower: Tree, upper: Tree, t: Tree)
    requires lower.Valid() && upper.Valid() && IsMerge(lower, WithoutSockets(upper), t) && SocketsAreThere(lower, upper)
    ensures IsMerge(lower, upper, t)
  {
    WithoutSocketsIsValid(upper);
    var w := WithoutSockets(upper);
    assert forall q | q in upper.names && IsSocket(upper, q) :: SocketIsThere(lower, upper, q) && !lower.IsDir(q);
    forall p ensures p in t.names <==> Shows(lower, upper, p) {
      if p in upper.names && IsSocket(upper, p) {
        assert SocketIsThere(lower, upper, p);
        ShowsSocket(lower, upper, p);
      } else {
        ShowsOther(lower, upper, p);
      }
    }
    forall p | p in t.names && p in upper.names && p != []
      ensures t.Has(p) && upper.Has(p) && NodeMatches(lower, p, t.At(p), Archival(upper.At(p)))
      ensures upper.IsDir(p) ==> t.At(p).mtime == HeaderTime(upper.At(p).mtime)
    {
      assert upper.Has(p);
      if IsSocket(upper, p) {
        assert SocketIsThere(lower, upper, p) && SameButTime(lower.At(p), t.At(p));
      } else {
        assert p in w.names && w.At(p) == upper.At(p);
      }
    }
  }

  // ----- applying the archive -----

  /** What a layer shows that is understood as it is written. */
  lemma FinalIsMerge(lower: Tree, upper: Tree, p: Path)
    requires lower.Valid() && upper.Valid() && forall q | q in upper.names :: !IsSocket(upper, q)
    ensures Final(lower, upper, UpperSum(upper), p) <==> Shows(lower, upper, p)
  {
    var s := UpperSum(upper);
    assert upper.IsDir([]) && lower.IsDir([]);
    if p == [] {
      assert Visible(upper, s, p);
    } else if p in upper.names {
      assert upper.Has(p) && (p in s.puts <==> !Whiteout(upper, p));
      assert p <= p && (p in s.dels <==> Whiteout(upper, p));
    } else if p in lower.names {
      assert forall q | q in s.dels && q <= p :: Below(q, p);
      forall q | Below(q, p) && q != [] && q in upper.names
        ensures upper.Has(q) && (q in s.puts <==> !Whiteout(upper, q)) && (q in s.dels <==> Whiteout(upper, q))
      {
      }
      assert Visible(upper, s, p) <==> Shows(lower, upper, p);
    }
  }

  /** Whiteouts that hold make no difference to what is shown. */
  lemma HeldIsMerge(lower: Tree, upper: Tree, p: Path)
    requires lower.Valid() && upper.Valid() && forall q | q in upper.names :: !IsSocket(upper, q)
    requires WhiteoutsHold(lower, upper)
    ensures Final(lower, upper, Effective(UpperSum(upper)), p) <==> Shows(lower, upper, p)
  {
    FinalIsMerge(lower, upper, p);
    var s, e := UpperSum(upper), Effective(UpperSum(upper));
    if p in lower.names && p !in s.puts {
      if Visible(upper, s, p) {
        assert p !in upper.names || p == [];
        forall d | Below(d, p) ensures d !in e.opqs {
          if d in e.opqs && d !in s.opqs { SweptIsHidden(lower, upper, d, p); }
        }
        assert Visible(upper, e, p);
      } else if Visible(upper, e, p) {
        var q :| q <= p && q in s.dels;
        HiddenAnyway(lower, upper, q, p);
      }
    }
  }

  lemma SweptIsHidden(lower: Tree, upper: Tree, d: Path, p: Path)
    requires WhiteoutsHold(lower, upper) && p in lower.names && p !in upper.names && Below(d, p)
    requires d in Effective(UpperSum(upper)).opqs && d !in UpperSum(upper).opqs
    ensures !Shows(lower, upper, p)
  {
    var m :| m in UpperSum(upper).dels && NamesMarker(m) && Parent(m) == d;
    assert NothingShownBelow(lower, upper, d);
  }

  lemma HiddenAnyway(lower: Tree, upper: Tree, q: Path, p: Path)
    requires lower.Valid() && WhiteoutsHold(lower, upper) && p in lower.names
    requires q in UpperSum(upper).dels && q <= p
    ensures !Visible(upper, Effective(UpperSum(upper)), p)
  {
    var s, e := UpperSum(upper), Effective(UpperSum(upper));
    if NamesMarker(q) {
      assert Parent(q) in e.opqs && Below(Parent(q), p);
    } else if NamesMetadata(q) {
      if q != p { AncestorsAreDirs(lower, q, p); }
      var m := [MARKER_REMAINDER];
      assert m in s.dels && NamesMarker(m) && Parent(m) == [];
      assert [] in e.opqs && Below([], p);
    } else {
      assert q in e.dels;
    }
  }

  /** If what is shown is right, the whiteouts hold. */
  lemma MergeIsHeld(lower: Tree, upper: Tree)
    requires upper.Valid()
    requires forall p :: Final(lower, upper, Effective(UpperSum(upper)), p) <==> Shows(lower, upper, p)
    ensures WhiteoutsHold(lower, upper)
  {
    var s, e := UpperSum(upper), Effective(UpperSum(upper));
    forall p | p != [] && Whiteout(upper, p)
      ensures NamesMarker(p) ==> NothingShownBelow(lower, upper, Parent(p))
      ensures NamesMetadata(p) ==> p !in lower.names || Whiteout(upper, [MARKER_REMAINDER])
    {
      assert p in s.dels && p !in s.puts && !Shows(lower, upper, p);
      if NamesMarker(p) {
        assert Parent(p) in e.opqs;
        forall q | q in lower.names && q !in upper.names && Below(Parent(p), q) ensures !Shows(lower, upper, q) {
          assert q !in s.puts && !Visible(upper, e, q);
        }
      } else if NamesMetadata(p) && p in lower.names {
        assert !Visible(upper, e, p);
        assert [] in e.opqs by { assert forall q :: Below(q, p) ==> q == []; }
        var m :| m in s.dels && NamesMarker(m) && Parent(m) == [];
        assert m == [MARKER_REMAINDER];
      }
    }
  }

  /** What has been built from the archive is the merge without sockets exactly if the
      whiteouts hold. */
  lemma BuiltIsMerge(lower: Tree, upper: Tree, t: Tree)
    requires lower.Valid() && upper.Valid()
    requires Built(lower, ArchivalTree(upper), Effective(UpperSum(upper)), t)
    requires DirTimesKept(ArchivalTree(upper), Effective(UpperSum(upper)), t)
    ensures IsMerge(lower, WithoutSockets(upper), t) <==> WhiteoutsHold(lower, WithoutSockets(upper))
  {
    ArchivalNodes(upper);
    WithoutSocketsIsValid(upper);
    var a, e, w := ArchivalTree(upper), Effective(UpperSum(upper)), WithoutSockets(upper);
    forall p ensures p in t.names <==> Final(lower, w, e, p) {
      assert p in t.names <==> Final(lower, a, e, p);
    }
    if WhiteoutsHold(lower, w) {
      forall p ensures p in t.names <==> Shows(lower, w, p) { HeldIsMerge(lower, w, p); }
      BuiltMatches(lower, upper, t);
    }
    if IsMerge(lower, w, t) { MergeIsHeld(lower, w); }
  }

  lemma BuiltMatches(lower: Tree, upper: Tree, t: Tree)
    requires lower.Valid() && upper.Valid()
    requires Built(lower, ArchivalTree(upper), Effective(UpperSum(upper)), t)
    requires DirTimesKept(ArchivalTree(upper), Effective(UpperSum(upper)), t)
    requires forall p :: p in t.names <==> Shows(lower, WithoutSockets(upper), p)
    ensures IsMerge(lower, WithoutSockets(upper), t)
  {
    ArchivalNodes(upper);
    WithoutSocketsIsValid(upper);
    var s, w := Effective(UpperSum(upper)), WithoutSockets(upper);
    forall p | p in t.names && p in w.names && p != []
      ensures t.Has(p) && w.Has(p) && NodeMatches(lower, p, t.At(p), Archival(w.At(p)))
      ensures w.IsDir(p) ==> t.At(p).mtime == HeaderTime(w.At(p).mtime)
    {
      assert upper.Has(p) && p in s.puts && t.Has(p);
    }
    forall p | p in t.names && p !in w.names
      ensures t.Has(p) && lower.Has(p) && t.names[p] == lower.names[p] && SameButTime(lower.At(p), t.At(p))
    {
      assert p !in s.puts;
    }
  }

  /** A merge with the sockets is one without them as well. */
  lemma MergeShowsSockets(lower: Tree, upper: Tree, t: Tree)
    requires lower.Valid() && upper.Valid() && IsMerge(lower, upper, t)
    requires Built(lower, ArchivalTree(upper), Effective(UpperSum(upper)), t)
    requires DirTimesKept(ArchivalTree(upper), Effective(UpperSum(upper)), t)
    ensures SocketsAreThere(lower, upper) && IsMerge(lower, WithoutSockets(upper), t)
  {
    var w := WithoutSockets(upper);
    forall p | p in upper.names && IsSocket(upper, p) ensures SocketIsThere(lower, upper, p) {
      SocketWasThere(lower, upper, t, p);
    }
    assert forall q | q in upper.names && IsSocket(upper, q) :: SocketIsThere(lower, upper, q) && !lower.IsDir(q);
    forall p ensures p in t.names <==> Shows(lower, w, p) {
      if p in upper.names && IsSocket(upper, p) {
        assert SocketIsThere(lower, upper, p);
        ShowsSocket(lower, upper, p);
      } else {
        ShowsOther(lower, upper, p);
      }
    }
    BuiltMatches(lower, upper, t);
  }

  lemma SocketWasThere(lower: Tree, upper: Tree, t: Tree, p: Path)
    requires lower.Valid() && upper.Valid() && IsMerge(lower, upper, t)
    requires Built(lower, ArchivalTree(upper), Effective(UpperSum(upper)), t)
    requires p in upper.names && IsSocket(upper, p)
    ensures SocketIsThere(lower, upper, p)
  {
    var a, e := ArchivalTree(upper), Effective(UpperSum(upper));
    ShowsSocket(lower, upper, p);
    assert p in t.names && p !in e.puts && Final(lower, a, e, p);
    assert SameButTime(lower.At(p), t.At(p)) && NodeMatches(lower, p, t.At(p), Archival(upper.At(p)));
    forall q | Below(q, p) && q != [] && upper.IsDir(q) ensures !upper.At(q).hidesLower {
      assert upper.At(q).hidesLower ==> q in UpperSum(upper).opqs;
    }
  }

  lemma LinksAreKept(lower: Tree, upper: Tree, t: Tree)
    requires lower.Valid() && upper.Valid() && Built(lower, ArchivalTree(upper), Effective(UpperSum(upper)), t)
    ensures KeepsLinks(upper, true, t)
  {
    ArchivalNodes(upper);
    var a, s := ArchivalTree(upper), Effective(UpperSum(upper));
    forall p, q | ArchivedFile(upper, true, t, p) && ArchivedFile(upper, true, t, q)
      ensures t.names[p] == t.names[q] <==> upper.names[p] == upper.names[q]
    {
      assert p in s.puts && q in s.puts && t.Has(p) && t.Has(q);
      assert PutFile(a, s, t, p) && PutFile(a, s, t, q);
    }
    forall p, q | ArchivedFile(upper, true, t, p) && q in t.names && !Archived(upper, true, q)
      ensures t.names[p] != t.names[q]
    {
      assert p in s.puts && q !in s.puts && t.Has(p) && lower.Has(q);
    }
  }

  /** Where a file of the upper tree has a prefixed name, it is no directory, and the
      lower tree has no file of that kind there. */
  ghost predicate PrefixIsFree(lower: Tree, upper: Tree) {
    forall p | Archived(upper, true, p) && Prefixed(p) ::
      !upper.IsDir(p) && (lower.Has(p) ==> lower.At(p).kind != upper.At(p).kind)
  }

  /** No layer makes the merge with an upper tree in which such a file has the
      whiteout prefix. */
  lemma PrefixedFilesAreLost(lower: Tree, upper: Tree, layer: seq<Header>)
    requires lower.Valid() && upper.Valid() && PrefixIsFree(lower, upper) && !NoWhiteoutNames(upper)
    ensures !IsMerge(lower, upper, ApplyLayer(lower, layer).tree)
  {
    hide ApplyLayer;
    Preservation.LayersCopyOnWrite(lower, layer);
    LayersMakeNoWhiteoutFiles(lower, layer);
    var p :| Archived(upper, true, p) && Prefixed(p);
    assert upper.Has(p) && Shows(lower, upper, p);
    assert p in lower.names ==> lower.Has(p);
  }

  /** The tree that comes of the archive. */
  lemma ArchiveBuilds(lower: Tree, upper: Tree, items: seq<Item>, layer: seq<Header>)
    requires lower.Valid() && upper.Valid() && IsArchive(upper, true, items, layer) && NoWhiteoutNames(upper)
    ensures var r, a, e := ApplyLayer(lower, layer), ArchivalTree(upper), Effective(UpperSum(upper));
      r.Fine? && Built(lower, a, e, r.tree) && DirTimesKept(a, e, r.tree)
  {
    hide ApplyLayer, Built, DirTimesKept;
    ArchivalNodes(upper);
    ShapeIsWellFormed(upper, items);
    LayerApplies(lower, ArchivalTree(upper), items, layer);
  }

  /** Applying the archive of an upper directory is mounting it, without its sockets,
      over the lower tree, exactly if the whiteouts hold; the sockets make no
      difference exactly if they are there.  Files with the whiteout prefix are
      lost. */
  lemma OverlayMerges(lower: Tree, upper: Tree, items: seq<Item>, layer: seq<Header>)
    requires lower.Valid() && upper.Valid() && IsArchive(upper, true, items, layer)
    ensures NoWhiteoutNames(upper) ==>
      var r, w := ApplyLayer(lower, layer), WithoutSockets(upper);
      && r.Fine? && KeepsLinks(upper, true, r.tree)
      && (IsMerge(lower, w, r.tree) <==> WhiteoutsHold(lower, w))
      && (IsMerge(lower, upper, r.tree) <==> WhiteoutsHold(lower, w) && SocketsAreThere(lower, upper))
    ensures PrefixIsFree(lower, upper) ==>
      var r, w := ApplyLayer(lower, layer), WithoutSockets(upper);
      (r.Fine? && IsMerge(lower, upper, r.tree)) <==>
        (NoWhiteoutNames(upper) && WhiteoutsHold(lower, w) && SocketsAreThere(lower, upper))
  {
    hide ApplyLayer, IsMerge, KeepsLinks, NoWhiteoutNames, SocketsAreThere, PrefixIsFree, UpperSum, InShape;
    hide WhiteoutsHold, WithoutSockets, Built, DirTimesKept;
    if NoWhiteoutNames(upper) {
      ArchiveBuilds(lower, upper, items, layer);
      var t := ApplyLayer(lower, layer).tree;
      BuiltIsMerge(lower, upper, t);
      LinksAreKept(lower, upper, t);
      BuiltIsValid(lower, ArchivalTree(upper), Effective(UpperSum(upper)), t);
      if WhiteoutsHold(lower, WithoutSockets(upper)) { SocketsDecide(lower, upper, t); }
      if IsMerge(lower, upper, t) { MergeShowsSockets(lower, upper, t); }
    } else if PrefixIsFree(lower, upper) {
      PrefixedFilesAreLost(lower, upper, layer);
    }
  }

  lemma BuiltIsValid(base: Tree, src: Tree, s: Sum, t: Tree)
    requires Built(base, src, s, t)
    ensures t.Valid()
  {
  }

  /** A socket that the lower tree does not have is shown by the mount, but is not in
      the tree that the archive makes. */
  lemma SocketIsLost(lower: Tree, upper: Tree, items: seq<Item>, layer: seq<Header>, p: Path)
    requires lower.Valid() && upper.Valid() && IsArchive(upper, true, items, layer) && NoWhiteoutNames(upper)
    requires p in upper.names && IsSocket(upper, p) && p !in lower.names
    ensures ApplyLayer(lower, layer).Fine? && Shows(lower, upper, p) && p !in ApplyLayer(lower, layer).tree.names
  {
    hide ApplyLayer;
    ArchiveBuilds(lower, upper, items, layer);
    ShowsSocket(lower, upper, p);
    assert !Final(lower, ArchivalTree(upper), Effective(UpperSum(upper)), p);
  }

  /** Inputs on which the tree is not the merge: a socket and a file with the whiteout
      prefix over an empty root, and a whiteout for such a file at the root. */
  lemma FailingUppers(items: seq<Item>, layer: seq<Header>)
    ensures FailsOn(ROOT_ONLY, OneFile("s", Socket), items, layer)
    ensures FailsOn(ROOT_ONLY, OneFile(".wh.x", Reg("")), items, layer)
    ensures FailsOn(OneFile(".wh.x", Reg("")), OneFile(".wh.x", Char(0, 0)), items, layer)
  {
    hide FailsOn;
    SocketFails(items, layer);
    PrefixFails(items, layer);
    WhiteoutFails(items, layer);
  }

  ghost predicate FailsOn(lower: Tree, upper: Tree, items: seq<Item>, layer: seq<Header>) {
    && lower.Valid() && upper.Valid()
    && (IsArchive(upper, true, items, layer) ==> !IsMerge(lower, upper, ApplyLayer(lower, layer).tree))
  }

  lemma SocketFails(items: seq<Item>, layer: seq<Header>)
    ensures FailsOn(ROOT_ONLY, OneFile("s", Socket), items, layer)
  {
    hide ApplyLayer, IsArchive, Tree.Valid;
    var upper := OneFile("s", Socket);
    SmallTreesAreValid("s", Socket);
    assert IsSocket(upper, ["s"]);
    assert NoWhiteoutNames(upper) by { assert forall p :: !Archived(upper, true, p); }
    if IsArchive(upper, true, items, layer) {
      SocketIsLost(ROOT_ONLY, upper, items, layer, ["s"]);
    }
  }

  lemma PrefixFails(items: seq<Item>, layer: seq<Header>)
    ensures FailsOn(ROOT_ONLY, OneFile(".wh.x", Reg("")), items, layer)
  {
    hide ApplyLayer, IsMerge, IsArchive, Tree.Valid;
    var upper, p := OneFile(".wh.x", Reg("")), [".wh.x"];
    SmallTreesAreValid(".wh.x", Reg(""));
    assert Last(p) == ".wh.x" && WHITEOUT_PREFIX <= ".wh.x";
    assert Archived(upper, true, p) && Prefixed(p);
    assert forall q | Archived(upper, true, q) :: q == p && !ROOT_ONLY.Has(q);
    PrefixedFilesAreLost(ROOT_ONLY, upper, layer);
  }

  lemma WhiteoutFails(items: seq<Item>, layer: seq<Header>)
    ensures FailsOn(OneFile(".wh.x", Reg("")), OneFile(".wh.x", Char(0, 0)), items, layer)
  {
    hide ApplyLayer, IsMerge, IsArchive, Tree.Valid;
    var lower, upper, p := OneFile(".wh.x", Reg("")), OneFile(".wh.x", Char(0, 0)), [".wh.x"];
    SmallTreesAreValid(".wh.x", Reg(""));
    SmallTreesAreValid(".wh.x", Char(0, 0));
    var w := WithoutSockets(upper);
    assert Last(p) == ".wh.x" && WHITEOUT_PREFIX <= ".wh.x" && NamesMetadata(p);
    assert Whiteout(w, p) && p in lower.names;
    assert [MARKER_REMAINDER] !in w.names by { assert [MARKER_REMAINDER][0] != p[0]; }
    assert forall q :: !Archived(upper, true, q);
    if IsArchive(upper, true, items, layer) {
      OverlayMerges(lower, upper, items, layer);
    }
  }

  /** Both ends together, on the extraction root. */
  method CommitOverlay(root: Root, upper: Tree) returns (err: Status)
    requires root.tree.Valid() && upper.Valid()
    modifies root
    ensures NoWhiteoutNames(upper) ==>
      var lower, w := old(root.tree), WithoutSockets(upper);
      && err == NoError && KeepsLinks(upper, true, root.tree)
      && (IsMerge(lower, w, root.tree) <==> WhiteoutsHold(lower, w))
      && (IsMerge(lower, upper, root.tree) <==> WhiteoutsHold(lower, w) && SocketsAreThere(lower, upper))
    ensures PrefixIsFree(old(root.tree), upper) ==>
      var lower, w := old(root.tree), WithoutSockets(upper);
      (err == NoError && IsMerge(lower, upper, root.tree)
       <==> NoWhiteoutNames(upper) && WhiteoutsHold(lower, w) && SocketsAreThere(lower, upper))
  {
    hide IsMerge, KeepsLinks, NoWhiteoutNames, SocketsAreThere, PrefixIsFree, IsArchive, ApplyLayer, WhiteoutsHold;
    var layer := TarTree(upper, true);
    ghost var items :| IsArchive(upper, true, items, layer);
    OverlayMerges(root.tree, upper, items, layer);
    var size;
    size, err := root.UnpackLayer(layer);
  }
}
