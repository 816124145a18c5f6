/** Changes of a layer directory with respect to the layers below it: the walk of
    changes.go that reads whiteouts in AUFS form. */
module Collect {
  import opened Names
  import opened Trees
  import opened Changes

  /** What stat reports for the paths of a parent layer; a path that is not in the
      map does not exist. */
  datatype LayerStat = Unreadable | Stat(node: Inode, size: nat)

  type Layer = map<Path, LayerStat>

  // ----- one entry -----

  /** aufsMetadataSkip. */
  predicate MetadataSkip(path: Path) {
    |path| == 1 && HasPrefix(path[0], WHITEOUT_META_PREFIX)
  }

  /** aufsDeletedFile: the path that a whiteout deletes. */
  function DeletedFile(path: Path): Option<Path>
    requires path != [] && OrdinaryPath(path)
  {
    NameWithoutPrefix(path);
    if !IsWhiteoutName(Last(path)) then None
    else Some(CleanParts(Cleaned(true, 0, Parent(path)), [Last(path)[|WHITEOUT_PREFIX|..]]).names)
  }

  lemma NameWithoutPrefix(path: Path)
    requires path != [] && OrdinaryPath(path)
    ensures OrdinaryPath(Parent(path))
    ensures IsWhiteoutName(Last(path)) ==> '/' !in Last(path)[|WHITEOUT_PREFIX|..]
  {
    assert Last(path) in path;
    forall n | n in Parent(path) ensures Ordinary(n) { assert n in path; }
  }

  /** A whiteout whose name is that of a file deletes the file beside it. */
  lemma DeletedIsSibling(path: Path)
    requires path != [] && OrdinaryPath(path) && IsWhiteoutName(Last(path))
    requires Ordinary(Last(path)[|WHITEOUT_PREFIX|..])
    ensures DeletedFile(path) == Some(Parent(path) + [Last(path)[|WHITEOUT_PREFIX|..]])
  {
    NameWithoutPrefix(path);
    var n := Last(path)[|WHITEOUT_PREFIX|..];
    var dir := Cleaned(true, 0, Parent(path));
    assert CleanParts(dir, [n]) == CleanParts(dir.(names := dir.names + [n]), [n][1..]);
  }

  /** The topmost parent layer that has the path. */
  function Find(layers: seq<Layer>, path: Path): Option<LayerStat> {
    if layers == [] then None
    else if path in layers[0] then Some(layers[0][path])
    else Find(layers[1..], path)
  }

  /** What the walk reads: the parent layers, the layer itself with the sizes that
      stat reports for its directories, and the entries in the order of the walk. */
  datatype Scan = Scan(layers: seq<Layer>, rw: Tree, size: Path -> nat, entries: seq<Path>)
  {
    /** A directory that looks as it did. */
    predicate SameDirectory(path: Path, below: LayerStat) {
      && below.Stat? && below.node.kind.Dir? && rw.IsDir(path)
      && size(path) == below.size && rw.At(path).perm == below.node.perm
      && SameFsTime(rw.At(path).mtime, below.node.mtime)
    }

    /** What an entry of the layer says about itself. */
    function OwnChange(path: Path): Own
      requires path != [] && OrdinaryPath(path)
    {
      if MetadataSkip(path) then Skipped
      else
        match DeletedFile(path)
        case Some(deleted) => Own(Change(deleted, Delete))
        case None =>
          match Find(layers, path)
          case None => Own(Change(path, Add))
          case Some(below) =>
            if below.Unreadable? then Unknown
            else if SameDirectory(path, below) then Same
            else Own(Change(path, Modify))
    }

    /** The entries of a walk: all but the root, each once, every directory before
        what it contains. */
    ghost predicate Valid() {
      && rw.Valid()
      && (forall i | 0 <= i < |entries| :: entries[i] != [] && OrdinaryPath(entries[i]))
      && (forall p :: p in entries <==> p in rw.names && p != [])
      && (forall i, j | 0 <= i < j < |entries| :: entries[i] != entries[j])
      && (forall i, j | 0 <= i < |entries| && 0 <= j < |entries| && Below(entries[i], entries[j]) :: i < j)
    }

    /** The entry adds or deletes something. */
    ghost predicate Adds(i: nat)
      requires Valid() && i < |entries|
    {
      OwnChange(entries[i]).Own? && !OwnChange(entries[i]).change.kind.Modify?
    }

    /** One of the first n entries adds something to d or deletes something in it. */
    ghost predicate Touched(n: nat, d: Path)
      requires Valid() && n <= |entries|
    {
      exists j :: 0 <= j < n && Parent(entries[j]) == d && Adds(j)
    }

    ghost predicate IsEntry(d: Path)
      requires Valid()
      ensures IsEntry(d) ==> d != [] && OrdinaryPath(d)
    {
      d in entries
    }

    /** What entry i appends: the directory in which it adds or deletes something,
        if that directory has no change of its own and this is the first time, and
        its own change. */
    ghost function Turn(i: nat): seq<Change>
      requires Valid() && i < |entries|
    {
      var e := entries[i];
      if !OwnChange(e).Own? then []
      else
        var parent := Parent(e);
        var first := Adds(i) && IsEntry(parent) && !OwnChange(parent).Own? && !Touched(i, parent);
        (if first then [Change(parent, Modify)] else []) + [OwnChange(e).change]
    }

    ghost function ListAfter(n: nat): seq<Change>
      requires Valid() && n <= |entries|
    {
      if n == 0 then [] else ListAfter(n - 1) + Turn(n - 1)
    }

    /** The changes of the layer. */
    ghost function List(): seq<Change>
      requires Valid()
    {
      ListAfter(|entries|)
    }

    /** The directory has been put into changedDirs by the first n entries. */
    ghost predicate Known(n: nat, d: Path)
      requires Valid() && n <= |entries|
    {
      IsEntry(d) && rw.IsDir(d) && ((d in entries[..n] && OwnChange(d).Own?) || Touched(n, d))
    }

    /** A directory that is taken for a whiteout. */
    predicate WhiteoutDir(p: Path) {
      p != [] && rw.IsDir(p) && IsWhiteoutName(Last(p)) && !MetadataSkip(p)
    }
  }

  datatype Own = Skipped | Same | Own(change: Change) | Unknown

  // ----- the walk -----

  /** A file or directory that is listed as added or modified among the first n
      changes. */
  ghost predicate Listed(changes: seq<Change>, n: nat, p: Path)
    requires n <= |changes|
  {
    exists k :: 0 <= k < n && changes[k].path == p && !changes[k].kind.Delete?
  }

  /** No path is listed twice, but for deletions. */
  ghost predicate ListedOnce(changes: seq<Change>) {
    forall i, j | 0 <= i < j < |changes| && changes[i].path == changes[j].path ::
      changes[i].kind.Delete? || changes[j].kind.Delete?
  }

  /** A change that an entry has, or that of an unchanged directory in which
      something was added or deleted. */
  ghost predicate Founded(sc: Scan, c: Change)
    requires sc.Valid()
  {
    || (exists i :: 0 <= i < |sc.entries| && sc.OwnChange(sc.entries[i]) == Own(c))
    || (c.kind.Modify? && sc.IsEntry(c.path) && sc.rw.IsDir(c.path) && !sc.OwnChange(c.path).Own?
        && sc.Touched(|sc.entries|, c.path))
  }

  datatype Collection = Collection(changes: seq<Change>) | Aborted

  /** collectChanges. */
  method CollectChanges(sc: Scan) returns (r: Collection)
    requires sc.Valid()
    ensures r.Aborted? <==> exists i :: 0 <= i < |sc.entries| && sc.OwnChange(sc.entries[i]).Unknown?
    ensures r.Collection? ==> r.changes == sc.List()
    ensures r.Collection? ==> ListedOnce(r.changes) && forall c | c in r.changes :: Founded(sc, c)
    ensures r.Collection? ==> forall i | 0 <= i < |sc.entries| && sc.OwnChange(sc.entries[i]).Own? ::
      sc.OwnChange(sc.entries[i]).change in r.changes
    ensures r.Collection? <==> AllReadable(sc)
    ensures r.Collection? ==> forall e | e in sc.entries && IsPlain(e) :: SaysOf(sc, r.changes, e)
    ensures r.Collection? ==>
      forall d :: Change(d, Delete) in r.changes <==> exists e :: e in sc.entries && Deletes(e, d)
  {
    hide Scan.OwnChange, Scan.Known, Scan.Turn, ListedOnce, Founded, AllReadable, SaysOf, Deletes;
    UnknownIsUnreadable(sc);
    var changes: seq<Change> := [];
    var changedDirs: set<Path> := {};
    var i := 0;
    NothingKnown(sc);
    while i < |sc.entries|
      invariant 0 <= i <= |sc.entries|
      invariant changes == sc.ListAfter(i)
      invariant forall d :: d in changedDirs <==> sc.Known(i, d)
      invariant forall j | 0 <= j < i :: !sc.OwnChange(sc.entries[j]).Unknown?
    {
      var path := sc.entries[i];
      var own := Inspect(sc, path);
      if own.Unknown? {
        return Aborted;
      }
      TurnOf(sc, i);
      KnownMore(sc, i);
      if own.Own? {
        var change := own.change;
        if sc.rw.IsDir(path) {
          changedDirs := changedDirs + {path};
        }
        if change.kind.Add? || change.kind.Delete? {
          var parent := Parent(path);
          if parent !in changedDirs && parent != [] {
            changes := changes + [Change(parent, Modify)];
            changedDirs := changedDirs + {parent};
          }
        }
        changes := changes + [change];
      }
      i := i + 1;
    }
    r := Collection(changes);
    ListIsMeant(sc);
    NoneIsTwice(sc, |sc.entries|);
    forall c | c in changes ensures Founded(sc, c) { EachIsFounded(sc, |sc.entries|, c); }
    forall j | 0 <= j < |sc.entries| && sc.OwnChange(sc.entries[j]).Own?
      ensures sc.OwnChange(sc.entries[j]).change in changes
    {
      OwnIsIn(sc, |sc.entries|, j);
    }
  }

  /** The part of the callback that judges one entry. */
  method Inspect(sc: Scan, path: Path) returns (own: Own)
    requires path != [] && OrdinaryPath(path)
    ensures own == sc.OwnChange(path)
  {
    if MetadataSkip(path) {
      return Skipped;
    }
    match DeletedFile(path) {
      case Some(deleted) => return Own(Change(deleted, Delete));
      case None =>
    }
    var i := 0;
    while i < |sc.layers|
      invariant 0 <= i <= |sc.layers| && Find(sc.layers, path) == Find(sc.layers[i..], path)
    {
      assert sc.layers[i..][0] == sc.layers[i] && sc.layers[i..][1..] == sc.layers[i + 1..];
      if path in sc.layers[i] {
        var stat := sc.layers[i][path];
        if stat.Unreadable? {
          return Unknown;
        }
        if sc.SameDirectory(path, stat) {
          return Same;
        }
        return Own(Change(path, Modify));
      }
      i := i + 1;
    }
    return Own(Change(path, Add));
  }

  // ----- what one turn does -----

  lemma ParentCameFirst(sc: Scan, i: nat)
    requires sc.Valid() && i < |sc.entries|
    ensures var parent := Parent(sc.entries[i]);
      parent != [] ==> sc.IsEntry(parent) && sc.rw.IsDir(parent) && parent in sc.entries[..i]
  {
    var e := sc.entries[i];
    var parent := Parent(e);
    assert e in sc.entries && sc.rw.IsDir(parent);
    if parent != [] {
      assert parent in sc.entries;
      var j :| 0 <= j < |sc.entries| && sc.entries[j] == parent;
      assert Below(sc.entries[j], sc.entries[i]);
      assert sc.entries[..i][j] == parent;
    }
  }

  lemma TouchedMore(sc: Scan, i: nat, d: Path)
    requires sc.Valid() && i < |sc.entries|
    ensures sc.Touched(i + 1, d) <==> sc.Touched(i, d) || (sc.Adds(i) && Parent(sc.entries[i]) == d)
  {
  }

  lemma KnownMore(sc: Scan, i: nat)
    requires sc.Valid() && i < |sc.entries|
    ensures forall d :: sc.Known(i + 1, d) <==>
      || sc.Known(i, d)
      || (d == sc.entries[i] && sc.rw.IsDir(d) && sc.OwnChange(d).Own?)
      || (d == Parent(sc.entries[i]) && d != [] && sc.Adds(i))
  {
    ParentCameFirst(sc, i);
    assert sc.entries[..i + 1] == sc.entries[..i] + [sc.entries[i]];
    assert sc.entries[i] in sc.entries;
    forall d ensures sc.Known(i + 1, d) <==>
      || sc.Known(i, d)
      || (d == sc.entries[i] && sc.rw.IsDir(d) && sc.OwnChange(d).Own?)
      || (d == Parent(sc.entries[i]) && d != [] && sc.Adds(i))
    {
      TouchedMore(sc, i, d);
    }
  }

  lemma TurnOf(sc: Scan, i: nat)
    requires sc.Valid() && i < |sc.entries|
    ensures var e := sc.entries[i];
      var first := sc.Adds(i) && Parent(e) != [] && !sc.Known(i, Parent(e));
      sc.Turn(i) ==
        if !sc.OwnChange(e).Own? then []
        else if first then [Change(Parent(e), Modify), sc.OwnChange(e).change]
        else [sc.OwnChange(e).change]
  {
    ParentCameFirst(sc, i);
  }

  lemma NothingKnown(sc: Scan)
    requires sc.Valid()
    ensures forall d :: !sc.Known(0, d)
  {
  }

  // ----- the list -----

  lemma OwnPath(sc: Scan, e: Path)
    requires e != [] && OrdinaryPath(e) && sc.OwnChange(e).Own?
    ensures var c := sc.OwnChange(e).change;
      if c.kind.Delete? then IsWhiteoutName(Last(e)) && !MetadataSkip(e)
      else c.path == e && (!IsWhiteoutName(Last(e)) || MetadataSkip(e))
  {
  }

  /** What is listed after the first n entries. */
  ghost predicate ListedBy(sc: Scan, n: nat, m: nat, d: Path)
    requires sc.Valid() && n <= |sc.entries| && m <= |sc.entries|
  {
    && sc.IsEntry(d) && d in sc.entries[..n]
    && if sc.OwnChange(d).Own? then !sc.OwnChange(d).change.kind.Delete? else sc.Touched(m, d)
  }

  ghost predicate Mentions(s: seq<Change>, d: Path) {
    exists c :: c in s && c.path == d && !c.kind.Delete?
  }

  lemma MentionsEither(s: seq<Change>, t: seq<Change>, d: Path)
    ensures Mentions(s + t, d) <==> Mentions(s, d) || Mentions(t, d)
  {
  }

  lemma {:induction false} ListedExactly(sc: Scan, n: nat, d: Path)
    requires sc.Valid() && n <= |sc.entries|
    ensures Mentions(sc.ListAfter(n), d) <==> ListedBy(sc, n, n, d)
    decreases n
  {
    hide Scan.OwnChange, Scan.Valid;
    if n > 0 {
      ListedExactly(sc, n - 1, d);
      MentionsEither(sc.ListAfter(n - 1), sc.Turn(n - 1), d);
      TurnMentions(sc, n - 1, d);
    }
  }

  /** The directory that a turn lists. */
  ghost predicate TurnAddsParent(sc: Scan, i: nat, d: Path)
    requires sc.Valid() && i < |sc.entries|
  {
    && sc.Adds(i) && d == Parent(sc.entries[i]) && sc.IsEntry(d)
    && !sc.OwnChange(d).Own? && !sc.Touched(i, d)
  }

  ghost predicate TurnAddsItself(sc: Scan, i: nat, d: Path)
    requires sc.Valid() && i < |sc.entries|
  {
    var e := sc.entries[i];
    d == e && sc.OwnChange(e).Own? && !sc.OwnChange(e).change.kind.Delete?
  }

  lemma MentionsInTurn(sc: Scan, i: nat, d: Path)
    requires sc.Valid() && i < |sc.entries|
    ensures Mentions(sc.Turn(i), d) <==> TurnAddsParent(sc, i, d) || TurnAddsItself(sc, i, d)
  {
    hide Scan.OwnChange, Scan.Touched, Scan.Valid;
    var e := sc.entries[i];
    EntryIsOrdinary(sc, i);
    if sc.OwnChange(e).Own? {
      OwnPath(sc, e);
      MentionsOne(sc.OwnChange(e).change, d);
      MentionsOne(Change(Parent(e), Modify), d);
      MentionsEither([Change(Parent(e), Modify)], [sc.OwnChange(e).change], d);
    }
  }

  lemma EntryIsOrdinary(sc: Scan, i: nat)
    requires sc.Valid() && i < |sc.entries|
    ensures sc.entries[i] != [] && OrdinaryPath(sc.entries[i]) && sc.IsEntry(sc.entries[i])
    ensures sc.entries[..i + 1] == sc.entries[..i] + [sc.entries[i]] && sc.entries[i] !in sc.entries[..i]
  {
  }

  lemma MentionsOne(c: Change, d: Path)
    ensures Mentions([c], d) <==> c.path == d && !c.kind.Delete?
  {
    assert c in [c];
  }

  /** A turn lists its own entry and the directory that it has touched first. */
  lemma TurnMentions(sc: Scan, i: nat, d: Path)
    requires sc.Valid() && i < |sc.entries|
    ensures ListedBy(sc, i + 1, i + 1, d) <==> ListedBy(sc, i, i, d) || Mentions(sc.Turn(i), d)
    ensures Mentions(sc.Turn(i), d) ==> !ListedBy(sc, i, i, d)
  {
    hide Scan.OwnChange, Scan.Touched, Scan.Valid, Scan.IsEntry, Scan.Turn, Mentions;
    MentionsInTurn(sc, i, d);
    EntryIsOrdinary(sc, i);
    ParentCameFirst(sc, i);
    TouchedMore(sc, i, d);
    NotYetTouched(sc, i);
  }

  /** What is below an entry comes after it. */
  lemma NotYetTouched(sc: Scan, i: nat)
    requires sc.Valid() && i < |sc.entries|
    ensures !sc.Touched(i + 1, sc.entries[i])
  {
    forall j | 0 <= j < i + 1 ensures Parent(sc.entries[j]) != sc.entries[i] {
      assert Below(Parent(sc.entries[j]), sc.entries[j]);
    }
  }

  lemma {:induction false} NoneIsTwice(sc: Scan, n: nat)
    requires sc.Valid() && n <= |sc.entries|
    ensures ListedOnce(sc.ListAfter(n))
    decreases n
  {
    hide Scan.OwnChange, Scan.Valid, Scan.Turn;
    if n > 0 {
      NoneIsTwice(sc, n - 1);
      TurnIsNew(sc, n - 1);
      TurnIsOnce(sc, n - 1);
      OnceTogether(sc.ListAfter(n - 1), sc.Turn(n - 1));
    }
  }

  /** What a turn lists was not listed before. */
  lemma TurnIsNew(sc: Scan, i: nat)
    requires sc.Valid() && i < |sc.entries|
    ensures forall c, d | c in sc.ListAfter(i) && d in sc.Turn(i) && !c.kind.Delete? && !d.kind.Delete? ::
      c.path != d.path
  {
    hide Scan.OwnChange, Scan.Valid, Scan.Turn, Scan.ListAfter, ListedBy;
    forall c, d | c in sc.ListAfter(i) && d in sc.Turn(i) && !c.kind.Delete? && !d.kind.Delete?
      ensures c.path != d.path
    {
      ListedExactly(sc, i, d.path);
      TurnMentions(sc, i, d.path);
      assert Mentions(sc.Turn(i), d.path) && Mentions(sc.ListAfter(i), c.path);
    }
  }

  lemma TurnIsOnce(sc: Scan, i: nat)
    requires sc.Valid() && i < |sc.entries|
    ensures ListedOnce(sc.Turn(i))
  {
    hide Scan.OwnChange;
    var e := sc.entries[i];
    if sc.OwnChange(e).Own? { OwnPath(sc, e); }
  }

  lemma OnceTogether(s: seq<Change>, t: seq<Change>)
    requires ListedOnce(s) && ListedOnce(t)
    requires forall c, d | c in s && d in t && !c.kind.Delete? && !d.kind.Delete? :: c.path != d.path
    ensures ListedOnce(s + t)
  {
    var u := s + t;
    forall i, j | 0 <= i < j < |u| && u[i].path == u[j].path ensures u[i].kind.Delete? || u[j].kind.Delete? {
      if i < |s| <= j { assert u[i] in s && u[j] in t; }
    }
  }

  lemma OwnIsInTurn(sc: Scan, i: nat)
    requires sc.Valid() && i < |sc.entries| && sc.OwnChange(sc.entries[i]).Own?
    ensures sc.OwnChange(sc.entries[i]).change in sc.Turn(i)
  {
    hide Scan.OwnChange, Scan.Valid;
  }

  lemma {:induction false} OwnIsIn(sc: Scan, n: nat, j: nat)
    requires sc.Valid() && j < n <= |sc.entries| && sc.OwnChange(sc.entries[j]).Own?
    ensures sc.OwnChange(sc.entries[j]).change in sc.ListAfter(n)
    decreases n
  {
    hide Scan.OwnChange, Scan.Valid, Scan.Turn;
    if j < n - 1 { OwnIsIn(sc, n - 1, j); } else { OwnIsInTurn(sc, j); }
  }

  lemma {:induction false} EachIsFounded(sc: Scan, n: nat, c: Change)
    requires sc.Valid() && n <= |sc.entries| && c in sc.ListAfter(n)
    ensures Founded(sc, c)
    decreases n
  {
    hide Scan.OwnChange, Scan.Valid, Scan.Turn, Founded;
    if c in sc.ListAfter(n - 1) {
      EachIsFounded(sc, n - 1, c);
    } else {
      TurnIsFounded(sc, n - 1, c);
    }
  }

  lemma TurnIsFounded(sc: Scan, i: nat, c: Change)
    requires sc.Valid() && i < |sc.entries| && c in sc.Turn(i)
    ensures Founded(sc, c)
  {
    hide Scan.OwnChange, Scan.Valid;
    EntryIsOrdinary(sc, i);
    if sc.OwnChange(sc.entries[i]) != Own(c) {
      ParentCameFirst(sc, i);
      assert 0 <= i < |sc.entries| && Parent(sc.entries[i]) == c.path && sc.Adds(i);
    }
  }

  // ----- what the list says about a file -----

  /** Neither a whiteout nor metadata: those names begin with ".wh.". */
  predicate IsPlain(e: Path) {
    e != [] && !(".wh." <= Last(e))
  }

  /** Layer k is the topmost parent layer that has e. */
  predicate IsTopmost(layers: seq<Layer>, e: Path, k: int) {
    0 <= k < |layers| && e in layers[k] && forall j | 0 <= j < k :: e !in layers[j]
  }

  predicate IsNew(layers: seq<Layer>, e: Path) {
    forall l | l in layers :: e !in l
  }

  /** A directory over a directory with the same size, permissions and time. */
  predicate SameAsBelow(sc: Scan, e: Path, below: LayerStat) {
    && below.Stat? && below.node.kind.Dir? && sc.rw.IsDir(e)
    && sc.size(e) == below.size && sc.rw.At(e).perm == below.node.perm
    && sc.rw.At(e).mtime.sec == below.node.mtime.sec
    && (sc.rw.At(e).mtime.nsec == below.node.mtime.nsec
        || sc.rw.At(e).mtime.nsec == 0 || below.node.mtime.nsec == 0)
  }

  /** An entry that adds something to its directory or deletes something in it: a
      file that no layer below has, or a whiteout. */
  predicate AddsOrDeletes(sc: Scan, e: Path) {
    && e != []
    && if ".wh." <= Last(e) then !(|e| == 1 && ".wh..wh." <= e[0]) else IsNew(sc.layers, e)
  }

  ghost predicate AddedOrDeletedIn(sc: Scan, d: Path) {
    exists e :: e in sc.entries && AddsOrDeletes(sc, e) && Parent(e) == d
  }

  lemma {:induction false} FindIsTopmost(layers: seq<Layer>, e: Path, k: int)
    requires IsTopmost(layers, e, k)
    ensures Find(layers, e) == Some(layers[k][e]) && !IsNew(layers, e)
  {
    assert layers[k] in layers;
    if k > 0 {
      assert layers[0] in layers && e !in layers[0];
      FindIsTopmost(layers[1..], e, k - 1);
    }
  }

  lemma {:induction false} FindsNothingNew(layers: seq<Layer>, e: Path)
    ensures Find(layers, e) == None <==> IsNew(layers, e)
    ensures Find(layers, e) != None ==> exists k :: IsTopmost(layers, e, k)
  {
    if layers != [] {
      if e in layers[0] {
        assert IsTopmost(layers, e, 0);
      } else {
        FindsNothingNew(layers[1..], e);
        assert forall l | l in layers :: l == layers[0] || l in layers[1..];
        if Find(layers[1..], e) != None {
          var k :| IsTopmost(layers[1..], e, k);
          assert IsTopmost(layers, e, k + 1);
        }
      }
    }
  }

  /** What an entry says about itself, on the layers and the tree. */
  lemma OwnChangeIs(sc: Scan, e: Path)
    requires e != [] && OrdinaryPath(e)
    ensures IsPlain(e) && IsNew(sc.layers, e) ==> sc.OwnChange(e) == Own(Change(e, Add))
    ensures forall k | IsTopmost(sc.layers, e, k) && IsPlain(e) ::
      sc.OwnChange(e) ==
        if sc.layers[k][e].Unreadable? then Unknown
        else if SameAsBelow(sc, e, sc.layers[k][e]) then Same
        else Own(Change(e, Modify))
    ensures !IsPlain(e) ==>
      if |e| == 1 && ".wh..wh." <= e[0] then sc.OwnChange(e) == Skipped
      else DeletedFile(e).Some? && sc.OwnChange(e) == Own(Change(DeletedFile(e).value, Delete))
    ensures IsPlain(e) ==> IsNew(sc.layers, e) || exists k :: IsTopmost(sc.layers, e, k)
  {
    FindsNothingNew(sc.layers, e);
    forall k | IsTopmost(sc.layers, e, k) ensures Find(sc.layers, e) == Some(sc.layers[k][e]) {
      FindIsTopmost(sc.layers, e, k);
    }
  }

  lemma AddsIs(sc: Scan, j: nat)
    requires sc.Valid() && j < |sc.entries|
    ensures sc.Adds(j) <==> AddsOrDeletes(sc, sc.entries[j])
  {
    hide Scan.OwnChange, Scan.Valid, SameAsBelow;
    var e := sc.entries[j];
    EntryIsOrdinary(sc, j);
    OwnChangeIs(sc, e);
    if IsPlain(e) && !IsNew(sc.layers, e) {
      var k :| IsTopmost(sc.layers, e, k);
      FindIsTopmost(sc.layers, e, k);
    }
  }

  lemma TouchedIs(sc: Scan, d: Path)
    requires sc.Valid()
    ensures sc.Touched(|sc.entries|, d) <==> AddedOrDeletedIn(sc, d)
  {
    hide AddsOrDeletes, Scan.Adds, Scan.Valid;
    forall j | 0 <= j < |sc.entries| ensures sc.Adds(j) <==> AddsOrDeletes(sc, sc.entries[j]) { AddsIs(sc, j); }
    forall j | 0 <= j < |sc.entries| ensures sc.entries[j] != [] { EntryIsOrdinary(sc, j); }
  }

  /** Every layer could tell about the entries of this one. */
  ghost predicate AllReadable(sc: Scan) {
    forall e, k | e in sc.entries && IsPlain(e) && IsTopmost(sc.layers, e, k) :: sc.layers[k][e].Stat?
  }

  /** What the list says about a file that is no whiteout: it is added exactly if no
      parent layer has it, and modified exactly if the topmost one that has it has
      another kind of file or a directory that looks different, or if something was
      added to it or deleted in it. */
  ghost predicate SaysOf(sc: Scan, changes: seq<Change>, e: Path) {
    && (Change(e, Add) in changes <==> IsNew(sc.layers, e))
    && (Change(e, Modify) in changes <==>
          exists k :: IsTopmost(sc.layers, e, k)
            && (!SameAsBelow(sc, e, sc.layers[k][e]) || AddedOrDeletedIn(sc, e)))
  }

  lemma EntryIsSaid(sc: Scan, j: nat)
    requires sc.Valid() && j < |sc.entries| && AllReadable(sc) && IsPlain(sc.entries[j])
    ensures SaysOf(sc, sc.List(), sc.entries[j])
  {
    hide Scan.OwnChange, Scan.Valid, SameAsBelow, Scan.Touched, AddedOrDeletedIn, Scan.ListAfter, IsNew;
    var e, n := sc.entries[j], |sc.entries|;
    EntryIsOrdinary(sc, j);
    OwnChangeIs(sc, e);
    TouchedIs(sc, e);
    if IsNew(sc.layers, e) {
      OwnIsIn(sc, n, j);
      forall k ensures !IsTopmost(sc.layers, e, k) {
        if IsTopmost(sc.layers, e, k) { FindIsTopmost(sc.layers, e, k); }
      }
      ModifyIsFounded(sc, e);
    } else {
      var k :| IsTopmost(sc.layers, e, k);
      OneTopmost(sc.layers, e, k);
      assert sc.layers[k][e].Stat?;
      AddIsOwn(sc, e);
      ModifyIsFounded(sc, e);
      if !SameAsBelow(sc, e, sc.layers[k][e]) {
        OwnIsIn(sc, n, j);
      } else if sc.Touched(n, e) {
        TouchedIsListed(sc, e);
      }
    }
  }

  lemma OneTopmost(layers: seq<Layer>, e: Path, k: int)
    requires IsTopmost(layers, e, k)
    ensures forall j | IsTopmost(layers, e, j) :: j == k
  {
  }

  /** Changes that are listed have a reason. */
  lemma ModifyIsFounded(sc: Scan, e: Path)
    requires sc.Valid() && sc.IsEntry(e)
    ensures Change(e, Modify) in sc.List() ==>
      sc.OwnChange(e) == Own(Change(e, Modify)) || (!sc.OwnChange(e).Own? && sc.Touched(|sc.entries|, e))
  {
    hide Scan.OwnChange, Scan.Touched, Scan.ListAfter;
    var c := Change(e, Modify);
    if c in sc.List() {
      EachIsFounded(sc, |sc.entries|, c);
      if i :| 0 <= i < |sc.entries| && sc.OwnChange(sc.entries[i]) == Own(c) {
        EntryIsOrdinary(sc, i);
        OwnPath(sc, sc.entries[i]);
      }
    }
  }

  lemma AddIsOwn(sc: Scan, e: Path)
    requires sc.Valid() && sc.IsEntry(e)
    ensures Change(e, Add) in sc.List() ==> sc.OwnChange(e) == Own(Change(e, Add))
  {
    hide Scan.OwnChange, Scan.Touched, Scan.ListAfter;
    var c := Change(e, Add);
    if c in sc.List() {
      EachIsFounded(sc, |sc.entries|, c);
      var i :| 0 <= i < |sc.entries| && sc.OwnChange(sc.entries[i]) == Own(c);
      EntryIsOrdinary(sc, i);
      OwnPath(sc, sc.entries[i]);
    }
  }

  lemma TouchedIsListed(sc: Scan, e: Path)
    requires sc.Valid() && sc.IsEntry(e) && !sc.OwnChange(e).Own? && sc.Touched(|sc.entries|, e)
    ensures Change(e, Modify) in sc.List()
  {
    hide Scan.OwnChange, Scan.Touched, Scan.ListAfter;
    var n := |sc.entries|;
    assert sc.entries[..n] == sc.entries;
    ListedExactly(sc, n, e);
    assert sc.List() == sc.ListAfter(n);
    var c :| c in sc.ListAfter(n) && c.path == e && !c.kind.Delete?;
    EachIsFounded(sc, n, c);
    if i :| 0 <= i < n && sc.OwnChange(sc.entries[i]) == Own(c) {
      EntryIsOrdinary(sc, i);
      OwnPath(sc, sc.entries[i]);
    }
    assert c == Change(e, Modify);
  }

  /** What the list says about every entry: files as above; a whiteout deletes what
      its name says, and nothing else is deleted. */
  lemma ListIsMeant(sc: Scan)
    requires sc.Valid() && AllReadable(sc)
    ensures forall e | e in sc.entries && IsPlain(e) :: SaysOf(sc, sc.List(), e)
    ensures forall d :: Change(d, Delete) in sc.List() <==>
      exists e :: e in sc.entries && Deletes(e, d)
  {
    hide Scan.OwnChange, Scan.Valid, SaysOf, Scan.ListAfter;
    forall e | e in sc.entries && IsPlain(e) ensures SaysOf(sc, sc.List(), e) {
      var j :| 0 <= j < |sc.entries| && sc.entries[j] == e;
      EntryIsSaid(sc, j);
    }
    forall d ensures Change(d, Delete) in sc.List() <==> exists e :: e in sc.entries && Deletes(e, d) {
      DeletionIsMeant(sc, d);
    }
  }

  /** A whiteout for d, which is no metadata. */
  predicate Deletes(e: Path, d: Path) {
    && e != [] && OrdinaryPath(e) && ".wh." <= Last(e) && !(|e| == 1 && ".wh..wh." <= e[0])
    && DeletedFile(e) == Some(d)
  }

  lemma DeletionIsMeant(sc: Scan, d: Path)
    requires sc.Valid()
    ensures Change(d, Delete) in sc.List() <==> exists e :: e in sc.entries && Deletes(e, d)
  {
    hide Scan.OwnChange, Scan.ListAfter, DeletedFile;
    var c := Change(d, Delete);
    if c in sc.List() {
      EachIsFounded(sc, |sc.entries|, c);
      var i :| 0 <= i < |sc.entries| && sc.OwnChange(sc.entries[i]) == Own(c);
      EntryIsOrdinary(sc, i);
      OwnChangeIs(sc, sc.entries[i]);
      PlainDeletesNothing(sc, sc.entries[i]);
      assert sc.entries[i] in sc.entries && Deletes(sc.entries[i], d);
    }
    if e :| e in sc.entries && Deletes(e, d) {
      var j :| 0 <= j < |sc.entries| && sc.entries[j] == e;
      OwnChangeIs(sc, e);
      OwnIsIn(sc, |sc.entries|, j);
    }
  }

  lemma PlainDeletesNothing(sc: Scan, e: Path)
    requires e != [] && OrdinaryPath(e)
    ensures IsPlain(e) && sc.OwnChange(e).Own? ==> !sc.OwnChange(e).change.kind.Delete?
  {
  }

  lemma UnknownIsUnreadable(sc: Scan)
    requires sc.Valid()
    ensures AllReadable(sc) <==> forall i | 0 <= i < |sc.entries| :: !sc.OwnChange(sc.entries[i]).Unknown?
  {
    hide Scan.OwnChange, SameAsBelow;
    forall e | e in sc.entries
      ensures sc.OwnChange(e).Unknown? <==>
        IsPlain(e) && exists k :: IsTopmost(sc.layers, e, k) && !sc.layers[k][e].Stat?
    {
      OwnChangeIs(sc, e);
      if k :| IsTopmost(sc.layers, e, k) { OneTopmost(sc.layers, e, k); }
    }
  }

  // ----- parents -----

  /** The remainder of a whiteout is the name of a file. */
  predicate IsProper(e: Path)
    requires e != []
  {
    IsWhiteoutName(Last(e)) ==> Ordinary(Last(e)[|WHITEOUT_PREFIX|..])
  }

  /** What a whiteout deletes if its remainder is no name: its own directory, or the
      directory above. */
  lemma OddWhiteoutDeletes(e: Path)
    requires e != [] && OrdinaryPath(e) && IsWhiteoutName(Last(e)) && !IsProper(e)
    ensures Last(e)[|WHITEOUT_PREFIX|..] in ["", ".", ".."]
    ensures DeletedFile(e) == Some(
      if Last(e)[|WHITEOUT_PREFIX|..] != ".." || Parent(e) == [] then Parent(e) else Parent(Parent(e)))
  {
    NameWithoutPrefix(e);
    var rest, dir := Last(e)[|WHITEOUT_PREFIX|..], Cleaned(true, 0, Parent(e));
    var up := if rest == ".." && dir.names != [] then dir.(names := Parent(dir.names)) else dir;
    assert [rest][0] == rest && [rest][1..] == [];
    assert OrdinaryPath(up.names) by {
      forall n | n in up.names ensures Ordinary(n) { assert n in dir.names; }
    }
    assert CleanParts(dir, [rest]) == CleanParts(up, []);
  }

  /** Entry i adds or deletes something, which is the change at k. */
  ghost predicate SaysAt(sc: Scan, i: nat, k: nat)
    requires sc.Valid()
  {
    i < |sc.entries| && k < |sc.List()| && sc.Adds(i) && sc.OwnChange(sc.entries[i]) == Own(sc.List()[k])
  }

  /** What is listed when entry i is about to be: directories with a change of their
      own that came before, and unchanged ones in which something was added or
      deleted so far. */
  ghost predicate ListedBefore(sc: Scan, i: nat, d: Path)
    requires sc.Valid() && i < |sc.entries|
  {
    ListedBy(sc, i, i + 1, d)
  }

  lemma {:induction false} ListIsPrefix(sc: Scan, n: nat)
    requires sc.Valid() && n <= |sc.entries|
    ensures sc.ListAfter(n) <= sc.List()
    decreases |sc.entries| - n
  {
    hide Scan.OwnChange, Scan.Valid, Scan.Turn;
    if n < |sc.entries| {
      ListIsPrefix(sc, n + 1);
      PrefixTransitive(sc.ListAfter(n), sc.ListAfter(n + 1), sc.List());
    }
  }

  /** The entry whose turn has appended the change at k. */
  lemma {:induction false} TurnAt(sc: Scan, n: nat, k: nat) returns (i: nat)
    requires sc.Valid() && n <= |sc.entries| && k < |sc.ListAfter(n)|
    ensures i < n && |sc.ListAfter(i)| <= k < |sc.ListAfter(i + 1)|
    decreases n
  {
    hide Scan.OwnChange, Scan.Valid, Scan.Turn;
    if k >= |sc.ListAfter(n - 1)| {
      i := n - 1;
    } else {
      i := TurnAt(sc, n - 1, k);
    }
  }

  lemma ListedIsMentioned(changes: seq<Change>, n: nat, d: Path)
    requires n <= |changes|
    ensures Listed(changes, n, d) <==> Mentions(changes[..n], d)
  {
    if Listed(changes, n, d) {
      var k :| 0 <= k < n && changes[k].path == d && !changes[k].kind.Delete?;
      assert changes[..n][k] == changes[k];
    }
  }

  /** What is listed before an addition or deletion. */
  lemma ListedUpTo(sc: Scan, k: nat) returns (i: nat)
    requires sc.Valid() && k < |sc.List()| && !sc.List()[k].kind.Modify?
    ensures SaysAt(sc, i, k) && forall d :: Listed(sc.List(), k, d) <==> ListedBefore(sc, i, d)
  {
    hide Scan.OwnChange, Scan.Valid, Scan.Turn, ListedBy, Mentions, Listed, Scan.Touched;
    i := TurnAt(sc, |sc.entries|, k);
    var s, t := sc.ListAfter(i), sc.Turn(i);
    ListIsPrefix(sc, i + 1);
    assert sc.List()[k] == (s + t)[k] == t[k - |s|];
    LastOfTurn(sc, i, k - |s|);
    assert sc.List()[..k] == s + t[..|t| - 1];
    forall d ensures Listed(sc.List(), k, d) <==> ListedBefore(sc, i, d) {
      ListedIsMentioned(sc.List(), k, d);
      ListedExactly(sc, i, d);
      MentionsEither(s, t[..|t| - 1], d);
      ParentTurn(sc, i, d);
    }
  }

  /** What a turn adds or deletes comes last in it. */
  lemma LastOfTurn(sc: Scan, i: nat, k: nat)
    requires sc.Valid() && i < |sc.entries| && k < |sc.Turn(i)| && !sc.Turn(i)[k].kind.Modify?
    ensures k == |sc.Turn(i)| - 1 && sc.Adds(i) && sc.OwnChange(sc.entries[i]) == Own(sc.Turn(i)[k])
  {
    hide Scan.OwnChange, Scan.Valid;
    EntryIsOrdinary(sc, i);
  }

  /** The first part of a turn lists the directory of the entry. */
  lemma ParentTurn(sc: Scan, i: nat, d: Path)
    requires sc.Valid() && i < |sc.entries| && sc.Adds(i)
    ensures var t := sc.Turn(i);
      t != [] && (ListedBefore(sc, i, d) <==> ListedBy(sc, i, i, d) || Mentions(t[..|t| - 1], d))
  {
    hide Scan.OwnChange;
    var e, t := sc.entries[i], sc.Turn(i);
    ParentCameFirst(sc, i);
    TouchedMore(sc, i, d);
    if |t| == 2 {
      assert t[..1] == [Change(Parent(e), Modify)];
      assert Change(Parent(e), Modify) in t[..1];
    } else {
      assert t[..|t| - 1] == [];
    }
  }

  /** The parent of what was added or deleted, on every walk.  If the entry is no
      whiteout, or one whose remainder is a name, the parent is listed before
      exactly if it is not itself taken for a whiteout.  An odd whiteout deletes a
      directory, whose parent is listed before exactly if it has a change of its own
      or something was added to it or deleted from it so far. */
  lemma ParentsAreListed(sc: Scan, k: nat) returns (i: nat)
    requires sc.Valid() && k < |sc.List()| && !sc.List()[k].kind.Modify?
    ensures SaysAt(sc, i, k)
    ensures IsProper(sc.entries[i]) ==> sc.List()[k].path != [] && Parent(sc.List()[k].path) == Parent(sc.entries[i])
    ensures var p := sc.List()[k].path;
      p != [] && Parent(p) != [] ==>
        (Listed(sc.List(), k, Parent(p)) <==>
          if IsProper(sc.entries[i]) then !sc.WhiteoutDir(Parent(p)) else ListedBefore(sc, i, Parent(p)))
  {
    i := ListedUpTo(sc, k);
    var e, c := sc.entries[i], sc.List()[k];
    OwnPath(sc, e);
    if IsProper(e) {
      if c.kind.Delete? {
        DeletedIsSibling(e);
        ParentOf(Parent(e), Last(e)[|WHITEOUT_PREFIX|..]);
      }
      if Parent(e) != [] { DirectoryIsListed(sc, i); }
    }
  }

  lemma DirectoryIsListed(sc: Scan, i: nat)
    requires sc.Valid() && i < |sc.entries| && sc.Adds(i) && Parent(sc.entries[i]) != []
    ensures ListedBefore(sc, i, Parent(sc.entries[i])) <==> !sc.WhiteoutDir(Parent(sc.entries[i]))
  {
    hide Scan.OwnChange;
    var d := Parent(sc.entries[i]);
    ParentCameFirst(sc, i);
    TouchedMore(sc, i, d);
    WhiteoutIsOwn(sc, d);
    if sc.OwnChange(d).Own? { OwnPath(sc, d); }
  }

  lemma WhiteoutIsOwn(sc: Scan, e: Path)
    requires e != [] && OrdinaryPath(e)
    ensures IsWhiteoutName(Last(e)) && !MetadataSkip(e) ==> sc.OwnChange(e).Own? && sc.OwnChange(e).change.kind.Delete?
  {
  }

  // ----- an odd whiteout -----

  const ODD_DIR := Inode(Dir, IMPLIED_DIRECTORY_MODE, 0, 0, MIN_TIME, "", false, 0)
  const ODD_FILE := Inode(Reg(""), IMPLIED_DIRECTORY_MODE, 0, 0, MIN_TIME, "", false, 0)

  /** A file /a/b/.wh. in a layer over unchanged directories /a and /a/b. */
  const ODD_TREE := Tree(
    map[[] := 0, ["a"] := 1, ["a", "b"] := 2, ["a", "b", ".wh."] := 3],
    map[0 := ODD_DIR, 1 := ODD_DIR, 2 := ODD_DIR, 3 := ODD_FILE], 4, MIN_TIME)

  const ODD_SCAN := Scan(
    [map[["a"] := Stat(ODD_DIR, 0), ["a", "b"] := Stat(ODD_DIR, 0)]],
    ODD_TREE, (p: Path) => 0, [["a"], ["a", "b"], ["a", "b", ".wh."]])

  lemma OddTreeIsValid()
    ensures ODD_TREE.Valid()
  {
    OddTreeIsNested();
    var t := ODD_TREE;
    assert forall p | p in t.names :: t.names[p] <= 3;
  }

  lemma OddTreeIsNested()
    ensures ODD_TREE.Nested()
  {
    var t, a, b, w := ODD_TREE, ["a"], ["a", "b"], ["a", "b", ".wh."];
    assert Parent(a) == [] && Parent(b) == a && Parent(w) == b;
    assert Ordinary("a") && Ordinary("b") && Ordinary(".wh.");
    forall p | p in t.names && p != [] ensures t.IsDir(Parent(p)) && Ordinary(Last(p)) {
      assert p == a || p == b || p == w;
    }
  }

  lemma OddScanIsValid()
    ensures ODD_SCAN.Valid()
  {
    OddTreeIsValid();
    var sc, a, b, w := ODD_SCAN, ["a"], ["a", "b"], ["a", "b", ".wh."];
    assert sc.entries[0] == a && sc.entries[1] == b && sc.entries[2] == w;
    assert Ordinary("a") && Ordinary("b") && Ordinary(".wh.");
    forall p ensures p in sc.entries <==> p in sc.rw.names && p != [] {
      assert p in sc.entries <==> p == a || p == b || p == w;
    }
  }

  lemma OddChanges()
    requires ODD_SCAN.Valid()
    ensures ODD_SCAN.OwnChange(["a"]).Same? && ODD_SCAN.OwnChange(["a", "b"]).Same?
    ensures ODD_SCAN.OwnChange(["a", "b", ".wh."]) == Own(Change(["a", "b"], Delete))
  {
    var w := ["a", "b", ".wh."];
    assert ODD_SCAN.entries[0] == ["a"] && ODD_SCAN.entries[1] == ["a", "b"] && ODD_SCAN.entries[2] == w;
    assert !IsWhiteoutName("a") && !IsWhiteoutName("b") && IsWhiteoutName(".wh.");
    assert Last(w)[|WHITEOUT_PREFIX|..] == "" && !IsProper(w);
    OddWhiteoutDeletes(w);
  }

  /** The directory /a/b is deleted without /a being listed. */
  lemma OddWhiteoutFails()
    ensures ODD_SCAN.Valid()
    ensures ODD_SCAN.List() == [Change(["a", "b"], Modify), Change(["a", "b"], Delete)]
    ensures !Listed(ODD_SCAN.List(), 1, ["a"]) && !ODD_SCAN.WhiteoutDir(["a"])
  {
    OddScanIsValid();
    OddChanges();
    hide Scan.OwnChange, Scan.Valid;
    var sc, a, b, w := ODD_SCAN, ["a"], ["a", "b"], ["a", "b", ".wh."];
    assert sc.entries[0] == a && sc.entries[1] == b && sc.entries[2] == w && |sc.entries| == 3;
    assert Parent(a) == [] && Parent(b) == a && Parent(w) == b && a != b;
    assert sc.IsEntry(b);
    assert sc.Turn(0) == [] && sc.Turn(1) == [];
    assert !sc.Touched(2, b);
    assert sc.Turn(2) == [Change(b, Modify), Change(b, Delete)];
    assert sc.ListAfter(0) == [] && sc.ListAfter(1) == sc.ListAfter(0) + sc.Turn(0);
    assert sc.ListAfter(2) == sc.ListAfter(1) + sc.Turn(1) && sc.ListAfter(3) == sc.ListAfter(2) + sc.Turn(2);
  }
}
