/** The operations of `os.Root` on a tree, and the two resolution decisions of
    archive.go that are made before them.

    Every operation locates its path first: the parent is followed the way
    `os.Root` follows it, the last component is taken as it is. */
module RootFs {
  import opened Names
  import opened Errors
  import opened Trees
  import opened Resolver

  /** An operation may fail after it has changed the tree. */
  datatype Done = Fine(tree: Tree) | Bad(tree: Tree, error: Error)
  {
    predicate IsFailure() {
      Bad?
    }

    function PropagateFailure(): Done
      requires Bad?
    {
      this
    }

    function Extract(): Tree
      requires Fine?
    {
      tree
    }
  }

  function EntryOf(t: Tree, p: Path): Entry
    requires p in t.names
  {
    if t.names[p] !in t.inodes then Fault
    else match t.inodes[t.names[p]].kind
      case Dir => Directory
      case Symlink(target) => Link(target)
      case _ => File
  }

  function View(t: Tree): (g: Graph)
    ensures g.Keys == t.names.Keys
    ensures forall p | p in g :: g[p] == EntryOf(t, p)
  {
    map p | p in t.names :: EntryOf(t, p)
  }

  // ----- lookups -----

  /** The place of a path: its parent followed, its last component kept. */
  function Locate(t: Tree, path: Path): Lookup<Path> {
    if path == [] then Found([])
    else
      match Walk(View(t), OS_ROOT, START, Parent(path), true)
      case Err(e) => Missing(e)
      case Ok(s) => Found(s.at + [Last(path)])
  }

  function Lstat(t: Tree, path: Path): Lookup<Inode> {
    match Locate(t, path)
    case Missing(e) => Missing(e)
    case Found(loc) => if t.Has(loc) then Found(t.At(loc)) else Missing(NotExist)
  }

  /** The place of a path whose last component is followed as well. */
  function Follow(t: Tree, path: Path): Lookup<Path> {
    match Walk(View(t), OS_ROOT, START, path, false)
    case Err(e) => Missing(e)
    case Ok(s) => if t.Has(s.at) then Found(s.at) else Missing(NotExist)
  }

  // ----- changes at a place -----

  function Touch(t: Tree, loc: Path): Tree {
    if loc != [] && t.Has(Parent(loc)) then SetInode(t, Parent(loc), t.At(Parent(loc)).(mtime := t.now))
    else t
  }

  function SetInode(t: Tree, loc: Path, node: Inode): Tree
    requires loc in t.names
  {
    t.(inodes := t.inodes[t.names[loc] := node])
  }

  function Fresh(t: Tree, kind: Kind, perm: Perm): Inode {
    Inode(kind, perm, 0, 0, t.now, "", false, 0)
  }

  function CreateAt(t: Tree, loc: Path, kind: Kind, perm: Perm): Tree {
    Touch(Tree(t.names[loc := t.next], t.inodes[t.next := Fresh(t, kind, perm)], t.next + 1, t.now), loc)
  }

  function Without(names: map<Path, Ino>, loc: Path): (r: map<Path, Ino>)
    ensures forall p :: p in r <==> p in names && !(loc <= p)
    ensures forall p | p in r :: r[p] == names[p]
  {
    map p | p in names && !(loc <= p) :: names[p]
  }

  function RemoveAt(t: Tree, loc: Path): Tree {
    if loc in t.names then Touch(t.(names := Without(t.names, loc)), loc) else t
  }

  // ----- the operations -----

  function RemoveAll(t: Tree, path: Path): Done {
    if path == [] then Bad(t, Invalid)
    else
      match Locate(t, path)
      case Missing(e) => if e.NotExist? then Fine(t) else Bad(t, e)
      case Found(loc) => Fine(RemoveAt(t, loc))
  }

  /** mkdir, mknod and symlink: the last component must not exist. */
  function Create(t: Tree, path: Path, kind: Kind, perm: Perm): Done {
    match Locate(t, path)
    case Missing(e) => Bad(t, e)
    case Found(loc) => if loc in t.names then Bad(t, Exists) else Fine(CreateAt(t, loc, kind, perm))
  }

  /** open(2) with O_CREAT|O_WRONLY|O_TRUNC, followed by writing all of `data`.
      An existing file is written in place, so every name of its inode sees the
      new bytes.  A last component that is a link or a special file is an error
      here; no caller gets there. */
  function WriteFile(t: Tree, path: Path, data: string, perm: Perm): Done {
    match Locate(t, path)
    case Missing(e) => Bad(t, e)
    case Found(loc) =>
      if loc !in t.names then Fine(CreateAt(t, loc, Reg(data), perm))
      else if !t.Has(loc) then Bad(t, Failed)
      else match t.At(loc).kind
        case Reg(_) => Fine(SetInode(t, loc, t.At(loc).(kind := Reg(data), mtime := t.now)))
        case Dir => Bad(t, IsDirectory)
        case _ => Bad(t, Failed)
  }

  function LinkTo(t: Tree, target: Path, path: Path): Done {
    match Locate(t, target)
    case Missing(e) => Bad(t, e)
    case Found(source) =>
      if !t.Has(source) then Bad(t, NotExist)
      else if t.At(source).kind.Dir? then Bad(t, NotPermitted)
      else match Locate(t, path)
        case Missing(e) => Bad(t, e)
        case Found(loc) =>
          if loc in t.names then Bad(t, Exists)
          else Fine(Touch(t.(names := t.names[loc := t.names[source]]), loc))
  }

  /** chown(2) drops file capabilities; a directory keeps its own. */
  function Lchown(t: Tree, path: Path, uid: int, gid: int): Done {
    match Locate(t, path)
    case Missing(e) => Bad(t, e)
    case Found(loc) =>
      if !t.Has(loc) then Bad(t, NotExist)
      else
        var node := t.At(loc);
        Fine(SetInode(t, loc, node.(uid := uid, gid := gid, caps := if node.kind.Dir? then node.caps else "")))
  }

  function Chmod(t: Tree, path: Path, perm: Perm): Done {
    match Locate(t, path)
    case Missing(e) => Bad(t, e)
    case Found(loc) =>
      if !t.Has(loc) then Bad(t, NotExist)
      else if t.At(loc).kind.Symlink? then Bad(t, Failed)
      else Fine(SetInode(t, loc, t.At(loc).(perm := perm)))
  }

  /** lsetxattr on the path that `fsRootPath` returns; the last component has
      been followed by then. */
  function SetCaps(t: Tree, path: Path, caps: string): Done {
    match Resolve(View(t), path)
    case Failure(e) => Bad(t, e)
    case Success(loc, _, _) =>
      if !t.Has(loc) then Bad(t, NotExist)
      else Fine(SetInode(t, loc, t.At(loc).(caps := caps)))
  }

  function Chtimes(t: Tree, path: Path, mtime: Time): Done {
    match Follow(t, path)
    case Missing(e) => Bad(t, e)
    case Found(loc) => if t.Has(loc) then Fine(SetInode(t, loc, t.At(loc).(mtime := mtime))) else Bad(t, NotExist)
  }

  function Lchtimes(t: Tree, path: Path, mtime: Time): Done {
    match Locate(t, path)
    case Missing(e) => Bad(t, e)
    case Found(loc) =>
      if !t.Has(loc) then Bad(t, NotExist)
      else Fine(SetInode(t, loc, t.At(loc).(mtime := mtime)))
  }

  // ----- where an entry is written -----

  lemma ParentIsOrdinary(p: Path)
    requires p != [] && OrdinaryPath(p)
    ensures OrdinaryPath(Parent(p)) && Ordinary(Last(p))
    ensures forall n | n in Parent(p) :: '/' !in n
  {
  }

  datatype ArchivePath = ArchivePath(path: Path, parentWasPresent: bool)

  /** resolveArchivePath. */
  function ResolveArchivePath(t: Tree, name: Path): (r: Lookup<ArchivePath>)
    requires name != [] && OrdinaryPath(name)
    ensures r.Found? ==> r.value.path != [] && OrdinaryPath(r.value.path) && Last(r.value.path) == Last(name)
  {
    ParentIsOrdinary(name);
    WalkResolves(View(t), CHROOT, START, Parent(name), false);
    if |name| == 1 then Found(ArchivePath(name, true))
    else
      match Follow(t, Parent(name))
      case Found(_) => Found(ArchivePath(name, true))
      case Missing(e) =>
        if !e.NotExist? && !IsPathEscapes(e) then Missing(e)
        else
          match Resolve(View(t), Parent(name))
          case Failure(e') => Missing(e')
          case Success(p, followedAbsolute, relativeEscape) =>
            if IsPathEscapes(e) && (!followedAbsolute || relativeEscape) then Missing(e)
            else Found(ArchivePath(p + [Last(name)], false))
  }

  /** resolveHardlinkTarget. */
  function ResolveHardlinkTarget(t: Tree, linkname: string): (r: Lookup<Path>)
    ensures r.Found? ==> r.value != [] && OrdinaryPath(r.value)
  {
    var cleaned := if Clean(linkname).rooted then Clean(TrimLeftSlashes(linkname)) else Clean(linkname);
    if !cleaned.Inside() || cleaned.names == [] then Missing(InvalidLinkTarget)
    else
      match ResolveArchivePath(t, cleaned.names)
      case Missing(e) => Missing(e)
      case Found(a) => Found(a.path)
  }

  /** Both branches of resolveArchivePath mean one place: whenever `os.Root` can
      locate the returned path at all, it is the last component of the name in
      the directory to which the chroot-like resolver takes the parent. */
  lemma ArchivePathIsChrooted(t: Tree, name: Path)
    requires name != [] && OrdinaryPath(name)
    ensures var a, r := ResolveArchivePath(t, name), Resolve(View(t), Parent(name));
      a.Found? ==>
        && r.Success?
        && (a.value.parentWasPresent ==> a.value.path == name && !r.followedAbsolute && !r.relativeEscape)
        && (!a.value.parentWasPresent ==> a.value.path == r.path + [Last(name)])
        && (Locate(t, a.value.path).Found? ==> Locate(t, a.value.path) == Found(r.path + [Last(name)]))
  {
    var g := View(t);
    var parent := Parent(name);
    WalkRefines(g, START, parent, false);
    ParentIsOrdinary(name);
    if |name| == 1 {
      assert parent == [];
    } else {
      match ResolveArchivePath(t, name)
      case Missing(_) =>
      case Found(a) =>
        if a.parentWasPresent {
          WalkMore(g, OS_ROOT, START, parent);
        } else {
          var p := Resolve(g, parent).path;
          WalkResolves(g, CHROOT, START, parent, false);
          ParentOf(p, Last(name));
          assert [] + p == p;
          LocateResolved(g, p);
        }
    }
  }

  /** A walk to a place that is entered afterwards is the same walk. */
  lemma {:induction false} WalkMore(g: Graph, pol: Policy, s: State, parts: seq<string>)
    requires s.links <= pol.budget
    ensures Walk(g, pol, s, parts, true).Ok? ==> Walk(g, pol, s, parts, false) == Walk(g, pol, s, parts, true)
    decreases pol.budget - s.links, |parts|
  {
    if parts != [] {
      var candidate := s.at + [parts[0]];
      if |parts| == 1 && parts[0] !in ["", ".", ".."] && candidate in g && g[candidate].Link?
        && s.links < pol.budget
      {
        WalkMore(g, pol, Enter(s, g[candidate].target), Split(g[candidate].target));
      }
      match Step(g, pol, s, parts[0], true)
      case Err(_) =>
      case Ok(s') => WalkMore(g, pol, s', parts[1..]);
    }
  }

  /** `os.Root` enters a resolved path exactly when all of it exists. */
  lemma {:induction false} EnterResolved(g: Graph, s: State, p: Path)
    requires s.links <= OS_ROOT.budget && Resolved(g, s.at + p)
    ensures var o := Walk(g, OS_ROOT, s, p, true); o.Ok? ==> o == Ok(s.(at := s.at + p))
    decreases |p|
  {
    if p == [] {
      assert s.at + p == s.at;
    } else {
      var candidate := s.at + [p[0]];
      assert candidate + p[1..] == s.at + p;
      assert candidate <= s.at + p;
      assert p[0] in s.at + p;
      assert Ordinary(p[0]);
      if candidate in g && g[candidate].Directory? {
        EnterResolved(g, s.(at := candidate), p[1..]);
      }
    }
  }

  lemma LocateResolved(g: Graph, p: Path)
    requires Resolved(g, p)
    ensures var o := Walk(g, OS_ROOT, START, p, true); o.Ok? ==> o.state.at == p
  {
    assert [] + p == p;
    EnterResolved(g, START, p);
  }

  /** An escape is refused exactly when the first one on the way is a relative
      one: a leading absolute link bends the path back into the root. */
  lemma RefusalIsFirstRelativeEscape(t: Tree, name: Path)
    requires |name| > 1 && OrdinaryPath(name)
    requires Resolve(View(t), Parent(name)).Success?
    ensures var stat := Walk(View(t), OS_ROOT, START, Parent(name), false);
      (exists e :: IsPathEscapes(e) && ResolveArchivePath(t, name) == Missing(e)) <==> stat == Err(EscapesByDotDot)
  {
    WalkRefines(View(t), START, Parent(name), false);
    var stat := Walk(View(t), OS_ROOT, START, Parent(name), false);
    if stat == Err(EscapesByDotDot) {
      assert ResolveArchivePath(t, name) == Missing(EscapesByDotDot);
    }
  }
}
