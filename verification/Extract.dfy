/** What extracting entries does to a tree, as functions: the specification of
    the methods in Unpack.dfy. */
module Extract {
  import opened Names
  import opened Errors
  import opened Trees
  import opened Headers
  import opened Resolver
  import opened RootFs

  // ----- directories that an entry implies -----

  /** Makes the directories of `rest` one below the other, from `cur` on. */
  function MakeAll(t: Tree, cur: Path, rest: Path): Done
    decreases |rest|
  {
    if rest == [] then Fine(t)
    else
      var next := cur + [rest[0]];
      match Create(t, next, Dir, IMPLIED_DIRECTORY_MODE)
      case Fine(t') => MakeAll(t', next, rest[1..])
      case Bad(_, e) =>
        if !e.Exists? then Bad(t, e)
        else match Follow(t, next)
          case Missing(e') => Bad(t, e')
          case Found(loc) => if t.IsDir(loc) then MakeAll(t, next, rest[1..]) else Bad(t, NotDirectory)
  }

  /** createImpliedDirectories. */
  function CreateImplied(t: Tree, a: ArchivePath): Done
    requires a.path != []
  {
    var parent := Parent(a.path);
    if parent == [] || a.parentWasPresent then Fine(t)
    else
      match Lstat(t, parent)
      case Found(_) => Fine(t)
      case Missing(e) => if e.NotExist? then MakeAll(t, [], parent) else Bad(t, e)
  }

  // ----- one file -----

  predicate IsSymlink(l: Lookup<Inode>) {
    l.Found? && l.value.kind.Symlink?
  }

  /** The node itself, before ownership, attributes, mode and times. */
  function MakeNode(t: Tree, dst: Path, hdr: Header, target: Path): Done {
    match hdr.typeflag
    case TypeDir =>
      var fi := Lstat(t, dst);
      if fi.Found? && fi.value.kind.Dir? then Fine(t) else Create(t, dst, Dir, hdr.perm)
    case TypeReg => WriteFile(t, dst, hdr.data, hdr.perm)
    case TypeBlock =>
      if DeviceInRange(hdr) then Create(t, dst, Block(hdr.devmajor, hdr.devminor), hdr.perm)
      else Bad(t, DeviceOutOfRange)
    case TypeChar =>
      if DeviceInRange(hdr) then Create(t, dst, Char(hdr.devmajor, hdr.devminor), hdr.perm)
      else Bad(t, DeviceOutOfRange)
    case TypeFifo => if DeviceInRange(hdr) then Create(t, dst, Fifo, hdr.perm) else Bad(t, DeviceOutOfRange)
    case TypeLink => LinkTo(t, target, dst)
    case TypeSymlink => Create(t, dst, Symlink(hdr.linkname), SYMLINK_PERM)
    case TypeXGlobalHeader => Fine(t)
    case TypeOther => Bad(t, UnhandledType)
  }

  function ApplyCaps(t: Tree, dst: Path, hdr: Header): Done {
    if hdr.caps == "" then Fine(t) else SetCaps(t, dst, hdr.caps)
  }

  /** handleLChmod. */
  function ApplyMode(t: Tree, dst: Path, hdr: Header, target: Path): Done {
    if hdr.typeflag.TypeSymlink? then Fine(t)
    else if hdr.typeflag.TypeLink? && (Lstat(t, target).Missing? || IsSymlink(Lstat(t, target))) then Fine(t)
    else Chmod(t, dst, hdr.perm)
  }

  function ApplyTimes(t: Tree, dst: Path, hdr: Header, target: Path): Done {
    var mtime := BoundTime(hdr.modTime);
    if hdr.typeflag.TypeSymlink? then Lchtimes(t, dst, mtime)
    else if hdr.typeflag.TypeLink? && (Lstat(t, target).Missing? || IsSymlink(Lstat(t, target))) then Fine(t)
    else Chtimes(t, dst, mtime)
  }

  function ApplyMetadata(t: Tree, dst: Path, hdr: Header, target: Path): Done {
    var t1 :- Lchown(t, dst, hdr.uid, hdr.gid);
    var t2 :- ApplyCaps(t1, dst, hdr);
    var t3 :- ApplyMode(t2, dst, hdr, target);
    ApplyTimes(t3, dst, hdr, target)
  }

  /** createTarFile, with ownership applied and no ID map. */
  function CreateTarFile(t: Tree, dst: Path, hdr: Header): Done {
    var target := if hdr.typeflag.TypeLink? then ResolveHardlinkTarget(t, hdr.linkname) else Found([]);
    match target
    case Missing(e) => Bad(t, e)
    case Found(target) =>
      var t1 :- MakeNode(t, dst, hdr, target);
      if hdr.typeflag.TypeXGlobalHeader? then Fine(t1) else ApplyMetadata(t1, dst, hdr, target)
  }

  // ----- opaque whiteouts -----

  /** Takes the paths of `gone` out of the tree; the directories that lose an
      entry by that are stamped. */
  ghost function Prune(t: Tree, gone: set<Path>): Tree {
    t.(names := map p | p in t.names && p !in gone :: t.names[p],
       inodes := map i | i in t.inodes ::
         if LosesEntry(t, gone, i) then t.inodes[i].(mtime := t.now) else t.inodes[i])
  }

  ghost predicate LosesEntry(t: Tree, gone: set<Path>, i: Ino) {
    exists p :: LeavesParent(t, gone, p, i)
  }

  /** The path p is taken out of the directory with inode i, which stays. */
  ghost predicate LeavesParent(t: Tree, gone: set<Path>, p: Path, i: Ino) {
    && p in gone && p in t.names && p != []
    && Parent(p) !in gone && Parent(p) in t.names && t.names[Parent(p)] == i
  }

  /** A path below `dir` is kept if it and all its ancestors below `dir` are in
      `unpacked`. */
  predicate Kept(dir: Path, unpacked: set<Path>, p: Path)
    requires |dir| <= |p|
  {
    forall k | |dir| < k <= |p| :: p[..k] in unpacked
  }

  ghost function Unlisted(t: Tree, dir: Path, unpacked: set<Path>): set<Path> {
    set p | p in t.names && Below(dir, p) && !Kept(dir, unpacked, p)
  }

  ghost function Sweep(t: Tree, dir: Path, unpacked: set<Path>): Tree {
    Prune(t, Unlisted(t, dir, unpacked))
  }

  /** The walk over the directory that an opaque whiteout names. */
  ghost function ApplyOpaque(t: Tree, dir: Path, unpacked: set<Path>): Done {
    match Lstat(t, dir)
    case Missing(e) => Bad(t, e)
    case Found(_) =>
      match Resolve(View(t), dir)
      case Failure(e) => Bad(t, e)
      case Success(p, _, _) => Fine(if t.IsDir(p) then Sweep(t, p, unpacked) else t)
  }

  // ----- layers -----

  datatype UnpackedDir = UnpackedDir(name: Path, mtime: Time)

  datatype LayerState = LayerState(tree: Tree, dirs: seq<UnpackedDir>, unpacked: set<Path>)

  datatype Progress = Going(state: LayerState) | Stopped(state: LayerState, error: Error)

  function EntryName(hdr: Header): Cleaned {
    Clean(TrimLeftSlashes(hdr.name))
  }

  /** `filepath.Join(dir, base)` for a base without separators. */
  function JoinClean(dir: Path, base: string): Cleaned
    requires OrdinaryPath(dir) && '/' !in base
  {
    CleanParts(Cleaned(false, 0, dir), [base])
  }

  /** The path that a plain whiteout removes. */
  function RemoveJoined(t: Tree, c: Cleaned): Done {
    if c.ups > 0 then Bad(t, EscapesByDotDot) else RemoveAll(t, c.names)
  }

  ghost function ApplyWhiteout(s: LayerState, t: Tree, dst: Path): Progress
    requires dst != [] && OrdinaryPath(dst) && IsWhiteoutName(Last(dst))
  {
    ParentIsOrdinary(dst);
    var dir, base := Parent(dst), Last(dst);
    var done :=
      if base == WHITEOUT_OPAQUE_DIR then ApplyOpaque(t, dir, s.unpacked)
      else RemoveJoined(t, JoinClean(dir, base[|WHITEOUT_PREFIX|..]));
    match done
    case Bad(t', e) => Stopped(s.(tree := t'), e)
    case Fine(t') => Going(s.(tree := t'))
  }

  /** An existing target is removed, unless a directory meets a directory. */
  function MakeRoom(t: Tree, dst: Path, hdr: Header): Done {
    match Lstat(t, dst)
    case Missing(_) => Fine(t)
    case Found(fi) => if !fi.kind.Dir? || !hdr.typeflag.TypeDir? then RemoveAll(t, dst) else Fine(t)
  }

  predicate LinksIntoAufs(hdr: Header) {
    hdr.typeflag.TypeLink? && !Clean(hdr.linkname).rooted && Clean(hdr.linkname).ups == 0
    && Clean(hdr.linkname).names != [] && HasPrefix(Clean(hdr.linkname).names[0], WHITEOUT_LINK_DIR)
  }

  ghost function ApplyFile(s: LayerState, t: Tree, dst: Path, hdr: Header): Progress {
    match MakeRoom(t, dst, hdr)
    case Bad(t', e) => Stopped(s.(tree := t'), e)
    case Fine(t1) =>
      if LinksIntoAufs(hdr) then Stopped(s.(tree := t1), InvalidAufsHardlink)
      else
        match CreateTarFile(t1, dst, hdr)
        case Bad(t', e) => Stopped(s.(tree := t'), e)
        case Fine(t2) =>
          Going(LayerState(t2,
            if hdr.typeflag.TypeDir? then s.dirs + [UnpackedDir(dst, BoundTime(hdr.modTime))] else s.dirs,
            s.unpacked + {dst}))
  }

  predicate IsMetadata(name: Path)
    requires name != []
  {
    HasPrefix(name[0], WHITEOUT_META_PREFIX) && name != [WHITEOUT_OPAQUE_DIR]
  }

  /** One turn of the entry loop of UnpackLayer. */
  ghost function ApplyEntry(s: LayerState, hdr: Header): Progress {
    var name := EntryName(hdr);
    if name.Inside() && name.names == [] then Going(s)
    else if !name.Inside() then Stopped(s, InvalidEntryName)
    else if IsMetadata(name.names) then Going(s)
    else
      match ResolveArchivePath(s.tree, name.names)
      case Missing(e) => Stopped(s, e)
      case Found(a) =>
        match CreateImplied(s.tree, a)
        case Bad(t, e) => Stopped(s.(tree := t), e)
        case Fine(t) =>
          if IsWhiteoutName(Last(a.path)) then ApplyWhiteout(s, t, a.path)
          else ApplyFile(s, t, a.path, hdr)
  }

  ghost function ApplyEntries(s: LayerState, layer: seq<Header>): Progress
    decreases |layer|
  {
    if layer == [] then Going(s)
    else
      match ApplyEntries(s, layer[..|layer| - 1])
      case Stopped(s', e) => Stopped(s', e)
      case Going(s') => ApplyEntry(s', layer[|layer| - 1])
  }

  /** The times of directories, set after everything else. */
  function ApplyDirTimes(t: Tree, dirs: seq<UnpackedDir>): Done
    decreases |dirs|
  {
    if dirs == [] then Fine(t)
    else
      var t' :- ApplyDirTimes(t, dirs[..|dirs| - 1]);
      var d := dirs[|dirs| - 1];
      Chtimes(t', d.name, d.mtime)
  }

  function NewLayer(t: Tree): LayerState {
    LayerState(t, [], {})
  }

  /** UnpackLayer on a whole layer. */
  ghost function ApplyLayer(t: Tree, layer: seq<Header>): Done {
    match ApplyEntries(NewLayer(t), layer)
    case Stopped(s, e) => Bad(s.tree, e)
    case Going(s) => ApplyDirTimes(s.tree, s.dirs)
  }

  // ----- archives -----

  /** `overlay`: whiteouts are converted to the form of an overlay file system.
      `keepKinds`: a directory must not replace or be replaced by anything else. */
  datatype Options = Options(overlay: bool, keepKinds: bool)

  /** The part of Unpack that removes what is at the target. */
  function ReplaceTarget(opts: Options, t: Tree, dst: Path, hdr: Header): Done {
    var fi := Lstat(t, dst);
    if opts.keepKinds && fi.Found? && fi.value.kind.Dir? != hdr.typeflag.TypeDir? then Bad(t, CannotOverwrite)
    else MakeRoom(t, dst, hdr)
  }

  datatype Read = WriteIt | Handled(done: Done)

  /** ConvertRead. */
  function ConvertRead(t: Tree, dst: Path, hdr: Header): Read
    requires dst != []
  {
    var dir, base := Parent(dst), Last(dst);
    if base in [WHITEOUT_PREFIX, WHITEOUT_PREFIX + ".", WHITEOUT_PREFIX + ".."] then Handled(Bad(t, InvalidWhiteout))
    else if base == WHITEOUT_OPAQUE_DIR then Handled(SetOpaque(t, dir))
    else if IsWhiteoutName(base) then Handled(MakeWhiteout(t, dir, base[|WHITEOUT_PREFIX|..], hdr))
    else WriteIt
  }

  function SetOpaque(t: Tree, dir: Path): Done {
    match Follow(t, dir)
    case Missing(e) => Bad(t, e)
    case Found(loc) =>
      if !t.Has(loc) || !(t.At(loc).kind.Dir? || t.At(loc).kind.Reg?) then Bad(t, Failed)
      else Fine(SetInode(t, loc, t.At(loc).(hidesLower := true)))
  }

  function MakeWhiteout(t: Tree, dir: Path, name: Name, hdr: Header): Done {
    match Follow(t, dir)
    case Missing(e) => Bad(t, e)
    case Found(d) =>
      var loc := d + [name];
      if !t.IsDir(d) then Bad(t, NotDirectory)
      else if loc in t.names then Bad(t, Exists)
      else
        var t' := CreateAt(t, loc, Char(0, 0), 0);
        if (hdr.uid == 0 && hdr.gid == 0) || !t'.Has(loc) then Fine(t')
        else Fine(SetInode(t', loc, t'.At(loc).(uid := hdr.uid, gid := hdr.gid)))
  }

  /** One entry of Unpack at its place: unlike in a layer, the target is removed
      before the directories on the way to it are made. */
  function UntarAt(opts: Options, t: Tree, a: ArchivePath, hdr: Header): Done
    requires a.path != []
  {
    var t1 :- ReplaceTarget(opts, t, a.path, hdr);
    var t2 :- CreateImplied(t1, a);
    if opts.overlay && ConvertRead(t2, a.path, hdr).Handled? then ConvertRead(t2, a.path, hdr).done
    else CreateTarFile(t2, a.path, hdr)
  }

  datatype UntarState = UntarState(tree: Tree, dirs: seq<UnpackedDir>)

  datatype UntarProgress = Continues(state: UntarState) | Fails(tree: Tree, error: Error)
  {
    function Tree(): Tree {
      if Continues? then state.tree else tree
    }
  }

  /** One turn of the entry loop of Unpack. */
  function UntarEntry(opts: Options, s: UntarState, hdr: Header): UntarProgress {
    var name := EntryName(hdr);
    if hdr.typeflag.TypeXGlobalHeader? || (name.Inside() && name.names == []) then Continues(s)
    else if !name.Inside() then Fails(s.tree, InvalidEntryName)
    else
      match ResolveArchivePath(s.tree, name.names)
      case Missing(e) => Fails(s.tree, e)
      case Found(a) =>
        match UntarAt(opts, s.tree, a, hdr)
        case Bad(t, e) => Fails(t, e)
        case Fine(t) =>
          var recorded := hdr.typeflag.TypeDir? && !(opts.overlay && IsWhiteoutName(Last(a.path)));
          Continues(UntarState(t, if recorded then s.dirs + [UnpackedDir(a.path, BoundTime(hdr.modTime))] else s.dirs))
  }

  function UntarEntries(opts: Options, s: UntarState, archive: seq<Header>): UntarProgress
    decreases |archive|
  {
    if archive == [] then Continues(s)
    else
      match UntarEntries(opts, s, archive[..|archive| - 1])
      case Fails(t, e) => Fails(t, e)
      case Continues(s') => UntarEntry(opts, s', archive[|archive| - 1])
  }

  /** Unpack on a whole archive. */
  function UntarAll(opts: Options, t: Tree, archive: seq<Header>): Done {
    match UntarEntries(opts, UntarState(t, []), archive)
    case Fails(t', e) => Bad(t', e)
    case Continues(s) => ApplyDirTimes(s.tree, s.dirs)
  }
}
