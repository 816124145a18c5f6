/** Directory trees as a file system shows them: names lead to inodes, and two
    names may lead to the same inode (hard links). */
module Trees {
  import opened Names

  // ----- times -----

  /** A time in whole seconds since the Unix epoch and nanoseconds. */
  datatype Time = Time(sec: int, nsec: nat)

  /** Times agree when they are equal, or when they fall in the same second and
      one of them has lost its nanoseconds. */
  predicate SameFsTime(a: Time, b: Time) {
    a == b || (a.sec == b.sec && (a.nsec == 0 || b.nsec == 0))
  }

  predicate Before(a: Time, b: Time) {
    a.sec < b.sec || (a.sec == b.sec && a.nsec < b.nsec)
  }

  const MIN_TIME: Time := Time(0, 0)
  const MAX_TIME: Time := Time(9223372036, 854775807)

  function BoundTime(t: Time): Time {
    if Before(t, MIN_TIME) || Before(MAX_TIME, t) then MIN_TIME else t
  }

  /** The times that can be set are those whose nanoseconds since the epoch fit into
      63 bits; any other time becomes the epoch. */
  lemma SettableTimes(t: Time)
    requires t.nsec < 1_000_000_000
    ensures BoundTime(t) == if 0 <= t.sec * 1_000_000_000 + t.nsec < 0x8000_0000_0000_0000 then t else Time(0, 0)
  {
  }

  /** Tar headers carry whole seconds. */
  function TruncateTime(t: Time): Time {
    t.(nsec := 0)
  }

  // ----- inodes -----

  type Ino = nat
  type Perm = p: nat | p < 0x1000
  type DeviceNumber = d: nat | d <= MAX_UINT32

  const MAX_UINT32: int := 0xffff_ffff

  const IMPLIED_DIRECTORY_MODE: Perm := 0x1ed
  const SYMLINK_PERM: Perm := 0x1ff

  datatype Kind =
    | Dir
    | Reg(data: string)
    | Symlink(target: string)
    | Block(major: DeviceNumber, minor: DeviceNumber)
    | Char(major: DeviceNumber, minor: DeviceNumber)
    | Fifo
    | Socket

  /** `caps` is the security.capability attribute ("" when absent); `hidesLower` is
      the overlay attribute that marks a directory opaque. */
  datatype Inode = Inode(
    kind: Kind, perm: Perm, uid: int, gid: int, mtime: Time, caps: string,
    hidesLower: bool, dev: nat)

  function Size(k: Kind): nat {
    match k
    case Reg(data) => |data|
    case Symlink(target) => |target|
    case _ => 0
  }

  function Rdev(k: Kind): (int, int) {
    match k
    case Block(major, minor) => (major, minor)
    case Char(major, minor) => (major, minor)
    case _ => (0, 0)
  }

  predicate SameType(a: Kind, b: Kind) {
    && (a.Dir? == b.Dir?) && (a.Reg? == b.Reg?) && (a.Symlink? == b.Symlink?)
    && (a.Block? == b.Block?) && (a.Char? == b.Char?) && (a.Fifo? == b.Fifo?)
  }

  /** Links have neither permissions of their own nor capabilities. */
  predicate BareLink(node: Inode) {
    node.kind.Symlink? ==> node.perm == SYMLINK_PERM && node.caps == ""
  }

  datatype Option<+T> = None | Some(value: T)

  // ----- trees -----

  /** `next` is larger than every inode number in use; `now` is what the clock
      shows, so what the kernel stamps on a directory whose entries change. */
  datatype Tree = Tree(names: map<Path, Ino>, inodes: map<Ino, Inode>, next: Ino, now: Time)
  {
    predicate Has(p: Path) {
      p in names && names[p] in inodes
    }

    function At(p: Path): Inode
      requires Has(p)
    {
      inodes[names[p]]
    }

    predicate IsDir(p: Path) {
      Has(p) && At(p).kind.Dir?
    }

    ghost predicate Numbered() {
      && (forall p | p in names :: Has(p))
      && (forall i | i in inodes :: i < next)
    }

    /** Every name but the root's stands in a directory. */
    ghost predicate Nested() {
      IsDir([]) && forall p {:trigger Parent(p)} | p in names && p != [] :: IsDir(Parent(p)) && Ordinary(Last(p))
    }

    /** A directory has one name. */
    ghost predicate Unaliased() {
      forall p, q {:trigger IsDir(p), names[q]} | IsDir(p) && q in names && names[p] == names[q] :: p == q
    }

    ghost predicate LinksAreBare() {
      forall i | i in inodes :: BareLink(inodes[i])
    }

    /** A tree as a file system can hold it. */
    ghost predicate Valid() {
      Numbered() && Nested() && Unaliased() && LinksAreBare()
    }
  }

  /** Every ancestor of a name is a directory. */
  lemma {:induction false} AncestorsAreDirs(t: Tree, p: Path, q: Path)
    requires t.Valid() && q in t.names && Below(p, q)
    ensures t.IsDir(p)
    decreases |q|
  {
    BelowParent(p, q);
    if p != Parent(q) {
      AncestorsAreDirs(t, p, Parent(q));
    }
  }

  lemma {:induction false} NamesAreOrdinary(t: Tree, p: Path)
    requires t.Valid() && p in t.names
    ensures OrdinaryPath(p)
    decreases |p|
  {
    if p != [] {
      NamesAreOrdinary(t, Parent(p));
      ParentAndLast(p);
      forall n | n in p ensures Ordinary(n) {
        assert n in Parent(p) + [Last(p)];
      }
    }
  }

  /** The last components of the entries of a directory. */
  lemma EntryNames(t: Tree, dir: Path, names: set<Name>)
    requires names == set p | p in t.names && p != [] && Parent(p) == dir :: Last(p)
    ensures forall n :: n in names <==> dir + [n] in t.names
  {
    forall n | dir + [n] in t.names ensures n in names { ParentOf(dir, n); }
    forall n | n in names ensures dir + [n] in t.names {
      var p :| p in t.names && p != [] && Parent(p) == dir && Last(p) == n;
      ParentAndLast(p);
    }
  }

  // ----- the size of what is below a name -----

  ghost function CountBelow(t: Tree, dir: Path): nat {
    |set q | q in t.names && Below(dir, q)|
  }

  lemma FewerBelow(t: Tree, dir: Path, p: Path)
    requires p in t.names && Below(dir, p)
    ensures CountBelow(t, p) < CountBelow(t, dir)
  {
    var small, big := set q | q in t.names && Below(p, q), set q | q in t.names && Below(dir, q);
    forall q | q in small ensures q in big { PrefixTransitive(dir, p, q); }
    assert p in big && p !in small;
    SubsetSize(small, big);
  }

  /** No names at all, not even a root. */
  const NO_TREE := Tree(map[], map[], 0, MIN_TIME)

  // ----- small trees -----

  function PlainNode(kind: Kind): Inode {
    Inode(kind, IMPLIED_DIRECTORY_MODE, 0, 0, MIN_TIME, "", false, 0)
  }

  /** A root directory and nothing else. */
  const ROOT_ONLY := Tree(map[[] := 0], map[0 := PlainNode(Dir)], 1, MIN_TIME)

  /** A root directory with one file. */
  function OneFile(n: Name, kind: Kind): Tree {
    Tree(map[[] := 0, [n] := 1], map[0 := PlainNode(Dir), 1 := PlainNode(kind)], 2, MIN_TIME)
  }

  /** A root directory with two files. */
  function TwoFiles(m: Name, n: Name, kind: Kind): Tree {
    Tree(map[[] := 0, [m] := 1, [n] := 2],
         map[0 := PlainNode(Dir), 1 := PlainNode(kind), 2 := PlainNode(kind)], 3, MIN_TIME)
  }

  lemma SmallTreesAreValid(n: Name, kind: Kind)
    requires Ordinary(n) && !kind.Dir? && !kind.Symlink?
    ensures ROOT_ONLY.Valid() && OneFile(n, kind).Valid()
  {
    var t := OneFile(n, kind);
    assert t.IsDir([]) && Parent([n]) == [] && Last([n]) == n;
  }

  lemma TwoFilesAreValid(m: Name, n: Name, kind: Kind)
    requires Ordinary(m) && Ordinary(n) && m != n && !kind.Dir? && !kind.Symlink?
    ensures TwoFiles(m, n, kind).Valid()
  {
    var t := TwoFiles(m, n, kind);
    assert [m] != [n] by { assert [m][0] != [n][0]; }
    assert t.IsDir([]) && Parent([m]) == Parent([n]) == [] && Last([m]) == m && Last([n]) == n;
  }
}
