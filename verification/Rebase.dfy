/** Renaming the entries of an archive, as copy.go does it: one base is replaced
    by another at the beginning of names. */
module Rebase {
  import opened Names
  import opened Headers
  import opened Export

  function TrimRightSlashes(s: string): (r: string)
    ensures r == "" || r[|r| - 1] != '/'
    ensures r <= s
  {
    if s != "" && s[|s| - 1] == '/' then TrimRightSlashes(s[..|s| - 1]) else s
  }

  /** The name is the base, or the base followed by a slash and more. */
  predicate Under(base: string, name: string) {
    base <= name && (|name| == |base| || name[|base|] == '/')
  }

  /** newNameRebaser. */
  function NewNameRebaser(oldBase: string, newBase: string): string -> string {
    var old', new' := TrimRightSlashes(oldBase), TrimRightSlashes(newBase);
    if old' == "" then
      (name: string) => if new' == "" then TrimLeftSlashes(name) else new' + "/" + TrimLeftSlashes(name)
    else
      (name: string) => if Under(old', name) then new' + name[|old'|..] else name
  }

  // ----- what becomes of a name -----

  /** The base without the slashes at its end. */
  predicate IsBase(s: string) {
    s == "" || s[|s| - 1] != '/'
  }

  lemma {:induction false} TrimmedRight(a: string, x: string)
    requires IsBase(a) && OnlySlashes(x)
    ensures TrimRightSlashes(a + x) == a
    decreases |x|
  {
    if x == "" {
      assert a + x == a;
    } else {
      var n := |x| - 1;
      assert x[n] in x;
      assert (a + x)[|a + x| - 1] == x[n] && (a + x)[..|a + x| - 1] == a + x[..n];
      forall c | c in x[..n] ensures c == '/' { assert c in x; }
      TrimmedRight(a, x[..n]);
    }
  }

  /** The base itself becomes the new base, what is behind a slash after the base is
      moved with it, and no other name changes; slashes at the end of the bases do not
      matter. */
  lemma BaseIsReplaced(a: string, x: string, b: string, y: string, name: string)
    requires IsBase(a) && a != "" && OnlySlashes(x) && IsBase(b) && OnlySlashes(y)
    ensures var r := NewNameRebaser(a + x, b + y)(name);
      && (name == a ==> r == b)
      && (forall s | name == a + "/" + s :: r == b + "/" + s)
      && (name != a && !(a + "/" <= name) ==> r == name)
  {
    TrimmedRight(a, x);
    TrimmedRight(b, y);
    forall s | name == a + "/" + s ensures name[|a|..] == "/" + s && Under(a, name) {
      assert name == a + ("/" + s);
    }
    if Under(a, name) && name != a {
      assert name == a + name[|a|..] && name[..|a| + 1] == a + "/";
    }
    assert b + "" == b;
  }

  /** At the archive root: every name is put below the new base, without the slashes
      at its beginning. */
  lemma RootIsReplaced(x: string, b: string, y: string, z: string, u: string)
    requires OnlySlashes(x) && IsBase(b) && OnlySlashes(y) && OnlySlashes(z) && (u == "" || u[0] != '/')
    ensures NewNameRebaser(x, b + y)(z + u) == if b == "" then u else b + "/" + u
  {
    TrimmedRight("", x);
    assert "" + x == x;
    TrimmedRight(b, y);
    TrimmedLeft(z, u);
  }

  // ----- there and back -----

  function ThereAndBack(oldBase: string, newBase: string, name: string): string {
    NewNameRebaser(newBase, oldBase)(NewNameRebaser(oldBase, newBase)(name))
  }

  predicate OneLeadingSlash(s: string) {
    s != "" && s[0] == '/' && (|s| == 1 || s[1] != '/')
  }

  /** The names that come back unchanged: for proper bases, those under the old
      base and those not under the new one; at the archive root the number of
      slashes matters. */
  predicate ComesBack(oldBase: string, newBase: string, name: string) {
    var a, b := TrimRightSlashes(oldBase), TrimRightSlashes(newBase);
    if a != "" && b != "" then Under(a, name) || !Under(b, name)
    else if a == "" && b == "" then name == "" || name[0] != '/'
    else Under(a, name) && OneLeadingSlash(name[|a|..])
  }

  lemma Cut(base: string, suffix: string)
    requires suffix == "" || suffix[0] == '/'
    ensures Under(base, base + suffix) && (base + suffix)[|base|..] == suffix
  {
  }

  lemma {:induction false} Trimmed(s: string)
    ensures TrimLeftSlashes(TrimLeftSlashes(s)) == TrimLeftSlashes(s)
    ensures TrimLeftSlashes("/" + s) == TrimLeftSlashes(s)
    ensures s == "/" + TrimLeftSlashes(s) <==> OneLeadingSlash(s)
    ensures TrimLeftSlashes(s) == s <==> s == "" || s[0] != '/'
  {
  }

  /** Rebasing and rebasing back, on every name. */
  lemma RebasingBack(oldBase: string, newBase: string, name: string)
    ensures ThereAndBack(oldBase, newBase, name) == name <==> ComesBack(oldBase, newBase, name)
  {
    var a, b := TrimRightSlashes(oldBase), TrimRightSlashes(newBase);
    if a != "" && b != "" {
      BackFromBase(oldBase, newBase, name);
    } else if a == "" && b == "" {
      Trimmed(name);
    } else if a == "" {
      BackToRoot(oldBase, newBase, name);
    } else {
      BackFromRoot(oldBase, newBase, name);
    }
  }

  lemma BackFromBase(oldBase: string, newBase: string, name: string)
    requires TrimRightSlashes(oldBase) != "" && TrimRightSlashes(newBase) != ""
    ensures ThereAndBack(oldBase, newBase, name) == name <==> ComesBack(oldBase, newBase, name)
  {
  }

  lemma BackToRoot(oldBase: string, newBase: string, name: string)
    requires TrimRightSlashes(oldBase) == "" && TrimRightSlashes(newBase) != ""
    ensures ThereAndBack(oldBase, newBase, name) == name <==> ComesBack(oldBase, newBase, name)
  {
    var b := TrimRightSlashes(newBase);
    Trimmed(name);
    Cut(b, "/" + TrimLeftSlashes(name));
    assert b + "/" + TrimLeftSlashes(name) == b + ("/" + TrimLeftSlashes(name));
    assert "" + ("/" + TrimLeftSlashes(name)) == "/" + TrimLeftSlashes(name);
    assert name[0..] == name;
  }

  lemma BackFromRoot(oldBase: string, newBase: string, name: string)
    requires TrimRightSlashes(oldBase) != "" && TrimRightSlashes(newBase) == ""
    ensures ThereAndBack(oldBase, newBase, name) == name <==> ComesBack(oldBase, newBase, name)
  {
    hide TrimLeftSlashes, TrimRightSlashes, OneLeadingSlash;
    var a := TrimRightSlashes(oldBase);
    var s := if Under(a, name) then name[|a|..] else name;
    assert "" + s == s;
    Trimmed(s);
    var back := "/" + TrimLeftSlashes(s);
    Cut(a, back);
    assert ThereAndBack(oldBase, newBase, name) == a + "/" + TrimLeftSlashes(s) == a + back;
    if Under(a, name) {
      assert name == a + s;
      SameSuffix(a, back, s);
    }
  }

  // ----- archives -----

  function Rebased(rebase: string -> string, hdr: Header): Header {
    hdr.(name := rebase(hdr.name), linkname := if hdr.typeflag.TypeLink? then rebase(hdr.linkname) else hdr.linkname)
  }

  /** RebaseArchiveEntries. */
  method RebaseArchiveEntries(srcContent: seq<Header>, oldBase: string, newBase: string) returns (rebased: seq<Header>)
    ensures |rebased| == |srcContent|
    ensures forall i | 0 <= i < |rebased| :: rebased[i] == Rebased(NewNameRebaser(oldBase, newBase), srcContent[i])
    ensures HardlinksClosed(srcContent) ==> HardlinksClosed(rebased)
  {
    var rebase := NewNameRebaser(oldBase, newBase);
    rebased := [];
    for i := 0 to |srcContent|
      invariant |rebased| == i
      invariant forall j | 0 <= j < i :: rebased[j] == Rebased(rebase, srcContent[j])
    {
      var hdr := srcContent[i];
      hdr := hdr.(name := rebase(hdr.name));
      if hdr.typeflag.TypeLink? {
        hdr := hdr.(linkname := rebase(hdr.linkname));
      }
      rebased := rebased + [hdr];
    }
    if HardlinksClosed(srcContent) { RebasingKeepsClosed(rebase, srcContent, rebased); }
  }

  lemma RebasingKeepsClosed(rebase: string -> string, archive: seq<Header>, rebased: seq<Header>)
    requires |rebased| == |archive| && forall i | 0 <= i < |rebased| :: rebased[i] == Rebased(rebase, archive[i])
    requires HardlinksClosed(archive)
    ensures HardlinksClosed(rebased)
  {
  }

  /** Names that become equal: of two different ones, one is under the old base
      and the other is where that one is moved to. */
  predicate Collide(oldBase: string, newBase: string, x: string, y: string) {
    var a, b := TrimRightSlashes(oldBase), TrimRightSlashes(newBase);
    if a == "" then TrimLeftSlashes(x) == TrimLeftSlashes(y)
    else
      || x == y
      || (Under(a, x) && !Under(a, y) && y == b + x[|a|..])
      || (Under(a, y) && !Under(a, x) && x == b + y[|a|..])
  }

  lemma SameSuffix(b: string, s: string, t: string)
    ensures b + s == b + t <==> s == t
  {
    assert (b + s)[|b|..] == s && (b + t)[|b|..] == t;
  }

  lemma CollisionsAreExact(oldBase: string, newBase: string, x: string, y: string)
    ensures var rebase := NewNameRebaser(oldBase, newBase); rebase(x) == rebase(y) <==> Collide(oldBase, newBase, x, y)
  {
    var a, b := TrimRightSlashes(oldBase), TrimRightSlashes(newBase);
    if a == "" {
      SameSuffix(b + "/", TrimLeftSlashes(x), TrimLeftSlashes(y));
    } else if Under(a, x) && Under(a, y) {
      SameSuffix(b, x[|a|..], y[|a|..]);
      SameSuffix(a, x[|a|..], y[|a|..]);
      assert x == a + x[|a|..] && y == a + y[|a|..];
    }
  }

  /** The entry that a link entry means: the last one of its name before it. */
  ghost predicate Means(archive: seq<Header>, i: nat, j: nat) {
    && j < i < |archive| && archive[i].typeflag.TypeLink? && archive[j].name == archive[i].linkname
    && forall k | j < k < i :: archive[k].name != archive[i].linkname
  }

  /** If no name of the archive collides with another, each link means the same
      entry after rebasing. */
  lemma RebasingKeepsMeaning(oldBase: string, newBase: string, archive: seq<Header>, rebased: seq<Header>, i: nat,
                             j: nat)
    requires |rebased| == |archive|
    requires forall k | 0 <= k < |rebased| :: rebased[k] == Rebased(NewNameRebaser(oldBase, newBase), archive[k])
    requires i < |archive| && forall k | 0 <= k < i ::
      Collide(oldBase, newBase, archive[k].name, archive[i].linkname) ==> archive[k].name == archive[i].linkname
    ensures Means(rebased, i, j) <==> Means(archive, i, j)
  {
    if archive[i].typeflag.TypeLink? {
      forall k | 0 <= k < i ensures rebased[k].name == rebased[i].linkname <==> archive[k].name == archive[i].linkname {
        CollisionsAreExact(oldBase, newBase, archive[k].name, archive[i].linkname);
      }
    }
  }

  /** Rebasing an archive and rebasing it back gives the archive, exactly if all
      its names come back. */
  lemma ArchiveComesBack(oldBase: string, newBase: string, archive: seq<Header>)
    ensures
      var there, back := NewNameRebaser(oldBase, newBase), NewNameRebaser(newBase, oldBase);
      (forall i | 0 <= i < |archive| :: Rebased(back, Rebased(there, archive[i])) == archive[i]) <==>
        forall i | 0 <= i < |archive| ::
          ComesBack(oldBase, newBase, archive[i].name)
          && (archive[i].typeflag.TypeLink? ==> ComesBack(oldBase, newBase, archive[i].linkname))
  {
    forall i | 0 <= i < |archive|
      ensures
        var there, back := NewNameRebaser(oldBase, newBase), NewNameRebaser(newBase, oldBase);
        Rebased(back, Rebased(there, archive[i])) == archive[i] <==>
        ComesBack(oldBase, newBase, archive[i].name)
        && (archive[i].typeflag.TypeLink? ==> ComesBack(oldBase, newBase, archive[i].linkname))
    {
      RebasingBack(oldBase, newBase, archive[i].name);
      RebasingBack(oldBase, newBase, archive[i].linkname);
    }
  }
}
