/** File names, slash-separated paths and their lexical cleaning.

    A `Path` is the list of components below an extraction or comparison root;
    the empty list is the root itself.  The functions on strings follow Go's
    `strings.Split`, `strings.TrimLeft` and `path.Clean` for the separator '/'.
 */
module Names {

  type Name = string
  type Path = seq<Name>

  // ----- prefixes of paths -----

  predicate Below(p: Path, q: Path) {
    p <= q && p != q
  }

  function Parent(p: Path): (r: Path)
    requires p != []
    ensures Below(r, p) && |r| + 1 == |p|
  {
    p[..|p| - 1]
  }

  function Last(p: Path): Name
    requires p != []
  {
    p[|p| - 1]
  }

  /** An ordinary component: one that names an entry of a directory. */
  predicate Ordinary(n: string) {
    n != "" && n != "." && n != ".." && '/' !in n
  }

  predicate OrdinaryPath(p: Path) {
    forall n | n in p :: Ordinary(n)
  }

  lemma ParentOf(p: Path, n: Name)
    ensures p + [n] != [] && Parent(p + [n]) == p && Last(p + [n]) == n
  {
  }

  lemma ParentAndLast(p: Path)
    requires p != []
    ensures Parent(p) + [Last(p)] == p
  {
  }

  lemma BelowParent(p: Path, q: Path)
    requires q != []
    ensures Below(p, q) <==> p <= Parent(q)
  {
  }

  lemma PrefixTransitive<T>(p: seq<T>, q: seq<T>, r: seq<T>)
    requires p <= q <= r
    ensures p <= r
  {
  }

  lemma SubsetSize<T>(a: set<T>, b: set<T>)
    requires a <= b
    ensures |a| <= |b| && (a != b ==> |a| < |b|)
  {
    assert |b| == |b - a| + |a|;
    if a != b { assert b - a != {}; }
  }

  // ----- strings -----

  function Split(s: string): (parts: seq<string>)
    ensures parts != []
    ensures forall part | part in parts :: '/' !in part
  {
    if s == "" then [""]
    else
      var rest := Split(s[1..]);
      if s[0] == '/' then [""] + rest
      else
        assert rest[0] in rest;
        [[s[0]] + rest[0]] + rest[1..]
  }

  /** The components joined by '/', with no leading separator. */
  function Join(p: Path): string {
    if p == [] then ""
    else if |p| == 1 then p[0]
    else p[0] + "/" + Join(p[1..])
  }

  function TrimLeftSlashes(s: string): (r: string)
    ensures r == "" || r[0] != '/'
  {
    if s != "" && s[0] == '/' then TrimLeftSlashes(s[1..]) else s
  }

  lemma SplitFirst(c: char, s: string)
    ensures c == '/' ==> Split([c] + s) == [""] + Split(s)
    ensures c != '/' ==> Split([c] + s) == [[c] + Split(s)[0]] + Split(s)[1..]
  {
  }

  predicate OnlySlashes(s: string) {
    forall c | c in s :: c == '/'
  }

  lemma {:induction false} TrimmedLeft(x: string, u: string)
    requires OnlySlashes(x) && (u == "" || u[0] != '/')
    ensures TrimLeftSlashes(x + u) == u
    decreases |x|
  {
    if x == "" {
      assert x + u == u;
    } else {
      assert x[0] in x;
      assert (x + u)[0] == '/' && (x + u)[1..] == x[1..] + u;
      forall c | c in x[1..] ensures c == '/' { assert c in x; }
      TrimmedLeft(x[1..], u);
    }
  }

  lemma {:induction false} SplitConcat(s: string, t: string)
    ensures Split(s + "/" + t) == Split(s) + Split(t)
  {
    if s == "" {
      SplitFirst('/', t);
      assert "" + "/" + t == ['/'] + t;
    } else {
      var rest := s[1..] + "/" + t;
      assert s + "/" + t == [s[0]] + rest;
      assert s == [s[0]] + s[1..];
      SplitConcat(s[1..], t);
      SplitFirst(s[0], rest);
      SplitFirst(s[0], s[1..]);
      HeadOfConcat(Split(s[1..]), Split(t));
    }
  }

  lemma HeadOfConcat<T>(a: seq<T>, b: seq<T>)
    requires a != []
    ensures (a + b)[0] == a[0] && (a + b)[1..] == a[1..] + b
  {
  }

  lemma {:induction false} SplitWhole(n: string)
    requires '/' !in n
    ensures Split(n) == [n]
  {
    if n != "" {
      SplitWhole(n[1..]);
      assert [n[0]] + n[1..] == n;
    }
  }

  lemma SplitAppend(n: string, s: string)
    requires '/' !in n
    ensures Split(n + "/" + s) == [n] + Split(s)
  {
    SplitConcat(n, s);
    SplitWhole(n);
  }

  /** Splitting undoes joining, with or without a trailing slash. */
  lemma {:induction false} SplitJoin(p: Path)
    requires p != [] && OrdinaryPath(p)
    ensures Split(Join(p)) == p
    ensures Split(Join(p) + "/") == p + [""]
  {
    assert Ordinary(p[0]);
    if |p| == 1 {
      SplitWhole(p[0]);
      SplitAppend(p[0], "");
      assert p[0] + "/" + "" == p[0] + "/";
    } else {
      forall n | n in p[1..] ensures Ordinary(n) { assert n in p; }
      SplitJoin(p[1..]);
      SplitAppend(p[0], Join(p[1..]));
      SplitAppend(p[0], Join(p[1..]) + "/");
      assert p[0] + "/" + Join(p[1..]) + "/" == p[0] + "/" + (Join(p[1..]) + "/");
      assert [p[0]] + p[1..] == p;
    }
  }

  lemma JoinStart(p: Path)
    requires p != [] && OrdinaryPath(p)
    ensures Join(p) != "" && Join(p)[0] != '/'
  {
    assert Ordinary(p[0]);
    assert Join(p)[0] == p[0][0];
  }

  // ----- lexical cleaning -----

  /** A cleaned path: an optional leading slash, the ".." components that could
      not be removed, and the remaining ordinary components. */
  datatype Cleaned = Cleaned(rooted: bool, ups: nat, names: Path)
  {
    /** `filepath.IsLocal` of the cleaned path, or the path ".". */
    predicate Inside() {
      !rooted && ups == 0
    }
  }

  function CleanParts(acc: Cleaned, parts: seq<string>): (r: Cleaned)
    requires OrdinaryPath(acc.names)
    requires forall part | part in parts :: '/' !in part
    ensures OrdinaryPath(r.names) && r.rooted == acc.rooted
    decreases |parts|
  {
    if parts == [] then acc
    else
      var part := parts[0];
      var acc' :=
        if part == "" || part == "." then acc
        else if part == ".." then
          if acc.names != [] then acc.(names := Parent(acc.names))
          else if acc.rooted then acc
          else acc.(ups := acc.ups + 1)
        else acc.(names := acc.names + [part]);
      CleanParts(acc', parts[1..])
  }

  /** `path.Clean`. */
  function Clean(s: string): (r: Cleaned)
    ensures OrdinaryPath(r.names) && r.rooted == (s != "" && s[0] == '/')
  {
    CleanParts(Cleaned(s != "" && s[0] == '/', 0, []), Split(s))
  }

  lemma {:induction false} CleanOrdinary(acc: Cleaned, p: Path, rest: seq<string>)
    requires OrdinaryPath(acc.names) && OrdinaryPath(p)
    requires rest == [] || rest == [""]
    ensures CleanParts(acc, p + rest) == acc.(names := acc.names + p)
    decreases |p|
  {
    var parts := p + rest;
    if p == [] {
      assert parts == rest;
      assert acc.names + p == acc.names;
      if rest == [""] {
        assert CleanParts(acc, rest) == CleanParts(acc, rest[1..]);
      }
    } else {
      assert Ordinary(p[0]);
      assert parts[0] == p[0] && parts[1..] == p[1..] + rest;
      CleanOrdinary(acc.(names := acc.names + [p[0]]), p[1..], rest);
      assert acc.names + [p[0]] + p[1..] == acc.names + p;
    }
  }

  /** An archive name written from a path below the root, with or without the
      trailing slash of a directory, reads back as that path. */
  lemma EntryNameReadsBack(p: Path)
    requires p != [] && OrdinaryPath(p)
    ensures Clean(TrimLeftSlashes(Join(p))) == Cleaned(false, 0, p)
    ensures Clean(TrimLeftSlashes(Join(p) + "/")) == Cleaned(false, 0, p)
    ensures Clean(Join(p)) == Cleaned(false, 0, p)
  {
    JoinStart(p);
    SplitJoin(p);
    CleanOrdinary(Cleaned(false, 0, []), p, []);
    CleanOrdinary(Cleaned(false, 0, []), p, [""]);
    assert p + [] == p && [] + p == p;
    assert (Join(p) + "/")[0] == Join(p)[0];
  }

  // ----- whiteout names -----

  const WHITEOUT_PREFIX: string := ".wh."
  const WHITEOUT_META_PREFIX: string := ".wh..wh."
  const WHITEOUT_LINK_DIR: string := ".wh..wh.plnk"
  const WHITEOUT_OPAQUE_DIR: string := ".wh..wh..opq"

  predicate HasPrefix(s: string, prefix: string) {
    prefix <= s
  }

  /** What is left of the name of the opaque marker when it is read as a plain
      whiteout. */
  const MARKER_REMAINDER: string := ".wh..opq"

  predicate IsWhiteoutName(n: Name) {
    HasPrefix(n, WHITEOUT_PREFIX)
  }

  predicate Prefixed(p: Path) {
    p != [] && IsWhiteoutName(Last(p))
  }

  /** The whiteout for p is the opaque marker of its directory. */
  predicate NamesMarker(p: Path) {
    p != [] && Last(p) == MARKER_REMAINDER
  }

  /** The whiteout for p is an entry that layers reserve for metadata. */
  predicate NamesMetadata(p: Path) {
    Prefixed(p) && Parent(p) == [] && !NamesMarker(p)
  }

  lemma WhiteoutOf(n: Name)
    requires Ordinary(n)
    ensures Ordinary(WHITEOUT_PREFIX + n)
    ensures IsWhiteoutName(WHITEOUT_PREFIX + n)
    ensures (WHITEOUT_PREFIX + n)[|WHITEOUT_PREFIX|..] == n
    ensures WHITEOUT_PREFIX + n == WHITEOUT_OPAQUE_DIR <==> n == MARKER_REMAINDER
    ensures HasPrefix(WHITEOUT_PREFIX + n, WHITEOUT_META_PREFIX) <==> IsWhiteoutName(n)
  {
    var w := WHITEOUT_PREFIX + n;
    assert w[|WHITEOUT_PREFIX|..] == n;
    assert WHITEOUT_OPAQUE_DIR == WHITEOUT_PREFIX + MARKER_REMAINDER;
    assert WHITEOUT_META_PREFIX == WHITEOUT_PREFIX + WHITEOUT_PREFIX;
    if HasPrefix(w, WHITEOUT_META_PREFIX) {
      assert WHITEOUT_META_PREFIX[4..8] == WHITEOUT_PREFIX;
      assert w[..8] == WHITEOUT_META_PREFIX;
      assert n[..4] == w[4..8] == WHITEOUT_META_PREFIX[4..8];
    }
    if IsWhiteoutName(n) { assert w == WHITEOUT_META_PREFIX + n[4..]; }
  }

  lemma OpaqueName()
    ensures Ordinary(WHITEOUT_OPAQUE_DIR)
    ensures IsWhiteoutName(WHITEOUT_OPAQUE_DIR)
    ensures IsWhiteoutName(WHITEOUT_META_PREFIX)
    ensures HasPrefix(WHITEOUT_OPAQUE_DIR, WHITEOUT_META_PREFIX)
  {
  }

  // ----- the order in which changes are sorted -----

  /** The path as it is printed in a change: "/a/b". */
  function Render(p: Path): string {
    "/" + Join(p)
  }

  predicate Less(s: string, t: string) {
    t != "" && (s == "" || s[0] < t[0] || (s[0] == t[0] && Less(s[1..], t[1..])))
  }

  /** Less is the order of strings by their first difference. */
  lemma {:induction false} LessIsLexical(s: string, t: string)
    ensures Less(s, t) <==>
      exists k :: 0 <= k <= |s| && k < |t| && s[..k] == t[..k] && (k == |s| || s[k] < t[k])
    decreases |s|
  {
    if t != "" && s != "" && s[0] == t[0] {
      LessIsLexical(s[1..], t[1..]);
      if k :| 0 <= k <= |s| && k < |t| && s[..k] == t[..k] && (k == |s| || s[k] < t[k]) {
        assert k > 0;
        assert s[1..][..k - 1] == s[..k][1..] && t[1..][..k - 1] == t[..k][1..];
      }
      if k :| 0 <= k <= |s[1..]| && k < |t[1..]| && s[1..][..k] == t[1..][..k]
              && (k == |s[1..]| || s[1..][k] < t[1..][k])
      {
        assert s[..k + 1] == [s[0]] + s[1..][..k] && t[..k + 1] == [t[0]] + t[1..][..k];
      }
    } else if t != "" && (s == "" || s[0] < t[0]) {
      assert s[..0] == t[..0];
    } else if k :| 0 <= k <= |s| && k < |t| && s[..k] == t[..k] && (k == |s| || s[k] < t[k]) {
      assert s[..k][0] == t[..k][0];
    }
  }

  lemma {:induction false} LessIsTransitive(a: string, b: string, c: string)
    requires Less(a, b) && Less(b, c)
    ensures Less(a, c)
  {
    if a != "" && a[0] == b[0] == c[0] { LessIsTransitive(a[1..], b[1..], c[1..]); }
  }

  lemma {:induction false} LessIsAsymmetric(a: string, b: string)
    requires Less(a, b)
    ensures !Less(b, a) && a != b
  {
    if a != "" && a[0] == b[0] { LessIsAsymmetric(a[1..], b[1..]); }
  }

  lemma {:induction false} LessIsTotal(a: string, b: string)
    ensures a == b || Less(a, b) || Less(b, a)
  {
    if a != "" && b != "" && a[0] == b[0] {
      LessIsTotal(a[1..], b[1..]);
      assert a == [a[0]] + a[1..] && b == [b[0]] + b[1..];
    }
  }

  lemma {:induction false} PrefixIsLess(s: string, t: string)
    requires s <= t && s != t
    ensures Less(s, t) && !Less(t, s)
  {
    if s != "" {
      assert s[1..] <= t[1..] by { assert t[..|s|] == s; assert t[1..][..|s| - 1] == t[..|s|][1..]; }
      assert s[1..] != t[1..] by { assert [s[0]] + s[1..] == s && [t[0]] + t[1..] == t; }
      PrefixIsLess(s[1..], t[1..]);
    }
  }

  lemma {:induction false} JoinOfPrefix(p: Path, q: Path)
    requires p != [] && Below(p, q)
    ensures Join(p) <= Join(q) && Join(p) != Join(q)
  {
    assert q[0] == p[0];
    if |p| == 1 {
      assert Join(q) == p[0] + ("/" + Join(q[1..]));
    } else {
      assert p[1..] <= q[1..] by { assert q[..|p|] == p; assert q[1..][..|p| - 1] == q[..|p|][1..]; }
      JoinOfPrefix(p[1..], q[1..]);
      var head := p[0] + "/";
      assert Join(p) == head + Join(p[1..]) && Join(q) == head + Join(q[1..]);
      assert |Join(p[1..])| < |Join(q[1..])|;
    }
  }

  /** Sorting printed paths puts every directory before what it contains, even
      though '.' and '-' sort before the separator. */
  lemma AncestorsSortFirst(p: Path, q: Path)
    requires p != [] && Below(p, q)
    ensures Less(Render(p), Render(q)) && !Less(Render(q), Render(p))
  {
    JoinOfPrefix(p, q);
    assert Render(p) <= Render(q);
    PrefixIsLess(Render(p), Render(q));
  }
}
