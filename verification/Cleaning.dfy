/** What cleaning does to a path with "", "." and ".." in it. */
module Cleaning {
  import opened Names

  /** Components as they come from splitting a string. */
  predicate Parts(parts: seq<string>) {
    forall part | part in parts :: '/' !in part
  }

  lemma PartsOf(p: seq<string>, q: seq<string>)
    ensures Parts(p + q) <==> Parts(p) && Parts(q)
  {
    if Parts(p + q) { forall part | part in p || part in q ensures '/' !in part { assert part in p + q; } }
  }

  /** Cleaning goes on from where it is. */
  lemma {:induction false} CleanConcat(acc: Cleaned, p: seq<string>, q: seq<string>)
    requires OrdinaryPath(acc.names) && Parts(p) && Parts(q) && Parts(p + q)
    ensures CleanParts(acc, p + q) == CleanParts(CleanParts(acc, p), q)
    decreases |p|
  {
    if p == [] {
      assert p + q == q;
    } else {
      var rest := p[1..];
      assert p == [p[0]] + rest && p + q == [p[0]] + (rest + q);
      PartsOf([p[0]], rest);
      PartsOf(rest, q);
      CleanFirst(acc, p[0], rest);
      CleanFirst(acc, p[0], rest + q);
      CleanConcat(CleanParts(acc, [p[0]]), rest, q);
    }
  }

  lemma CleanFirst(acc: Cleaned, part: string, rest: seq<string>)
    requires OrdinaryPath(acc.names) && Parts([part]) && Parts(rest) && Parts([part] + rest)
    ensures CleanParts(acc, [part] + rest) == CleanParts(CleanParts(acc, [part]), rest)
  {
    assert part in [part];
    assert ([part] + rest)[1..] == rest && [part][1..] == [];
  }

  /** One component: "" and "." are nothing, ".." takes a name away, or stays where
      there is none to take, or is dropped at the root; any other one is a name. */
  lemma CleanOne(acc: Cleaned, part: string)
    requires OrdinaryPath(acc.names) && Parts([part])
    ensures var c := CleanParts(acc, [part]);
      c == if part == "" || part == "." then acc
           else if part != ".." then Cleaned(acc.rooted, acc.ups, acc.names + [part])
           else if acc.names != [] then Cleaned(acc.rooted, acc.ups, acc.names[..|acc.names| - 1])
           else if acc.rooted then acc
           else Cleaned(acc.rooted, acc.ups + 1, [])
  {
    assert part in [part] && [part][1..] == [];
  }

  /** Wherever they stand, "", "." and a name with ".." behind it can be left out. */
  lemma CleaningLaws(acc: Cleaned, p: seq<string>, n: string, q: seq<string>)
    requires OrdinaryPath(acc.names) && Ordinary(n) && Parts(p) && Parts(q)
    requires Parts(p + q) && Parts(p + [n, ".."] + q) && Parts(p + ["."] + q) && Parts(p + [""] + q)
    ensures CleanParts(acc, p + [n, ".."] + q) == CleanParts(acc, p + q)
    ensures CleanParts(acc, p + ["."] + q) == CleanParts(acc, p + q)
    ensures CleanParts(acc, p + [""] + q) == CleanParts(acc, p + q)
  {
    var c := CleanParts(acc, p);
    CleanConcat(acc, p, q);
    CleanOne(c, n);
    CleanOne(CleanParts(c, [n]), "..");
    CleanOne(c, ".");
    CleanOne(c, "");
    assert [n, ".."] == [n] + [".."];
    CleanConcat(c, [n], [".."]);
    LeftOut(acc, p, [n, ".."], q);
    LeftOut(acc, p, ["."], q);
    LeftOut(acc, p, [""], q);
  }

  lemma LeftOut(acc: Cleaned, p: seq<string>, x: seq<string>, q: seq<string>)
    requires OrdinaryPath(acc.names) && Parts(p) && Parts(x) && Parts(q) && Parts(p + q) && Parts(p + x + q)
    requires CleanParts(CleanParts(acc, p), x) == CleanParts(acc, p)
    ensures CleanParts(acc, p + x + q) == CleanParts(acc, p + q)
  {
    PartsOf(p, x);
    CleanConcat(acc, p, q);
    CleanConcat(acc, p, x);
    CleanConcat(acc, p + x, q);
  }

  /** How far a name leads below where it starts; negative above it. */
  function Depth(parts: seq<string>): int
    decreases |parts|
  {
    if parts == [] then 0
    else
      var part := parts[|parts| - 1];
      Depth(parts[..|parts| - 1]) + if part == ".." then -1 else if part == "" || part == "." then 0 else 1
  }

  /** The name leads u levels above its start, but at no point more. */
  ghost predicate Lowest(parts: seq<string>, u: int) {
    && (forall k | 0 <= k <= |parts| :: Depth(parts[..k]) + u >= 0)
    && exists k :: 0 <= k <= |parts| && Depth(parts[..k]) + u == 0
  }

  lemma LowestMore(parts: seq<string>, part: string, u: int)
    requires Lowest(parts, u)
    ensures var d := Depth(parts + [part]);
      Depth(parts) + u >= 0 && Lowest(parts + [part], if d + u >= 0 then u else -d)
  {
    var all := parts + [part];
    assert parts[..|parts|] == parts;
    Prefixes(parts, part);
    hide Depth;
    var d := Depth(all);
    var u' := if d + u >= 0 then u else -d;
    forall j | 0 <= j <= |all| ensures Depth(all[..j]) + u' >= 0 {
      if j <= |parts| { assert Depth(parts[..j]) + u >= 0; }
    }
    var k :| 0 <= k <= |parts| && Depth(parts[..k]) + u == 0;
    assert Depth(all[..if d + u >= 0 then k else |all|]) + u' == 0;
  }

  lemma Prefixes(parts: seq<string>, part: string)
    ensures var all := parts + [part];
      all[..|all|] == all && forall k | 0 <= k <= |parts| :: all[..k] == parts[..k]
  {
  }

  /** The ".." that remain are as many as the name ever leads above its start; the
      rest is what it leads down from there. */
  lemma {:induction false} CleanedDepth(parts: seq<string>)
    requires Parts(parts)
    ensures var c := CleanParts(Cleaned(false, 0, []), parts);
      !c.rooted && |c.names| - c.ups == Depth(parts) && Lowest(parts, c.ups)
    decreases |parts|
  {
    var start := Cleaned(false, 0, []);
    if parts == [] {
      assert Depth(parts[..0]) == 0;
    } else {
      var n, last := |parts| - 1, parts[|parts| - 1];
      assert parts == parts[..n] + [last];
      PartsOf(parts[..n], [last]);
      CleanedDepth(parts[..n]);
      CleanConcat(start, parts[..n], [last]);
      var c := CleanParts(start, parts[..n]);
      CleanOne(c, last);
      LowestMore(parts[..n], last, c.ups);
    }
  }
}
