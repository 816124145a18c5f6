/** What resolving a path means, stated on paths: laws that say what the next
    component does to the result, and that no other resolution obeys. */
module PathLaws {
  import opened Names
  import opened Errors
  import opened Resolver

  /** Resolving with at most `budget` links. */
  function ResolveWithin(g: Graph, pol: Policy, budget: nat, parts: seq<string>): Result {
    ResultOf(Walk(g, pol.(budget := budget), START, parts, false))
  }

  /** A way to resolve paths with a number of links. */
  type Resolution = (nat, seq<string>) -> Result

  /** A directory or a missing name that resolution has come to.  If missing names
      are not kept, it exists. */
  ghost predicate Reached(g: Graph, pol: Policy, d: Path) {
    && Resolved(g, d) && (d != [] && d in g ==> g[d].Directory?)
    && (pol.keepMissing || forall q | q <= d && q != [] :: q in g)
  }

  /** The same, or a file at the end. */
  ghost predicate Final(g: Graph, pol: Policy, d: Path) {
    Resolved(g, d) && (pol.keepMissing || forall q | q <= d && q != [] :: q in g)
  }

  /** After a ".." at the root: the first escape, unless an absolute link has led
      there. */
  function AfterDotDot(r: Result): Result {
    match r
    case Failure(e) => Failure(e)
    case Success(p, followedAbsolute, _) => Success(p, followedAbsolute, true)
  }

  function AfterAbsolute(r: Result): Result {
    match r
    case Failure(e) => Failure(e)
    case Success(p, _, _) => Success(p, true, false)
  }

  /** What component n does behind d, when q follows: "" and "." nothing, ".." goes
      to the parent, a link continues with its target, from d if it is relative and
      from the root if it is absolute; what is missing or a file ends the path or
      is an error. */
  ghost predicate NextComponent(g: Graph, pol: Policy, f: Resolution, b: nat, d: Path, n: string, q: seq<string>) {
    var r := f(b, d + [n] + q);
    if n == "" || n == "." then r == f(b, d + q)
    else if n == ".." then
      if d != [] then r == f(b, d[..|d| - 1] + q)
      else r == if pol.confine then Failure(EscapesByDotDot) else AfterDotDot(f(b, q))
    else if d + [n] !in g then pol.keepMissing || r == Failure(NotExist)
    else
      match g[d + [n]]
      case Fault => r == Failure(Failed)
      case File => q != [] ==> r == Failure(NotDirectory)
      case Directory => true
      case Link(target) =>
        if b == 0 then r == Failure(TooManyLinks)
        else if target != "" && target[0] == '/' then
          r == if pol.confine then Failure(EscapesByLink) else AfterAbsolute(f(b - 1, Split(target) + q))
        else r == f(b - 1, d + Split(target) + q)
  }

  /** The laws: resolved paths are left as they are, and every component does to the
      path what it should. */
  ghost predicate Obeys(g: Graph, pol: Policy, f: Resolution) {
    && (forall b, d | Final(g, pol, d) :: f(b, d) == Success(d, false, false))
    && (forall b, d, n, q | Reached(g, pol, d) && '/' !in n :: NextComponent(g, pol, f, b, d, n, q))
  }

  // ----- resolution obeys the laws -----

  /** Two runs that differ in the links walked before, and in the flags only by the
      flags (a, e) that one of them had at the start. */
  ghost predicate Alike(pol: Policy, s: State, pol': Policy, s': State, a: bool, e: bool) {
    && s.at == s'.at && pol.budget - s.links == pol'.budget - s'.links
    && s.followedAbsolute == (a || s'.followedAbsolute)
    && s.relativeEscape == (e || (!a && s'.relativeEscape))
  }

  ghost predicate AlikeOutcome(pol: Policy, o: Outcome, pol': Policy, o': Outcome, a: bool, e: bool) {
    match o'
    case Err(_) => o == o'
    case Ok(s') => o.Ok? && Alike(pol, o.state, pol', s', a, e)
  }

  lemma {:induction false} WalksAreAlike(g: Graph, pol: Policy, s: State, pol': Policy, s': State, a: bool, e: bool,
                                         parts: seq<string>, more: bool)
    requires s.links <= pol.budget && s'.links <= pol'.budget && Alike(pol, s, pol', s', a, e)
    requires pol' == pol.(budget := pol'.budget)
    ensures AlikeOutcome(pol, Walk(g, pol, s, parts, more), pol', Walk(g, pol', s', parts, more), a, e)
    decreases pol.budget - s.links, |parts|
  {
    if parts != [] {
      var more' := more || |parts| > 1;
      StepsAreAlike(g, pol, s, pol', s', a, e, parts[0], more');
      var o, o' := Step(g, pol, s, parts[0], more'), Step(g, pol', s', parts[0], more');
      if o.Ok? { WalksAreAlike(g, pol, o.state, pol', o'.state, a, e, parts[1..], more); }
    }
  }

  lemma {:induction false} StepsAreAlike(g: Graph, pol: Policy, s: State, pol': Policy, s': State, a: bool, e: bool,
                                         part: string, more: bool)
    requires s.links <= pol.budget && s'.links <= pol'.budget && Alike(pol, s, pol', s', a, e)
    requires pol' == pol.(budget := pol'.budget)
    ensures AlikeOutcome(pol, Step(g, pol, s, part, more), pol', Step(g, pol', s', part, more), a, e)
    decreases pol.budget - s.links, 0
  {
    var candidate := s.at + [part];
    if part !in ["", ".", ".."] && candidate in g && g[candidate].Link? {
      if s.links < pol.budget { EntersAlike(g, pol, s, pol', s', a, e, g[candidate].target, more); }
    } else {
      hide Walk;
    }
  }

  lemma {:induction false} EntersAlike(g: Graph, pol: Policy, s: State, pol': Policy, s': State, a: bool, e: bool,
                                       target: string, more: bool)
    requires s.links < pol.budget && s'.links < pol'.budget && Alike(pol, s, pol', s', a, e)
    requires pol' == pol.(budget := pol'.budget)
    ensures AlikeOutcome(pol, Walk(g, pol, Enter(s, target), Split(target), more),
                         pol', Walk(g, pol', Enter(s', target), Split(target), more), a, e)
    decreases pol.budget - s.links, 0, 0
  {
    WalksAreAlike(g, pol, Enter(s, target), pol', Enter(s', target), a, e, Split(target), more);
  }

  /** Resolving behind d starts at d. */
  lemma FromReached(g: Graph, pol: Policy, b: nat, d: Path, rest: seq<string>)
    requires Reached(g, pol, d)
    ensures ResolveWithin(g, pol, b, d + rest) == ResultOf(Walk(g, pol.(budget := b), START.(at := d), rest, false))
  {
    var p := pol.(budget := b);
    WalkAppend(g, p, START, d, rest, false);
    assert [] + d == d;
    WalkPlain(g, p, START, d, rest != []);
  }

  lemma ResolutionFollows(g: Graph, pol: Policy, f: Resolution, b: nat, d: Path, n: string, q: seq<string>)
    requires f == ((budget: nat, parts: seq<string>) => ResolveWithin(g, pol, budget, parts))
    requires Reached(g, pol, d) && '/' !in n
    ensures NextComponent(g, pol, f, b, d, n, q)
  {
    var p, s := pol.(budget := b), START.(at := d);
    assert d + [n] + q == d + ([n] + q);
    FromReached(g, pol, b, d, [n] + q);
    FromReached(g, pol, b, d, q);
    assert ([n] + q)[0] == n && ([n] + q)[1..] == q;
    if n == ".." {
      DotDotFollows(g, pol, b, d, q);
    } else if n !in ["", ".", ".."] && d + [n] in g && g[d + [n]].Link? && b > 0 {
      LinkFollows(g, pol, b, d, n, q);
    }
  }

  lemma DotDotFollows(g: Graph, pol: Policy, b: nat, d: Path, q: seq<string>)
    requires Reached(g, pol, d)
    ensures ResolveWithin(g, pol, b, d + [".."] + q) ==
      if d != [] then ResolveWithin(g, pol, b, d[..|d| - 1] + q)
      else if pol.confine then Failure(EscapesByDotDot)
      else AfterDotDot(ResolveWithin(g, pol, b, q))
  {
    var p, s := pol.(budget := b), START.(at := d);
    assert d + [".."] + q == d + ([".."] + q);
    FromReached(g, pol, b, d, [".."] + q);
    assert ([".."] + q)[0] == ".." && ([".."] + q)[1..] == q;
    if d == [] {
      if !pol.confine { WalksAreAlike(g, p, s.(relativeEscape := true), p, s, false, true, q, false); }
    } else {
      ResolvedPrefix(g, d, Parent(d));
      assert d[..|d| - 1] == Parent(d);
      assert Reached(g, pol, Parent(d));
      FromReached(g, pol, b, Parent(d), q);
    }
  }

  lemma LinkFollows(g: Graph, pol: Policy, b: nat, d: Path, n: string, q: seq<string>)
    requires Reached(g, pol, d) && n !in ["", ".", ".."] && d + [n] in g && g[d + [n]].Link? && b > 0
    ensures var target, r := g[d + [n]].target, ResolveWithin(g, pol, b, d + [n] + q);
      r == if !IsAbs(target) then ResolveWithin(g, pol, b - 1, d + Split(target) + q)
           else if pol.confine then Failure(EscapesByLink)
           else AfterAbsolute(ResolveWithin(g, pol, b - 1, Split(target) + q))
  {
    var p, s, target := pol.(budget := b), START.(at := d), g[d + [n]].target;
    var next := Split(target) + q;
    assert d + [n] + q == d + ([n] + q) && d + Split(target) + q == d + next;
    FromReached(g, pol, b, d, [n] + q);
    assert ([n] + q)[0] == n && ([n] + q)[1..] == q;
    var e := Enter(s, target);
    assert ResolveWithin(g, pol, b, d + [n] + q) ==
      ResultOf(Bind(g, p, Step(g, p, s, n, q != []), q, false));
    hide ResolveWithin;
    if !(pol.confine && IsAbs(target)) {
      WalkAppend(g, p, e, Split(target), q, false);
      TargetFollows(g, pol, b, d, target, next);
    }
  }

  /** Behind a link resolution goes on with one link less. */
  lemma TargetFollows(g: Graph, pol: Policy, b: nat, d: Path, target: string, next: seq<string>)
    requires Reached(g, pol, d) && b > 0
    ensures ResultOf(Walk(g, pol.(budget := b), Enter(START.(at := d), target), next, false)) ==
      if IsAbs(target) then AfterAbsolute(ResolveWithin(g, pol, b - 1, next))
      else ResolveWithin(g, pol, b - 1, d + next)
  {
    var p, p', s := pol.(budget := b), pol.(budget := b - 1), START.(at := d);
    var e := Enter(s, target);
    if IsAbs(target) {
      WalksAreAlike(g, p, e, p', START, true, false, next, false);
    } else {
      FromReached(g, pol, b - 1, d, next);
      WalksAreAlike(g, p, e, p', s, false, false, next, false);
    }
  }

  /** The resolver, with or without confinement and for any number of links, obeys
      the laws. */
  lemma ResolutionObeys(g: Graph, pol: Policy)
    ensures Obeys(g, pol, (budget: nat, parts: seq<string>) => ResolveWithin(g, pol, budget, parts))
  {
    var f := (budget: nat, parts: seq<string>) => ResolveWithin(g, pol, budget, parts);
    forall b: nat, d | Final(g, pol, d) ensures f(b, d) == Success(d, false, false) {
      assert [] + d == d;
      WalkPlain(g, pol.(budget := b), START, d, false);
    }
    forall b: nat, d, n, q | Reached(g, pol, d) && '/' !in n ensures NextComponent(g, pol, f, b, d, n, q) {
      ResolutionFollows(g, pol, f, b, d, n, q);
    }
  }

  /** Behind any path that leads to a place that may be entered, links and "..": a
      further ".." leads to the parent of that place, and a directory or a missing
      name is appended to it. */
  lemma BehindAnyPath(g: Graph, p: seq<string>, n: string)
    requires Resolve(g, p + [""]).Success? && Ordinary(n)
    ensures var at, r := Resolve(g, p + [""]), Resolve(g, p + [".."]);
      r.Success? && r.path == (if at.path == [] then [] else at.path[..|at.path| - 1])
    ensures var at, r := Resolve(g, p + [""]), Resolve(g, p + [n]);
      (at.path + [n] in g ==> g[at.path + [n]].Directory?) ==>
        r == Success(at.path + [n], at.followedAbsolute, at.relativeEscape)
  {
    OneMore(g, p, "");
    OneMore(g, p, "..");
    OneMore(g, p, n);
  }

  lemma OneMore(g: Graph, p: seq<string>, n: string)
    ensures var o := Walk(g, CHROOT, START, p, true);
      Resolve(g, p + [n]) == if o.Ok? then ResultOf(Step(g, CHROOT, o.state, n, false)) else Failure(o.error)
  {
    WalkAppend(g, CHROOT, START, p, [n], false);
    var o := Walk(g, CHROOT, START, p, true);
    if o.Ok? {
      assert [n][1..] == [];
      assert Walk(g, CHROOT, o.state, [n], false) == Step(g, CHROOT, o.state, n, false);
    }
  }

  // ----- nothing else obeys them -----

  /** The laws determine the resolution of every path, whatever is in the graph. */
  lemma {:induction false} LawsDetermine(g: Graph, pol: Policy, f: Resolution, h: Resolution, b: nat, d: Path,
                                         rest: seq<string>)
    requires Obeys(g, pol, f) && Obeys(g, pol, h)
    requires Reached(g, pol, d) && forall n | n in rest :: '/' !in n
    ensures f(b, d + rest) == h(b, d + rest)
    decreases b, |rest|
  {
    if rest == [] {
      assert d + rest == d;
      assert Final(g, pol, d);
    } else {
      var n, q := rest[0], rest[1..];
      assert d + rest == d + [n] + q && n in rest;
      assert NextComponent(g, pol, f, b, d, n, q) && NextComponent(g, pol, h, b, d, n, q);
      LawsDetermineNext(g, pol, f, h, b, d, n, q);
    }
  }

  lemma {:induction false} LawsDetermineNext(g: Graph, pol: Policy, f: Resolution, h: Resolution, b: nat, d: Path,
                                             n: string, q: seq<string>)
    requires Obeys(g, pol, f) && Obeys(g, pol, h)
    requires Reached(g, pol, d) && '/' !in n && forall m | m in q :: '/' !in m
    ensures f(b, d + [n] + q) == h(b, d + [n] + q)
    decreases b, |q| + 1, 0
  {
    assert NextComponent(g, pol, f, b, d, n, q) && NextComponent(g, pol, h, b, d, n, q);
    hide Obeys, Split;
    RootIsReached(g, pol);
    var c := d + [n];
    if n == "" || n == "." {
      LawsDetermine(g, pol, f, h, b, d, q);
    } else if n == ".." {
      if d != [] {
        ParentIsReached(g, pol, d);
        LawsDetermine(g, pol, f, h, b, Parent(d), q);
      } else if !pol.confine {
        LawsDetermine(g, pol, f, h, b, [], q);
        assert [] + q == q;
      }
    } else if c in g && g[c].Link? {
      if b > 0 { LawsDetermineTarget(g, pol, f, h, b, d, g[c].target, q); }
    } else if !(c in g && g[c].Fault?) {
      ComponentIsReached(g, pol, d, n);
      if c in g && g[c].File? {
        if q == [] {
          assert c + q == c;
          EndsThere(g, pol, f, b, c);
          EndsThere(g, pol, h, b, c);
        }
      } else if c in g || pol.keepMissing {
        LawsDetermine(g, pol, f, h, b, c, q);
      }
    }
  }

  lemma {:induction false} LawsDetermineTarget(g: Graph, pol: Policy, f: Resolution, h: Resolution, b: nat, d: Path,
                                               target: string, q: seq<string>)
    requires Obeys(g, pol, f) && Obeys(g, pol, h) && b > 0
    requires Reached(g, pol, d) && forall m | m in q :: '/' !in m
    ensures f(b - 1, d + Split(target) + q) == h(b - 1, d + Split(target) + q)
    ensures f(b - 1, Split(target) + q) == h(b - 1, Split(target) + q)
    decreases b, 0
  {
    hide Obeys, Reached;
    var next := Split(target) + q;
    assert forall m | m in next :: '/' !in m;
    RootIsReached(g, pol);
    LawsDetermine(g, pol, f, h, b - 1, [], next);
    LawsDetermine(g, pol, f, h, b - 1, d, next);
    assert [] + next == next && d + next == d + Split(target) + q;
  }

  lemma EndsThere(g: Graph, pol: Policy, f: Resolution, b: nat, d: Path)
    requires Obeys(g, pol, f) && Final(g, pol, d)
    ensures f(b, d) == Success(d, false, false)
  {
  }

  lemma RootIsReached(g: Graph, pol: Policy)
    ensures Reached(g, pol, [])
  {
  }

  lemma ParentIsReached(g: Graph, pol: Policy, d: Path)
    requires Reached(g, pol, d) && d != []
    ensures Reached(g, pol, Parent(d)) && d[..|d| - 1] == Parent(d)
  {
    ResolvedPrefix(g, d, Parent(d));
  }

  lemma ComponentIsReached(g: Graph, pol: Policy, d: Path, n: string)
    requires Reached(g, pol, d) && Ordinary(n)
    requires d + [n] in g ==> g[d + [n]].File? || g[d + [n]].Directory?
    ensures Resolved(g, d + [n])
    ensures d + [n] in g || pol.keepMissing ==> Final(g, pol, d + [n])
    ensures (d + [n] in g && g[d + [n]].Directory?) || (d + [n] !in g && pol.keepMissing) ==> Reached(g, pol, d + [n])
  {
    var c := d + [n];
    ParentOf(d, n);
    forall q | Below(q, c) ensures q <= d { BelowParent(q, c); }
    forall m | m in c ensures Ordinary(m) {}
    forall q | q <= c && q != [] && q in g ensures g[q].File? || g[q].Directory? {
      if q != c { assert Below(q, c); }
    }
    forall q | Below(q, c) && q != [] && q in g ensures g[q].Directory? {
      if q != d { assert Below(q, d); }
    }
    if c in g && !pol.keepMissing {
      forall q | q <= c && q != [] ensures q in g { if q != c { assert Below(q, c); } }
    }
  }
}
