/** Resolution of paths below a root that may contain symbolic links.

    `ResolveFSRootPath` is the worklist loop of rootpath.go.  It is proved
    against `Walk`, which resolves recursively, one component after the other:
    the target of a link is resolved completely before the component that
    follows the link is looked at.  The same recursion with another policy
    describes how `os.Root` follows a path: it gives up where the chroot-like
    resolver bends the path back into the root. */
module Resolver {
  import opened Names
  import opened Errors

  /** What lstat reports; a path that is not in the graph does not exist. */
  datatype Entry = Fault | File | Directory | Link(target: string)

  type Graph = map<Path, Entry>

  /** `confine`: fail where the path leaves the root instead of bending it back.
      `keepMissing`: keep components that do not exist. */
  datatype Policy = Policy(confine: bool, keepMissing: bool, budget: nat)

  const CHROOT := Policy(false, true, 255)
  const STRICT := Policy(true, true, 255)

  /** `os.Root` follows at most this many links.  The proofs use only that it is
      no more than what the chroot-like resolver follows. */
  const OS_ROOT := Policy(true, false, 8)

  /** A resolved prefix, the links walked so far and the two escape flags. */
  datatype State = State(at: Path, links: nat, followedAbsolute: bool, relativeEscape: bool)

  const START := State([], 0, false, false)

  datatype Outcome = Ok(state: State) | Err(error: Error)

  function Flag(pol: Policy, s: State): Outcome {
    if pol.confine then Err(EscapesByDotDot)
    else Ok(s.(relativeEscape := s.relativeEscape || !s.followedAbsolute))
  }

  predicate IsAbs(s: string) {
    s != "" && s[0] == '/'
  }

  function Enter(s: State, target: string): State {
    if IsAbs(target) then s.(at := [], links := s.links + 1, followedAbsolute := true)
    else s.(links := s.links + 1)
  }

  /** Resolves `parts` from `s`; `more` says that components follow. */
  function Walk(g: Graph, pol: Policy, s: State, parts: seq<string>, more: bool): (r: Outcome)
    requires s.links <= pol.budget
    ensures r.Ok? ==> s.links <= r.state.links <= pol.budget
    decreases pol.budget - s.links, |parts|
  {
    if parts == [] then Ok(s)
    else
      match Step(g, pol, s, parts[0], more || |parts| > 1)
      case Err(e) => Err(e)
      case Ok(s') => Walk(g, pol, s', parts[1..], more)
  }

  function Step(g: Graph, pol: Policy, s: State, part: string, more: bool): (r: Outcome)
    requires s.links <= pol.budget
    ensures r.Ok? ==> s.links <= r.state.links <= pol.budget
    decreases pol.budget - s.links, 0
  {
    if part == "" || part == "." then Ok(s)
    else if part == ".." then
      if s.at != [] then Ok(s.(at := Parent(s.at))) else Flag(pol, s)
    else
      var candidate := s.at + [part];
      if candidate !in g then
        if pol.keepMissing then Ok(s.(at := candidate)) else Err(NotExist)
      else
        match g[candidate]
        case Fault => Err(Failed)
        case Directory => Ok(s.(at := candidate))
        case File => if more then Err(NotDirectory) else Ok(s.(at := candidate))
        case Link(target) =>
          if s.links == pol.budget then Err(TooManyLinks)
          else if pol.confine && IsAbs(target) then Err(EscapesByLink)
          else Walk(g, pol, Enter(s, target), Split(target), more)
  }

  function Bind(g: Graph, pol: Policy, o: Outcome, parts: seq<string>, more: bool): Outcome
    requires o.Ok? ==> o.state.links <= pol.budget
  {
    match o
    case Err(e) => Err(e)
    case Ok(s) => Walk(g, pol, s, parts, more)
  }

  /** Resolution is compositional: resolving p and then q is resolving q from
      the state in which p ended. */
  lemma {:induction false} WalkAppend(g: Graph, pol: Policy, s: State, p: seq<string>, q: seq<string>, more: bool)
    requires s.links <= pol.budget
    ensures Walk(g, pol, s, p + q, more) == Bind(g, pol, Walk(g, pol, s, p, more || q != []), q, more)
    decreases |p|
  {
    if p == [] {
      assert p + q == q;
    } else {
      assert (p + q)[0] == p[0] && (p + q)[1..] == p[1..] + q;
      match Step(g, pol, s, p[0], more || |p + q| > 1)
      case Err(_) =>
      case Ok(s') => WalkAppend(g, pol, s', p[1..], q, more);
    }
  }

  /** The same on printed paths: links in p are expanded before a ".." at the
      start of q is looked at, and components of p that do not exist may be left
      again by q. */
  lemma ResolutionIsCompositional(g: Graph, p: string, q: string)
    ensures Walk(g, CHROOT, START, Split(p + "/" + q), false)
      == Bind(g, CHROOT, Walk(g, CHROOT, START, Split(p), true), Split(q), false)
  {
    SplitConcat(p, q);
    WalkAppend(g, CHROOT, START, Split(p), Split(q), false);
  }

  // ----- the worklist loop -----

  /** What is left to resolve, with nothing after it. */
  function Rest(g: Graph, s: State, parts: seq<string>): Outcome
    requires s.links <= CHROOT.budget
  {
    Walk(g, CHROOT, s, parts, false)
  }

  /** One component taken from the worklist; a link is replaced on the worklist
      by its target. */
  lemma TakeComponent(g: Graph, s: State, part: string, rest: seq<string>)
    requires s.links <= 255
    ensures var candidate, now := s.at + [part], Rest(g, s, [part] + rest);
      if part == "" || part == "." then now == Rest(g, s, rest)
      else if part == ".." then
        now == Rest(g, if s.at != [] then s.(at := Parent(s.at))
                       else s.(relativeEscape := s.relativeEscape || !s.followedAbsolute), rest)
      else if candidate !in g || g[candidate].Directory? then now == Rest(g, s.(at := candidate), rest)
      else
        match g[candidate]
        case Fault => now == Err(Failed)
        case File => now == if rest != [] then Err(NotDirectory) else Rest(g, s.(at := candidate), rest)
        case Directory => true
        case Link(target) =>
          now == if s.links == 255 then Err(TooManyLinks) else Rest(g, Enter(s, target), Split(target) + rest)
  {
    var parts := [part] + rest;
    assert parts[0] == part && parts[1..] == rest && (|parts| > 1 <==> rest != []);
    assert Rest(g, s, parts) == Bind(g, CHROOT, Step(g, CHROOT, s, part, rest != []), rest, false);
    var candidate := s.at + [part];
    if part !in ["", ".", ".."] && candidate in g && g[candidate].Link? && s.links < 255 {
      var target := g[candidate].target;
      WalkAppend(g, CHROOT, Enter(s, target), Split(target), rest, false);
    }
  }

  /** The longest list that expanding a link of the graph puts on the worklist. */
  ghost predicate LinksBounded(g: Graph, m: nat) {
    forall p | p in g && g[p].Link? :: |Split(g[p].target)| <= m
  }

  datatype Result = Success(path: Path, followedAbsolute: bool, relativeEscape: bool) | Failure(error: Error)

  function ResultOf(o: Outcome): Result {
    match o
    case Err(e) => Failure(e)
    case Ok(s) => Success(s.at, s.followedAbsolute, s.relativeEscape)
  }

  /** What `resolveFSRootPath` computes. */
  function Resolve(g: Graph, parts: seq<string>): Result {
    ResultOf(Walk(g, CHROOT, START, parts, false))
  }

  /** resolveFSRootPath.  Besides the refinement, its contract bounds the number
      of iterations on any graph, cyclic ones included. */
  method ResolveFSRootPath(g: Graph, path: string, ghost m: nat) returns (r: Result, iterations: nat)
    requires LinksBounded(g, m)
    ensures r == Resolve(g, Split(path))
    ensures iterations <= |Split(path)| + 255 * m
  {
    var parts := Split(path);
    var resolved: Path := [];
    var linksWalked := 0;
    var followedAbsoluteLink, relativeEscapeBeforeAbsolute := false, false;
    iterations := 0;
    ghost var goal := Rest(g, START, parts);
    while |parts| > 0
      invariant linksWalked <= 255
      invariant goal == Rest(g, State(resolved, linksWalked, followedAbsoluteLink, relativeEscapeBeforeAbsolute), parts)
      invariant iterations + |parts| <= |Split(path)| + Times(linksWalked, m)
      decreases 255 - linksWalked, |parts|
    {
      ghost var s := State(resolved, linksWalked, followedAbsoluteLink, relativeEscapeBeforeAbsolute);
      var part := parts[0];
      assert parts == [part] + parts[1..];
      parts := parts[1..];
      iterations := iterations + 1;
      assert goal == Rest(g, s, [part] + parts);
      TakeComponent(g, s, part, parts);
      if part == "" || part == "." {
        continue;
      }
      if part == ".." {
        if |resolved| > 0 {
          resolved := resolved[..|resolved| - 1];
        } else if !followedAbsoluteLink {
          relativeEscapeBeforeAbsolute := true;
        }
        continue;
      }
      var candidate := resolved + [part];
      if candidate !in g {
        resolved := candidate;
        continue;
      }
      var fi := g[candidate];
      if fi.Fault? {
        TimesIsBounded(linksWalked, 255, m);
        return Failure(Failed), iterations;
      }
      if !fi.Link? {
        if |parts| > 0 && !fi.Directory? {
          TimesIsBounded(linksWalked, 255, m);
          return Failure(NotDirectory), iterations;
        }
        resolved := candidate;
        continue;
      }
      if linksWalked == 255 {
        TimesIsBounded(linksWalked, 255, m);
        return Failure(TooManyLinks), iterations;
      }
      linksWalked := linksWalked + 1;
      var target := fi.target;
      if IsAbs(target) {
        followedAbsoluteLink := true;
        resolved := [];
      }
      assert |Split(target)| <= m;
      parts := Split(target) + parts;
    }
    TimesIsBounded(linksWalked, 255, m);
    r := Success(resolved, followedAbsoluteLink, relativeEscapeBeforeAbsolute);
  }

  /** k * m, by repeated addition. */
  ghost function Times(k: nat, m: nat): nat {
    if k == 0 then 0 else Times(k - 1, m) + m
  }

  lemma {:induction false} TimesIsBounded(k: nat, n: nat, m: nat)
    requires k <= n
    ensures Times(k, m) <= n * m
  {
    if k > 0 {
      TimesIsBounded(k - 1, n - 1, m);
      assert n * m == (n - 1) * m + m;
    }
  }

  // ----- the result is fully resolved -----

  /** No prefix is a link, and only the last component may be a file. */
  ghost predicate Resolved(g: Graph, p: Path) {
    && OrdinaryPath(p)
    && (forall q | q <= p && q != [] && q in g :: g[q].File? || g[q].Directory?)
    && (forall q | Below(q, p) && q != [] && q in g :: g[q].Directory?)
  }

  lemma ResolvedPrefix(g: Graph, p: Path, q: Path)
    requires Resolved(g, p) && q <= p
    ensures Resolved(g, q)
  {
  }

  /** While components follow, the resolved prefix may be entered. */
  ghost predicate Enterable(g: Graph, p: Path, more: bool) {
    Resolved(g, p) && (more && p != [] && p in g ==> g[p].Directory?)
  }

  lemma {:induction false} StepResolves(g: Graph, pol: Policy, s: State, part: string, more: bool)
    requires s.links <= pol.budget && Enterable(g, s.at, true) && '/' !in part
    ensures var o := Step(g, pol, s, part, more); o.Ok? ==> Enterable(g, o.state.at, more)
    decreases pol.budget - s.links, 0
  {
    if part == "" || part == "." {
    } else if part == ".." {
      if s.at != [] { ResolvedPrefix(g, s.at, Parent(s.at)); }
    } else {
      var candidate := s.at + [part];
      ParentOf(s.at, part);
      if candidate !in g || !g[candidate].Link? {
        forall q | Below(q, candidate) ensures q <= s.at { BelowParent(q, candidate); }
        forall n | n in candidate ensures Ordinary(n) {}
        if Step(g, pol, s, part, more).Ok? {
          forall q | q <= candidate && q != [] && q in g ensures g[q].File? || g[q].Directory? {
            if q != candidate { assert Below(q, candidate); }
          }
          forall q | Below(q, candidate) && q != [] && q in g ensures g[q].Directory? {
            if q != s.at { assert Below(q, s.at); }
          }
        }
      } else if s.links < pol.budget {
        var target := g[candidate].target;
        WalkResolves(g, pol, Enter(s, target), Split(target), more);
      }
    }
  }

  lemma {:induction false} WalkResolves(g: Graph, pol: Policy, s: State, parts: seq<string>, more: bool)
    requires s.links <= pol.budget && Enterable(g, s.at, more || parts != [])
    requires forall part | part in parts :: '/' !in part
    ensures var o := Walk(g, pol, s, parts, more); o.Ok? ==> Enterable(g, o.state.at, more)
    decreases pol.budget - s.links, |parts|
  {
    if parts != [] {
      assert parts[0] in parts;
      StepResolves(g, pol, s, parts[0], more || |parts| > 1);
      match Step(g, pol, s, parts[0], more || |parts| > 1)
      case Err(_) =>
      case Ok(s') => WalkResolves(g, pol, s', parts[1..], more);
    }
  }

  /** Following a resolved path only appends its components. */
  lemma {:induction false} WalkPlain(g: Graph, pol: Policy, s: State, p: Path, more: bool)
    requires s.links <= pol.budget && Resolved(g, s.at + p)
    requires more && s.at + p != [] && s.at + p in g ==> g[s.at + p].Directory?
    requires pol.keepMissing || forall q | q <= s.at + p && q != [] :: q in g
    ensures Walk(g, pol, s, p, more) == Ok(s.(at := s.at + p))
    decreases |p|
  {
    if p == [] {
      assert s.at + p == s.at;
    } else {
      var candidate := s.at + [p[0]];
      assert candidate + p[1..] == s.at + p;
      assert candidate <= s.at + p;
      assert p[0] in s.at + p;
      if |p| > 1 { assert Below(candidate, s.at + p); }
      if |p| == 1 { assert candidate == s.at + p; }
      WalkPlain(g, pol, s.(at := candidate), p[1..], more);
    }
  }

  /** Every successful result names no link and no ancestor that is a file, and
      resolving it again returns it unchanged with both flags clear. */
  lemma ResolveIsIdempotent(g: Graph, parts: seq<string>)
    requires forall part | part in parts :: '/' !in part
    ensures var r := Resolve(g, parts);
      r.Success? ==> Resolved(g, r.path) && Resolve(g, r.path) == Success(r.path, false, false)
  {
    WalkResolves(g, CHROOT, START, parts, false);
    match Walk(g, CHROOT, START, parts, false)
    case Err(_) =>
    case Ok(s) =>
      assert [] + s.at == s.at;
      WalkPlain(g, CHROOT, START, s.at, false);
  }

  // ----- the escape flags -----

  /** Runs a confined and a chroot-like resolution side by side: until the first
      escape they are in the same state, and the flags tell which escape came
      first. */
  ghost predicate SameUntilEscape(strict: Outcome, loose: Outcome) {
    match loose
    case Err(e) => strict == loose || strict == Err(EscapesByLink) || strict == Err(EscapesByDotDot)
    case Ok(l) =>
      if !l.followedAbsolute && !l.relativeEscape then strict == loose
      else strict == Err(if l.relativeEscape then EscapesByDotDot else EscapesByLink)
  }

  predicate Escaped(s: State) {
    s.followedAbsolute || s.relativeEscape
  }

  lemma {:induction false} FlagsPersist(g: Graph, s: State, parts: seq<string>, more: bool)
    requires s.links <= 255 && Escaped(s)
    ensures var o := Walk(g, CHROOT, s, parts, more);
      o.Ok? && s.followedAbsolute ==> o.state.followedAbsolute && o.state.relativeEscape == s.relativeEscape
    ensures var o := Walk(g, CHROOT, s, parts, more);
      o.Ok? && s.relativeEscape ==> o.state.relativeEscape
    decreases 255 - s.links, |parts|
  {
    if parts != [] {
      StepFlagsPersist(g, s, parts[0], more || |parts| > 1);
      match Step(g, CHROOT, s, parts[0], more || |parts| > 1)
      case Err(_) =>
      case Ok(s') => FlagsPersist(g, s', parts[1..], more);
    }
  }

  lemma {:induction false} StepFlagsPersist(g: Graph, s: State, part: string, more: bool)
    requires s.links <= 255 && Escaped(s)
    ensures var o := Step(g, CHROOT, s, part, more);
      o.Ok? && s.followedAbsolute ==> o.state.followedAbsolute && o.state.relativeEscape == s.relativeEscape
    ensures var o := Step(g, CHROOT, s, part, more);
      o.Ok? && s.relativeEscape ==> o.state.relativeEscape
    decreases 255 - s.links, 0
  {
    var candidate := s.at + [part];
    if part !in ["", ".", ".."] && candidate in g && g[candidate].Link? && s.links < 255 {
      FlagsPersist(g, Enter(s, g[candidate].target), Split(g[candidate].target), more);
    }
  }

  lemma {:induction false} StepEscapes(g: Graph, s: State, part: string, more: bool)
    requires s.links <= 255 && !Escaped(s)
    ensures SameUntilEscape(Step(g, STRICT, s, part, more), Step(g, CHROOT, s, part, more))
    decreases 255 - s.links, 0
  {
    var candidate := s.at + [part];
    if part !in ["", ".", ".."] && candidate in g && g[candidate].Link? && s.links < 255 {
      var target := g[candidate].target;
      if IsAbs(target) {
        FlagsPersist(g, Enter(s, target), Split(target), more);
      } else {
        WalkEscapes(g, Enter(s, target), Split(target), more);
      }
    }
  }

  lemma {:induction false} WalkEscapes(g: Graph, s: State, parts: seq<string>, more: bool)
    requires s.links <= 255 && !Escaped(s)
    ensures SameUntilEscape(Walk(g, STRICT, s, parts, more), Walk(g, CHROOT, s, parts, more))
    decreases 255 - s.links, |parts|
  {
    if parts != [] {
      StepEscapes(g, s, parts[0], more || |parts| > 1);
      match Step(g, CHROOT, s, parts[0], more || |parts| > 1)
      case Err(_) =>
      case Ok(s') =>
        if Escaped(s') {
          FlagsPersist(g, s', parts[1..], more);
        } else {
          WalkEscapes(g, s', parts[1..], more);
        }
    }
  }

  /** The flags are exact: on a successful run both are clear iff the confined
      resolution succeeds, and then with the same path; otherwise the confined
      resolution fails by the escape that the flags name. */
  lemma EscapeFlagsAreExact(g: Graph, parts: seq<string>)
    ensures var r, strict := Resolve(g, parts), Walk(g, STRICT, START, parts, false);
      r.Success? ==>
        && ((!r.followedAbsolute && !r.relativeEscape) <==> strict.Ok?)
        && (strict.Ok? ==> strict.state.at == r.path)
        && (r.relativeEscape <==> strict == Err(EscapesByDotDot))
        && (r.followedAbsolute && !r.relativeEscape <==> strict == Err(EscapesByLink))
  {
    WalkEscapes(g, START, parts, false);
  }

  // ----- os.Root against the chroot-like resolver -----

  /** Where `os.Root` reaches a file, the chroot-like resolver reaches the same
      one; where it stops at an escape, the flags name that escape. */
  ghost predicate Refines(root: Outcome, loose: Outcome) {
    && (root.Ok? ==> loose == root && !Escaped(root.state))
    && (root == Err(EscapesByLink) && loose.Ok? ==> loose.state.followedAbsolute && !loose.state.relativeEscape)
    && (root == Err(EscapesByDotDot) && loose.Ok? ==> loose.state.relativeEscape)
  }

  lemma {:induction false} StepRefines(g: Graph, s: State, part: string, more: bool)
    requires s.links <= OS_ROOT.budget && !Escaped(s)
    ensures Refines(Step(g, OS_ROOT, s, part, more), Step(g, CHROOT, s, part, more))
    decreases OS_ROOT.budget - s.links, 0
  {
    var candidate := s.at + [part];
    if part !in ["", ".", ".."] && candidate in g && g[candidate].Link? && s.links < OS_ROOT.budget {
      var target := g[candidate].target;
      if IsAbs(target) {
        FlagsPersist(g, Enter(s, target), Split(target), more);
      } else {
        WalkRefines(g, Enter(s, target), Split(target), more);
      }
    }
  }

  lemma {:induction false} WalkRefines(g: Graph, s: State, parts: seq<string>, more: bool)
    requires s.links <= OS_ROOT.budget && !Escaped(s)
    ensures Refines(Walk(g, OS_ROOT, s, parts, more), Walk(g, CHROOT, s, parts, more))
    decreases OS_ROOT.budget - s.links, |parts|
  {
    if parts != [] {
      StepRefines(g, s, parts[0], more || |parts| > 1);
      match Step(g, OS_ROOT, s, parts[0], more || |parts| > 1)
      case Ok(s') => WalkRefines(g, s', parts[1..], more);
      case Err(_) =>
        match Step(g, CHROOT, s, parts[0], more || |parts| > 1)
        case Err(_) =>
        case Ok(s') => if Escaped(s') { FlagsPersist(g, s', parts[1..], more); }
    }
  }

  /** Removing names from the graph does not redirect `os.Root`: what it still
      reaches, it reached before. */
  lemma {:induction false} WalkInSubgraph(g: Graph, h: Graph, s: State, parts: seq<string>, more: bool)
    requires s.links <= OS_ROOT.budget
    requires forall p | p in h :: p in g && g[p] == h[p]
    ensures var o := Walk(h, OS_ROOT, s, parts, more); o.Ok? ==> Walk(g, OS_ROOT, s, parts, more) == o
    decreases OS_ROOT.budget - s.links, |parts|
  {
    if parts != [] {
      var candidate := s.at + [parts[0]];
      var more' := more || |parts| > 1;
      if parts[0] !in ["", ".", ".."] && candidate in h && h[candidate].Link? && s.links < OS_ROOT.budget
        && !IsAbs(h[candidate].target)
      {
        WalkInSubgraph(g, h, Enter(s, h[candidate].target), Split(h[candidate].target), more');
      }
      match Step(h, OS_ROOT, s, parts[0], more')
      case Err(_) =>
      case Ok(s') => WalkInSubgraph(g, h, s', parts[1..], more);
    }
  }
}
