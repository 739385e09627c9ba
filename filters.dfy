/** Dependency closure: the dependencies of a node are collected by
    following links out of it, recursively, and a selection of names is
    widened to the selected nodes and all their dependencies. */
module Filters {
  import opened Arrays
  import opened Interfaces

  // ---------------------------------------------------------------------
  // Requirements of a node
  // ---------------------------------------------------------------------

  /** Every link has a defined source among `nodes`: collecting requirements
      reads `link.source.name` of every link, which fails on `undefined`. */
  ghost predicate SourcesDefined(nodes: seq<Node>, links: seq<Link>)
    decreases |links|
  {
    links == [] || (links[0].source.Some? && links[0].source.value < |nodes| && SourcesDefined(nodes, links[1..]))
  }

  /** `SourcesDefined` says of every link, by position, that its source is
      defined and among `nodes`. */
  lemma {:induction false} SourcesDefinedMeans(nodes: seq<Node>, links: seq<Link>)
    ensures SourcesDefined(nodes, links) <==>
      forall k :: 0 <= k < |links| ==> links[k].source.Some? && links[k].source.value < |nodes|
    decreases |links|
  {
    if links != [] {
      SourcesDefinedMeans(nodes, links[1..]);
      assert forall k :: 1 <= k < |links| ==> links[k] == links[1..][k - 1];
    }
  }

  /** Link `l` leaves a node named like `n`; nodes are compared by name here. */
  predicate LeavesFrom(nodes: seq<Node>, l: Link, n: NodeId)
  {
    l.source.Some? && l.source.value < |nodes| && n < |nodes| &&
    nodes[l.source.value].name == nodes[n].name
  }

  /** `links.filter(link => link.source.name === node.name).map(link => link.target)`:
      the targets of the links leaving a node named like `n`, in link order. */
  function Requirements(nodes: seq<Node>, links: seq<Link>, n: NodeId): (r: seq<Option<NodeId>>)
    ensures |r| <= |links|
    decreases |links|
  {
    if links == [] then []
    else
      var rest := Requirements(nodes, links[1..], n);
      if LeavesFrom(nodes, links[0], n) then [links[0].target] + rest else rest
  }

  /** A requirement of `n` is exactly the target of a link leaving a node
      named like `n`. */
  lemma {:induction false} RequirementsMembers(nodes: seq<Node>, links: seq<Link>, n: NodeId)
    ensures forall t :: t in Requirements(nodes, links, n) <==>
      exists l :: l in links && LeavesFrom(nodes, l, n) && l.target == t
    decreases |links|
  {
    if links != [] {
      RequirementsMembers(nodes, links[1..], n);
      assert forall l :: l in links <==> l == links[0] || l in links[1..];
    }
  }

  /** The requirements of a concatenation are those of each part, in
      order: one entry per leaving link, in link order, repeats kept. */
  lemma {:induction false} RequirementsAppend(nodes: seq<Node>, a: seq<Link>, b: seq<Link>, n: NodeId)
    ensures Requirements(nodes, a + b, n) == Requirements(nodes, a, n) + Requirements(nodes, b, n)
    decreases |a|
  {
    if a == [] {
      assert a + b == b;
    } else {
      RequirementsAppend(nodes, a[1..], b, n);
      assert (a + b)[1..] == a[1..] + b;
      assert (a + b)[0] == a[0];
    }
  }

  /** A single link contributes its target exactly when it leaves a node
      named like `n`. */
  lemma {:induction false} RequirementsOne(nodes: seq<Node>, l: Link, n: NodeId)
    ensures Requirements(nodes, [l], n) == if LeavesFrom(nodes, l, n) then [l.target] else []
  {
    assert [l][1..] == [];
  }

  /** The defined nodes among a list of requirements, in order. */
  function Targets(rs: seq<Option<NodeId>>): seq<NodeId>
    decreases |rs|
  {
    if rs == [] then []
    else
      match rs[0]
      case Some(t) => [t] + Targets(rs[1..])
      case None => Targets(rs[1..])
  }

  /** The targets are the defined requirements. */
  lemma {:induction false} TargetsMembers(rs: seq<Option<NodeId>>)
    ensures forall t :: t in Targets(rs) <==> Some(t) in rs
    decreases |rs|
  {
    if rs != [] {
      TargetsMembers(rs[1..]);
      assert forall o :: o in rs <==> o == rs[0] || o in rs[1..];
    }
  }

  /** When no requirement is undefined, the targets are the requirements
      themselves, position by position. */
  lemma {:induction false} TargetsOfDefined(rs: seq<Option<NodeId>>)
    requires forall o :: o in rs ==> o.Some?
    ensures |Targets(rs)| == |rs|
    ensures forall k :: 0 <= k < |rs| ==> rs[k] == Some(Targets(rs)[k])
    decreases |rs|
  {
    if rs != [] {
      assert rs[0] in rs;
      assert forall o :: o in rs[1..] ==> o in rs;
      TargetsOfDefined(rs[1..]);
    }
  }

  // ---------------------------------------------------------------------
  // Reference definitions: direct successors, bounded reachability, paths
  // ---------------------------------------------------------------------

  /** The nodes a node named like `n` directly requires. */
  ghost function Succ(nodes: seq<Node>, links: seq<Link>, n: NodeId): set<NodeId>
  {
    set l | l in links && LeavesFrom(nodes, l, n) && l.target.Some? :: l.target.value
  }

  /** The nodes reachable from `n` in one to `d` steps. */
  ghost function Reach(nodes: seq<Node>, links: seq<Link>, n: NodeId, d: nat): set<NodeId>
    decreases d, 0
  {
    if d == 0 then {}
    else Succ(nodes, links, n) + ReachFrom(nodes, links, Succ(nodes, links, n), d - 1)
  }

  /** The nodes reachable from some node of `s` in one to `d` steps. */
  ghost function ReachFrom(nodes: seq<Node>, links: seq<Link>, s: set<NodeId>, d: nat): set<NodeId>
    decreases d, 1
  {
    set t, m | t in s && m in Reach(nodes, links, t, d) :: m
  }

  /** A chain of at least one link, each step going to a direct requirement. */
  ghost predicate IsPath(nodes: seq<Node>, links: seq<Link>, p: seq<NodeId>)
  {
    |p| >= 2 && forall k :: 0 <= k < |p| - 1 ==> p[k + 1] in Succ(nodes, links, p[k])
  }

  /** `m` is reachable from `n` by following one or more links. */
  ghost predicate Reachable(nodes: seq<Node>, links: seq<Link>, n: NodeId, m: NodeId)
  {
    exists p :: IsPath(nodes, links, p) && p[0] == n && p[|p| - 1] == m
  }

  /** The direct successors are the defined requirements. */
  lemma {:induction false} SuccIsRequirements(nodes: seq<Node>, links: seq<Link>, n: NodeId)
    ensures forall t :: t in Succ(nodes, links, n) <==> t in Targets(Requirements(nodes, links, n))
  {
    RequirementsMembers(nodes, links, n);
    TargetsMembers(Requirements(nodes, links, n));
    forall t | Some(t) in Requirements(nodes, links, n) ensures t in Succ(nodes, links, n) {
      var l :| l in links && LeavesFrom(nodes, l, n) && l.target == Some(t);
    }
  }

  // ---------------------------------------------------------------------
  // The termination condition
  // ---------------------------------------------------------------------

  /** What `getDependencies` needs to end without reading a field of
      `undefined`: every requirement of `n` is a defined node, and `d`
      bounds the length of every chain of requirements starting at `n`
      (there is no visited set, so a cycle would recurse for ever). */
  ghost predicate Bounded(nodes: seq<Node>, links: seq<Link>, n: NodeId, d: nat)
    decreases d
  {
    forall t :: t in Requirements(nodes, links, n) ==>
      t.Some? && t.value < |nodes| && d > 0 && Bounded(nodes, links, t.value, d - 1)
  }

  /** Under the bound, a node with requirements has depth left, and its
      targets are nodes bounded one step less. */
  lemma {:induction false} BoundedStep(nodes: seq<Node>, links: seq<Link>, n: NodeId, d: nat)
    requires Bounded(nodes, links, n, d)
    requires |Requirements(nodes, links, n)| > 0
    ensures d > 0
    ensures forall t :: t in Requirements(nodes, links, n) ==> t.Some?
    ensures forall r :: r in Targets(Requirements(nodes, links, n)) ==>
      r < |nodes| && Bounded(nodes, links, r, d - 1)
  {
    var reqs := Requirements(nodes, links, n);
    assert reqs[0] in reqs;
    TargetsMembers(reqs);
  }

  /** Under the bound, every direct successor is a node bounded one step less. */
  lemma {:induction false} BoundedSucc(nodes: seq<Node>, links: seq<Link>, n: NodeId, d: nat, t: NodeId)
    requires Bounded(nodes, links, n, d) && t in Succ(nodes, links, n)
    ensures d > 0 && t < |nodes| && Bounded(nodes, links, t, d - 1)
  {
    SuccIsRequirements(nodes, links, n);
    TargetsMembers(Requirements(nodes, links, n));
  }

  /** A larger bound is still a bound. */
  lemma {:induction false} BoundedMono(nodes: seq<Node>, links: seq<Link>, n: NodeId, e: nat, d: nat)
    requires Bounded(nodes, links, n, e) && e <= d
    ensures Bounded(nodes, links, n, d)
    decreases e
  {
    forall t | t in Requirements(nodes, links, n)
      ensures t.Some? && t.value < |nodes| && d > 0 && Bounded(nodes, links, t.value, d - 1)
    {
      BoundedMono(nodes, links, t.value, e - 1, d - 1);
    }
  }

  // ---------------------------------------------------------------------
  // getDependencies
  // ---------------------------------------------------------------------

  /** The dependencies `getDependencies(node, links, acc)` returns: when the
      node has requirements, they are appended to the accumulator, then each
      requirement's own dependencies, in requirement order. `d` is the depth
      bound of `Bounded`; the cut-off at 0 is never reached under it. */
  function Deps(nodes: seq<Node>, links: seq<Link>, n: NodeId, d: nat, acc: seq<NodeId>): (r: seq<NodeId>)
    ensures |acc| <= |r|
    decreases d, 0
  {
    var reqs := Requirements(nodes, links, n);
    if |reqs| == 0 || d == 0 then acc
    else
      var ts := Targets(reqs);
      DepsAll(nodes, links, ts, d - 1, acc + ts)
  }

  /** The `forEach` over the requirements, threading the accumulator. */
  function DepsAll(nodes: seq<Node>, links: seq<Link>, rs: seq<NodeId>, d: nat, acc: seq<NodeId>): (r: seq<NodeId>)
    ensures |acc| <= |r|
    decreases d, 1, |rs|
  {
    if rs == [] then acc
    else DepsAll(nodes, links, rs[1..], d, Deps(nodes, links, rs[0], d, acc))
  }

  /** `getDependencies`: recursive, with the `forEach` as a loop rebinding
      the accumulator. The result is the accumulator, then the node's direct
      requirements in link order, then deeper dependencies; what is added
      is exactly the set of nodes reachable from `node`, which never
      includes `node` itself. */
  method GetDependencies(nodes: seq<Node>, links: seq<Link>, node: NodeId, dependencies: seq<NodeId>, ghost d: nat)
    returns (r: seq<NodeId>)
    requires SourcesDefined(nodes, links) && node < |nodes| && Bounded(nodes, links, node, d)
    ensures r == Deps(nodes, links, node, d, dependencies)
    ensures |Requirements(nodes, links, node)| == 0 ==> r == dependencies
    ensures r == dependencies + Deps(nodes, links, node, d, [])
    ensures |dependencies| + |Requirements(nodes, links, node)| <= |r|
    ensures forall k :: 0 <= k < |Requirements(nodes, links, node)| ==>
      Requirements(nodes, links, node)[k] == Some(r[|dependencies| + k])
    ensures forall m :: m in r[|dependencies|..] <==> Reachable(nodes, links, node, m)
    ensures node !in r[|dependencies|..]
    decreases d
  {
    var requirements := Requirements(nodes, links, node);
    if |requirements| == 0 {
      r := dependencies;
    } else {
      BoundedStep(nodes, links, node, d);
      var rs := Targets(requirements);
      r := dependencies + rs;
      var i := 0;
      while i < |rs|
        invariant 0 <= i <= |rs|
        invariant DepsAll(nodes, links, rs[i..], d - 1, r) == Deps(nodes, links, node, d, dependencies)
      {
        assert rs[i] in rs;
        assert rs[i..][1..] == rs[i + 1..];
        r := GetDependencies(nodes, links, rs[i], r, d - 1);
        i := i + 1;
      }
    }
    DepsAccumulates(nodes, links, node, d, dependencies);
    DirectRequirementsFirst(nodes, links, node, d, dependencies);
    var added := Deps(nodes, links, node, d, []);
    assert r[|dependencies|..] == added;
    DepsIsReach(nodes, links, node, d);
    forall m ensures m in added <==> Reachable(nodes, links, node, m) {
      ReachIsReachable(nodes, links, node, d, m);
    }
    NotSelfReachable(nodes, links, node, d);
  }

  /** The accumulator is only ever extended: the result is the accumulator
      followed by what the node contributes, whatever the accumulator was. */
  lemma {:induction false} DepsAccumulates(nodes: seq<Node>, links: seq<Link>, n: NodeId, d: nat, acc: seq<NodeId>)
    ensures Deps(nodes, links, n, d, acc) == acc + Deps(nodes, links, n, d, [])
    decreases d, 0
  {
    var reqs := Requirements(nodes, links, n);
    if |reqs| > 0 && d > 0 {
      var ts := Targets(reqs);
      var rest := DepsAll(nodes, links, ts, d - 1, []);
      DepsAllAccumulates(nodes, links, ts, d - 1, acc + ts);
      DepsAllAccumulates(nodes, links, ts, d - 1, ts);
      assert [] + ts == ts;
      assert Deps(nodes, links, n, d, acc) == acc + ts + rest;
      assert Deps(nodes, links, n, d, []) == ts + rest;
      assert acc + ts + rest == acc + (ts + rest);
    }
  }

  lemma {:induction false} DepsAllAccumulates(nodes: seq<Node>, links: seq<Link>, rs: seq<NodeId>, d: nat, acc: seq<NodeId>)
    ensures DepsAll(nodes, links, rs, d, acc) == acc + DepsAll(nodes, links, rs, d, [])
    decreases d, 1, |rs|
  {
    if rs != [] {
      var first := Deps(nodes, links, rs[0], d, []);
      var rest := DepsAll(nodes, links, rs[1..], d, []);
      DepsAccumulates(nodes, links, rs[0], d, acc);
      DepsAllAccumulates(nodes, links, rs[1..], d, acc + first);
      DepsAllAccumulates(nodes, links, rs[1..], d, first);
      assert DepsAll(nodes, links, rs, d, acc) == acc + first + rest;
      assert DepsAll(nodes, links, rs, d, []) == first + rest;
      assert acc + first + rest == acc + (first + rest);
    }
  }

  /** Right after the accumulator come the node's direct requirements, in
      link order, before anything deeper. */
  lemma {:induction false} DirectRequirementsFirst(nodes: seq<Node>, links: seq<Link>, n: NodeId, d: nat, acc: seq<NodeId>)
    requires Bounded(nodes, links, n, d)
    ensures |acc| + |Requirements(nodes, links, n)| <= |Deps(nodes, links, n, d, acc)|
    ensures forall k :: 0 <= k < |Requirements(nodes, links, n)| ==>
      Requirements(nodes, links, n)[k] == Some(Deps(nodes, links, n, d, acc)[|acc| + k])
  {
    var reqs := Requirements(nodes, links, n);
    if |reqs| > 0 {
      BoundedStep(nodes, links, n, d);
      TargetsOfDefined(reqs);
      var ts := Targets(reqs);
      DepsAllAccumulates(nodes, links, ts, d - 1, acc + ts);
      var res := Deps(nodes, links, n, d, acc);
      assert res == acc + ts + DepsAll(nodes, links, ts, d - 1, []);
      assert forall k :: 0 <= k < |ts| ==> res[|acc| + k] == ts[k];
    }
  }

  /** What a node contributes is exactly the set of nodes reachable from it
      within the depth bound. */
  lemma {:induction false} DepsIsReach(nodes: seq<Node>, links: seq<Link>, n: NodeId, d: nat)
    ensures forall m :: m in Deps(nodes, links, n, d, []) <==> m in Reach(nodes, links, n, d)
    decreases d, 0
  {
    var reqs := Requirements(nodes, links, n);
    SuccIsRequirements(nodes, links, n);
    if |reqs| > 0 && d > 0 {
      var ts := Targets(reqs);
      assert [] + ts == ts;
      assert Elems(ts) == Succ(nodes, links, n);
      DepsAllAccumulates(nodes, links, ts, d - 1, ts);
      DepsAllIsReach(nodes, links, ts, d - 1);
    }
  }

  lemma {:induction false} DepsAllIsReach(nodes: seq<Node>, links: seq<Link>, rs: seq<NodeId>, d: nat)
    ensures forall m :: m in DepsAll(nodes, links, rs, d, []) <==> m in ReachFrom(nodes, links, Elems(rs), d)
    decreases d, 1, |rs|
  {
    if rs != [] {
      var first := Deps(nodes, links, rs[0], d, []);
      DepsAccumulates(nodes, links, rs[0], d, []);
      DepsAllAccumulates(nodes, links, rs[1..], d, first);
      DepsIsReach(nodes, links, rs[0], d);
      DepsAllIsReach(nodes, links, rs[1..], d);
      assert Elems(rs) == {rs[0]} + Elems(rs[1..]);
      assert ReachFrom(nodes, links, Elems(rs), d)
        == Reach(nodes, links, rs[0], d) + ReachFrom(nodes, links, Elems(rs[1..]), d);
    }
  }

  // ---------------------------------------------------------------------
  // Reachability within the bound is reachability
  // ---------------------------------------------------------------------

  /** Everything within the depth bound is reachable by a path, and under
      the bound everything reachable is within it. */
  lemma {:induction false} ReachIsReachable(nodes: seq<Node>, links: seq<Link>, n: NodeId, d: nat, m: NodeId)
    ensures m in Reach(nodes, links, n, d) ==> Reachable(nodes, links, n, m)
    ensures Bounded(nodes, links, n, d) && Reachable(nodes, links, n, m) ==> m in Reach(nodes, links, n, d)
  {
    if m in Reach(nodes, links, n, d) {
      var p := PathTo(nodes, links, n, d, m);
    }
    if Bounded(nodes, links, n, d) && Reachable(nodes, links, n, m) {
      var p :| IsPath(nodes, links, p) && p[0] == n && p[|p| - 1] == m;
      PathInReach(nodes, links, p, d);
    }
  }

  /** A path to a node within the depth bound. */
  lemma {:induction false} PathTo(nodes: seq<Node>, links: seq<Link>, n: NodeId, d: nat, m: NodeId) returns (p: seq<NodeId>)
    requires m in Reach(nodes, links, n, d)
    ensures IsPath(nodes, links, p) && p[0] == n && p[|p| - 1] == m
    decreases d
  {
    if m in Succ(nodes, links, n) {
      p := [n, m];
    } else {
      assert m in ReachFrom(nodes, links, Succ(nodes, links, n), d - 1);
      var t :| t in Succ(nodes, links, n) && m in Reach(nodes, links, t, d - 1);
      var q := PathTo(nodes, links, t, d - 1, m);
      p := [n] + q;
      forall k | 1 <= k < |p| - 1 ensures p[k + 1] in Succ(nodes, links, p[k]) {
        assert p[k] == q[k - 1];
      }
    }
  }

  /** Under the bound, the end of every path from a node is within the bound. */
  lemma {:induction false} PathInReach(nodes: seq<Node>, links: seq<Link>, p: seq<NodeId>, d: nat)
    requires IsPath(nodes, links, p) && Bounded(nodes, links, p[0], d)
    ensures p[|p| - 1] in Reach(nodes, links, p[0], d)
    decreases |p|
  {
    assert p[1] in Succ(nodes, links, p[0]);
    BoundedSucc(nodes, links, p[0], d, p[1]);
    if |p| > 2 {
      var q := p[1..];
      assert IsPath(nodes, links, q) by {
        forall k | 0 <= k < |q| - 1 ensures q[k + 1] in Succ(nodes, links, q[k]) {
          assert q[k] == p[k + 1];
        }
      }
      PathInReach(nodes, links, q, d - 1);
      assert p[|p| - 1] in ReachFrom(nodes, links, Succ(nodes, links, p[0]), d - 1);
    }
  }

  /** Once a bound holds, raising it reaches nothing new. */
  lemma {:induction false} ReachSettles(nodes: seq<Node>, links: seq<Link>, n: NodeId, e: nat, d: nat)
    requires Bounded(nodes, links, n, e) && e <= d
    ensures Reach(nodes, links, n, e) == Reach(nodes, links, n, d)
    decreases e
  {
    var succ := Succ(nodes, links, n);
    if succ != {} {
      var t0 :| t0 in succ;
      BoundedSucc(nodes, links, n, e, t0);
      forall t | t in succ ensures Reach(nodes, links, t, e - 1) == Reach(nodes, links, t, d - 1) {
        BoundedSucc(nodes, links, n, e, t);
        ReachSettles(nodes, links, t, e - 1, d - 1);
      }
      assert ReachFrom(nodes, links, succ, e - 1) == ReachFrom(nodes, links, succ, d - 1);
    }
  }

  /** Under the bound, a node at distance one or more keeps a bound one less. */
  lemma {:induction false} ReachBounded(nodes: seq<Node>, links: seq<Link>, n: NodeId, d: nat, m: NodeId)
    requires Bounded(nodes, links, n, d) && m in Reach(nodes, links, n, d)
    ensures d > 0 && Bounded(nodes, links, m, d - 1)
    decreases d
  {
    if m in Succ(nodes, links, n) {
      BoundedSucc(nodes, links, n, d, m);
    } else {
      assert m in ReachFrom(nodes, links, Succ(nodes, links, n), d - 1);
      var t :| t in Succ(nodes, links, n) && m in Reach(nodes, links, t, d - 1);
      BoundedSucc(nodes, links, n, d, t);
      ReachBounded(nodes, links, t, d - 1, m);
      BoundedMono(nodes, links, m, d - 2, d - 1);
    }
  }

  /** Under the bound no node reaches itself, so `getDependencies` never
      adds its start node. */
  lemma {:induction false} NotSelfReachable(nodes: seq<Node>, links: seq<Link>, n: NodeId, d: nat)
    requires Bounded(nodes, links, n, d)
    ensures n !in Reach(nodes, links, n, d)
    decreases d
  {
    if n in Reach(nodes, links, n, d) {
      ReachBounded(nodes, links, n, d, n);
      ReachSettles(nodes, links, n, d - 1, d);
      NotSelfReachable(nodes, links, n, d - 1);
    }
  }

  /** The bound is a proof device only: any bound gives the same result. */
  lemma {:induction false} DepsSettles(nodes: seq<Node>, links: seq<Link>, n: NodeId, e: nat, d: nat, acc: seq<NodeId>)
    requires Bounded(nodes, links, n, e) && e <= d
    ensures Deps(nodes, links, n, e, acc) == Deps(nodes, links, n, d, acc)
    decreases e, 0
  {
    var reqs := Requirements(nodes, links, n);
    if |reqs| > 0 {
      BoundedStep(nodes, links, n, e);
      DepsAllSettles(nodes, links, Targets(reqs), e - 1, d - 1, acc + Targets(reqs));
    }
  }

  lemma {:induction false} DepsAllSettles(nodes: seq<Node>, links: seq<Link>, rs: seq<NodeId>, e: nat, d: nat, acc: seq<NodeId>)
    requires forall r :: r in rs ==> Bounded(nodes, links, r, e)
    requires e <= d
    ensures DepsAll(nodes, links, rs, e, acc) == DepsAll(nodes, links, rs, d, acc)
    decreases e, 1, |rs|
  {
    if rs != [] {
      assert rs[0] in rs;
      assert forall r :: r in rs[1..] ==> r in rs;
      DepsSettles(nodes, links, rs[0], e, d, acc);
      DepsAllSettles(nodes, links, rs[1..], e, d, Deps(nodes, links, rs[0], e, acc));
    }
  }

  // ---------------------------------------------------------------------
  // nodesWithDependencies
  // ---------------------------------------------------------------------

  /** `nodes.filter(node => names.includes(node.name))`, as positions: the
      nodes whose name is among `names`, in `nodes` order. */
  function Seeds(nodes: seq<Node>, names: seq<string>): (s: seq<NodeId>)
    ensures forall k :: 0 <= k < |s| ==> s[k] < |nodes| && nodes[s[k]].name in names
    ensures forall k, k' :: 0 <= k < k' < |s| ==> s[k] < s[k']
    decreases |nodes|
  {
    if nodes == [] then []
    else
      var init := Seeds(nodes[..|nodes| - 1], names);
      if nodes[|nodes| - 1].name in names then init + [|nodes| - 1] else init
  }

  /** Every node whose name is among `names` is a seed. */
  lemma {:induction false} SeedsComplete(nodes: seq<Node>, names: seq<string>, i: nat)
    requires i < |nodes| && nodes[i].name in names
    ensures i in Seeds(nodes, names)
    decreases |nodes|
  {
    if i < |nodes| - 1 {
      SeedsComplete(nodes[..|nodes| - 1], names, i);
    }
  }

  /** The dependencies of each seed, concatenated in seed order. */
  function SeedDeps(nodes: seq<Node>, links: seq<Link>, seeds: seq<NodeId>, d: nat): (r: seq<NodeId>)
    ensures forall s, m :: s in seeds && m in Deps(nodes, links, s, d, []) ==> m in r
    decreases |seeds|
  {
    if seeds == [] then []
    else SeedDeps(nodes, links, seeds[..|seeds| - 1], d) + Deps(nodes, links, seeds[|seeds| - 1], d, [])
  }

  /** One more seed appends that seed's dependencies. */
  lemma {:induction false} SeedDepsStep(nodes: seq<Node>, links: seq<Link>, seeds: seq<NodeId>, i: nat, d: nat)
    requires i < |seeds|
    ensures SeedDeps(nodes, links, seeds[..i + 1], d) == SeedDeps(nodes, links, seeds[..i], d) + Deps(nodes, links, seeds[i], d, [])
  {
    assert seeds[..i + 1][..i] == seeds[..i];
  }

  /** `m` is a seed or reachable from a seed. */
  ghost predicate Selected(nodes: seq<Node>, links: seq<Link>, names: seq<string>, m: NodeId)
  {
    m in Seeds(nodes, names) || exists s :: s in Seeds(nodes, names) && Reachable(nodes, links, s, m)
  }

  /** The demand of `getDependencies`, met for every seed. */
  ghost predicate SeedsBounded(nodes: seq<Node>, links: seq<Link>, seeds: seq<NodeId>, d: nat)
  {
    forall s :: s in seeds ==> s < |nodes| && Bounded(nodes, links, s, d)
  }

  /** The demand of `getDependencies`, for the `i`-th seed. */
  lemma {:induction false} SeedIsBounded(nodes: seq<Node>, links: seq<Link>, seeds: seq<NodeId>, d: nat, i: nat)
    requires SeedsBounded(nodes, links, seeds, d) && i < |seeds|
    ensures seeds[i] < |nodes| && Bounded(nodes, links, seeds[i], d)
  {
    assert seeds[i] in seeds;
  }

  /** What `nodesWithDependencies(names, nodes, links)` returns: the seeds
      followed by each seed's dependencies, with repeats removed. */
  function Filtered(nodes: seq<Node>, links: seq<Link>, names: seq<string>, d: nat): (r: seq<NodeId>)
    ensures NoDups(r)
    ensures Seeds(nodes, names) <= r
  {
    var seeds := Seeds(nodes, names);
    var rest := SeedDeps(nodes, links, seeds, d);
    DedupOfDistinct(seeds);
    DedupExtends(seeds, rest);
    Dedup(seeds + rest)
  }

  /** `nodesWithDependencies`: the loop goes over the original seeds only
      (rebinding `filteredNodes` does not change what `forEach` visits),
      appending each seed's dependencies; a `Set` then removes repeats. */
  method NodesWithDependencies(names: seq<string>, nodes: seq<Node>, links: seq<Link>, ghost d: nat)
    returns (r: seq<NodeId>)
    requires |Seeds(nodes, names)| > 0 ==> SourcesDefined(nodes, links)
    requires SeedsBounded(nodes, links, Seeds(nodes, names), d)
    ensures r == Filtered(nodes, links, names, d)
    ensures NoDups(r)
    ensures |Seeds(nodes, names)| <= |r| && r[..|Seeds(nodes, names)|] == Seeds(nodes, names)
    ensures forall m :: m in r <==> Selected(nodes, links, names, m)
  {
    var seeds := Seeds(nodes, names);
    var filteredNodes := seeds;
    var i := 0;
    while i < |seeds|
      invariant 0 <= i <= |seeds|
      invariant filteredNodes == seeds + SeedDeps(nodes, links, seeds[..i], d)
    {
      filteredNodes := AddDependencies(nodes, links, seeds, i, filteredNodes, d);
      SeedDepsStep(nodes, links, seeds, i, d);
      i := i + 1;
    }
    assert seeds[..i] == seeds;
    assert filteredNodes == seeds + SeedDeps(nodes, links, seeds, d);
    r := Dedup(filteredNodes);
    assert r == Filtered(nodes, links, names, d);
    FilteredContents(nodes, links, names, d);
  }

  /** The `forEach` callback of `nodesWithDependencies`: appends the
      dependencies of the `i`-th seed. */
  method AddDependencies(nodes: seq<Node>, links: seq<Link>, seeds: seq<NodeId>, i: nat, filteredNodes: seq<NodeId>, ghost d: nat)
    returns (r: seq<NodeId>)
    requires SourcesDefined(nodes, links) && SeedsBounded(nodes, links, seeds, d) && i < |seeds|
    ensures r == filteredNodes + Deps(nodes, links, seeds[i], d, [])
  {
    SeedIsBounded(nodes, links, seeds, d, i);
    var deps := GetDependencies(nodes, links, seeds[i], [], d);
    r := filteredNodes + deps;
  }

  /** The appended dependencies are those of some seed. */
  lemma {:induction false} SeedDepsMembers(nodes: seq<Node>, links: seq<Link>, seeds: seq<NodeId>, d: nat)
    ensures forall m :: m in SeedDeps(nodes, links, seeds, d) <==>
      exists s :: s in seeds && m in Deps(nodes, links, s, d, [])
    decreases |seeds|
  {
    if seeds != [] {
      var init := seeds[..|seeds| - 1];
      var last := seeds[|seeds| - 1];
      SeedDepsMembers(nodes, links, init, d);
      assert seeds == init + [last];
      forall m ensures m in SeedDeps(nodes, links, seeds, d) <==>
        exists s :: s in seeds && m in Deps(nodes, links, s, d, [])
      {
        if m in Deps(nodes, links, last, d, []) {
          assert last in seeds;
        }
        if exists s :: s in seeds && m in Deps(nodes, links, s, d, []) {
          var s :| s in seeds && m in Deps(nodes, links, s, d, []);
          if s != last {
            assert s in init;
          }
        }
      }
    }
  }

  /** The filtered nodes have no repeats, start with the seeds in `nodes`
      order, and are exactly the seeds and the nodes reachable from a seed. */
  lemma {:induction false} FilteredContents(nodes: seq<Node>, links: seq<Link>, names: seq<string>, d: nat)
    requires SeedsBounded(nodes, links, Seeds(nodes, names), d)
    ensures NoDups(Filtered(nodes, links, names, d))
    ensures |Seeds(nodes, names)| <= |Filtered(nodes, links, names, d)|
    ensures Filtered(nodes, links, names, d)[..|Seeds(nodes, names)|] == Seeds(nodes, names)
    ensures forall m :: m in Filtered(nodes, links, names, d) <==> Selected(nodes, links, names, m)
  {
    var seeds := Seeds(nodes, names);
    var rest := SeedDeps(nodes, links, seeds, d);
    DedupOfDistinct(seeds);
    DedupExtends(seeds, rest);
    SeedDepsMembers(nodes, links, seeds, d);
    forall s, m | s in seeds ensures m in Deps(nodes, links, s, d, []) <==> Reachable(nodes, links, s, m) {
      DepsIsReach(nodes, links, s, d);
      ReachIsReachable(nodes, links, s, d, m);
    }
  }
}
