/** The part of the graph view that is not drawing: which links are shown
    for a set of shown nodes, which nodes are sources, and the radius and
    CSS class a node gets. The view only reads its `nodes` and `links` in
    these operations, so it is modelled as a value. */
module Graph {
  import opened Arrays
  import opened Interfaces
  import opened Formatters

  /** `radius`, the base radius of a node circle. Floating point is
      modelled by the reals. */
  const BaseRadius: real := 25.0

  /** The class every source node is marked with. */
  const SourceClass: string := " node-source"

  /** Link `l` may be drawn among the `shown` nodes: both its endpoints are
      defined and shown. An undefined endpoint is never among the nodes. */
  predicate Induced(l: Link, shown: seq<NodeId>)
  {
    l.source.Some? && l.source.value in shown && l.target.Some? && l.target.value in shown
  }

  /** `links.filter(link => nodes.includes(link.source) && nodes.includes(link.target))`. */
  function KeepInduced(links: seq<Link>, shown: seq<NodeId>): (r: seq<Link>)
    ensures |r| <= |links|
    ensures forall k :: 0 <= k < |r| ==> Induced(r[k], shown)
    decreases |links|
  {
    if links == [] then []
    else
      var init := KeepInduced(links[..|links| - 1], shown);
      var last := links[|links| - 1];
      if Induced(last, shown) then init + [last] else init
  }

  /** The kept links are exactly the links with both endpoints defined and
      shown. */
  lemma {:induction false} KeepInducedMembers(links: seq<Link>, shown: seq<NodeId>)
    ensures forall l :: l in KeepInduced(links, shown) ==>
      l in links && l.source.Some? && l.target.Some? && l.source.value in shown && l.target.value in shown
    ensures forall l :: l in links && Induced(l, shown) ==> l in KeepInduced(links, shown)
    decreases |links|
  {
    if links != [] {
      var init := links[..|links| - 1];
      var last := links[|links| - 1];
      KeepInducedMembers(init, shown);
      assert links == init + [last];
    }
  }

  /** Filtering distributes over concatenation: the kept links keep their
      relative order. */
  lemma {:induction false} KeepInducedAppend(a: seq<Link>, b: seq<Link>, shown: seq<NodeId>)
    ensures KeepInduced(a + b, shown) == KeepInduced(a, shown) + KeepInduced(b, shown)
    decreases |b|
  {
    if b == [] {
      assert a + b == a;
    } else {
      var b' := b[..|b| - 1];
      var last := b[|b| - 1];
      KeepInducedAppend(a, b', shown);
      assert (a + b)[..|a + b| - 1] == a + b';
      assert (a + b)[|a + b| - 1] == last;
      var k := KeepInduced(a + b', shown);
      var kb := KeepInduced(b', shown);
      if Induced(last, shown) {
        assert KeepInduced(a + b, shown) == k + [last];
        assert KeepInduced(b, shown) == kb + [last];
        assert k + [last] == KeepInduced(a, shown) + (kb + [last]);
      } else {
        assert KeepInduced(a + b, shown) == k;
        assert KeepInduced(b, shown) == kb;
      }
    }
  }

  /** A single link is kept exactly when it is induced. */
  lemma {:induction false} KeepInducedOne(l: Link, shown: seq<NodeId>)
    ensures KeepInduced([l], shown) == if Induced(l, shown) then [l] else []
  {
    assert [l][..0] == [];
  }

  /** Restricting twice to the same nodes changes nothing more. */
  lemma {:induction false} KeepInducedIdempotent(links: seq<Link>, shown: seq<NodeId>)
    ensures KeepInduced(KeepInduced(links, shown), shown) == KeepInduced(links, shown)
    decreases |links|
  {
    if links != [] {
      var init := links[..|links| - 1];
      var last := links[|links| - 1];
      KeepInducedIdempotent(init, shown);
      if Induced(last, shown) {
        KeepInducedAppend(KeepInduced(init, shown), [last], shown);
        KeepInducedOne(last, shown);
      }
    }
  }

  /** Restricting to more nodes keeps at least the same links. */
  lemma {:induction false} KeepInducedMono(links: seq<Link>, shown: seq<NodeId>, more: seq<NodeId>)
    requires forall n :: n in shown ==> n in more
    ensures forall l :: l in KeepInduced(links, shown) ==> l in KeepInduced(links, more)
  {
    KeepInducedMembers(links, shown);
    KeepInducedMembers(links, more);
    forall l | l in KeepInduced(links, shown) ensures l in KeepInduced(links, more) {
      assert Induced(l, more);
    }
  }

  /** The view over the base nodes and the links among them. */
  datatype Graph = Graph(nodes: seq<Node>, links: seq<Link>)
  {
    /** The nodes `build` shows: the given list, or `this.nodes` (every base
        position) when called without one. */
    function Shown(given: Option<seq<NodeId>>): (r: seq<NodeId>)
      ensures given.Some? ==> r == given.value
      ensures given.None? ==> |r| == |nodes| && forall i :: 0 <= i < |nodes| ==> r[i] == i
    {
      match given
      case Some(ns) => ns
      case None => seq(|nodes|, i => i)
    }

    /** The links `build` hands to the simulation. */
    function BuildLinks(given: Option<seq<NodeId>>): (r: seq<Link>)
      ensures forall l :: l in r ==> l in links && Induced(l, Shown(given))
      ensures forall l :: l in links && Induced(l, Shown(given)) ==> l in r
      ensures forall l :: l in r ==> l.target.Some?
    {
      KeepInducedMembers(links, Shown(given));
      KeepInduced(links, Shown(given))
    }

    /** `isSource`: no link of the full, unfiltered `this.links` leaves `n`.
        Nodes are compared by identity, that is by position. */
    predicate IsSource(n: NodeId)
      ensures IsSource(n) <==> forall k :: 0 <= k < |links| ==> links[k].source != Some(n)
    {
      Find(links, (l: Link) => l.source == Some(n)).None?
    }

    /** The `ratio` of `radiusGenerator`: 1 by default, 1.2 for a language,
        and the source check, made last, overrides the language check. */
    function RadiusRatio(n: NodeId): (r: real)
      requires n < |nodes|
      ensures IsSource(n) ==> r == 1.5
      ensures !IsSource(n) && nodes[n].kind == "language" ==> r == 1.2
      ensures !IsSource(n) && nodes[n].kind != "language" ==> r == 1.0
    {
      var ratio := if nodes[n].kind == "language" then 1.2 else 1.0;
      if IsSource(n) then 1.5 else ratio
    }

    /** The radius `radiusGenerator(incr)` gives node `n`. */
    function Radius(n: NodeId, incr: real): (r: real)
      requires n < |nodes|
      ensures BaseRadius + incr <= r <= BaseRadius * 1.5 + incr
      ensures IsSource(n) <==> r == BaseRadius * 1.5 + incr
      ensures !IsSource(n) && nodes[n].kind == "language" ==> r == 30.0 + incr
      ensures !IsSource(n) && nodes[n].kind != "language" ==> r == BaseRadius + incr
    {
      BaseRadius * RadiusRatio(n) + incr
    }

    /** The `class` attribute of a node's group. */
    function NodeClass(n: NodeId): (r: string)
      requires n < |nodes|
      ensures |"node node-" + nodes[n].kind| <= |r|
      ensures r[..|"node node-" + nodes[n].kind|] == "node node-" + nodes[n].kind
    {
      "node node-" + nodes[n].kind + (if IsSource(n) then SourceClass else "")
    }
  }

  /** A source node has no outgoing link in any shown subgraph: `isSource`
      consults the full link list, which contains every shown link. */
  lemma {:induction false} SourceHasNoShownLinks(g: Graph, given: Option<seq<NodeId>>, n: NodeId)
    requires g.IsSource(n)
    ensures forall l :: l in g.BuildLinks(given) ==> l.source != Some(n)
  {
    forall l | l in g.BuildLinks(given) ensures l.source != Some(n) {
      var k :| 0 <= k < |g.links| && g.links[k] == l;
    }
  }

  /** The class string carries the source mark exactly for source nodes,
      provided the unmarked class does not already end in the mark (it does
      for a node of type "source"). */
  lemma {:induction false} ClassMarksSource(g: Graph, n: NodeId)
    requires n < |g.nodes|
    requires !EndsWith("node node-" + g.nodes[n].kind, SourceClass)
    ensures g.IsSource(n) <==> EndsWith(g.NodeClass(n), SourceClass)
  {
    var base := "node node-" + g.nodes[n].kind;
    if g.IsSource(n) {
      assert (base + SourceClass)[|base|..] == SourceClass;
    }
  }

  /** `s` ends with `suffix`. */
  predicate EndsWith(s: string, suffix: string)
  {
    |suffix| <= |s| && s[|s| - |suffix|..] == suffix
  }

  /** The view over the graph built from a technology list. */
  function Built(techs: seq<Technology>): (g: Graph)
    ensures |g.nodes| == |techs|
  {
    var nodes := DataToNodes(techs);
    Graph(nodes, Links(techs, nodes))
  }

  /** For the graph built from technologies with unique names, a node is a
      source exactly when its technology requires nothing. */
  lemma {:induction false} SourceIffNoRequirements(techs: seq<Technology>, i: nat)
    requires UniqueNames(techs) && i < |techs|
    ensures Built(techs).IsSource(i) <==> techs[i].require == []
  {
    var nodes := DataToNodes(techs);
    var links := Links(techs, nodes);
    if techs[i].require != [] {
      LinkAt(techs, nodes, i, 0);
      FindOwnNode(techs, i);
    } else {
      forall k | 0 <= k < |links| ensures links[k].source != Some(i) {
        LinkFrom(techs, nodes, k);
        var i', j :| 0 <= i' < |techs| && 0 <= j < |techs[i'].require|
          && links[k] == Link(FindNode(nodes, techs[i'].name), FindNode(nodes, techs[i'].require[j]));
        FindOwnNode(techs, i');
      }
    }
  }
}
