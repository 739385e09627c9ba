/** Graph building: the technology list becomes a node list and a list of
    directed links "technology requires requirement". */
module Formatters {
  import opened Arrays
  import opened Interfaces

  /** `dataToNodes`: one node per technology, in the same order, carrying
      the technology's name, kind and description. */
  function DataToNodes(techs: seq<Technology>): (nodes: seq<Node>)
    ensures |nodes| == |techs|
    ensures forall i :: 0 <= i < |techs| ==>
      nodes[i] == Node(techs[i].name, techs[i].kind, techs[i].desc)
    decreases |techs|
  {
    if techs == [] then []
    else [Node(techs[0].name, techs[0].kind, techs[0].desc)] + DataToNodes(techs[1..])
  }

  /** `nodes.find(node => node.name === name)`: the first node with that name. */
  function FindNode(nodes: seq<Node>, name: string): (r: Option<NodeId>)
    ensures r.Some? ==> r.value < |nodes| && nodes[r.value].name == name
    ensures r.Some? ==> forall j :: 0 <= j < r.value ==> nodes[j].name != name
    ensures r.None? <==> forall j :: 0 <= j < |nodes| ==> nodes[j].name != name
  {
    Find(nodes, (node: Node) => node.name == name)
  }

  /** The links pushed for one technology named `name` whose requirements
      are `reqs`, one per requirement and in requirement order. */
  function RequireLinks(nodes: seq<Node>, name: string, reqs: seq<string>): (links: seq<Link>)
    ensures |links| == |reqs|
    ensures forall k :: 0 <= k < |reqs| ==>
      links[k] == Link(FindNode(nodes, name), FindNode(nodes, reqs[k]))
    decreases |reqs|
  {
    if reqs == [] then []
    else
      RequireLinks(nodes, name, reqs[..|reqs| - 1])
        + [Link(FindNode(nodes, name), FindNode(nodes, reqs[|reqs| - 1]))]
  }

  /** The links `dataToLinks` has pushed once it has gone through `techs`:
      exactly one per requirement over all technologies. */
  function Links(techs: seq<Technology>, nodes: seq<Node>): (links: seq<Link>)
    ensures |links| == SumRequire(techs)
    decreases |techs|
  {
    if techs == [] then []
    else
      var last := techs[|techs| - 1];
      Links(techs[..|techs| - 1], nodes) + RequireLinks(nodes, last.name, last.require)
  }

  /** The number of requirements over all technologies. */
  function SumRequire(techs: seq<Technology>): nat
    decreases |techs|
  {
    if techs == [] then 0
    else SumRequire(techs[..|techs| - 1]) + |techs[|techs| - 1].require|
  }

  /** `dataToLinks`: a fresh list filled by nested loops, one link per
      (technology, requirement) pair, technology order first. */
  method DataToLinks(techs: seq<Technology>, nodes: seq<Node>) returns (links: seq<Link>)
    ensures links == Links(techs, nodes)
    ensures |links| == SumRequire(techs)
  {
    links := [];
    var i := 0;
    while i < |techs|
      invariant 0 <= i <= |techs|
      invariant links == Links(techs[..i], nodes)
    {
      links := PushRequireLinks(nodes, techs[i], links);
      assert techs[..i + 1][..i] == techs[..i];
      i := i + 1;
    }
    assert techs[..i] == techs;
  }

  /** The inner `forEach` of `dataToLinks`: pushes one link per requirement
      of `tech`, in requirement order, after the links already there. */
  method PushRequireLinks(nodes: seq<Node>, tech: Technology, links: seq<Link>) returns (r: seq<Link>)
    ensures r == links + RequireLinks(nodes, tech.name, tech.require)
  {
    r := links;
    var j := 0;
    while j < |tech.require|
      invariant 0 <= j <= |tech.require|
      invariant r == links + RequireLinks(nodes, tech.name, tech.require[..j])
    {
      r := r + [Link(FindNode(nodes, tech.name), FindNode(nodes, tech.require[j]))];
      assert tech.require[..j + 1][..j] == tech.require[..j];
      j := j + 1;
    }
    assert tech.require[..j] == tech.require;
  }

  /** The j-th requirement of the i-th technology gives the link right after
      the links of all earlier technologies: technology order first, then
      requirement order. Its source is the first node named like the
      technology, its target the first node named like the requirement. */
  lemma {:induction false} LinkAt(techs: seq<Technology>, nodes: seq<Node>, i: nat, j: nat)
    requires i < |techs| && j < |techs[i].require|
    ensures SumRequire(techs[..i]) + j < |Links(techs, nodes)|
    ensures Links(techs, nodes)[SumRequire(techs[..i]) + j]
      == Link(FindNode(nodes, techs[i].name), FindNode(nodes, techs[i].require[j]))
    decreases |techs|
  {
    var init := techs[..|techs| - 1];
    var last := techs[|techs| - 1];
    assert Links(techs, nodes) == Links(init, nodes) + RequireLinks(nodes, last.name, last.require);
    if i == |techs| - 1 {
      assert techs[..i] == init;
    } else {
      assert techs[..i] == init[..i];
      LinkAt(init, nodes, i, j);
      assert techs[i] == init[i];
    }
  }

  /** Conversely, every link comes from some requirement of some technology.  */
  lemma {:induction false} LinkFrom(techs: seq<Technology>, nodes: seq<Node>, k: nat)
    requires k < |Links(techs, nodes)|
    ensures exists i, j ::
      && 0 <= i < |techs| && 0 <= j < |techs[i].require|
      && Links(techs, nodes)[k] == Link(FindNode(nodes, techs[i].name), FindNode(nodes, techs[i].require[j]))
    decreases |techs|
  {
    var init := techs[..|techs| - 1];
    var last := techs[|techs| - 1];
    var before := Links(init, nodes);
    if k < |before| {
      LinkFrom(init, nodes, k);
      var i, j :| 0 <= i < |init| && 0 <= j < |init[i].require| &&
        before[k] == Link(FindNode(nodes, init[i].name), FindNode(nodes, init[i].require[j]));
      assert techs[i] == init[i];
    } else {
      var j := k - |before|;
      assert Links(techs, nodes)[k] == RequireLinks(nodes, last.name, last.require)[j];
      assert techs[|techs| - 1] == last;
    }
  }

  /** When every technology's name is the name of some node, every link has
      a defined source that is a position of `nodes`. */
  lemma {:induction false} SourcesResolved(techs: seq<Technology>, nodes: seq<Node>)
    requires forall i :: 0 <= i < |techs| ==> exists k :: 0 <= k < |nodes| && nodes[k].name == techs[i].name
    ensures forall l :: l in Links(techs, nodes) ==> l.source.Some? && l.source.value < |nodes|
    decreases |techs|
  {
    if techs != [] {
      var init := techs[..|techs| - 1];
      var last := techs[|techs| - 1];
      SourcesResolved(init, nodes);
      assert FindNode(nodes, last.name).Some?;
    }
  }

  /** For the nodes built from the same technologies, no link has an
      undefined source; only targets can be unresolved. */
  lemma {:induction false} BuiltLinksHaveSources(techs: seq<Technology>)
    ensures forall l :: l in Links(techs, DataToNodes(techs)) ==>
      l.source.Some? && l.source.value < |techs|
  {
    var nodes := DataToNodes(techs);
    forall i | 0 <= i < |techs|
      ensures exists k :: 0 <= k < |nodes| && nodes[k].name == techs[i].name
    {
      assert nodes[i].name == techs[i].name;
    }
    SourcesResolved(techs, nodes);
  }

  /** For the nodes built from the same technologies, a link's target is
      undefined exactly when no technology carries the required name. */
  lemma {:induction false} DanglingTarget(techs: seq<Technology>, i: nat, j: nat)
    requires i < |techs| && j < |techs[i].require|
    ensures SumRequire(techs[..i]) + j < |Links(techs, DataToNodes(techs))|
    ensures Links(techs, DataToNodes(techs))[SumRequire(techs[..i]) + j].target.None?
      <==> forall k :: 0 <= k < |techs| ==> techs[k].name != techs[i].require[j]
  {
    var nodes := DataToNodes(techs);
    LinkAt(techs, nodes, i, j);
    assert forall k :: 0 <= k < |techs| ==> nodes[k].name == techs[k].name;
  }

  /** No two technologies share a name. */
  ghost predicate UniqueNames(techs: seq<Technology>)
  {
    forall a, b :: 0 <= a < b < |techs| ==> techs[a].name != techs[b].name
  }

  /** With unique names, `find` by a technology's name gives its own node. */
  lemma {:induction false} FindOwnNode(techs: seq<Technology>, i: nat)
    requires UniqueNames(techs) && i < |techs|
    ensures FindNode(DataToNodes(techs), techs[i].name) == Some(i)
  {
    var nodes := DataToNodes(techs);
    assert nodes[i].name == techs[i].name;
    var r := FindNode(nodes, techs[i].name);
    assert nodes[r.value].name == techs[r.value].name;
  }
}
