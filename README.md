# dev-map: the dependency graph, verified

dev-map draws technologies (languages, tools, frameworks) as a graph. A
directed link "A requires B" joins a technology to each of its prerequisites.
The user can narrow the graph to a selection of technologies plus everything
they depend on. This project models the non-drawing core of that pipeline
in Dafny and proves what it computes:

- **Graph building** (`formatters.dfy`, module `Formatters`).
  - `dataToNodes` maps each technology record to a node.
  - `dataToLinks` walks every (technology, requirement) pair in two nested
    loops. It pushes one link per pair, resolving names to nodes with `find`.
- **Dependency closure** (`filters.dfy`, module `Filters`).
  - `getDependencies` collects, recursively, every node reachable from a
    node, threading an accumulator.
  - `nodesWithDependencies` starts from the nodes whose names are selected
    (the seeds), appends each seed's dependencies, and removes repeats.
- **Shown links and node classification** (`graph.dfy`, module `Graph`).
  - The link restriction of `build`.
  - `isSource`.
  - The radius ratio and the CSS class of a node.
- **JavaScript built-ins** (`arrays.dfy`, module `Arrays`) that the pipeline
  relies on:
  - `undefined`, modelled as `Option`;
  - `Array.prototype.find`, modelled as the index of the first match;
  - `Array.from(new Set(xs))`, modelled as `Dedup`, which keeps first
    occurrences.
- **Records** (`interfaces.dfy`, module `Interfaces`).
- **A worked example** (`pipeline.dfy`, module `Pipeline`): A requires B, B
  requires C.
  - Selecting A shows A, B and C and both links.
  - Selecting C shows C alone.
  - An unknown name shows nothing.
  - Only C is a source.

Modelling decisions:

- **Node identity.** The code compares nodes by object identity in several
  places: `includes` in `build`, `===` in `isSource`, and the `Set` in
  `nodesWithDependencies`. Here a node is therefore its position in the base
  node sequence (`NodeId`).
- **Undefined endpoints.** A link endpoint that `find` did not resolve is
  `None`.
- **Comparison by name.** `getDependencies` compares by name
  (`link.source.name === node.name`). The model does the same (`LeavesFrom`).
- **Field names.** The `type` field is called `kind`, because `type` is a
  Dafny keyword. `desc` is optional: `dataToNodes` copies it, but the
  technology interface does not declare it.
- **Termination of `getDependencies`.** The code has no visited set, and it
  reads `.name` of every link source and of every requirement. So it ends
  normally only when:
  - all link sources are defined (`SourcesDefined`);
  - every requirement reached is a defined node;
  - no chain of requirements loops.

  `Bounded(nodes, links, n, d)` states the last two conditions with a ghost
  depth `d`. `GetDependencies` and `NodesWithDependencies` require them, and
  `DepsSettles` proves the result does not depend on the chosen `d`.
- **Return value of `nodesWithDependencies`.** The doc comment at
  `src/modules/filters.ts:29-35` promises `{nodes, links}`. The code returns
  the node list only, and the model follows the code.
- **Duplicate names.** With unique technology names, a node is a source
  exactly when its technology requires nothing (`SourceIffNoRequirements`).
  With a duplicated name, every link of either technology takes the first
  node as its source. The second node is then a "source" even when its
  technology has requirements.

## Model

| member | source | states |
|---|---|---|
| `Arrays.Find` | src/modules/formatters.ts:18-19 | `find` gives the first element satisfying the predicate, or None exactly when no element does |
| `Arrays.Dedup` | src/modules/filters.ts:41 | the result has no repeats, has the same elements as the input, and keeps them in order of first occurrence |
| `Arrays.DedupExtends` | src/modules/filters.ts:41 | de-duplicating a longer list extends the earlier result, so what comes first keeps its place |
| `Arrays.DedupOfDistinct` | src/modules/filters.ts:41 | a list without repeats is left as it is |
| `Formatters.DataToNodes` | src/modules/formatters.ts:3-11 | one node per technology, same length and order, the i-th node carrying the i-th technology's name, type and description |
| `Formatters.FindNode` | src/modules/formatters.ts:18-19 | the position of the first node with the name, or None exactly when no node has it |
| `Formatters.RequireLinks` | src/modules/formatters.ts:16-21 | one link per requirement, in requirement order, from the technology's node to the requirement's node |
| `Formatters.Links` | src/modules/formatters.ts:13-24 | the links of `dataToLinks` number exactly the requirements over all technologies; their positions are given by `LinkAt` and `LinkFrom` |
| `Formatters.DataToLinks` | src/modules/formatters.ts:13-24 | the nested loops build exactly the links of every (technology, requirement) pair, technology order first, and there are as many as there are requirements in all |
| `Formatters.PushRequireLinks` | src/modules/formatters.ts:16-21 | the inner loop appends one technology's links, one per requirement and in requirement order, after the links already pushed |
| `Formatters.LinkAt` | src/modules/formatters.ts:15-21 | the j-th requirement of the i-th technology is the link right after those of all earlier technologies; its source is the first node named like the technology, its target the first named like the requirement |
| `Formatters.LinkFrom` | src/modules/formatters.ts:15-21 | every link comes from some requirement of some technology |
| `Formatters.SourcesResolved` | src/modules/formatters.ts:18 | when every technology's name names a node, every link source is defined |
| `Formatters.BuiltLinksHaveSources` | src/modules/formatters.ts:3-18 | over the nodes built from the same technologies no link source is undefined |
| `Formatters.DanglingTarget` | src/modules/formatters.ts:19 | over the nodes built from the same technologies a link target is undefined exactly when no technology has the required name |
| `Filters.SourcesDefinedMeans` | src/modules/filters.ts:17 | the no-crash condition on links means every link has a defined source |
| `Filters.Requirements` | src/modules/filters.ts:16-18 | a node has at most one requirement per link; `RequirementsAppend` and `RequirementsOne` fix them as one entry per leaving link in link order, and `RequirementsMembers` states which targets they are |
| `Filters.RequirementsAppend` | src/modules/filters.ts:16-18 | the requirements of two link lists one after the other are those of the first followed by those of the second, so there is one entry per leaving link, in link order, repeats kept |
| `Filters.RequirementsOne` | src/modules/filters.ts:16-18 | a single link gives its target exactly when it leaves a node named like the node, and nothing otherwise |
| `Filters.RequirementsMembers` | src/modules/filters.ts:16-18 | a requirement of a node is exactly the target of a link leaving a node of the same name |
| `Filters.SuccIsRequirements` | src/modules/filters.ts:16-18 | the defined requirements are exactly the direct successors of the reference graph |
| `Filters.Deps` | src/modules/filters.ts:15-27 | the function form of `getDependencies` never returns fewer nodes than it was handed; `DepsAccumulates`, `DirectRequirementsFirst` and `DepsIsReach` state its contents |
| `Filters.DepsAll` | src/modules/filters.ts:22-25 | the `forEach` over the requirements never drops an accumulated node from the count |
| `Filters.GetDependencies` | src/modules/filters.ts:15-27 | the accumulator is a prefix of the result and is returned unchanged when the node has no requirements; next come the direct requirements in link order; what is added is exactly the set of nodes reachable from the node, which never includes the node itself |
| `Filters.DepsAccumulates` | src/modules/filters.ts:22-25 | the result is always the incoming accumulator followed by what the node contributes, whatever the accumulator |
| `Filters.DirectRequirementsFirst` | src/modules/filters.ts:16-22 | right after the accumulator come the node's direct requirements, in link order, before anything deeper |
| `Filters.DepsIsReach` | src/modules/filters.ts:15-27 | what a node contributes is exactly the set of nodes within the depth bound |
| `Filters.ReachIsReachable` | src/modules/filters.ts:23-25 | within the depth bound means reachable by a path of links, and, under the bound, the other way round |
| `Filters.NotSelfReachable` | src/modules/filters.ts:15-27 | on acyclic links no node reaches itself, so the start node is never added |
| `Filters.DepsSettles` | src/modules/filters.ts:15-27 | the result does not depend on the depth bound chosen, once it is large enough |
| `Filters.Seeds` | src/modules/filters.ts:37 | the seeds are nodes whose names are selected, in `nodes` order |
| `Filters.SeedsComplete` | src/modules/filters.ts:37 | every node whose name is selected is a seed |
| `Filters.SeedDeps` | src/modules/filters.ts:38-40 | every dependency of every seed is among the appended dependencies |
| `Filters.SeedDepsMembers` | src/modules/filters.ts:38-40 | the appended dependencies are exactly the dependencies of some seed |
| `Filters.AddDependencies` | src/modules/filters.ts:39 | the loop body appends the dependencies of one seed to the list |
| `Filters.NodesWithDependencies` | src/modules/filters.ts:36-42 | the result has no repeats, starts with the seeds in `nodes` order, and holds exactly the seeds and the nodes reachable from a seed; the loop visits only the original seeds |
| `Filters.Filtered` | src/modules/filters.ts:36-42 | the selection has no repeats and starts with the seeds in `nodes` order, whatever the links |
| `Filters.FilteredContents` | src/modules/filters.ts:41 | the same properties of the selection function: no repeats, seeds first, seeds and their reachable nodes and nothing else |
| `Graph.KeepInduced` | src/modules/graph.ts:71 | the filter keeps at most the links it is given, and every link it keeps has both endpoints defined and shown |
| `Graph.KeepInducedMembers` | src/modules/graph.ts:71 | a link is kept exactly when both its endpoints are defined and among the shown nodes, so no link with an undefined target is kept |
| `Graph.KeepInducedAppend` | src/modules/graph.ts:71 | the restriction distributes over concatenation, so kept links keep their order |
| `Graph.KeepInducedOne` | src/modules/graph.ts:71 | a single link is kept exactly when both endpoints are shown |
| `Graph.KeepInducedIdempotent` | src/modules/graph.ts:71 | restricting the kept links again to the same nodes changes nothing |
| `Graph.KeepInducedMono` | src/modules/graph.ts:71 | showing more nodes keeps at least the same links |
| `Graph.Graph.Shown` | src/modules/graph.ts:70 | without an argument, `build` shows every node of `this.nodes` |
| `Graph.Graph.BuildLinks` | src/modules/graph.ts:70-71 | the links handed to the simulation are exactly the links of `this.links` with both endpoints shown, and all have a defined target |
| `Graph.Graph.IsSource` | src/modules/graph.ts:184-186 | a node is a source exactly when no link of the full `this.links` has it as its source |
| `Graph.Graph.RadiusRatio` | src/modules/graph.ts:192-198 | 1.5 for a source of any type, otherwise 1.2 for a language, otherwise 1 |
| `Graph.Graph.Radius` | src/modules/graph.ts:192-201 | the radius is 25 times the ratio plus incr: 37.5 + incr exactly for a source, otherwise 30 + incr for a language and 25 + incr for any other type, so it always lies between 25 + incr and 37.5 + incr |
| `Graph.Graph.NodeClass` | src/modules/graph.ts:87 | the class starts with "node node-" followed by the type |
| `Graph.SourceHasNoShownLinks` | src/modules/graph.ts:71 | a source node never has an outgoing link among the links shown for any node list |
| `Graph.ClassMarksSource` | src/modules/graph.ts:87 | the class ends in " node-source" exactly for source nodes, provided the unmarked class does not already |
| `Formatters.FindOwnNode` | src/modules/formatters.ts:18 | with unique names, a technology's name resolves to its own node |
| `Graph.SourceIffNoRequirements` | src/modules/graph.ts:179-186 | on the graph built from technologies with unique names, a node is a source exactly when its technology requires nothing |
| `Pipeline.ChainLinksBuilt` | src/modules/formatters.ts:13-24 | for A requires B, B requires C: the links are A→B, then B→C |
| `Pipeline.ChainDeps` | src/modules/filters.ts:15-27 | the dependencies of A are B then C, and C has none |
| `Pipeline.ChainBounded` | src/modules/filters.ts:15-27 | the example meets the termination condition of `getDependencies` |
| `Pipeline.ChainSeeds` | src/modules/filters.ts:37 | a known name selects its node, and any other name selects nothing |
| `Pipeline.ChainFilteredA` | src/modules/filters.ts:36-42 | selecting A gives A, then B and C |
| `Pipeline.ChainFilteredC` | src/modules/filters.ts:36-42 | selecting C, which requires nothing, gives C alone |
| `Pipeline.ChainFilteredUnknown` | src/modules/filters.ts:36-42 | selecting a name no node has gives nothing |
| `Pipeline.ChainShown` | src/modules/graph.ts:70-71 | showing A, B and C, or every node, draws both links; showing C draws none |
| `Pipeline.ChainSources` | src/modules/graph.ts:184-186 | only C is a source |

## Left out

- The d3 work of `src/modules/graph.ts` is not modelled. This covers the
  SVG, markers, zoom, force simulation, tick and drag handlers and
  `onNodeClick` (lines 19-63, 72-170, 175-177), and the data-join key
  functions (lines 74, 82). It is rendering and physics owned by an external
  library.
- The force parameters and pixel coordinates are not modelled. Floating point
  is replaced by reals in the radius.
- `src/main.ts` is not part of this model. It is DOM and event glue with its
  own copy of the source and radius logic. Its filter wiring also differs
  from the modules: it reads `.nodes`/`.links` off the array that
  `nodesWithDependencies` returns, calls `filter(filter(...))`, and matches
  names case-insensitively through `toLowerCase`.
- The JSON data file and the `jobs` mapping are not modelled. The latter only
  feeds the list of selected names.
- Exceptions are not modelled as outcomes. Where the code would read a field
  of `undefined`, or recurse for ever on a cycle, the model states that
  situation's absence as a precondition (`SourcesDefined`, `Bounded`).
- The `dependencies` parameter of `getDependencies` defaults to `[]`. The
  model has no default parameters, so callers pass `[]` explicitly.
- The `incr` parameter of `radiusGenerator` defaults to `0`
  (`src/modules/graph.ts:192`). `Graph.Graph.Radius` has no default
  parameter either, so callers pass `0.0` explicitly.
- `Formatters.DataToLinks` works on values. The statement that nothing
  outside the fresh list changes holds trivially and is not stated.
- `Graph.Graph.NodeClass` states only the fixed prefix of the class. Whether
  the source mark follows is stated in `Graph.ClassMarksSource`. That
  statement needs the unmarked class not to end in " node-source" already:
  for a node of type "source" the unmarked class is "node node-source", which
  does.
