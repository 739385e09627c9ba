/** The records the graph pipeline works on: technologies as read from the
    data file, the nodes built from them and the directed links between
    nodes. The `type` field of the source is called `kind` here, because
    `type` is a Dafny keyword. */
module Interfaces {
  import opened Arrays

  /** One technology record: its name, its category (such as "language"),
      an optional description and the names of the technologies it requires. */
  datatype Technology = Technology(name: string, kind: string, desc: Option<string>, require: seq<string>)

  /** A node of the graph. */
  datatype Node = Node(name: string, kind: string, desc: Option<string>)

  /** Nodes are compared by identity in the source; here a node is its
      position in the base node sequence. */
  type NodeId = nat

  /** A directed link "source requires target". An endpoint that `find`
      did not resolve is None, as `undefined` is in the source. */
  datatype Link = Link(source: Option<NodeId>, target: Option<NodeId>)
}
