/** The NFA state record shared by both builder drafts.
    A node carries an id, an accepting flag, at most one target per
    symbol (a map from the symbol string to an arena index) and an
    ordered list of epsilon targets. Arena indices stand for the
    `usize` indices of src/node.rs and for the raw pointers of the
    pointer-based draft. */
module NfaNode {

  datatype Node = Node(id: int, isEnd: bool, transition: map<string, nat>, epsilon: seq<nat>)

  /** A node with no edges. */
  function New(isEnd: bool, id: int): (n: Node)
    ensures n.id == id && n.isEnd == isEnd
    ensures |n.transition| == 0 && |n.epsilon| == 0
  {
    Node(id, isEnd, map[], [])
  }

  /** A node built from all four of its fields. */
  function NewFull(isEnd: bool, transition: map<string, nat>, epsilon: seq<nat>, id: int): (n: Node)
    ensures n.id == id && n.isEnd == isEnd
    ensures n.transition == transition && n.epsilon == epsilon
  {
    Node(id, isEnd, transition, epsilon)
  }

  /** The hand-written equality of nodes: only the ids are compared. */
  predicate SameNode(a: Node, b: Node)
  {
    a.id == b.id
  }
}
