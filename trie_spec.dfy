/**
  The abstract value of a copy-on-write trie node and the three trie
  operations of src/primer/trie.cpp written as recursive functions over it.

  A node value mirrors one `TrieNode` object: its edge map, its
  `is_value_node_` flag and, when the object is a `TrieNodeWithValue<T>`,
  the value it holds. The flag and the value are kept apart because
  `Remove` clears the flag on a clone that still holds its value.
*/
module TrieSpec {
  import opened Wrappers

  newtype u32 = x: int | 0 <= x < 0x1_0000_0000
  newtype u64 = x: int | 0 <= x < 0x1_0000_0000_0000_0000

  /** The value types the trie is instantiated with; stands for the C++ template argument `T`. */
  datatype TypeTag = UInt32 | UInt64 | StdString

  /** A stored value together with its run-time type. */
  datatype Value = U32(n: u32) | U64(w: u64) | Str(s: string)
  {
    function Tag(): TypeTag
    {
      match this
      case U32(_) => UInt32
      case U64(_) => UInt64
      case Str(_) => StdString
    }
  }

  /** The abstract value of a trie node: `val` is `Some` exactly when the object is a `TrieNodeWithValue`. */
  datatype Node = Node(children: map<char, Node>, isValue: bool, val: Option<Value>)

  /** The root of the empty trie: no children, no value. */
  const Empty: Node := Node(map[], false, None)

  /** A node freshly built by `TrieNodeWithValue<T>(value)`: no children, flag set, holds `v`. */
  function Leaf(v: Value): Node
  {
    Node(map[], true, Some(v))
  }

  /** One hop of every walk: the child under `c`, provided it exists and its flag is set. */
  function Step(n: Node, c: char): Option<Node>
  {
    if c in n.children && n.children[c].isValue then Some(n.children[c]) else None
  }

  /** The node the cursor of `Get` stands on after consuming `k`, or `None` once a hop fails. */
  function Walk(n: Node, k: string): Option<Node>
    decreases |k|
  {
    if k == [] then Some(n)
    else
      match Step(n, k[0])
      case None => None
      case Some(m) => Walk(m, k[1..])
  }

  /** The run-time type check on the reached node: its value if it holds one of type `tag`. */
  function Stored(n: Node, tag: TypeTag): Option<Value>
  {
    if n.val.Some? && n.val.value.Tag() == tag then n.val else None
  }

  /** `Trie::Get<T>`: walk the key, then check the type of what is stored there. */
  function GetF(n: Node, k: string, tag: TypeTag): (r: Option<Value>)
    ensures r.Some? ==> r.value.Tag() == tag && Walk(n, k).Some? && Walk(n, k).value.val == r
  {
    match Walk(n, k)
    case None => None
    case Some(m) => Stored(m, tag)
  }

  /**
    What `std::move` leaves behind in a value: a moved integer keeps its
    value, while a moved-from `std::string` is valid but unspecified and is
    taken here to be empty, which is what the common standard libraries leave.
  */
  function MovedFrom(v: Value): Value
  {
    match v
    case Str(_) => Str("")
    case _ => v
  }

  /**
    `Trie::Put<T>` from the node the cursor stands on, holding `v`: while
    the edge for the next character leads to a value node, that node is
    cloned (same abstract value) and the walk goes on; otherwise a fresh
    leaf is made, into which `v` is moved, and the walk goes on from it
    with what the move left behind. So every node below that point is new
    and is a value node; the first holds `v` and the later ones hold
    `MovedFrom(v)`. The node reached at the end is left as it was: no value
    is stored there.
  */
  function PutF(n: Node, k: string, v: Value): (r: Node)
    decreases |k|
    ensures r.isValue == n.isValue && r.val == n.val
    ensures k == [] ==> r.children == n.children
    ensures k != [] ==> r.children.Keys == n.children.Keys + {k[0]} && r.children[k[0]].isValue
  {
    if k == [] then n
    else
      match Step(n, k[0])
      case Some(m) => n.(children := n.children[k[0] := PutF(m, k[1..], v)])
      case None => n.(children := n.children[k[0] := PutF(Leaf(v), k[1..], MovedFrom(v))])
  }

  /**
    The state of the loop of `Put` after consuming `p`: the abstract value
    of the node the cursor stands on and the value still in hand.
  */
  function PutCursor(n: Node, p: string, v: Value): (Node, Value)
    decreases |p|
  {
    if p == [] then (n, v)
    else
      match Step(n, p[0])
      case Some(m) => PutCursor(m, p[1..], v)
      case None => PutCursor(Leaf(v), p[1..], MovedFrom(v))
  }

  /**
    The last step of `Trie::Remove`, on the clone of the parent of the final
    node: a childless value node loses its edge, a value node with children
    is replaced by a clone whose flag is cleared, anything else is kept.
  */
  function RemoveLast(n: Node, c: char): (r: Node)
    ensures r.isValue == n.isValue && r.val == n.val
    ensures Step(r, c).None?
    ensures forall d :: d != c ==> (d in r.children <==> d in n.children)
    ensures forall d :: d != c && d in n.children ==> r.children[d] == n.children[d]
  {
    match Step(n, c)
    case None => n
    case Some(m) =>
      if m.children == map[] then n.(children := n.children - {c})
      else n.(children := n.children[c := m.(isValue := false)])
  }

  /**
    `Trie::Remove` for a non-empty key. `None` means the walk over all but
    the last character failed and the receiver itself is returned;
    `Some(r)` is the root of the rebuilt path.
  */
  function RemoveF(n: Node, k: string): (r: Option<Node>)
    requires |k| > 0
    decreases |k|
    ensures r.Some? ==> r.value.isValue == n.isValue && r.value.val == n.val
  {
    if |k| == 1 then Some(RemoveLast(n, k[0]))
    else
      match Step(n, k[0])
      case None => None
      case Some(m) =>
        match RemoveF(m, k[1..])
        case None => None
        case Some(m') => Some(n.(children := n.children[k[0] := m']))
  }

  /** The root of the trie `Remove` returns: the receiver's own root when it returns `*this`. */
  function RemoveT(n: Node, k: string): Node
    requires |k| > 0
  {
    match RemoveF(n, k)
    case None => n
    case Some(r) => r
  }
}
