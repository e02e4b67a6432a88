/**
  The abstract value of a binary tree of `BTNode` objects, and the pure
  specification of what each operation of `BTNode` computes over it.

  A node's `id` stands for the identity of the node object: the class module
  instantiates `I` with the node references themselves, so comparing ids is
  the identity test `node == root` that `deleteUtil` performs.
*/
module Trees {

  datatype Tree<I, K> = Nil | Node(id: I, key: K, left: Tree<I, K>, right: Tree<I, K>)

  /** One entry of a traversal: the node visited and the key it held then. */
  datatype Visit<I, K> = Visit(id: I, key: K)

  function Size<I, K>(t: Tree<I, K>): nat
  {
    match t
    case Nil => 0
    case Node(_, _, l, r) => Size(l) + 1 + Size(r)
  }

  ghost function Ids<I, K>(t: Tree<I, K>): set<I>
  {
    match t
    case Nil => {}
    case Node(i, _, l, r) => {i} + Ids(l) + Ids(r)
  }

  /** Strict tree shape: no node occurs twice (no sharing, no cycles). */
  ghost predicate Distinct<I, K>(t: Tree<I, K>)
  {
    match t
    case Nil => true
    case Node(i, _, l, r) =>
      i !in Ids(l) && i !in Ids(r) && Ids(l) !! Ids(r) && Distinct(l) && Distinct(r)
  }

  /** Every node of the tree, with its key, counted once per occurrence. */
  ghost function Nodes<I, K>(t: Tree<I, K>): multiset<Visit<I, K>>
  {
    match t
    case Nil => multiset{}
    case Node(i, k, l, r) => multiset{Visit(i, k)} + Nodes(l) + Nodes(r)
  }

  /** Ids of the nodes that have at least one child. */
  ghost function Internal<I, K>(t: Tree<I, K>): set<I>
  {
    match t
    case Nil => {}
    case Node(i, _, l, r) =>
      (if l.Nil? && r.Nil? then {} else {i}) + Internal(l) + Internal(r)
  }

  /** Ids of the nodes that have no child. */
  ghost function LeafIds<I, K>(t: Tree<I, K>): set<I>
  {
    match t
    case Nil => {}
    case Node(i, _, l, r) =>
      (if l.Nil? && r.Nil? then {i} else {}) + LeafIds(l) + LeafIds(r)
  }

  /** The subtree rooted at node `x`, or `Nil` when `x` is not in `t`. */
  function SubtreeAt<I(==), K>(t: Tree<I, K>, x: I): Tree<I, K>
  {
    match t
    case Nil => Nil
    case Node(i, _, l, r) =>
      if i == x then t
      else if SubtreeAt(l, x).Node? then SubtreeAt(l, x)
      else SubtreeAt(r, x)
  }

  // ---------------------------------------------------------------------
  // insert
  // ---------------------------------------------------------------------

  /** The subtree after `insert(side, key)` linked the new leaf `c`: the link
      named by `side` is overwritten and any other string changes nothing. */
  function Attach<I, K>(t: Tree<I, K>, side: string, c: Tree<I, K>): Tree<I, K>
    requires t.Node?
  {
    if side == "left" then t.(left := c)
    else if side == "right" then t.(right := c)
    else t
  }

  // ---------------------------------------------------------------------
  // getLeftmost and delete
  // ---------------------------------------------------------------------

  /** The subtree rooted at the node `getLeftmost` reaches by following left links. */
  function Leftmost<I, K>(t: Tree<I, K>): (m: Tree<I, K>)
    requires t.Node?
    ensures m.Node? && m.left.Nil?
    ensures m.id in Ids(t)
  {
    if t.left.Nil? then t else Leftmost(t.left)
  }

  /** `t` with its leftmost node spliced out (replaced by its right subtree). */
  function RemoveLeftmost<I, K>(t: Tree<I, K>): Tree<I, K>
    requires t.Node?
  {
    if t.left.Nil? then t.right else Node(t.id, t.key, RemoveLeftmost(t.left), t.right)
  }

  /** The subtree that `deleteUtil(node, x)` returns when `node` roots `t`:
      both children are rebuilt first, then the node is dropped (at most one
      child) or takes its inorder successor's key (two children). */
  function Deleted<I(==), K>(t: Tree<I, K>, x: I): (r: Tree<I, K>)
    ensures Size(r) <= Size(t)
    decreases Size(t)
  {
    match t
    case Nil => Nil
    case Node(i, k, l, rt) =>
      var l', r' := Deleted(l, x), Deleted(rt, x);
      if i != x then Node(i, k, l', r')
      else if l'.Nil? then r'
      else if r'.Nil? then l'
      else
        var s := Leftmost(r');
        Node(i, s.key, l', Deleted(r', s.id))
  }

  /** The subtree the receiver roots after `delete(x)`. `delete` drops what
      `deleteUtil` returns, so when that is another node than the receiver
      the receiver keeps the subtree it had. */
  function DeleteFrom<I(==), K>(t: Tree<I, K>, x: I): Tree<I, K>
    requires t.Node?
  {
    var d := Deleted(t, x);
    if d.Node? && d.id == t.id then d else t
  }

  // ---------------------------------------------------------------------
  // traversals
  // ---------------------------------------------------------------------

  function InorderVisits<I, K>(t: Tree<I, K>): seq<Visit<I, K>>
  {
    match t
    case Nil => []
    case Node(i, k, l, r) => InorderVisits(l) + [Visit(i, k)] + InorderVisits(r)
  }

  function PreorderVisits<I, K>(t: Tree<I, K>): seq<Visit<I, K>>
  {
    match t
    case Nil => []
    case Node(i, k, l, r) => [Visit(i, k)] + PreorderVisits(l) + PreorderVisits(r)
  }

  function PostorderVisits<I, K>(t: Tree<I, K>): seq<Visit<I, K>>
  {
    match t
    case Nil => []
    case Node(i, k, l, r) => PostorderVisits(l) + PostorderVisits(r) + [Visit(i, k)]
  }

  /** Top-down walk that prefers the left child, emitting only nodes with a child. */
  function LeftBoundary<I, K>(t: Tree<I, K>): seq<Visit<I, K>>
  {
    match t
    case Nil => []
    case Node(i, k, l, r) =>
      if l.Node? then [Visit(i, k)] + LeftBoundary(l)
      else if r.Node? then [Visit(i, k)] + LeftBoundary(r)
      else []
  }

  /** Walk that prefers the right child, emitting only nodes with a child, bottom-up. */
  function RightBoundary<I, K>(t: Tree<I, K>): seq<Visit<I, K>>
  {
    match t
    case Nil => []
    case Node(i, k, l, r) =>
      if r.Node? then RightBoundary(r) + [Visit(i, k)]
      else if l.Node? then RightBoundary(l) + [Visit(i, k)]
      else []
  }

  /** The childless nodes, left to right. */
  function Leaves<I, K>(t: Tree<I, K>): seq<Visit<I, K>>
  {
    match t
    case Nil => []
    case Node(i, k, l, r) =>
      Leaves(l) + (if l.Nil? && r.Nil? then [Visit(i, k)] else []) + Leaves(r)
  }

  function BoundaryVisits<I, K>(t: Tree<I, K>): seq<Visit<I, K>>
  {
    match t
    case Nil => []
    case Node(i, k, l, r) =>
      [Visit(i, k)] + LeftBoundary(l) + Leaves(l) + Leaves(r) + RightBoundary(r)
  }

  // ---------------------------------------------------------------------
  // sequences of visits
  // ---------------------------------------------------------------------

  /** The keys of a traversal, which is what the source's lists hold. */
  function Keys<I, K>(vs: seq<Visit<I, K>>): seq<K>
  {
    if vs == [] then [] else [vs[0].key] + Keys(vs[1..])
  }

  ghost function VisitIds<I, K>(vs: seq<Visit<I, K>>): set<I>
  {
    set v | v in vs :: v.id
  }

  ghost predicate NoDupIds<I, K>(vs: seq<Visit<I, K>>)
  {
    forall a, b :: 0 <= a < b < |vs| ==> vs[a].id != vs[b].id
  }

  /** The traversal with every entry for node `x` taken out. */
  function Skip<I(==), K>(vs: seq<Visit<I, K>>, x: I): seq<Visit<I, K>>
  {
    if vs == [] then []
    else (if vs[0].id == x then [] else [vs[0]]) + Skip(vs[1..], x)
  }
}
