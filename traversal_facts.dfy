/**
  What the four traversals of `BTNode` produce: every node exactly once for
  inorder, preorder and postorder, and no node twice for the boundary walk.
*/
module TraversalFacts {
  import opened Trees

  // ---------------------------------------------------------------------
  // sequences of visits
  // ---------------------------------------------------------------------

  lemma {:induction false} KeysConcat<I, K>(a: seq<Visit<I, K>>, b: seq<Visit<I, K>>)
    ensures Keys(a + b) == Keys(a) + Keys(b)
  {
    if a != [] {
      assert (a + b)[1..] == a[1..] + b;
      KeysConcat(a[1..], b);
    } else {
      assert a + b == b;
    }
  }

  lemma {:induction false} KeysLength<I, K>(vs: seq<Visit<I, K>>)
    ensures |Keys(vs)| == |vs|
  {
    if vs != [] {
      KeysLength(vs[1..]);
    }
  }

  lemma {:induction false} SkipConcat<I, K>(a: seq<Visit<I, K>>, b: seq<Visit<I, K>>, x: I)
    ensures Skip(a + b, x) == Skip(a, x) + Skip(b, x)
  {
    if a != [] {
      assert (a + b)[1..] == a[1..] + b;
      SkipConcat(a[1..], b, x);
    } else {
      assert a + b == b;
    }
  }

  /** Taking out a node that was never visited changes nothing. */
  lemma {:induction false} SkipAbsent<I, K>(vs: seq<Visit<I, K>>, x: I)
    requires x !in VisitIds(vs)
    ensures Skip(vs, x) == vs
  {
    if vs != [] {
      assert vs[0] in vs;
      assert VisitIds(vs[1..]) <= VisitIds(vs) by {
        forall v | v in vs[1..] ensures v in vs { }
      }
      SkipAbsent(vs[1..], x);
    }
  }

  /** In a traversal without repeated nodes, taking out a visited node removes
      exactly its one entry and keeps the order of the others. */
  lemma {:induction false} SkipRemovesOne<I, K>(vs: seq<Visit<I, K>>, j: nat, x: I)
    requires j < |vs| && vs[j].id == x && NoDupIds(vs)
    ensures Skip(vs, x) == vs[..j] + vs[j + 1..]
    ensures |Skip(vs, x)| == |vs| - 1
  {
    if j == 0 {
      assert x !in VisitIds(vs[1..]) by {
        forall v | v in vs[1..] ensures v.id != x {
          var m :| 0 <= m < |vs[1..]| && vs[1..][m] == v;
          assert vs[m + 1] == v;
        }
      }
      SkipAbsent(vs[1..], x);
    } else {
      SkipRemovesOne(vs[1..], j - 1, x);
      assert vs[1..][..j - 1] + vs[1..][j..] == vs[1..j] + vs[j + 1..];
      assert vs[..j] + vs[j + 1..] == [vs[0]] + (vs[1..j] + vs[j + 1..]);
    }
  }

  lemma VisitIdsConcat<I, K>(a: seq<Visit<I, K>>, b: seq<Visit<I, K>>)
    ensures VisitIds(a + b) == VisitIds(a) + VisitIds(b)
  {
  }

  lemma {:induction false} NoDupConcat<I, K>(a: seq<Visit<I, K>>, b: seq<Visit<I, K>>)
    requires NoDupIds(a) && NoDupIds(b) && VisitIds(a) !! VisitIds(b)
    ensures NoDupIds(a + b)
    ensures VisitIds(a + b) == VisitIds(a) + VisitIds(b)
  {
    forall p, q | 0 <= p < q < |a + b| ensures (a + b)[p].id != (a + b)[q].id {
      if p < |a| && q >= |a| {
        assert a[p] in a && b[q - |a|] in b;
        assert a[p].id in VisitIds(a) && b[q - |a|].id in VisitIds(b);
      }
    }
  }

  // ---------------------------------------------------------------------
  // inorder, preorder, postorder
  // ---------------------------------------------------------------------

  /** Each of the three orders lists exactly the nodes of the tree, each as
      often as it occurs, so the three are permutations of each other. */
  lemma {:induction false} InorderListsEveryNode<I, K>(t: Tree<I, K>)
    ensures multiset(InorderVisits(t)) == Nodes(t)
  {
    match t
    case Nil =>
    case Node(i, k, l, r) =>
      InorderListsEveryNode(l);
      InorderListsEveryNode(r);
  }

  lemma {:induction false} PreorderListsEveryNode<I, K>(t: Tree<I, K>)
    ensures multiset(PreorderVisits(t)) == Nodes(t)
  {
    match t
    case Nil =>
    case Node(i, k, l, r) =>
      PreorderListsEveryNode(l);
      PreorderListsEveryNode(r);
  }

  lemma {:induction false} PostorderListsEveryNode<I, K>(t: Tree<I, K>)
    ensures multiset(PostorderVisits(t)) == Nodes(t)
  {
    match t
    case Nil =>
    case Node(i, k, l, r) =>
      PostorderListsEveryNode(l);
      PostorderListsEveryNode(r);
  }

  /** The length of every traversal is the node count. */
  lemma {:induction false} TraversalLength<I, K>(t: Tree<I, K>)
    ensures |InorderVisits(t)| == Size(t)
    ensures |PreorderVisits(t)| == Size(t)
    ensures |PostorderVisits(t)| == Size(t)
  {
    match t
    case Nil =>
    case Node(i, k, l, r) =>
      TraversalLength(l);
      TraversalLength(r);
  }

  /** Every traversal visits exactly the nodes of the tree. */
  lemma {:induction false} TraversalIds<I, K>(t: Tree<I, K>)
    ensures VisitIds(InorderVisits(t)) == Ids(t)
    ensures VisitIds(PreorderVisits(t)) == Ids(t)
    ensures VisitIds(PostorderVisits(t)) == Ids(t)
  {
    match t
    case Nil =>
    case Node(i, k, l, r) =>
      TraversalIds(l);
      TraversalIds(r);
      var v := [Visit(i, k)];
      assert VisitIds(v) == {i};
      VisitIdsConcat(InorderVisits(l), v);
      VisitIdsConcat(InorderVisits(l) + v, InorderVisits(r));
      VisitIdsConcat(v, PreorderVisits(l));
      VisitIdsConcat(v + PreorderVisits(l), PreorderVisits(r));
      VisitIdsConcat(PostorderVisits(l), PostorderVisits(r));
      VisitIdsConcat(PostorderVisits(l) + PostorderVisits(r), v);
  }

  /** In a strict tree no node is visited twice, and the nodes visited are
      exactly the nodes of the tree. */
  lemma {:induction false} InorderVisitsEachNodeOnce<I, K>(t: Tree<I, K>)
    requires Distinct(t)
    ensures NoDupIds(InorderVisits(t)) && VisitIds(InorderVisits(t)) == Ids(t)
  {
    match t
    case Nil =>
    case Node(i, k, l, r) =>
      InorderVisitsEachNodeOnce(l);
      InorderVisitsEachNodeOnce(r);
      var v := [Visit(i, k)];
      assert VisitIds(v) == {i};
      NoDupConcat(InorderVisits(l), v);
      NoDupConcat(InorderVisits(l) + v, InorderVisits(r));
  }

  lemma {:induction false} PreorderVisitsEachNodeOnce<I, K>(t: Tree<I, K>)
    requires Distinct(t)
    ensures NoDupIds(PreorderVisits(t)) && VisitIds(PreorderVisits(t)) == Ids(t)
  {
    match t
    case Nil =>
    case Node(i, k, l, r) =>
      PreorderVisitsEachNodeOnce(l);
      PreorderVisitsEachNodeOnce(r);
      var v := [Visit(i, k)];
      assert VisitIds(v) == {i};
      NoDupConcat(v, PreorderVisits(l));
      NoDupConcat(v + PreorderVisits(l), PreorderVisits(r));
  }

  lemma {:induction false} PostorderVisitsEachNodeOnce<I, K>(t: Tree<I, K>)
    requires Distinct(t)
    ensures NoDupIds(PostorderVisits(t)) && VisitIds(PostorderVisits(t)) == Ids(t)
  {
    match t
    case Nil =>
    case Node(i, k, l, r) =>
      PostorderVisitsEachNodeOnce(l);
      PostorderVisitsEachNodeOnce(r);
      var v := [Visit(i, k)];
      assert VisitIds(v) == {i};
      NoDupConcat(PostorderVisits(l), PostorderVisits(r));
      NoDupConcat(PostorderVisits(l) + PostorderVisits(r), v);
  }

  /** The inorder sequence starts with the node `getLeftmost` finds, and
      without that node it is the inorder sequence of the rest. */
  lemma {:induction false} LeftmostIsFirstInorder<I, K>(t: Tree<I, K>)
    requires t.Node?
    ensures InorderVisits(t)[0] == Visit(Leftmost(t).id, Leftmost(t).key)
    ensures InorderVisits(RemoveLeftmost(t)) == InorderVisits(t)[1..]
  {
    if t.left.Node? {
      LeftmostIsFirstInorder(t.left);
      assert InorderVisits(t) == InorderVisits(t.left) + ([Visit(t.id, t.key)] + InorderVisits(t.right));
    }
  }

  // ---------------------------------------------------------------------
  // boundary traversal
  // ---------------------------------------------------------------------

  lemma {:induction false} InternalAndLeaves<I, K>(t: Tree<I, K>)
    ensures Internal(t) + LeafIds(t) == Ids(t)
    ensures Distinct(t) ==> Internal(t) !! LeafIds(t)
  {
    match t
    case Nil =>
    case Node(i, k, l, r) =>
      InternalAndLeaves(l);
      InternalAndLeaves(r);
  }

  /** The left boundary walk emits only nodes with a child, none twice. */
  lemma {:induction false} LeftBoundaryParts<I, K>(t: Tree<I, K>)
    requires Distinct(t)
    ensures NoDupIds(LeftBoundary(t)) && VisitIds(LeftBoundary(t)) <= Internal(t)
  {
    match t
    case Nil =>
    case Node(i, k, l, r) =>
      InternalAndLeaves(l);
      InternalAndLeaves(r);
      var v := [Visit(i, k)];
      assert VisitIds(v) == {i};
      if l.Node? {
        LeftBoundaryParts(l);
        NoDupConcat(v, LeftBoundary(l));
      } else if r.Node? {
        LeftBoundaryParts(r);
        NoDupConcat(v, LeftBoundary(r));
      }
  }

  /** The right boundary walk emits only nodes with a child, none twice. */
  lemma {:induction false} RightBoundaryParts<I, K>(t: Tree<I, K>)
    requires Distinct(t)
    ensures NoDupIds(RightBoundary(t)) && VisitIds(RightBoundary(t)) <= Internal(t)
  {
    match t
    case Nil =>
    case Node(i, k, l, r) =>
      InternalAndLeaves(l);
      InternalAndLeaves(r);
      var v := [Visit(i, k)];
      assert VisitIds(v) == {i};
      if r.Node? {
        RightBoundaryParts(r);
        NoDupConcat(RightBoundary(r), v);
      } else if l.Node? {
        RightBoundaryParts(l);
        NoDupConcat(RightBoundary(l), v);
      }
  }

  /** The leaf walk emits exactly the childless nodes, none twice. */
  lemma {:induction false} LeavesParts<I, K>(t: Tree<I, K>)
    requires Distinct(t)
    ensures NoDupIds(Leaves(t)) && VisitIds(Leaves(t)) == LeafIds(t)
  {
    match t
    case Nil =>
    case Node(i, k, l, r) =>
      InternalAndLeaves(l);
      InternalAndLeaves(r);
      LeavesParts(l);
      LeavesParts(r);
      var mid: seq<Visit<I, K>> := if l.Nil? && r.Nil? then [Visit(i, k)] else [];
      assert VisitIds(mid) == if l.Nil? && r.Nil? then {i} else {};
      NoDupConcat(Leaves(l), mid);
      NoDupConcat(Leaves(l) + mid, Leaves(r));
  }

  /** The boundary traversal never emits a node twice. */
  lemma {:induction false} BoundaryEmitsNoNodeTwice<I, K>(t: Tree<I, K>)
    requires Distinct(t)
    ensures NoDupIds(BoundaryVisits(t))
    ensures VisitIds(BoundaryVisits(t)) <= Ids(t)
  {
    match t
    case Nil =>
    case Node(i, k, l, r) =>
      InternalAndLeaves(l);
      InternalAndLeaves(r);
      LeftBoundaryParts(l);
      LeavesParts(l);
      LeavesParts(r);
      RightBoundaryParts(r);
      var v := [Visit(i, k)];
      assert VisitIds(v) == {i};
      NoDupConcat(v, LeftBoundary(l));
      NoDupConcat(v + LeftBoundary(l), Leaves(l));
      NoDupConcat(v + LeftBoundary(l) + Leaves(l), Leaves(r));
      NoDupConcat(v + LeftBoundary(l) + Leaves(l) + Leaves(r), RightBoundary(r));
  }

  // ---------------------------------------------------------------------
  // insert
  // ---------------------------------------------------------------------

  /** `insert` links a new leaf on the named side and drops whatever subtree
      was there: the tree stays strict, keeps the other side, and its inorder
      sequence has the new leaf next to the node. */
  lemma {:induction false} InsertReplacesSubtree<I, K>(t: Tree<I, K>, side: string, j: I, k: K)
    requires t.Node? && Distinct(t) && j !in Ids(t)
    ensures var u := Attach(t, side, Node(j, k, Nil, Nil));
      && Distinct(u)
      && (side == "left" ==>
            Ids(u) == {t.id, j} + Ids(t.right) &&
            InorderVisits(u) == [Visit(j, k), Visit(t.id, t.key)] + InorderVisits(t.right))
      && (side == "right" ==>
            Ids(u) == Ids(t.left) + {t.id, j} &&
            InorderVisits(u) == InorderVisits(t.left) + [Visit(t.id, t.key), Visit(j, k)])
      && (side != "left" && side != "right" ==> u == t)
  {
    var c: Tree<I, K> := Node(j, k, Nil, Nil);
    if side == "left" {
      calc {
        InorderVisits(Attach(t, side, c));
        InorderVisits(c) + [Visit(t.id, t.key)] + InorderVisits(t.right);
        { assert InorderVisits(c) == [Visit(j, k)]; }
        [Visit(j, k), Visit(t.id, t.key)] + InorderVisits(t.right);
      }
    } else if side == "right" {
      calc {
        InorderVisits(Attach(t, side, c));
        InorderVisits(t.left) + [Visit(t.id, t.key)] + InorderVisits(c);
        { assert InorderVisits(c) == [Visit(j, k)]; }
        InorderVisits(t.left) + [Visit(t.id, t.key), Visit(j, k)];
      }
    }
  }

  // ---------------------------------------------------------------------
  // the key lists the recursive helpers build
  // ---------------------------------------------------------------------

  lemma KeysOfOne<I, K>(i: I, k: K)
    ensures Keys([Visit(i, k)]) == [k]
  {
  }

  /** `inorderUtil` appends the left subtree's keys, the node's key, then the
      right subtree's keys, which is the node's inorder key list. */
  lemma InorderAppends<I, K>(acc: seq<K>, i: I, k: K, l: Tree<I, K>, r: Tree<I, K>)
    ensures acc + Keys(InorderVisits(Node(i, k, l, r)))
         == acc + Keys(InorderVisits(l)) + [k] + Keys(InorderVisits(r))
  {
    var v := [Visit(i, k)];
    KeysConcat(InorderVisits(l) + v, InorderVisits(r));
    KeysConcat(InorderVisits(l), v);
    KeysOfOne(i, k);
  }

  /** `preorderUtil` appends the node's key, then the left and right subtrees' keys. */
  lemma PreorderAppends<I, K>(acc: seq<K>, i: I, k: K, l: Tree<I, K>, r: Tree<I, K>)
    ensures acc + Keys(PreorderVisits(Node(i, k, l, r)))
         == acc + [k] + Keys(PreorderVisits(l)) + Keys(PreorderVisits(r))
  {
    var v := [Visit(i, k)];
    KeysConcat(v + PreorderVisits(l), PreorderVisits(r));
    KeysConcat(v, PreorderVisits(l));
    KeysOfOne(i, k);
  }

  /** `postorderUtil` appends the left and right subtrees' keys, then the node's key. */
  lemma PostorderAppends<I, K>(acc: seq<K>, i: I, k: K, l: Tree<I, K>, r: Tree<I, K>)
    ensures acc + Keys(PostorderVisits(Node(i, k, l, r)))
         == acc + Keys(PostorderVisits(l)) + Keys(PostorderVisits(r)) + [k]
  {
    var v := [Visit(i, k)];
    KeysConcat(PostorderVisits(l) + PostorderVisits(r), v);
    KeysConcat(PostorderVisits(l), PostorderVisits(r));
    KeysOfOne(i, k);
  }

  /** `boundaryLeft` appends a node with a child, then descends. */
  lemma LeftBoundaryAppends<I, K>(acc: seq<K>, i: I, k: K, l: Tree<I, K>, r: Tree<I, K>)
    ensures l.Node? ==> acc + Keys(LeftBoundary(Node(i, k, l, r))) == acc + [k] + Keys(LeftBoundary(l))
    ensures l.Nil? && r.Node? ==> acc + Keys(LeftBoundary(Node(i, k, l, r))) == acc + [k] + Keys(LeftBoundary(r))
    ensures l.Nil? && r.Nil? ==> Keys(LeftBoundary(Node(i, k, l, r))) == []
  {
  }

  /** `boundaryRight` descends first, then appends a node with a child. */
  lemma RightBoundaryAppends<I, K>(acc: seq<K>, i: I, k: K, l: Tree<I, K>, r: Tree<I, K>)
    ensures r.Node? ==> acc + Keys(RightBoundary(Node(i, k, l, r))) == acc + Keys(RightBoundary(r)) + [k]
    ensures r.Nil? && l.Node? ==> acc + Keys(RightBoundary(Node(i, k, l, r))) == acc + Keys(RightBoundary(l)) + [k]
    ensures l.Nil? && r.Nil? ==> Keys(RightBoundary(Node(i, k, l, r))) == []
  {
    var v := [Visit(i, k)];
    KeysConcat(RightBoundary(r), v);
    KeysConcat(RightBoundary(l), v);
    KeysOfOne(i, k);
  }

  /** `leavesNode` appends the left subtree's leaves, the node itself when it
      has no child, then the right subtree's leaves. */
  lemma LeavesAppends<I, K>(acc: seq<K>, i: I, k: K, l: Tree<I, K>, r: Tree<I, K>)
    ensures acc + Keys(Leaves(Node(i, k, l, r)))
         == acc + Keys(Leaves(l)) + (if l.Nil? && r.Nil? then [k] else []) + Keys(Leaves(r))
  {
    var mid: seq<Visit<I, K>> := if l.Nil? && r.Nil? then [Visit(i, k)] else [];
    KeysConcat(Leaves(l) + mid, Leaves(r));
    KeysConcat(Leaves(l), mid);
    KeysOfOne(i, k);
  }

  /** `boundaryTrav_Util` appends the root, the left boundary, the leaves of
      both subtrees and the right boundary. */
  lemma BoundaryAppends<I, K>(acc: seq<K>, i: I, k: K, l: Tree<I, K>, r: Tree<I, K>)
    ensures acc + Keys(BoundaryVisits(Node(i, k, l, r)))
         == acc + [k] + Keys(LeftBoundary(l)) + Keys(Leaves(l)) + Keys(Leaves(r)) + Keys(RightBoundary(r))
  {
    var v := [Visit(i, k)];
    var a, b, c, d := LeftBoundary(l), Leaves(l), Leaves(r), RightBoundary(r);
    var K, A, B, C, D := [k], Keys(a), Keys(b), Keys(c), Keys(d);
    KeysConcat(v + a + b + c, d);
    KeysConcat(v + a + b, c);
    KeysConcat(v + a, b);
    KeysConcat(v, a);
    KeysOfOne(i, k);
    assert Keys(BoundaryVisits(Node(i, k, l, r))) == K + A + B + C + D;
    AppendFive(acc, K, A, B, C, D);
  }

  lemma AppendFive<T>(acc: seq<T>, a: seq<T>, b: seq<T>, c: seq<T>, d: seq<T>, e: seq<T>)
    ensures acc + (a + b + c + d + e) == acc + a + b + c + d + e
  {
  }
}
