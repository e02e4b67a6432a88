/**
  What `deleteUtil` and `delete` do to a strict tree: a missing target changes
  nothing, a target with at most one child is spliced out, a target with two
  children takes its inorder successor's key and the successor is spliced
  out, and in every case the inorder keys lose exactly the target's entry.
*/
module DeletionFacts {
  import opened Trees
  import opened TraversalFacts

  /** Deleting a node that is not in the tree rebuilds the same tree. */
  lemma {:induction false} DeletedAbsent<I, K>(t: Tree<I, K>, x: I)
    requires x !in Ids(t)
    ensures Deleted(t, x) == t
  {
    match t
    case Nil =>
    case Node(i, k, l, r) =>
      DeletedAbsent(l, x);
      DeletedAbsent(r, x);
  }

  /** Deletion only drops nodes, so a strict tree stays strict. */
  lemma {:induction false} DeletedKeepsShape<I, K>(t: Tree<I, K>, x: I)
    ensures Ids(Deleted(t, x)) <= Ids(t)
    ensures Distinct(t) ==> Distinct(Deleted(t, x))
    decreases Size(t)
  {
    match t
    case Nil =>
    case Node(i, k, l, rt) =>
      DeletedKeepsShape(l, x);
      DeletedKeepsShape(rt, x);
      var l', r' := Deleted(l, x), Deleted(rt, x);
      if i == x && l'.Node? && r'.Node? {
        var s := Leftmost(r');
        DeletedKeepsShape(r', s.id);
      }
  }

  /** Deleting the node `getLeftmost` finds splices it out: having no left
      child, it is replaced by its right subtree. */
  lemma {:induction false} DeletedLeftmost<I, K>(t: Tree<I, K>)
    requires t.Node? && Distinct(t)
    ensures Deleted(t, Leftmost(t).id) == RemoveLeftmost(t)
  {
    var s := Leftmost(t);
    if t.left.Nil? {
      DeletedAbsent(t.right, s.id);
    } else {
      DeletedLeftmost(t.left);
      DeletedAbsent(t.right, s.id);
    }
  }

  /** The three cases of `deleteUtil` at the target node itself: no left child,
      left child only, both children (successor key copied in, successor
      spliced out of the right subtree). */
  lemma {:induction false} DeletedAtTarget<I, K>(t: Tree<I, K>)
    requires t.Node? && Distinct(t)
    ensures t.left.Nil? ==> Deleted(t, t.id) == t.right
    ensures t.left.Node? && t.right.Nil? ==> Deleted(t, t.id) == t.left
    ensures t.left.Node? && t.right.Node? ==>
      Deleted(t, t.id) == Node(t.id, Leftmost(t.right).key, t.left, RemoveLeftmost(t.right))
  {
    DeletedAbsent(t.left, t.id);
    DeletedAbsent(t.right, t.id);
    if t.right.Node? {
      DeletedLeftmost(t.right);
    }
  }

  /** The inorder keys after deleting `x` are the old inorder keys without the
      entry of node `x`, the others in the same order. */
  lemma {:induction false} DeletedInorder<I, K>(t: Tree<I, K>, x: I)
    requires Distinct(t)
    ensures Keys(InorderVisits(Deleted(t, x))) == Keys(Skip(InorderVisits(t), x))
  {
    match t
    case Nil =>
    case Node(i, k, l, r) =>
      if i != x {
        DeletedInorder(l, x);
        DeletedInorder(r, x);
        InorderAroundKept(t, x);
      } else {
        InorderAtTarget(t);
      }
  }

  /** Step of `DeletedInorder` at a node that is not the target. */
  lemma InorderAroundKept<I, K>(t: Tree<I, K>, x: I)
    requires t.Node? && t.id != x
    requires Keys(InorderVisits(Deleted(t.left, x))) == Keys(Skip(InorderVisits(t.left), x))
    requires Keys(InorderVisits(Deleted(t.right, x))) == Keys(Skip(InorderVisits(t.right), x))
    ensures Keys(InorderVisits(Deleted(t, x))) == Keys(Skip(InorderVisits(t), x))
  {
    var v := [Visit(t.id, t.key)];
    var l, r := t.left, t.right;
    SkipConcat(InorderVisits(l), v, x);
    SkipConcat(InorderVisits(l) + v, InorderVisits(r), x);
    assert Skip(v, x) == v;
    assert Deleted(t, x) == Node(t.id, t.key, Deleted(l, x), Deleted(r, x));
    KeysConcat(InorderVisits(Deleted(l, x)), v);
    KeysConcat(InorderVisits(Deleted(l, x)) + v, InorderVisits(Deleted(r, x)));
    KeysConcat(Skip(InorderVisits(l), x), v);
    KeysConcat(Skip(InorderVisits(l), x) + v, Skip(InorderVisits(r), x));
  }

  /** Step of `DeletedInorder` at the target node itself. */
  lemma InorderAtTarget<I, K>(t: Tree<I, K>)
    requires t.Node? && Distinct(t)
    ensures Keys(InorderVisits(Deleted(t, t.id))) == Keys(Skip(InorderVisits(t), t.id))
  {
    SkipAtTarget(t);
    DeletedAtTargetInorder(t);
  }

  lemma SkipAtTarget<I, K>(t: Tree<I, K>)
    requires t.Node? && Distinct(t)
    ensures Skip(InorderVisits(t), t.id) == InorderVisits(t.left) + InorderVisits(t.right)
  {
    SkipInorderAtRoot(t);
    TraversalIds(t.left);
    assert t.id !in VisitIds(InorderVisits(t.left));
    SkipAbsent(InorderVisits(t.left), t.id);
    TraversalIds(t.right);
    SkipAbsent(InorderVisits(t.right), t.id);
  }

  lemma SkipInorderAtRoot<I, K>(t: Tree<I, K>)
    requires t.Node?
    ensures Skip(InorderVisits(t), t.id)
         == Skip(InorderVisits(t.left), t.id) + Skip(InorderVisits(t.right), t.id)
  {
    var x, a, b := t.id, InorderVisits(t.left), InorderVisits(t.right);
    var v := [Visit(x, t.key)];
    assert Skip(v, x) == [] by {
      assert v[1..] == [];
    }
    calc {
      Skip(InorderVisits(t), x);
      Skip(a + v + b, x);
      { SkipConcat(a + v, b, x); }
      Skip(a + v, x) + Skip(b, x);
      { SkipConcat(a, v, x); }
      Skip(a, x) + Skip(v, x) + Skip(b, x);
      { assert Skip(a, x) + [] == Skip(a, x); }
      Skip(a, x) + Skip(b, x);
    }
  }

  lemma DeletedAtTargetInorder<I, K>(t: Tree<I, K>)
    requires t.Node? && Distinct(t)
    ensures Keys(InorderVisits(Deleted(t, t.id))) == Keys(InorderVisits(t.left) + InorderVisits(t.right))
  {
    var l, r := t.left, t.right;
    DeletedAtTarget(t);
    if l.Nil? {
      assert InorderVisits(l) + InorderVisits(r) == InorderVisits(r);
    } else if r.Nil? {
      assert InorderVisits(l) + InorderVisits(r) == InorderVisits(l);
    } else {
      InorderAfterSuccessorCopy(t);
    }
  }

  /** A two-child target takes the first key of its right subtree's inorder
      sequence, and that entry leaves the right subtree. */
  lemma InorderAfterSuccessorCopy<I, K>(t: Tree<I, K>)
    requires t.Node? && t.left.Node? && t.right.Node?
    ensures Keys(InorderVisits(Node(t.id, Leftmost(t.right).key, t.left, RemoveLeftmost(t.right))))
         == Keys(InorderVisits(t.left) + InorderVisits(t.right))
  {
    var l, r := t.left, t.right;
    var s := Leftmost(r);
    LeftmostIsFirstInorder(r);
    var rest := InorderVisits(r)[1..];
    var mid := [Visit(t.id, s.key)];
    assert InorderVisits(r) == [Visit(s.id, s.key)] + rest;
    KeysConcat(InorderVisits(l), mid);
    KeysConcat(InorderVisits(l) + mid, rest);
    KeysConcat(InorderVisits(l), InorderVisits(r));
    KeysConcat([Visit(s.id, s.key)], rest);
    assert Keys(mid) == Keys([Visit(s.id, s.key)]) == [s.key];
  }

  /** Deleting a node of a strict tree removes exactly one node: one entry of
      the inorder keys goes, the one at the target's position. */
  lemma {:induction false} DeleteRemovesOneNode<I, K>(t: Tree<I, K>, x: I)
    requires Distinct(t) && x in Ids(t)
    ensures Size(Deleted(t, x)) == Size(t) - 1
    ensures exists j :: (0 <= j < |InorderVisits(t)| && InorderVisits(t)[j].id == x &&
      Keys(InorderVisits(Deleted(t, x))) == Keys(InorderVisits(t)[..j] + InorderVisits(t)[j + 1..]))
  {
    var vs := InorderVisits(t);
    InorderVisitsEachNodeOnce(t);
    assert x in VisitIds(vs);
    var v :| v in vs && v.id == x;
    var j :| 0 <= j < |vs| && vs[j] == v;
    SkipRemovesOne(vs, j, x);
    DeletedInorder(t, x);
    TraversalLength(t);
    TraversalLength(Deleted(t, x));
    KeysLength(InorderVisits(Deleted(t, x)));
    KeysLength(Skip(vs, x));
  }

  /** Deleting a target that has at most one child takes exactly its entry out
      of all three traversals; every other node keeps its key and place. */
  lemma DeletedSplicesOut<I, K>(t: Tree<I, K>, x: I)
    requires Distinct(t)
    requires SubtreeAt(t, x).Node? && (SubtreeAt(t, x).left.Nil? || SubtreeAt(t, x).right.Nil?)
    ensures InorderVisits(Deleted(t, x)) == Skip(InorderVisits(t), x)
    ensures PreorderVisits(Deleted(t, x)) == Skip(PreorderVisits(t), x)
    ensures PostorderVisits(Deleted(t, x)) == Skip(PostorderVisits(t), x)
  {
    SplicedInorder(t, x);
    SplicedPreorder(t, x);
    SplicedPostorder(t, x);
  }

  lemma {:induction false} SplicedInorder<I, K>(t: Tree<I, K>, x: I)
    requires Distinct(t)
    requires SubtreeAt(t, x).Node? && (SubtreeAt(t, x).left.Nil? || SubtreeAt(t, x).right.Nil?)
    ensures InorderVisits(Deleted(t, x)) == Skip(InorderVisits(t), x)
  {
    var i, k, l, r := t.id, t.key, t.left, t.right;
    var v := [Visit(i, k)];
    TraversalIds(l);
    TraversalIds(r);
    SkipConcat(InorderVisits(l), v, x);
    SkipConcat(InorderVisits(l) + v, InorderVisits(r), x);
    if i == x {
      DeletedAtTarget(t);
      SkipAbsent(InorderVisits(l), x);
      SkipAbsent(InorderVisits(r), x);
      assert Skip(v, x) == [];
    } else {
      assert Skip(v, x) == v;
      SubtreeAtFound(l, x);
      if SubtreeAt(l, x).Node? {
        SplicedInorder(l, x);
        DeletedAbsent(r, x);
        SkipAbsent(InorderVisits(r), x);
      } else {
        SubtreeAtFound(r, x);
        SplicedInorder(r, x);
        DeletedAbsent(l, x);
        SkipAbsent(InorderVisits(l), x);
      }
    }
  }

  lemma {:induction false} SplicedPreorder<I, K>(t: Tree<I, K>, x: I)
    requires Distinct(t)
    requires SubtreeAt(t, x).Node? && (SubtreeAt(t, x).left.Nil? || SubtreeAt(t, x).right.Nil?)
    ensures PreorderVisits(Deleted(t, x)) == Skip(PreorderVisits(t), x)
  {
    var i, k, l, r := t.id, t.key, t.left, t.right;
    var v := [Visit(i, k)];
    TraversalIds(l);
    TraversalIds(r);
    SkipConcat(v, PreorderVisits(l), x);
    SkipConcat(v + PreorderVisits(l), PreorderVisits(r), x);
    if i == x {
      DeletedAtTarget(t);
      SkipAbsent(PreorderVisits(l), x);
      SkipAbsent(PreorderVisits(r), x);
      assert Skip(v, x) == [];
    } else {
      assert Skip(v, x) == v;
      SubtreeAtFound(l, x);
      if SubtreeAt(l, x).Node? {
        SplicedPreorder(l, x);
        DeletedAbsent(r, x);
        SkipAbsent(PreorderVisits(r), x);
      } else {
        SubtreeAtFound(r, x);
        SplicedPreorder(r, x);
        DeletedAbsent(l, x);
        SkipAbsent(PreorderVisits(l), x);
      }
    }
  }

  lemma {:induction false} SplicedPostorder<I, K>(t: Tree<I, K>, x: I)
    requires Distinct(t)
    requires SubtreeAt(t, x).Node? && (SubtreeAt(t, x).left.Nil? || SubtreeAt(t, x).right.Nil?)
    ensures PostorderVisits(Deleted(t, x)) == Skip(PostorderVisits(t), x)
  {
    var i, k, l, r := t.id, t.key, t.left, t.right;
    var v := [Visit(i, k)];
    if i == x {
      SplicedPostorderAtTarget(t);
    } else {
      TraversalIds(l);
      TraversalIds(r);
      SkipConcat(PostorderVisits(l), PostorderVisits(r), x);
      SkipConcat(PostorderVisits(l) + PostorderVisits(r), v, x);
      assert Skip(v, x) == v;
      SubtreeAtFound(l, x);
      if SubtreeAt(l, x).Node? {
        SplicedPostorder(l, x);
        DeletedAbsent(r, x);
        SkipAbsent(PostorderVisits(r), x);
      } else {
        SubtreeAtFound(r, x);
        SplicedPostorder(r, x);
        DeletedAbsent(l, x);
        SkipAbsent(PostorderVisits(l), x);
      }
    }
  }

  lemma SplicedPostorderAtTarget<I, K>(t: Tree<I, K>)
    requires Distinct(t) && t.Node? && (t.left.Nil? || t.right.Nil?)
    ensures PostorderVisits(Deleted(t, t.id)) == Skip(PostorderVisits(t), t.id)
  {
    var i, k, l, r := t.id, t.key, t.left, t.right;
    var v := [Visit(i, k)];
    TraversalIds(l);
    TraversalIds(r);
    SkipConcat(PostorderVisits(l), PostorderVisits(r), i);
    SkipConcat(PostorderVisits(l) + PostorderVisits(r), v, i);
    DeletedAtTarget(t);
    SkipAbsent(PostorderVisits(l), i);
    SkipAbsent(PostorderVisits(r), i);
    assert Skip(v, i) == [];
  }

  /** `SubtreeAt` finds node `x` exactly when `x` is in the tree. */
  lemma {:induction false} SubtreeAtFound<I, K>(t: Tree<I, K>, x: I)
    ensures SubtreeAt(t, x).Node? <==> x in Ids(t)
    ensures SubtreeAt(t, x).Node? ==> SubtreeAt(t, x).id == x
  {
    match t
    case Nil =>
    case Node(i, k, l, r) =>
      SubtreeAtFound(l, x);
      SubtreeAtFound(r, x);
  }

  /** `delete` keeps the receiver as the root. It changes nothing when the
      target is missing, or is the receiver itself with at most one child
      (`deleteUtil`'s result is dropped); otherwise it is `deleteUtil`. */
  lemma {:induction false} DeleteFromCases<I, K>(t: Tree<I, K>, x: I)
    requires t.Node? && Distinct(t)
    ensures DeleteFrom(t, x).Node? && DeleteFrom(t, x).id == t.id
    ensures x !in Ids(t) ==> DeleteFrom(t, x) == t
    ensures x == t.id && (t.left.Nil? || t.right.Nil?) ==> DeleteFrom(t, x) == t
    ensures x != t.id || (t.left.Node? && t.right.Node?) ==> DeleteFrom(t, x) == Deleted(t, x)
  {
    if x !in Ids(t) {
      DeletedAbsent(t, x);
    } else if x == t.id {
      DeletedAtTarget(t);
      if t.left.Nil? && t.right.Node? {
        assert t.right.id in Ids(t.right);
      } else if t.left.Node? && t.right.Nil? {
        assert t.left.id in Ids(t.left);
      }
    }
  }

  /** After `delete(x)` for a target strictly below the receiver (or the
      receiver with two children), the inorder keys lose exactly the entry of
      node `x` and the node count drops by one. */
  lemma {:induction false} DeleteFromInorder<I, K>(t: Tree<I, K>, x: I)
    requires t.Node? && Distinct(t) && x in Ids(t)
    requires x != t.id || (t.left.Node? && t.right.Node?)
    ensures Keys(InorderVisits(DeleteFrom(t, x))) == Keys(Skip(InorderVisits(t), x))
    ensures Size(DeleteFrom(t, x)) == Size(t) - 1
  {
    DeleteFromCases(t, x);
    DeletedInorder(t, x);
    DeleteRemovesOneNode(t, x);
  }

  /** Unlike the other traversals, the boundary of a tree can gain a node
      when a leaf is deleted: in 1(2(4, 5(6, 7)), -) the left boundary stops
      at 2 while 2 has the left child 4; once 4 is deleted it runs on through
      the right child 5, so 5 joins the boundary instead of 4 just dropping
      out of it. */
  lemma BoundaryCanGainNode()
    ensures var t: Tree<int, int> :=
              Node(1, 1, Node(2, 2, Node(4, 4, Nil, Nil),
                                    Node(5, 5, Node(6, 6, Nil, Nil), Node(7, 7, Nil, Nil))), Nil);
      && BoundaryVisits(t) == [Visit(1, 1), Visit(2, 2), Visit(4, 4), Visit(6, 6), Visit(7, 7)]
      && BoundaryVisits(Deleted(t, 4)) == [Visit(1, 1), Visit(2, 2), Visit(5, 5), Visit(6, 6), Visit(7, 7)]
  {
    var l4, l6, l7: Tree<int, int> := Node(4, 4, Nil, Nil), Node(6, 6, Nil, Nil), Node(7, 7, Nil, Nil);
    var n5 := Node(5, 5, l6, l7);
    var t := Node(1, 1, Node(2, 2, l4, n5), Nil);
    var v1, v2, v4, v5, v6, v7 := Visit(1, 1), Visit(2, 2), Visit(4, 4), Visit(5, 5), Visit(6, 6), Visit(7, 7);
    assert Leaves(n5) == [v6, v7];
    assert BoundaryVisits(t) == [v1] + [v2] + [v4, v6, v7];
    DeletedAbsent(n5, 4);
    assert Deleted(t, 4) == Node(1, 1, Node(2, 2, Nil, n5), Nil);
    assert LeftBoundary(Node(2, 2, Nil, n5)) == [v2, v5];
    assert BoundaryVisits(Deleted(t, 4)) == [v1] + [v2, v5] + [v6, v7];
  }

}
