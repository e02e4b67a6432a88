/**
  The node class of build/lib/pydsa/binary_tree.py. Each node owns its two
  subtrees; the ghost fields `Repr` (the nodes of the subtree) and `Subtree`
  (its abstract value, with the node references as ids) are kept up to date
  by every method that changes a link or a key.
*/
module BinaryTree {
  import opened Trees
  import opened TraversalFacts
  import opened DeletionFacts

  type NodeTree<K> = Tree<BTNode?<K>, K>

  ghost function ReprOf<K>(n: BTNode?<K>): set<BTNode<K>>
    reads n
  {
    if n == null then {} else n.Repr
  }

  ghost function TreeOf<K>(n: BTNode?<K>): NodeTree<K>
    reads n
  {
    if n == null then Nil else n.Subtree
  }

  /** Nothing a valid node's subtree owns has changed, so it is still valid. */
  twostate lemma ValidFrame<K>(n: BTNode<K>)
    requires old(n.Valid())
    requires unchanged(old(n.Repr))
    ensures n.Valid() && n.Repr == old(n.Repr) && n.Subtree == old(n.Subtree)
  {
  }

  /** A node whose `Repr` and `Subtree` have just been reset over two valid,
      disjoint children is valid again. */
  lemma Relinked<K>(n: BTNode<K>)
    requires n.left != null ==> n.left.Valid() && n !in n.left.Repr
    requires n.right != null ==> n.right.Valid() && n !in n.right.Repr
    requires n.left != null && n.right != null ==> n.left.Repr !! n.right.Repr
    requires n.Repr == {n} + ReprOf(n.left) + ReprOf(n.right)
    requires n.Subtree == Node(n, n.key, TreeOf(n.left), TreeOf(n.right))
    ensures n.Valid()
  {
  }

  /** Resets the ghost state of `n` after one of its fields changed, given
      that its children are valid, disjoint and do not own `n`. */
  ghost method Relink<K>(n: BTNode<K>)
    requires n.left != null ==> n.left.Valid() && n !in n.left.Repr
    requires n.right != null ==> n.right.Valid() && n !in n.right.Repr
    requires n.left != null && n.right != null ==> n.left.Repr !! n.right.Repr
    modifies n
    ensures n.Valid()
    ensures n.Repr == {n} + old(ReprOf(n.left)) + old(ReprOf(n.right))
    ensures n.Subtree == Node(n, n.key, old(TreeOf(n.left)), old(TreeOf(n.right)))
  {
    ghost var lR, rR, lT, rT := ReprOf(n.left), ReprOf(n.right), TreeOf(n.left), TreeOf(n.right);
    label Before:
    n.Repr := {n} + lR + rR;
    n.Subtree := Node(n, n.key, lT, rT);
    if n.left != null { ValidFrame@Before(n.left); }
    if n.right != null { ValidFrame@Before(n.right); }
    assert n.Repr == {n} + lR + rR;
    Relinked(n);
  }

  class BTNode<K> {
    var key: K
    var left: BTNode?<K>
    var right: BTNode?<K>

    ghost var Repr: set<BTNode<K>>
    ghost var Subtree: NodeTree<K>

    /** The node roots a strict tree: children own disjoint sets of nodes,
        none of which is this node, and `Subtree` mirrors the links and keys. */
    ghost predicate Valid()
      reads this, Repr
      decreases Repr
    {
      && this in Repr
      && (left != null ==>
            left in Repr && left.Repr <= Repr && this !in left.Repr && left.Valid())
      && (right != null ==>
            right in Repr && right.Repr <= Repr && this !in right.Repr && right.Valid())
      && (left != null && right != null ==> left.Repr !! right.Repr)
      && Repr == {this} + ReprOf(left) + ReprOf(right)
      && Subtree == Node(this, key, TreeOf(left), TreeOf(right))
    }

    /** A node with key `key` and, optionally, two existing disjoint subtrees. */
    constructor (key: K, left: BTNode?<K> := null, right: BTNode?<K> := null)
      requires left != null ==> left.Valid()
      requires right != null ==> right.Valid()
      requires left != null && right != null ==> left.Repr !! right.Repr
      ensures Valid()
      ensures this.key == key && this.left == left && this.right == right
      ensures Repr == {this} + ReprOf(left) + ReprOf(right)
      ensures Subtree == Node(this, key, TreeOf(left), TreeOf(right))
    {
      this.key := key;
      this.left := left;
      this.right := right;
      Repr := {this} + ReprOf(left) + ReprOf(right);
      Subtree := Node(this, key, TreeOf(left), TreeOf(right));
    }

    /** Links a new leaf holding `key` as the left or right child, discarding
        the subtree that was there; any other `child` string changes nothing. */
    method Insert(child: string, key: K)
      requires Valid()
      modifies this
      ensures Valid() && fresh(Repr - old(Repr))
      ensures this.key == old(this.key)
      ensures child == "left" ==>
        left != null && fresh(left) && right == old(right) &&
        Subtree == Attach(old(Subtree), child, Node(left, key, Nil, Nil))
      ensures child == "right" ==>
        right != null && fresh(right) && left == old(left) &&
        Subtree == Attach(old(Subtree), child, Node(right, key, Nil, Nil))
      ensures child != "left" && child != "right" ==>
        left == old(left) && right == old(right) && Subtree == old(Subtree)
    {
      var childNode := new BTNode(key);
      if child == "left" {
        left := childNode;
      } else if child == "right" {
        right := childNode;
      }
      Relink(this);
    }

    /** Deletes node `target` from the tree this node roots. The new root that
        `DeleteUtil` returns is dropped, so deleting this node itself when it
        has at most one child leaves the tree as it was. */
    method Delete(target: BTNode?<K>)
      requires Valid()
      modifies Repr
      ensures Valid() && Repr <= old(Repr)
      ensures Subtree == DeleteFrom(old(Subtree), target)
    {
      var discarded := DeleteUtil(this, target);
      ValidIsStrictTree(this);
    }

    /** Removes `target` from the subtree rooted at `node` and returns the new
        root of that subtree, rebuilding both children first. */
    static method DeleteUtil(node: BTNode?<K>, target: BTNode?<K>) returns (r: BTNode?<K>)
      requires node != null ==> node.Valid()
      modifies ReprOf(node)
      decreases ReprOf(node), 2
      ensures r != null ==> r.Valid() && r.Repr <= old(ReprOf(node))
      ensures TreeOf(r) == Deleted(old(TreeOf(node)), target)
      ensures node != null ==> node.Valid() && node.Repr <= old(node.Repr)
      ensures node != null && r != node ==> node.Subtree == old(node.Subtree)
    {
      if node == null {
        return node;
      }
      ValidIsStrictTree(node);
      ghost var t := node.Subtree;
      DeleteInLeft(node, target);
      DeleteInRight(node, target);
      if node == target {
        DeletedAbsent(t.left, target);
        DeletedAbsent(t.right, target);
        if node.left == null {
          return node.right;
        } else if node.right == null {
          return node.left;
        }
        ReplaceBySuccessor(node);
      }
      return node;
    }

    /** `node.left = deleteUtil(node.left, target)`, with the ghost state of
        `node` brought up to date. */
    static method DeleteInLeft(node: BTNode<K>, target: BTNode?<K>)
      requires node.Valid()
      modifies node.Repr
      decreases node.Repr, 0
      ensures node.Valid() && node.Repr <= old(node.Repr)
      ensures node.Subtree == old(node.Subtree).(left := Deleted(old(node.Subtree).left, target))
    {
      ghost var lR, nr := ReprOf(node.left), node.right;
      assert node !in lR && (nr != null ==> lR !! nr.Repr);
      label Before:
      node.left := DeleteUtil(node.left, target);
      ghost var nl := node.left;
      assert nl != null ==> nl.Repr <= lR;
      assert node.right == nr;
      if nr != null { ValidFrame@Before(nr); }
      assert nl != null ==> node !in nl.Repr;
      assert nr != null ==> node !in nr.Repr;
      assert nl != null && nr != null ==> nl.Repr !! nr.Repr;
      Relink(node);
    }

    /** `node.right = deleteUtil(node.right, target)`, with the ghost state of
        `node` brought up to date. */
    static method DeleteInRight(node: BTNode<K>, target: BTNode?<K>)
      requires node.Valid()
      modifies node.Repr
      decreases node.Repr, 0
      ensures node.Valid() && node.Repr <= old(node.Repr)
      ensures node.Subtree == old(node.Subtree).(right := Deleted(old(node.Subtree).right, target))
    {
      ghost var rR, nl := ReprOf(node.right), node.left;
      assert node !in rR && (nl != null ==> rR !! nl.Repr);
      label Before:
      node.right := DeleteUtil(node.right, target);
      ghost var nr := node.right;
      assert nr != null ==> nr.Repr <= rR;
      assert node.left == nl;
      if nl != null { ValidFrame@Before(nl); }
      assert nr != null ==> node !in nr.Repr;
      assert nl != null ==> node !in nl.Repr;
      assert nl != null && nr != null ==> nl.Repr !! nr.Repr;
      Relink(node);
    }

    /** The two-child case of `DeleteUtil`: the node takes the key of its
        inorder successor, which is then deleted from the right subtree. */
    static method ReplaceBySuccessor(node: BTNode<K>)
      requires node.Valid() && node.left != null && node.right != null
      modifies node.Repr
      decreases node.Repr, 1
      ensures node.Valid() && node.Repr <= old(node.Repr)
      ensures var r := old(node.Subtree.right);
        r.Node? && node.Subtree == Node(node, Leftmost(r).key, old(node.Subtree.left), Deleted(r, Leftmost(r).id))
    {
      var temp := GetLeftmost(node.right);
      SetKey(node, temp.key);
      DeleteInRight(node, temp);
    }

    /** `node.key = key`, with the ghost state of `node` brought up to date. */
    static method SetKey(node: BTNode<K>, key: K)
      requires node.Valid()
      modifies node
      ensures node.Valid() && node.Repr == old(node.Repr)
      ensures node.Subtree == old(node.Subtree).(key := key)
    {
      node.key := key;
      Relink(node);
    }

    /** Follows left links from `root` to the first node without a left child. */
    static method GetLeftmost(root: BTNode<K>) returns (current: BTNode<K>)
      requires root.Valid()
      ensures current in root.Repr && current.Valid()
      ensures current.Subtree == Leftmost(root.Subtree)
    {
      current := root;
      while current.left != null
        invariant current in root.Repr && current.Repr <= root.Repr && current.Valid()
        invariant Leftmost(current.Subtree) == Leftmost(root.Subtree)
        decreases current.Repr
      {
        current := current.left;
      }
    }

    // -------------------------------------------------------------------
    // traversals: each resets its list, then the recursive helper appends
    // -------------------------------------------------------------------

    static method Inorder(root: BTNode?<K>) returns (inlist: seq<K>)
      requires root != null ==> root.Valid()
      ensures inlist == Keys(InorderVisits(TreeOf(root)))
    {
      inlist := InorderUtil(root, []);
    }

    static method InorderUtil(root: BTNode?<K>, inlist: seq<K>) returns (out: seq<K>)
      requires root != null ==> root.Valid()
      ensures out == inlist + Keys(InorderVisits(TreeOf(root)))
      decreases ReprOf(root)
    {
      out := inlist;
      if root != null {
        out := InorderUtil(root.left, out);
        out := out + [root.key];
        out := InorderUtil(root.right, out);
        InorderAppends(inlist, root, root.key, TreeOf(root.left), TreeOf(root.right));
      }
    }

    static method Preorder(root: BTNode?<K>) returns (prelist: seq<K>)
      requires root != null ==> root.Valid()
      ensures prelist == Keys(PreorderVisits(TreeOf(root)))
    {
      prelist := PreorderUtil(root, []);
    }

    static method PreorderUtil(root: BTNode?<K>, prelist: seq<K>) returns (out: seq<K>)
      requires root != null ==> root.Valid()
      ensures out == prelist + Keys(PreorderVisits(TreeOf(root)))
      decreases ReprOf(root)
    {
      out := prelist;
      if root != null {
        out := out + [root.key];
        out := PreorderUtil(root.left, out);
        out := PreorderUtil(root.right, out);
        PreorderAppends(prelist, root, root.key, TreeOf(root.left), TreeOf(root.right));
      }
    }

    static method Postorder(root: BTNode?<K>) returns (postlist: seq<K>)
      requires root != null ==> root.Valid()
      ensures postlist == Keys(PostorderVisits(TreeOf(root)))
    {
      postlist := PostorderUtil(root, []);
    }

    static method PostorderUtil(root: BTNode?<K>, postlist: seq<K>) returns (out: seq<K>)
      requires root != null ==> root.Valid()
      ensures out == postlist + Keys(PostorderVisits(TreeOf(root)))
      decreases ReprOf(root)
    {
      out := postlist;
      if root != null {
        out := PostorderUtil(root.left, out);
        out := PostorderUtil(root.right, out);
        out := out + [root.key];
        PostorderAppends(postlist, root, root.key, TreeOf(root.left), TreeOf(root.right));
      }
    }

    static method BoundaryTrav(root: BTNode?<K>) returns (boundaryList: seq<K>)
      requires root != null ==> root.Valid()
      ensures boundaryList == Keys(BoundaryVisits(TreeOf(root)))
    {
      boundaryList := BoundaryTravUtil(root, []);
    }

    static method BoundaryTravUtil(root: BTNode?<K>, boundaryList: seq<K>) returns (out: seq<K>)
      requires root != null ==> root.Valid()
      ensures out == boundaryList + Keys(BoundaryVisits(TreeOf(root)))
    {
      out := boundaryList;
      if root != null {
        out := out + [root.key];
        out := BoundaryLeft(root.left, out);
        out := LeavesNode(root.left, out);
        out := LeavesNode(root.right, out);
        out := BoundaryRight(root.right, out);
        BoundaryAppends(boundaryList, root, root.key, TreeOf(root.left), TreeOf(root.right));
      }
    }

    static method BoundaryLeft(root: BTNode?<K>, boundaryList: seq<K>) returns (out: seq<K>)
      requires root != null ==> root.Valid()
      ensures out == boundaryList + Keys(LeftBoundary(TreeOf(root)))
      decreases ReprOf(root)
    {
      out := boundaryList;
      if root != null {
        LeftBoundaryAppends(boundaryList, root, root.key, TreeOf(root.left), TreeOf(root.right));
        if root.left != null {
          out := out + [root.key];
          out := BoundaryLeft(root.left, out);
        } else if root.right != null {
          out := out + [root.key];
          out := BoundaryLeft(root.right, out);
        }
      }
    }

    static method BoundaryRight(root: BTNode?<K>, boundaryList: seq<K>) returns (out: seq<K>)
      requires root != null ==> root.Valid()
      ensures out == boundaryList + Keys(RightBoundary(TreeOf(root)))
      decreases ReprOf(root)
    {
      out := boundaryList;
      if root != null {
        RightBoundaryAppends(boundaryList, root, root.key, TreeOf(root.left), TreeOf(root.right));
        if root.right != null {
          out := BoundaryRight(root.right, out);
          out := out + [root.key];
        } else if root.left != null {
          out := BoundaryRight(root.left, out);
          out := out + [root.key];
        }
      }
    }

    static method LeavesNode(root: BTNode?<K>, boundaryList: seq<K>) returns (out: seq<K>)
      requires root != null ==> root.Valid()
      ensures out == boundaryList + Keys(Leaves(TreeOf(root)))
      decreases ReprOf(root)
    {
      out := boundaryList;
      if root != null {
        out := LeavesNode(root.left, out);
        if root.left == null && root.right == null {
          out := out + [root.key];
        }
        out := LeavesNode(root.right, out);
        LeavesAppends(boundaryList, root, root.key, TreeOf(root.left), TreeOf(root.right));
      }
    }
  }

  /** A valid node roots a strict tree whose nodes are exactly its `Repr`. */
  lemma ValidIsStrictTree<K>(n: BTNode<K>)
    requires n.Valid()
    ensures Distinct(n.Subtree) && Ids(n.Subtree) == n.Repr
    decreases n.Repr
  {
    if n.left != null {
      ValidIsStrictTree(n.left);
    }
    if n.right != null {
      ValidIsStrictTree(n.right);
    }
  }

  /** Every traversal of a single leaf lists its key alone; the boundary
      walks, which list only nodes with a child, list nothing. */
  lemma LeafKeys<I>(a: I, k: int)
    ensures var t: Tree<I, int> := Node(a, k, Nil, Nil);
      && Keys(InorderVisits(t)) == [k] && Keys(PreorderVisits(t)) == [k]
      && Keys(PostorderVisits(t)) == [k] && Keys(Leaves(t)) == [k]
      && Keys(LeftBoundary(t)) == [] && Keys(RightBoundary(t)) == []
  {
  }

  /** The tree of the documented usage: root 1 with a left leaf 2 and a right leaf 3. */
  lemma DocumentedTree<I>(x: I, a: I, b: I)
    requires x != a && x != b && a != b
    ensures var t := Node(x, 1, Node(a, 2, Nil, Nil), Node(b, 3, Nil, Nil));
      && Keys(InorderVisits(t)) == [2, 1, 3]
      && Keys(PreorderVisits(t)) == [1, 2, 3]
      && Keys(PostorderVisits(t)) == [2, 3, 1]
      && Keys(BoundaryVisits(t)) == [1, 2, 3]
      && Keys(InorderVisits(DeleteFrom(t, a))) == [1, 3]
  {
    var l, r := Node(a, 2, Nil, Nil), Node(b, 3, Nil, Nil);
    var t := Node(x, 1, l, r);
    LeafKeys(a, 2);
    LeafKeys(b, 3);
    InorderAppends([], x, 1, l, r);
    PreorderAppends([], x, 1, l, r);
    PostorderAppends([], x, 1, l, r);
    BoundaryAppends([], x, 1, l, r);
    assert Keys(PostorderVisits(l)) == [2];
    assert Keys(PostorderVisits(t)) == [] + [2] + [3] + [1];
    assert Keys(BoundaryVisits(t)) == [] + [1] + [] + [2] + [3] + [];
    assert Deleted(l, a) == Nil;
    assert Deleted(r, a) == r;
    assert DeleteFrom(t, a) == Node(x, 1, Nil, r);
    InorderAppends([], x, 1, Nil, r);
  }

  /** Builds the tree of the class documentation: root 1, left child 2, right child 3. */
  method DocumentedBuild() returns (bt: BTNode<int>)
    ensures bt.Valid() && fresh(bt.Repr) && bt.left != null && bt.right != null
    ensures bt != bt.left && bt != bt.right && bt.left != bt.right
    ensures bt.Subtree == Node(bt, 1, Node(bt.left, 2, Nil, Nil), Node(bt.right, 3, Nil, Nil))
  {
    bt := new BTNode(1);
    bt.Insert("left", 2);
    ghost var a := bt.left;
    assert bt.Subtree == Node(bt, 1, Node(a, 2, Nil, Nil), Nil);
    bt.Insert("right", 3);
  }

  /** The traversals of the documented usage. */
  method DocumentedTraversals() returns (inorder: seq<int>, preorder: seq<int>, postorder: seq<int>,
                                        boundary: seq<int>)
    ensures inorder == [2, 1, 3] && preorder == [1, 2, 3] && postorder == [2, 3, 1]
    ensures boundary == [1, 2, 3]
  {
    var bt := DocumentedBuild();
    DocumentedTree(bt, bt.left, bt.right);
    inorder := BTNode.Inorder(bt);
    preorder := BTNode.Preorder(bt);
    postorder := BTNode.Postorder(bt);
    boundary := BTNode.BoundaryTrav(bt);
  }

  /** Deleting the left child in the documented usage. */
  method DocumentedDelete() returns (afterDelete: seq<int>)
    ensures afterDelete == [1, 3]
  {
    var bt := DocumentedBuild();
    DocumentedTree(bt, bt.left, bt.right);
    bt.Delete(bt.left);
    afterDelete := BTNode.Inorder(bt);
  }
}
