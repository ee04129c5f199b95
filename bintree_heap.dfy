/**
  The tree engine of bintree.c on mutable nodes.

  A `BtNode` is a `struct bintree`: an item pointer and two child pointers
  that `insert` overwrites in place. Each node carries, as ghost state, the
  set of objects it owns (`Repr`) and the value-level tree it stands for
  (`Model`, a `BinTree.Tree`); every operation is proved against the
  function of module BinTree that computes the same thing on values.
*/
module BinTreeHeap {
  import opened Wrappers
  import BinTree
  import BinTreeLemmas

  class BtNode {
    var item: BinTree.Item
    var left: BtNode?
    var right: BtNode?

    ghost var Repr: set<object>
    ghost var Model: BinTree.Tree

    /** The node owns its two subtrees, which share nothing, and `Model` mirrors the fields. */
    ghost predicate Valid()
      reads this, Repr
      ensures Valid() ==> this in Repr
      decreases Repr
    {
      && this in Repr
      && (left != null ==>
            && left in Repr && left.Repr <= Repr && this !in left.Repr
            && left.Valid())
      && (right != null ==>
            && right in Repr && right.Repr <= Repr && this !in right.Repr
            && right.Valid())
      && (left != null && right != null ==> left.Repr !! right.Repr)
      && Model == BinTree.Node(item, ModelOf(left), ModelOf(right))
    }

    /** `newtree`: a node with a NULL item and NULL children, the empty-tree marker. */
    constructor Empty()
      ensures Valid() && fresh(Repr)
      ensures item == None && left == null && right == null
      ensures Model == BinTree.NewTree()
    {
      item := None;
      left := null;
      right := null;
      Repr := {this};
      Model := BinTree.NewTree();
    }

    /** `new_node(x)`: a node built as by `newtree`, whose item is then set to `x`. */
    constructor Leaf(x: BinTree.Item)
      ensures Valid() && fresh(Repr)
      ensures item == x && left == null && right == null
      ensures Model == BinTree.Singleton(x)
    {
      item := x;
      left := null;
      right := null;
      Repr := {this};
      Model := BinTree.Singleton(x);
    }
  }

  /** The value-level tree a possibly-NULL handle stands for. */
  ghost function ModelOf(t: BtNode?): BinTree.Tree
    reads t
  {
    if t == null then BinTree.Nil else t.Model
  }

  /** The objects a possibly-NULL handle owns. */
  ghost function Footprint(t: BtNode?): set<object>
    reads t
  {
    if t == null then {} else t.Repr
  }

  /** A handle is NULL or a valid node. */
  ghost predicate ValidHandle(t: BtNode?)
    reads t, Footprint(t)
  {
    t != null ==> t.Valid()
  }

  /** `isempty`: the handle is an allocated node whose item is NULL. */
  predicate IsEmpty(t: BtNode?)
    reads t, Footprint(t)
    requires ValidHandle(t)
    ensures IsEmpty(t) <==> BinTree.IsEmpty(ModelOf(t))
  {
    t != null && t.item == None
  }

  /**
    `insert(x, t, cmp_entry)`. A NULL handle is left alone. Otherwise the
    tree afterwards is the value-level `BinTree.Insert` of the tree before;
    the handle keeps denoting the same root node; every node that existed
    keeps its children and (unless it was an empty marker now holding `x`)
    its item; and, as only fresh singleton nodes are attached, everything
    the tree owns beyond its old objects is newly allocated.
  */
  method Insert(x: BinTree.Item, t: BtNode?)
    requires ValidHandle(t)
    modifies Footprint(t)
    ensures ValidHandle(t)
    ensures ModelOf(t) == BinTree.Insert(x, old(ModelOf(t)))
    ensures t != null ==> fresh(t.Repr - old(t.Repr))
    ensures forall n: BtNode :: n in old(Footprint(t)) ==>
      && (n.item == old(n.item) || (old(n.item) == None && n.item == x))
      && (old(n.left) != null ==> n.left == old(n.left))
      && (old(n.right) != null ==> n.right == old(n.right))
      && (old(n.left) == null && n.left != null ==> fresh(n.left) && n.left.Model == BinTree.Singleton(x))
      && (old(n.right) == null && n.right != null ==> fresh(n.right) && n.right.Model == BinTree.Singleton(x))
    decreases Footprint(t)
  {
    if t == null {
      return;
    }
    if IsEmpty(t) {
      t.item := x;
      t.Model := BinTree.Node(x, ModelOf(t.left), ModelOf(t.right));
    }
    var ord := BinTree.CmpEntry(x, t.item);
    if ord == 0 {
      return;
    }
    if ord < 0 {
      if t.left == null {
        t.left := new BtNode.Leaf(x);
      } else {
        Insert(x, t.left);
      }
      t.Repr := t.Repr + t.left.Repr;
      t.Model := BinTree.Node(t.item, t.left.Model, ModelOf(t.right));
    } else {
      if t.right == null {
        t.right := new BtNode.Leaf(x);
      } else {
        Insert(x, t.right);
      }
      t.Repr := t.Repr + t.right.Repr;
      t.Model := BinTree.Node(t.item, ModelOf(t.left), t.right.Model);
    }
  }

  /** `insert_int(x, t)`: `insert` of a freshly boxed `x` under `cmp_entry`. */
  method InsertInt(x: int, t: BtNode?)
    requires ValidHandle(t)
    modifies Footprint(t)
    ensures ValidHandle(t)
    ensures ModelOf(t) == BinTree.Insert(Some(x), old(ModelOf(t)))
    ensures t != null ==> fresh(t.Repr - old(t.Repr))
    ensures forall n: BtNode :: n in old(Footprint(t)) ==>
      && (n.item == old(n.item) || (old(n.item) == None && n.item == Some(x)))
      && (old(n.left) != null ==> n.left == old(n.left))
      && (old(n.right) != null ==> n.right == old(n.right))
      && (old(n.left) == null && n.left != null ==> fresh(n.left) && n.left.Model == BinTree.Singleton(Some(x)))
      && (old(n.right) == null && n.right != null ==> fresh(n.right) && n.right.Model == BinTree.Singleton(Some(x)))
  {
    Insert(Some(x), t);
  }

  /**
    `lookup(key, t, cmp_entry)`: reads the nodes only, and returns the item
    the value-level descent `BinTree.Lookup` returns.
  */
  function Lookup(key: BinTree.Item, t: BtNode?): (r: BinTree.Item)
    reads t, Footprint(t)
    requires ValidHandle(t)
    ensures r == BinTree.Lookup(key, ModelOf(t))
    decreases Footprint(t)
  {
    if t == null then None
    else
      var ord := BinTree.CmpEntry(key, t.item);
      if ord == 0 then t.item
      else if ord < 0 then Lookup(key, t.left)
      else Lookup(key, t.right)
  }

  /**
    `inorder_traversal(t, callback)`: returns the items handed to the
    callback, in call order.
  */
  method InorderTraversal(t: BtNode?) returns (visited: seq<BinTree.Item>)
    requires ValidHandle(t)
    ensures visited == BinTree.Inorder(ModelOf(t))
    decreases Footprint(t)
  {
    if t == null {
      return [];
    }
    visited := InorderTraversal(t.left);
    visited := visited + [t.item];
    var after := InorderTraversal(t.right);
    visited := visited + after;
  }

  /**
    `free_tree(t, destroy_item)`: returns the items handed to
    `destroy_item`, in call order. Releasing the nodes themselves is not
    modelled.
  */
  method FreeTree(t: BtNode?) returns (destroyed: seq<BinTree.Item>)
    requires ValidHandle(t)
    ensures destroyed == BinTree.Postorder(ModelOf(t))
    decreases Footprint(t)
  {
    if t == null {
      return [];
    }
    var fromLeft := FreeTree(t.left);
    var fromRight := FreeTree(t.right);
    destroyed := fromLeft + fromRight + [t.item];
  }

  /**
    The driver's "many insertions" run: a fresh tree, the twenty keys
    inserted one after another, then an in-order traversal, which hands
    over the keys in ascending order.
  */
  method ManyInsertions() returns (visited: seq<BinTree.Item>)
    ensures visited == BinTreeLemmas.DemoSorted
  {
    var keys := BinTreeLemmas.DemoKeys;
    var t := new BtNode.Empty();
    var i := 0;
    while i < |keys|
      invariant 0 <= i <= |keys|
      invariant t.Valid() && fresh(t.Repr)
      invariant t.Model == BinTree.InsertAll(keys[..i], BinTree.NewTree())
    {
      InsertInt(keys[i].value, t);
      BinTreeLemmas.InsertAllSnoc(keys[..i], keys[i], BinTree.NewTree());
      assert keys[..i + 1] == keys[..i] + [keys[i]];
      i := i + 1;
    }
    assert keys[..i] == keys;
    visited := InorderTraversal(t);
    BinTreeLemmas.DemoTraversalSorted();
  }

}
