/**
  The tree engine of bintree.c, on values.

  A C `BT` is a nullable pointer to a node holding an item pointer and two
  child pointers. Here a NULL `BT` is `Nil` and a node is `Node`; an item
  pointer is an `Item`, where `None` is a NULL item and `Some(x)` a boxed
  `struct entry` holding `x`. A node whose item is `None` is the empty-tree
  marker that `newtree` allocates.

  The functions below follow the C recursion branch for branch; the class in
  module BinTreeHeap runs the same algorithms on mutable nodes and is proved
  to agree with them.
*/
module BinTree {
  import opened Wrappers

  /** An item pointer: `None` is NULL, `Some(x)` a boxed integer entry. */
  type Item = Option<int>

  /** A tree handle: `Nil` is a NULL pointer, `Node` an allocated node. */
  datatype Tree = Nil | Node(item: Item, left: Tree, right: Tree)

  /** The node `newtree` allocates: an empty-tree marker with no children. */
  function NewTree(): (r: Tree)
    ensures IsEmpty(r) && r.left == Nil && r.right == Nil
  {
    Node(None, Nil, Nil)
  }

  /** The node `new_node(x)` allocates: one node, holding `x`. */
  function Singleton(x: Item): (r: Tree)
    ensures NodeCount(r) == 1 && r.item == x
  {
    Node(x, Nil, Nil)
  }

  /** `isempty`: an allocated node whose item is NULL. */
  predicate IsEmpty(t: Tree)
  {
    t.Node? && t.item.None?
  }

  /**
    `cmp_entry`: three-way comparison of two boxed integers. Two NULLs are
    equal; a NULL on either side compares greater (1), whichever side it is on.
  */
  function CmpEntry(a: Item, b: Item): (r: int)
    ensures -1 <= r <= 1
    ensures r == 0 <==> a == b
    ensures a.Some? && b.Some? ==> (r < 0 <==> a.value < b.value)
    ensures a.Some? && b.Some? ==> (r > 0 <==> a.value > b.value)
    ensures a != b && (a.None? || b.None?) ==> r == 1
  {
    if a.None? && b.None? then 0
    else if a.None? then 1
    else if b.None? then 1
    else if a.value < b.value then -1
    else if a.value == b.value then 0
    else 1
  }

  /**
    `insert(x, t, cmp_entry)`, as the tree it leaves behind. A NULL tree is
    left alone. An empty marker first gets `x` as its item, and then, as in
    the source, the comparison below still runs (against `x` itself). On an
    unequal comparison the descent goes left or right; a NULL child slot
    receives a fresh singleton node, an allocated child is descended into.
  */
  function Insert(x: Item, t: Tree): (r: Tree)
    ensures t == Nil ==> r == Nil
    ensures t.Node? ==> r.Node? && r.item == (if IsEmpty(t) then x else t.item)
  {
    match t
    case Nil => Nil
    case Node(it0, l, r) =>
      var it := if IsEmpty(t) then x else it0;
      var ord := CmpEntry(x, it);
      if ord == 0 then Node(it, l, r)
      else if ord < 0 then
        Node(it, if l == Nil then Singleton(x) else Insert(x, l), r)
      else
        Node(it, l, if r == Nil then Singleton(x) else Insert(x, r))
  }

  /** The tree after inserting every item of `xs`, front to back. */
  function InsertAll(xs: seq<Item>, t: Tree): (r: Tree)
    ensures t.Node? ==> r.Node?
    decreases |xs|
  {
    if xs == [] then t else InsertAll(xs[1..], Insert(xs[0], t))
  }

  /**
    `lookup(key, t, cmp_entry)`: the item pointer it returns, NULL when the
    descent falls off the tree. No node is special-cased: an empty marker is
    compared against like any other (`cmp_entry(key, NULL)`).
  */
  function Lookup(key: Item, t: Tree): (r: Item)
    ensures r == None || r == key
  {
    match t
    case Nil => None
    case Node(it, l, r) =>
      var ord := CmpEntry(key, it);
      if ord == 0 then it
      else if ord < 0 then Lookup(key, l)
      else Lookup(key, r)
  }

  /**
    The items `inorder_traversal` hands to its callback, in call order:
    left subtree, the node's own item (NULL included), right subtree.
  */
  function Inorder(t: Tree): (r: seq<Item>)
    ensures |r| == NodeCount(t)
  {
    match t
    case Nil => []
    case Node(it, l, r) => Inorder(l) + [it] + Inorder(r)
  }

  /**
    The items `free_tree` hands to `destroy_item`, in call order: both
    subtrees first, then the node's own item (NULL included).
  */
  function Postorder(t: Tree): (r: seq<Item>)
    ensures |r| == NodeCount(t)
    ensures t.Node? ==> r[|r| - 1] == t.item
  {
    match t
    case Nil => []
    case Node(it, l, r) => Postorder(l) + Postorder(r) + [it]
  }

  /** The number of allocated nodes. */
  function NodeCount(t: Tree): (n: nat)
    ensures n == 0 <==> t == Nil
  {
    match t
    case Nil => 0
    case Node(_, l, r) => NodeCount(l) + 1 + NodeCount(r)
  }

  /** The integer held by an item, if any. */
  ghost function ItemKeys(it: Item): set<int>
  {
    if it.Some? then {it.value} else {}
  }

  /** The integers stored anywhere in the tree. */
  ghost function Keys(t: Tree): set<int>
  {
    match t
    case Nil => {}
    case Node(it, l, r) => Keys(l) + ItemKeys(it) + Keys(r)
  }

  /** The item pointers stored in the tree, one per node. */
  ghost function Items(t: Tree): multiset<Item>
  {
    match t
    case Nil => multiset{}
    case Node(it, l, r) => Items(l) + multiset{it} + Items(r)
  }

  /**
    The search-tree order the engine keeps: at every populated node, every
    key of the left subtree is smaller and every key of the right subtree
    larger. A node with a NULL item (an empty marker) has no children.
  */
  ghost predicate IsBst(t: Tree)
  {
    match t
    case Nil => true
    case Node(it, l, r) =>
      if it.None? then l == Nil && r == Nil
      else
        && (forall k :: k in Keys(l) ==> k < it.value)
        && (forall k :: k in Keys(r) ==> it.value < k)
        && IsBst(l) && IsBst(r)
  }

  /**
    `u` is `t` after placing `x` in some NULL slots and empty items: every
    allocated node is still there with its item, except that an empty item
    may now be `x`, and a NULL slot is either still NULL or a fresh
    singleton holding `x`.
  */
  ghost predicate GrowsBy(x: Item, t: Tree, u: Tree)
  {
    match t
    case Nil => u == Nil || u == Singleton(x)
    case Node(it, l, r) =>
      && u.Node?
      && (u.item == it || (it.None? && u.item == x))
      && GrowsBy(x, l, u.left)
      && GrowsBy(x, r, u.right)
  }

  /** Every non-NULL item of `s` is smaller than every non-NULL item after it. */
  ghost predicate StrictlyAscending(s: seq<Item>)
  {
    forall i, j :: 0 <= i < j < |s| && s[i].Some? && s[j].Some? ==> s[i].value < s[j].value
  }

}
