/**
  What bintree.c's tree engine guarantees, proved about the value-level
  model in module BinTree.
*/
module BinTreeLemmas {
  import opened Wrappers
  import opened BinTree

  // ---------------------------------------------------------------------
  // NULL trees and the empty-tree marker
  // ---------------------------------------------------------------------

  /** On a NULL tree, `insert` does nothing and `lookup` finds nothing. */
  lemma NullTree(x: Item, key: Item)
    ensures Insert(x, Nil) == Nil
    ensures Lookup(key, Nil) == None
    ensures Inorder(Nil) == [] && Postorder(Nil) == []
  {
  }

  /**
    The marker `newtree` returns is empty, ordered and keyless; `lookup`
    on it returns NULL for every key, and a traversal hands its NULL item
    to the callback exactly once.
  */
  lemma EmptyTreeFacts(key: Item)
    ensures IsEmpty(NewTree()) && IsBst(NewTree()) && Keys(NewTree()) == {}
    ensures Lookup(key, NewTree()) == None
    ensures Inorder(NewTree()) == [None] && Postorder(NewTree()) == [None]
  {
  }

  /**
    Inserting into an empty marker stores the item in the root and, because
    `cmp_entry` is reflexive, the comparison that follows stops there: no
    child is attached.
  */
  lemma InsertIntoEmpty(x: Item, l: Tree, r: Tree)
    ensures Insert(x, Node(None, l, r)) == Node(x, l, r)
  {
  }

  // ---------------------------------------------------------------------
  // insert
  // ---------------------------------------------------------------------

  /** After `insert(x)` on an allocated tree, its keys are the old keys plus `x`'s. */
  lemma {:induction false} InsertKeys(x: Item, t: Tree)
    requires t.Node?
    ensures Keys(Insert(x, t)) == Keys(t) + ItemKeys(x)
  {
    var it := if IsEmpty(t) then x else t.item;
    var ord := CmpEntry(x, it);
    if ord < 0 && t.left != Nil {
      InsertKeys(x, t.left);
    } else if ord > 0 && t.right != Nil {
      InsertKeys(x, t.right);
    }
  }

  /** `insert` keeps the search-tree order, for NULL and non-NULL items alike. */
  lemma {:induction false} InsertPreservesBst(x: Item, t: Tree)
    requires IsBst(t)
    ensures IsBst(Insert(x, t))
  {
    match t
    case Nil =>
    case Node(it, l, r) =>
      if it.Some? {
        var ord := CmpEntry(x, it);
        if ord < 0 && l != Nil {
          InsertPreservesBst(x, l);
          InsertKeys(x, l);
        } else if ord > 0 && r != Nil {
          InsertPreservesBst(x, r);
          InsertKeys(x, r);
        } else if ord != 0 {
          assert Keys(Singleton(x)) == ItemKeys(x) && IsBst(Singleton(x));
        }
      }
  }

  /** Inserting a key already in an ordered tree leaves the tree as it was. */
  lemma {:induction false} InsertExisting(k: int, t: Tree)
    requires IsBst(t) && k in Keys(t)
    ensures Insert(Some(k), t) == t
  {
    if t.item.Some? && k < t.item.value {
      InsertExisting(k, t.left);
    } else if t.item.Some? && k > t.item.value {
      InsertExisting(k, t.right);
    }
  }

  /** An untouched subtree trivially grows by any item. */
  lemma {:induction false} GrowsByReflexive(x: Item, t: Tree)
    ensures GrowsBy(x, t, t)
  {
    if t.Node? {
      GrowsByReflexive(x, t.left);
      GrowsByReflexive(x, t.right);
    }
  }

  /**
    `insert` only writes an empty root's item or a fresh singleton into a
    NULL child slot: no allocated node, child link or stored item is lost,
    the root stays allocated, and at most one node is added.
  */
  lemma {:induction false} InsertGrows(x: Item, t: Tree)
    ensures GrowsBy(x, t, Insert(x, t))
    ensures t.Node? ==> Insert(x, t).Node?
    ensures NodeCount(t) <= NodeCount(Insert(x, t)) <= NodeCount(t) + 1
  {
    match t
    case Nil =>
    case Node(it0, l, r) =>
      var it := if IsEmpty(t) then x else it0;
      var ord := CmpEntry(x, it);
      GrowsByReflexive(x, l);
      GrowsByReflexive(x, r);
      if ord < 0 && l != Nil {
        InsertGrows(x, l);
      } else if ord > 0 && r != Nil {
        InsertGrows(x, r);
      }
  }

  /** Inserting every item of `xs` into an ordered tree keeps it ordered and adds exactly their keys. */
  lemma {:induction false} InsertAllKeys(xs: seq<Item>, t: Tree)
    requires IsBst(t) && t.Node?
    ensures IsBst(InsertAll(xs, t)) && InsertAll(xs, t).Node?
    ensures forall k :: k in Keys(InsertAll(xs, t)) <==> k in Keys(t) || Some(k) in xs
    decreases |xs|
  {
    if xs != [] {
      InsertPreservesBst(xs[0], t);
      InsertKeys(xs[0], t);
      InsertGrows(xs[0], t);
      InsertAllKeys(xs[1..], Insert(xs[0], t));
      assert xs == [xs[0]] + xs[1..];
    }
  }

  /** Inserting one more item after a run is inserting it into the run's result. */
  lemma {:induction false} InsertAllSnoc(xs: seq<Item>, x: Item, t: Tree)
    ensures InsertAll(xs + [x], t) == Insert(x, InsertAll(xs, t))
    decreases |xs|
  {
    if xs == [] {
      assert [] + [x] == [x];
    } else {
      assert (xs + [x])[1..] == xs[1..] + [x];
      InsertAllSnoc(xs[1..], x, Insert(xs[0], t));
    }
  }

  // ---------------------------------------------------------------------
  // lookup
  // ---------------------------------------------------------------------

  /** On an ordered tree, `lookup(k)` returns an item equal to `k` exactly when `k` is stored. */
  lemma {:induction false} LookupFinds(k: int, t: Tree)
    requires IsBst(t)
    ensures Lookup(Some(k), t) == if k in Keys(t) then Some(k) else None
  {
    match t
    case Nil =>
    case Node(it, l, r) =>
      if it.Some? && k < it.value {
        LookupFinds(k, l);
      } else if it.Some? && k > it.value {
        LookupFinds(k, r);
      }
  }

  /**
    After `insert(x)` on an allocated tree, `lookup(x)` returns an item equal
    to `x`: both descend along the same comparisons, and `insert` leaves an
    item equal to `x` where its descent stops. No search-tree order is needed.
  */
  lemma {:induction false} LookupAfterInsert(x: Item, t: Tree)
    requires t.Node?
    ensures Lookup(x, Insert(x, t)) == x
  {
    var it := if IsEmpty(t) then x else t.item;
    var ord := CmpEntry(x, it);
    if ord < 0 && t.left != Nil {
      LookupAfterInsert(x, t.left);
    } else if ord > 0 && t.right != Nil {
      LookupAfterInsert(x, t.right);
    }
  }

  // ---------------------------------------------------------------------
  // inorder_traversal and free_tree
  // ---------------------------------------------------------------------

  /** The keys are exactly the integers of the non-NULL items. */
  lemma {:induction false} KeysAreItems(t: Tree)
    ensures forall k :: k in Keys(t) <==> Some(k) in Items(t)
  {
    if t.Node? {
      KeysAreItems(t.left);
      KeysAreItems(t.right);
    }
  }

  /** `inorder_traversal` calls back once per node, with every node's item. */
  lemma {:induction false} InorderVisitsEachNode(t: Tree)
    ensures |Inorder(t)| == NodeCount(t)
    ensures multiset(Inorder(t)) == Items(t)
  {
    if t.Node? {
      InorderVisitsEachNode(t.left);
      InorderVisitsEachNode(t.right);
    }
  }

  /** `free_tree` calls `destroy_item` once per node, with every node's item. */
  lemma {:induction false} PostorderDestroysEachNode(t: Tree)
    ensures |Postorder(t)| == NodeCount(t)
    ensures multiset(Postorder(t)) == Items(t)
  {
    if t.Node? {
      PostorderDestroysEachNode(t.left);
      PostorderDestroysEachNode(t.right);
    }
  }

  /** Joining two ascending runs around a separating key gives an ascending run. */
  lemma AscendingJoin(a: seq<Item>, v: int, b: seq<Item>)
    requires StrictlyAscending(a) && StrictlyAscending(b)
    requires forall i :: 0 <= i < |a| && a[i].Some? ==> a[i].value < v
    requires forall i :: 0 <= i < |b| && b[i].Some? ==> v < b[i].value
    ensures StrictlyAscending(a + [Some(v)] + b)
  {
  }

  /**
    On an ordered tree the non-NULL items reach the traversal callback in
    strictly ascending order, and the keys passed are exactly the stored ones.
  */
  lemma {:induction false} InorderSorted(t: Tree)
    requires IsBst(t)
    ensures StrictlyAscending(Inorder(t))
    ensures forall k :: k in Keys(t) <==> Some(k) in Inorder(t)
  {
    InorderVisitsEachNode(t);
    KeysAreItems(t);
    assert forall it :: it in Inorder(t) <==> it in Items(t);
    match t
    case Nil =>
    case Node(it, l, r) =>
      InorderSorted(l);
      InorderSorted(r);
      if it.Some? {
        var a, b := Inorder(l), Inorder(r);
        forall i | 0 <= i < |a| && a[i].Some? ensures a[i].value < it.value {
          assert Some(a[i].value) in a;
        }
        forall i | 0 <= i < |b| && b[i].Some? ensures it.value < b[i].value {
          assert Some(b[i].value) in b;
        }
        AscendingJoin(a, it.value, b);
      }
  }

  // ---------------------------------------------------------------------
  // The insertion sequences the demonstration driver runs
  // ---------------------------------------------------------------------

  /** Insertions starting from `newtree` give a tree whose traversal is sorted and holds exactly the inserted keys. */
  lemma InsertAllSorted(xs: seq<Item>)
    ensures StrictlyAscending(Inorder(InsertAll(xs, NewTree())))
    ensures forall k :: Some(k) in Inorder(InsertAll(xs, NewTree())) <==> Some(k) in xs
  {
    InsertAllKeys(xs, NewTree());
    InorderSorted(InsertAll(xs, NewTree()));
  }

  /** Inserting 5, then 5 and 6, then 6 and 5 into fresh trees. */
  lemma SmallScenarios()
    ensures Inorder(InsertAll([Some(5)], NewTree())) == [Some(5)]
    ensures Inorder(InsertAll([Some(5), Some(6)], NewTree())) == [Some(5), Some(6)]
    ensures Inorder(InsertAll([Some(6), Some(5)], NewTree())) == [Some(5), Some(6)]
  {
  }

  /** In a NULL-free ascending run, the head is the least key and occurs once. */
  lemma AscendingHead(a: seq<Item>, k: int)
    requires StrictlyAscending(a) && None !in a && Some(k) in a
    ensures a[0].Some? && a[0].value <= k
    ensures Some(k) in a[1..] <==> k != a[0].value
  {
  }

  /** Two NULL-free strictly ascending runs holding the same keys are equal. */
  lemma {:induction false} AscendingUnique(a: seq<Item>, b: seq<Item>)
    requires StrictlyAscending(a) && StrictlyAscending(b)
    requires None !in a && None !in b
    requires forall k :: Some(k) in a <==> Some(k) in b
    ensures a == b
    decreases |a|
  {
    if a != [] {
      assert a[0] in a && a[0].Some? && Some(a[0].value) in b;
    }
    if b != [] {
      assert b[0] in b && b[0].Some? && Some(b[0].value) in a;
    }
    if a != [] {
      AscendingHead(a, a[0].value);
      AscendingHead(b, a[0].value);
      AscendingHead(a, b[0].value);
    }
    if a != [] {
      assert a[0] == b[0];
      assert a == [a[0]] + a[1..] && b == [b[0]] + b[1..];
      forall k ensures Some(k) in a[1..] <==> Some(k) in b[1..] {
        if Some(k) in a {
          AscendingHead(a, k);
          AscendingHead(b, k);
        }
      }
      AscendingUnique(a[1..], b[1..]);
    }
  }

  /** A NULL-free run each of whose keys is below the next is strictly ascending. */
  lemma {:induction false} AdjacentAscending(s: seq<Item>)
    requires None !in s
    requires forall i :: 0 <= i < |s| - 1 ==> s[i].value < s[i + 1].value
    ensures StrictlyAscending(s)
    decreases |s|
  {
    if |s| > 1 {
      AdjacentAscending(s[1..]);
      forall i, j | 0 <= i < j < |s| && s[i].Some? && s[j].Some?
        ensures s[i].value < s[j].value
      {
        if i > 0 {
          assert s[i] == s[1..][i - 1] && s[j] == s[1..][j - 1];
        } else if j > 1 {
          assert s[1] == s[1..][0] && s[j] == s[1..][j - 1];
        }
      }
    }
  }

  /** Inserting a non-NULL item on an allocated tree never adds a NULL item, and fills an empty root. */
  lemma {:induction false} InsertNullCount(x: int, t: Tree)
    requires t.Node?
    ensures Items(Insert(Some(x), t))[None] + (if IsEmpty(t) then 1 else 0) <= Items(t)[None]
  {
    if !IsEmpty(t) {
      var ord := CmpEntry(Some(x), t.item);
      if ord < 0 && t.left != Nil {
        InsertNullCount(x, t.left);
      } else if ord > 0 && t.right != Nil {
        InsertNullCount(x, t.right);
      }
    }
  }

  /** A non-empty run of non-NULL insertions from `newtree` leaves no NULL item in the tree. */
  lemma {:induction false} InsertAllNullFree(xs: seq<Item>, t: Tree)
    requires t.Node? && xs != []
    requires forall i :: 0 <= i < |xs| ==> xs[i].Some?
    requires Items(t)[None] == 0 || t == NewTree()
    ensures Items(InsertAll(xs, t))[None] == 0
    decreases |xs|
  {
    InsertNullCount(xs[0].value, t);
    InsertGrows(xs[0], t);
    if |xs| > 1 {
      InsertAllNullFree(xs[1..], Insert(xs[0], t));
    }
  }

  /** The traversal after a non-empty run of non-NULL insertions from `newtree` is strictly ascending and NULL-free. */
  lemma InsertAllTraversal(xs: seq<Item>)
    requires xs != [] && forall i :: 0 <= i < |xs| ==> xs[i].Some?
    ensures StrictlyAscending(Inorder(InsertAll(xs, NewTree())))
    ensures None !in Inorder(InsertAll(xs, NewTree()))
    ensures forall k :: Some(k) in Inorder(InsertAll(xs, NewTree())) <==> Some(k) in xs
  {
    var t := InsertAll(xs, NewTree());
    InsertAllSorted(xs);
    InsertAllNullFree(xs, NewTree());
    InorderVisitsEachNode(t);
    assert multiset(Inorder(t))[None] == 0;
  }

  /**
    The order of insertion does not matter: two non-empty runs of non-NULL
    insertions with the same keys give the same traversal.
  */
  lemma InsertionOrderIrrelevant(xs: seq<Item>, ys: seq<Item>)
    requires xs != [] && forall i :: 0 <= i < |xs| ==> xs[i].Some?
    requires ys != [] && forall i :: 0 <= i < |ys| ==> ys[i].Some?
    requires forall k :: Some(k) in xs <==> Some(k) in ys
    ensures Inorder(InsertAll(xs, NewTree())) == Inorder(InsertAll(ys, NewTree()))
  {
    InsertAllTraversal(xs);
    InsertAllTraversal(ys);
    AscendingUnique(Inorder(InsertAll(xs, NewTree())), Inorder(InsertAll(ys, NewTree())));
  }

  /**
    Inserting the non-NULL items `xs` into a fresh tree makes the traversal
    hand over `sorted`, given that `sorted` ascends and holds the same keys.
  */
  lemma TraversalIsSorted(xs: seq<Item>, sorted: seq<Item>)
    requires xs != [] && forall i :: 0 <= i < |xs| ==> xs[i].Some?
    requires None !in sorted && forall i :: 0 <= i < |sorted| - 1 ==> sorted[i].value < sorted[i + 1].value
    requires forall k :: Some(k) in xs <==> Some(k) in sorted
    ensures Inorder(InsertAll(xs, NewTree())) == sorted
  {
    InsertAllTraversal(xs);
    AdjacentAscending(sorted);
    AscendingUnique(Inorder(InsertAll(xs, NewTree())), sorted);
  }

  /** The twenty keys the driver inserts. */
  const DemoKeys: seq<Item> :=
    [Some(100), Some(79), Some(52), Some(96), Some(60), Some(78), Some(94), Some(62), Some(65), Some(84),
     Some(71), Some(12), Some(66), Some(39), Some(86), Some(19), Some(75), Some(4), Some(35), Some(45)]

  /** The same keys in ascending order. */
  const DemoSorted: seq<Item> :=
    [Some(4), Some(12), Some(19), Some(35), Some(39), Some(45), Some(52), Some(60), Some(62), Some(65),
     Some(66), Some(71), Some(75), Some(78), Some(79), Some(84), Some(86), Some(94), Some(96), Some(100)]

  /** The driver's traversal after its twenty insertions hands over the keys sorted. */
  lemma DemoTraversalSorted()
    ensures Inorder(InsertAll(DemoKeys, NewTree())) == DemoSorted
  {
    TraversalIsSorted(DemoKeys, DemoSorted);
  }

}
