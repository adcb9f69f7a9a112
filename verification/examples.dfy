/**
 Concrete uses of the operations on the trees the source's driver code
 builds, and the general statement behind them: any sequence of inserts
 into an empty tree gives an ordered tree listing those keys.
 */
module Examples {
  import opened Assoc
  import opened BinarySearchTree
  import opened InsertLemmas
  import opened Height

  /** Inserting `pairs` one after another into `t`, as the driver code does. */
  function InsertAll<V>(t: Tree<V>, pairs: seq<(int, V)>): (r: Tree<V>)
    requires Ordered(t)
    ensures Ordered(r)
    ensures Keys(r) == Keys(t) + KeysOf(pairs)
    decreases |pairs|
  {
    if |pairs| == 0 then t
    else
      InsertOrdered(t, pairs[0].0, pairs[0].1);
      InsertAll(Insert(t, pairs[0].0, pairs[0].1), pairs[1..])
  }

  /** Any sequence of inserts into an empty tree gives an ordered tree holding
      exactly the inserted keys. */
  function Build<V>(pairs: seq<(int, V)>): (t: Tree<V>)
    ensures Ordered(t)
    ensures Keys(t) == KeysOf(pairs)
  {
    InsertAll(Empty, pairs)
  }

  function Leaf(k: int, v: int): Tree<int>
  {
    Node(Empty, k, v, Empty)
  }

  /** The tree of keys 3, 1, 4, 6, 9, 2, 5, 7 (each stored with ten times its key). */
  function Demo(): Tree<int>
  {
    Insert(Insert(Insert(Insert(Insert(Insert(Insert(Insert(
      Empty, 3, 30), 1, 10), 4, 40), 6, 60), 9, 90), 2, 20), 5, 50), 7, 70)
  }

  /** The same tree written out: node 4 has only a right child (6). */
  function DemoTree(): Tree<int>
  {
    Node(Node(Empty, 1, 10, Leaf(2, 20)), 3, 30,
      Node(Empty, 4, 40,
        Node(Leaf(5, 50), 6, 60, Node(Leaf(7, 70), 9, 90, Empty))))
  }

  lemma DemoShape()
    ensures Demo() == DemoTree()
    ensures FindBSTHeight(DemoTree()) == 4
  {
  }

  /** `find(6)` returns the value stored with 6. */
  lemma DemoFind()
    ensures Find(DemoTree(), 6) == Ok(60)
  {
  }

  /** `find(8)` throws: the search path 3, 4, 6, 9, 7 ends at 7's missing right child. */
  lemma DemoFindMissing()
    ensures Find(DemoTree(), 8) == KeyError
  {
  }

  /** `remove(4)` takes the one-child path and splices 6 into 4's place. */
  lemma DemoRemove()
    ensures Remove(DemoTree(), 4) ==
      Ok(Node(Node(Empty, 1, 10, Leaf(2, 20)), 3, 30,
        Node(Leaf(5, 50), 6, 60, Node(Leaf(7, 70), 9, 90, Empty))))
  {
  }

  /** After `remove(4)`, `find(4)` throws. */
  lemma DemoAfterRemove()
    ensures Remove(DemoTree(), 4).Ok?
    ensures Find(Remove(DemoTree(), 4).value, 4) == KeyError
  {
    DemoRemove();
  }

  /** `remove(8)` throws, as `find(8)` does. */
  lemma DemoRemoveMissing()
    ensures Remove(DemoTree(), 8) == KeyError
  {
    DemoFindMissing();
  }

  /** Removing a root with two children: keys 5, 3, 8; the successor 8 moves up. */
  lemma TwoChildRootRemoval()
    ensures Remove(Insert(Insert(Insert(Empty, 5, 50), 3, 30), 8, 80), 5) ==
      Ok(Node(Leaf(3, 30), 8, 80, Empty))
  {
  }

  /** A duplicate key goes right; `find` keeps answering with the first copy
      until that copy is removed. */
  lemma DuplicateKey()
    ensures Insert(Leaf(5, 1), 5, 2) == Node(Empty, 5, 1, Leaf(5, 2))
    ensures Find(Insert(Leaf(5, 1), 5, 2), 5) == Ok(1)
    ensures Remove(Insert(Leaf(5, 1), 5, 2), 5) == Ok(Leaf(5, 2))
  {
  }

  /** Removing the key of a childless root empties the tree; the next insert
      makes a new root. */
  lemma EmptyAgain<V>(k: int, v: V, k2: int, v2: V)
    ensures Remove(Node(Empty, k, v, Empty), k) == Ok(Empty)
    ensures Insert(Empty, k2, v2) == Node(Empty, k2, v2, Empty)
    ensures FindBSTHeight(Node(Empty, k, v, Empty)) == 0
    ensures Find<V>(Empty, k).KeyError? && Remove<V>(Empty, k).KeyError?
  {
  }

  /** The tree of keys 5, 3, 1 inserted in that order: a chain down the left. */
  function Chain531(): Tree<int>
  {
    Insert(Insert(Insert(Empty, 5, 50), 3, 30), 1, 10)
  }

  /** The call sequence that loses a removal in the source's object graph (see the
      `StaleParent` module) behaves here as intended: after removing 5 and
      then 1, only 3 is left and `find(1)` throws. */
  lemma RootSpliceThenRemove()
    ensures Remove(Chain531(), 5) == Ok(Node(Leaf(1, 10), 3, 30, Empty))
    ensures Remove(Remove(Chain531(), 5).value, 1) == Ok(Leaf(3, 30))
    ensures Find(Remove(Remove(Chain531(), 5).value, 1).value, 1) == KeyError
  {
    assert Remove(Chain531(), 5) == Ok(Node(Leaf(1, 10), 3, 30, Empty));
    assert Remove(Node(Leaf(1, 10), 3, 30, Empty), 1) == Ok(Leaf(3, 30));
  }
}
