/**
 Properties of `insert`: it fills exactly one missing child slot, keeps the
 ordering invariant, places the new pair in in-order right after every key
 not above it, and changes what `find` returns only for a key that was
 missing.
 */
module InsertLemmas {
  import opened Assoc
  import opened BinarySearchTree

  /** `t2` is `t` with exactly one missing child slot filled by a leaf
      carrying `(key, value)`; every existing node keeps its key, value and
      other links. */
  ghost predicate FillsOneSlot<V>(t: Tree<V>, t2: Tree<V>, key: int, value: V)
  {
    match t
    case Empty => t2 == Node(Empty, key, value, Empty)
    case Node(l, k, v, r) =>
      && t2.Node? && t2.key == k && t2.value == v
      && ((FillsOneSlot(l, t2.left, key, value) && t2.right == r)
          || (t2.left == l && FillsOneSlot(r, t2.right, key, value)))
  }

  /** Inserting only ever adds a leaf in a missing child slot; into an empty
      tree that leaf is the new root. */
  lemma {:induction false} InsertFillsOneSlot<V>(t: Tree<V>, key: int, value: V)
    ensures FillsOneSlot(t, Insert(t, key, value), key, value)
  {
    match t
    case Empty =>
    case Node(l, k, v, r) =>
      if key < k {
        InsertFillsOneSlot(l, key, value);
      } else {
        InsertFillsOneSlot(r, key, value);
      }
  }

  /** Insertion keeps "left keys < node key <= right keys". */
  lemma {:induction false} InsertOrdered<V>(t: Tree<V>, key: int, value: V)
    requires Ordered(t)
    ensures Ordered(Insert(t, key, value))
  {
    match t
    case Empty =>
    case Node(l, k, v, r) =>
      if key < k {
        InsertOrdered(l, key, value);
        InsertKeepsBound(l, key, value, k, true);
        OrderedNode(Insert(l, key, value), k, v, r);
      } else {
        InsertOrdered(r, key, value);
        InsertKeepsBound(r, key, value, k, false);
        OrderedNode(l, k, v, Insert(r, key, value));
      }
  }

  /** A bound that holds of every key and of the new key holds after insertion
      (`below` selects "every key < b" rather than "every key >= b"). */
  lemma InsertKeepsBound<V>(t: Tree<V>, key: int, value: V, b: int, below: bool)
    requires below ==> key < b && forall x :: x in Keys(t) ==> x < b
    requires !below ==> b <= key && forall x :: x in Keys(t) ==> b <= x
    ensures below ==> forall x :: x in Keys(Insert(t, key, value)) ==> x < b
    ensures !below ==> forall x :: x in Keys(Insert(t, key, value)) ==> b <= x
  {
    assert Keys(Insert(t, key, value)) == Keys(t) + multiset{key};
  }

  /** In in-order, the new pair lands after every existing key `<= key` and
      before every key above it; all other pairs keep their order. */
  lemma {:induction false} InsertInOrder<V>(t: Tree<V>, key: int, value: V)
    requires Ordered(t)
    ensures InOrder(Insert(t, key, value)) == Place(InOrder(t), key, value)
  {
    match t
    case Empty =>
    case Node(l, k, v, r) =>
      if key < k {
        assert Insert(t, key, value) == Node(Insert(l, key, value), k, v, r);
        InsertInOrder(l, key, value);
        PlaceLeft(InOrder(l), (k, v), InOrder(r), key, value);
      } else {
        assert Insert(t, key, value) == Node(l, k, v, Insert(r, key, value));
        InsertInOrder(r, key, value);
        InOrderBelow(l, k);
        PlaceRight(InOrder(l), (k, v), InOrder(r), key, value);
      }
  }

  /** After inserting a key that `find` could not locate, `find` returns the
      new value. */
  lemma {:induction false} FindAfterInsertFresh<V>(t: Tree<V>, key: int, value: V)
    requires Find(t, key).KeyError?
    ensures Find(Insert(t, key, value), key) == Ok(value)
  {
    match t
    case Empty =>
    case Node(l, k, v, r) =>
      if key < k {
        FindAfterInsertFresh(l, key, value);
      } else {
        FindAfterInsertFresh(r, key, value);
      }
  }

  /** Re-inserting a key that `find` already locates leaves its answer
      unchanged: the duplicate goes into the right subtree below the match. */
  lemma {:induction false} FindAfterInsertExisting<V>(t: Tree<V>, key: int, value: V)
    requires Find(t, key).Ok?
    ensures Find(Insert(t, key, value), key) == Find(t, key)
  {
    match t
    case Node(l, k, v, r) =>
      if key < k {
        FindAfterInsertExisting(l, key, value);
      } else if key > k {
        FindAfterInsertExisting(r, key, value);
      }
  }

  /** Inserting one key never changes what `find` returns for another. */
  lemma {:induction false} FindAfterInsertOther<V>(t: Tree<V>, key: int, value: V, other: int)
    requires other != key
    ensures Find(Insert(t, key, value), other) == Find(t, other)
  {
    match t
    case Empty =>
    case Node(l, k, v, r) =>
      if key < k {
        FindAfterInsertOther(l, key, value, other);
      } else {
        FindAfterInsertOther(r, key, value, other);
      }
  }
}
