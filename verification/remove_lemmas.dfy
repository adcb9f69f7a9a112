/**
 Properties of `remove` and of the two-child case it relies on: the
 leftmost node of the right subtree is its minimum, detaching it is an
 ordinary removal of that minimum, and `remove` deletes exactly the pair
 `find` would have returned while keeping the ordering invariant and every
 other pair.
 */
module RemoveLemmas {
  import opened Assoc
  import opened BinarySearchTree
  import opened FindLemmas

  /** The leftmost node carries the smallest key of an ordered tree. */
  lemma {:induction false} FindMinIsMinimum<V>(t: Tree<V>)
    requires t.Node? && Ordered(t)
    ensures forall x :: x in Keys(t) ==> FindMin(t).key <= x
  {
    if t.left.Node? {
      FindMinIsMinimum(t.left);
    }
  }

  /** Detaching the leftmost node takes away exactly one copy of its key. */
  lemma DetachMinKeys<V>(t: Tree<V>)
    requires t.Node?
    ensures Keys(DetachMin(t)) == Keys(t) - multiset{FindMin(t).key}
  {
    var s := InOrder(t);
    KeysOfInOrder(t);
    KeysOfInOrder(DetachMin(t));
    assert KeysOf(s) == multiset{s[0].0} + KeysOf(s[1..]);
  }

  /** Detaching the leftmost node keeps the ordering invariant. */
  lemma {:induction false} DetachMinOrdered<V>(t: Tree<V>)
    requires t.Node? && Ordered(t)
    ensures Ordered(DetachMin(t))
  {
    if t.left.Node? {
      var l := t.left;
      DetachMinOrdered(l);
      DetachMinKeys(l);
      SubBound(Keys(DetachMin(l)), Keys(l), t.key);
      OrderedNode(DetachMin(l), t.key, t.value, t.right);
    }
  }

  lemma SubBound(a: multiset<int>, b: multiset<int>, k: int)
    requires a <= b
    requires forall x :: x in b ==> x < k
    ensures forall x :: x in a ==> x < k
  {
  }

  lemma SubLowerBound(a: multiset<int>, b: multiset<int>, k: int)
    requires a <= b
    requires forall x :: x in b ==> k <= x
    ensures forall x :: x in a ==> k <= x
  {
  }

  /** The source removes the successor with `successor.remove(successor.key)`;
      on an ordered tree that is the same as removing the minimum key by an
      ordinary search from the subtree's root. */
  lemma {:induction false} DetachMinIsRemove<V>(t: Tree<V>)
    requires t.Node? && Ordered(t)
    ensures Remove(t, FindMin(t).key) == Ok(DetachMin(t))
  {
    var m := FindMin(t).key;
    FindMinIsMinimum(t);
    if t.left.Node? {
      var l := t.left;
      assert m == FindMin(l).key;
      assert m in Keys(l);
      assert m < t.key;
      DetachMinIsRemove(l);
    } else {
      assert m == t.key;
    }
  }

  /** A successful removal takes away exactly one copy of the key. */
  lemma {:induction false} RemoveKeys<V>(t: Tree<V>, key: int)
    requires Remove(t, key).Ok?
    ensures Keys(Remove(t, key).value) == Keys(t) - multiset{key}
  {
    match t
    case Node(l, k, v, r) =>
      if key == k {
        if l.Node? && r.Node? {
          var m := FindMin(r);
          assert Remove(t, key) == Ok(Node(l, m.key, m.value, DetachMin(r)));
          DetachMinKeys(r);
          SwapOne(Keys(l), Keys(r), m.key, k);
        }
      } else if key < k {
        var l' := Remove(l, key).value;
        assert Remove(t, key) == Ok(Node(l', k, v, r));
        RemoveKeys(l, key);
        DropLeft(Keys(l), Keys(r), k, key);
      } else {
        var r' := Remove(r, key).value;
        assert Remove(t, key) == Ok(Node(l, k, v, r'));
        RemoveKeys(r, key);
        DropRight(Keys(l), Keys(r), k, key);
      }
  }

  lemma SwapOne(a: multiset<int>, b: multiset<int>, m: int, k: int)
    requires m in b
    ensures a + multiset{m} + (b - multiset{m}) == a + multiset{k} + b - multiset{k}
  {
  }

  lemma DropLeft(a: multiset<int>, b: multiset<int>, k: int, key: int)
    requires key in a
    ensures (a - multiset{key}) + multiset{k} + b == a + multiset{k} + b - multiset{key}
  {
  }

  lemma DropRight(a: multiset<int>, b: multiset<int>, k: int, key: int)
    requires key in b
    ensures a + multiset{k} + (b - multiset{key}) == a + multiset{k} + b - multiset{key}
  {
  }

  /** Removal keeps "left keys < node key <= right keys"; in the two-child case
      the successor's key separates the left subtree from what is left of the
      right one. */
  lemma {:induction false} RemoveOrdered<V>(t: Tree<V>, key: int)
    requires Ordered(t) && Remove(t, key).Ok?
    ensures Ordered(Remove(t, key).value)
  {
    match t
    case Node(l, k, v, r) =>
      if key == k {
        if l.Node? && r.Node? {
          SuccessorOrdered(l, k, v, r);
        }
      } else if key < k {
        RemoveOrdered(l, key);
        RemoveKeys(l, key);
        ShrinkLeftOrdered(l, Remove(l, key).value, k, v, r, key);
      } else {
        RemoveOrdered(r, key);
        RemoveKeys(r, key);
        ShrinkRightOrdered(l, k, v, r, Remove(r, key).value, key);
      }
  }

  /** The two-child case: the successor's key separates the left subtree from
      the rest of the right one. */
  lemma SuccessorOrdered<V>(l: Tree<V>, k: int, v: V, r: Tree<V>)
    requires l.Node? && r.Node? && Ordered(l) && Ordered(r)
    requires forall x :: x in Keys(l) ==> x < k
    requires forall x :: x in Keys(r) ==> k <= x
    ensures Ordered(Node(l, FindMin(r).key, FindMin(r).value, DetachMin(r)))
  {
    var m := FindMin(r);
    assert forall x :: x in Keys(DetachMin(r)) ==> m.key <= x by {
      FindMinIsMinimum(r);
      DetachMinKeys(r);
      SubLowerBound(Keys(DetachMin(r)), Keys(r), m.key);
    }
    DetachMinOrdered(r);
    OrderedNode(l, m.key, m.value, DetachMin(r));
  }

  /** Dropping one key from the left subtree keeps the node ordered. */
  lemma ShrinkLeftOrdered<V>(l: Tree<V>, l': Tree<V>, k: int, v: V, r: Tree<V>, key: int)
    requires Ordered(l') && Ordered(r) && Keys(l') == Keys(l) - multiset{key}
    requires forall x :: x in Keys(l) ==> x < k
    requires forall x :: x in Keys(r) ==> k <= x
    ensures Ordered(Node(l', k, v, r))
  {
    SubBound(Keys(l'), Keys(l), k);
    OrderedNode(l', k, v, r);
  }

  /** Dropping one key from the right subtree keeps the node ordered. */
  lemma ShrinkRightOrdered<V>(l: Tree<V>, k: int, v: V, r: Tree<V>, r': Tree<V>, key: int)
    requires Ordered(l) && Ordered(r') && Keys(r') == Keys(r) - multiset{key}
    requires forall x :: x in Keys(l) ==> x < k
    requires forall x :: x in Keys(r) ==> k <= x
    ensures Ordered(Node(l, k, v, r'))
  {
    SubLowerBound(Keys(r'), Keys(r), k);
    OrderedNode(l, k, v, r');
  }

  /** In in-order, removal deletes the first pair carrying the key (the one
      `find` returns) and keeps every other pair in its place. */
  lemma {:induction false} RemoveInOrder<V>(t: Tree<V>, key: int)
    requires Ordered(t) && Remove(t, key).Ok?
    ensures InOrder(Remove(t, key).value) == RemoveFirst(InOrder(t), key)
  {
    match t
    case Node(l, k, v, r) =>
      if key == k {
        assert key !in Keys(l);
        RemoveInOrderAt(l, k, v, r);
      } else if key < k {
        RemoveInOrder(l, key);
        RemoveInOrderLeft(l, k, v, r, key);
      } else {
        assert key !in Keys(l);
        RemoveInOrder(r, key);
        RemoveInOrderRight(l, k, v, r, key);
      }
  }

  /** The node's own key is removed: both the two-child case and the splice
      leave the left run followed by the right run. */
  lemma RemoveInOrderAt<V>(l: Tree<V>, k: int, v: V, r: Tree<V>)
    requires k !in Keys(l)
    ensures InOrder(Remove(Node(l, k, v, r), k).value) == RemoveFirst(InOrder(Node(l, k, v, r)), k)
  {
    var L, R := InOrder(l), InOrder(r);
    assert RemoveFirst(L + [(k, v)] + R, k) == L + R by {
      KeysOfInOrder(l);
      RemoveFirstAtPivot(L, (k, v), R, k);
    }
    if l.Node? && r.Node? {
      SuccessorInOrder(l, r);
    }
  }

  /** Moving the successor's pair up and detaching it leaves the in-order
      sequence of the two subtrees unchanged. */
  lemma SuccessorInOrder<V>(l: Tree<V>, r: Tree<V>)
    requires r.Node?
    ensures InOrder(Node(l, FindMin(r).key, FindMin(r).value, DetachMin(r))) == InOrder(l) + InOrder(r)
  {
    var R, m := InOrder(r), FindMin(r);
    calc {
      InOrder(Node(l, m.key, m.value, DetachMin(r)));
      InOrder(l) + [(m.key, m.value)] + R[1..];
      InOrder(l) + ([R[0]] + R[1..]);
      { assert [R[0]] + R[1..] == R; }
      InOrder(l) + R;
    }
  }

  /** The key lies in the left subtree: the left run loses its first copy. */
  lemma RemoveInOrderLeft<V>(l: Tree<V>, k: int, v: V, r: Tree<V>, key: int)
    requires key < k && Remove(l, key).Ok?
    requires InOrder(Remove(l, key).value) == RemoveFirst(InOrder(l), key)
    ensures InOrder(Remove(Node(l, k, v, r), key).value) == RemoveFirst(InOrder(Node(l, k, v, r)), key)
  {
    var l' := Remove(l, key).value;
    assert Remove(Node(l, k, v, r), key) == Ok(Node(l', k, v, r));
    assert key in KeysOf(InOrder(l)) by {
      KeysOfInOrder(l);
    }
    RemoveFirstInLeft(InOrder(l), (k, v), InOrder(r), key);
  }

  /** The key lies beyond the node: the right run loses its first copy. */
  lemma RemoveInOrderRight<V>(l: Tree<V>, k: int, v: V, r: Tree<V>, key: int)
    requires key > k && key !in Keys(l) && Remove(r, key).Ok?
    requires InOrder(Remove(r, key).value) == RemoveFirst(InOrder(r), key)
    ensures InOrder(Remove(Node(l, k, v, r), key).value) == RemoveFirst(InOrder(Node(l, k, v, r)), key)
  {
    var r' := Remove(r, key).value;
    assert Remove(Node(l, k, v, r), key) == Ok(Node(l, k, v, r'));
    assert key !in KeysOf(InOrder(l)) by {
      KeysOfInOrder(l);
    }
    RemoveFirstInRight(InOrder(l), (k, v), InOrder(r), key);
  }

  /** On an ordered tree `remove` fails exactly when the key is absent. */
  lemma RemoveFailsIffAbsent<V>(t: Tree<V>, key: int)
    requires Ordered(t)
    ensures Remove(t, key).KeyError? <==> key !in Keys(t)
  {
    FindFailsIffAbsent(t, key);
  }

  /** Removing one key leaves every other key findable with the value it had. */
  lemma FindAfterRemoveOther<V>(t: Tree<V>, key: int, other: int)
    requires Ordered(t) && Remove(t, key).Ok?
    requires other != key
    ensures Find(Remove(t, key).value, other) == Find(t, other)
  {
    var t' := Remove(t, key).value;
    RemoveOrdered(t, key);
    RemoveInOrder(t, key);
    FindIsFirstInOrder(t, other);
    FindIsFirstInOrder(t', other);
    RemoveFirstOther(InOrder(t), key, other);
  }

  /** Removing the only copy of a key makes `find` fail on it. */
  lemma FindAfterRemoveLast<V>(t: Tree<V>, key: int)
    requires Remove(t, key).Ok?
    requires Keys(t)[key] == 1
    ensures Find(Remove(t, key).value, key).KeyError?
  {
    RemoveKeys(t, key);
  }
}
