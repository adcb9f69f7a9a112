/**
 What `find` computes, stated against the in-order sequence: on an ordered
 tree the first node on the search path carrying the key is the first pair
 with that key in in-order.
 */
module FindLemmas {
  import opened Assoc
  import opened BinarySearchTree

  /** `find` returns the value of the first in-order pair carrying the key,
      and throws "Key Error" exactly when there is none. */
  lemma {:induction false} FindIsFirstInOrder<V>(t: Tree<V>, key: int)
    requires Ordered(t)
    ensures Find(t, key) == FirstWith(InOrder(t), key)
  {
    match t
    case Empty =>
    case Node(l, k, v, r) =>
      FirstWithAround(InOrder(l), (k, v), InOrder(r), key);
      if key == k {
        FirstWithNotBelow(l, k);
      } else if key < k {
        FindIsFirstInOrder(l, key);
        FirstWithNotAbove(r, k, key);
      } else {
        FindIsFirstInOrder(r, key);
        FirstWithNotBelow(l, key);
      }
  }

  /** No key of a left subtree is found in its in-order sequence once the key is past the node's. */
  lemma FirstWithNotBelow<V>(l: Tree<V>, key: int)
    requires forall x :: x in Keys(l) ==> x < key
    ensures FirstWith(InOrder(l), key).KeyError?
  {
    KeysOfInOrder(l);
    FirstWithAbsent(InOrder(l), key);
  }

  lemma FirstWithNotAbove<V>(r: Tree<V>, k: int, key: int)
    requires forall x :: x in Keys(r) ==> k <= x
    requires key < k
    ensures FirstWith(InOrder(r), key).KeyError?
  {
    KeysOfInOrder(r);
    FirstWithAbsent(InOrder(r), key);
  }

  /** On an ordered tree `find` fails exactly when the key is absent. */
  lemma FindFailsIffAbsent<V>(t: Tree<V>, key: int)
    requires Ordered(t)
    ensures Find(t, key).KeyError? <==> key !in Keys(t)
  {
    FindIsFirstInOrder(t, key);
    KeysOfInOrder(t);
    FirstWithAbsent(InOrder(t), key);
  }
}
