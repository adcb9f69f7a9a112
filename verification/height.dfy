/**
 The free function `findBSTHeight`, with what its result means: the depth
 of the deepest node, which bounds the number of nodes from both sides.
 */
module Height {
  import opened BinarySearchTree

  /** `findBSTHeight`: -1 for a missing tree, otherwise one more than the
      larger of the two subtree heights. */
  function FindBSTHeight<V>(t: Tree<V>): (h: int)
    ensures -1 <= h < Size(t)
    ensures h == -1 <==> t.Empty?
  {
    if t.Empty? then -1
    else
      var left := FindBSTHeight(t.left);
      var right := FindBSTHeight(t.right);
      if left > right then left + 1 else right + 1
  }

  /** Some node of `t` sits `d` links below the root. */
  ghost predicate HasNodeAt<V>(t: Tree<V>, d: nat)
  {
    t.Node? && (d == 0 || HasNodeAt(t.left, d - 1) || HasNodeAt(t.right, d - 1))
  }

  function Pow2(n: nat): (p: nat)
    ensures p >= 1
  {
    if n == 0 then 1 else 2 * Pow2(n - 1)
  }

  /** The height is the depth of the deepest node. */
  lemma {:induction false} HeightIsDeepestLevel<V>(t: Tree<V>)
    requires t.Node?
    ensures HasNodeAt(t, FindBSTHeight(t))
    ensures forall d: nat :: HasNodeAt(t, d) ==> d <= FindBSTHeight(t)
  {
    var h := FindBSTHeight(t);
    var hl, hr := FindBSTHeight(t.left), FindBSTHeight(t.right);
    if t.left.Node? {
      HeightIsDeepestLevel(t.left);
    }
    if t.right.Node? {
      HeightIsDeepestLevel(t.right);
    }
    if h > 0 {
      if hl > hr {
        assert HasNodeAt(t.left, h - 1);
      } else {
        assert HasNodeAt(t.right, h - 1);
      }
    }
    forall d: nat | HasNodeAt(t, d)
      ensures d <= h
    {
      if d > 0 {
        if HasNodeAt(t.left, d - 1) {
          assert d - 1 <= hl;
        } else {
          assert HasNodeAt(t.right, d - 1);
          assert d - 1 <= hr;
        }
      }
    }
  }

  /** A tree of height `h` holds at most 2^(h+1) - 1 nodes. */
  lemma {:induction false} SizeBound<V>(t: Tree<V>)
    ensures Size(t) <= Pow2(FindBSTHeight(t) + 1) - 1
  {
    if t.Node? {
      var h := FindBSTHeight(t);
      var hl, hr := FindBSTHeight(t.left), FindBSTHeight(t.right);
      assert Size(t.left) <= Pow2(h) - 1 by {
        SizeBound(t.left);
        PowMonotone(hl + 1, h);
      }
      assert Size(t.right) <= Pow2(h) - 1 by {
        SizeBound(t.right);
        PowMonotone(hr + 1, h);
      }
      Pow2Succ(h);
    }
  }

  lemma Pow2Succ(n: nat)
    ensures Pow2(n + 1) == 2 * Pow2(n)
  {
  }

  lemma {:induction false} PowMonotone(a: nat, b: nat)
    requires a <= b
    ensures Pow2(a) <= Pow2(b)
  {
    if a < b {
      PowMonotone(a, b - 1);
    }
  }

  /** Inserting a key grows the height by at most one. */
  lemma {:induction false} InsertHeight<V>(t: Tree<V>, key: int, value: V)
    ensures FindBSTHeight(t) <= FindBSTHeight(Insert(t, key, value)) <= FindBSTHeight(t) + 1
  {
    if t.Node? {
      if key < t.key {
        InsertHeight(t.left, key, value);
      } else {
        InsertHeight(t.right, key, value);
      }
    }
  }
}
