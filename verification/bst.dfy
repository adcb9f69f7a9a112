/**
 The `BinarySearchTree` class: its node structure, the ghost views its
 contracts are stated in (key multiset, in-order sequence, ordering
 invariant), and its operations `insert`, `find`, `remove` with the helpers
 `_replaceWith` and `_findMin`. The source mutates node objects in place;
 here each operation returns the new tree, rebuilding the path it walked,
 which is the job the source's parent links do.
 */
module BinarySearchTree {
  import opened Assoc

  /** A node object of the source is both a node and a tree handle. A missing
      child (`null`) and a root whose key is still `null` are both `Empty`. */
  datatype Tree<V> = Empty | Node(left: Tree<V>, key: int, value: V, right: Tree<V>)

  /** The keys stored in a tree, with their multiplicities (duplicates are allowed). */
  ghost function Keys<V>(t: Tree<V>): multiset<int>
  {
    match t
    case Empty => multiset{}
    case Node(l, k, _, r) => Keys(l) + multiset{k} + Keys(r)
  }

  /** The number of nodes. */
  ghost function Size<V>(t: Tree<V>): nat
  {
    match t
    case Empty => 0
    case Node(l, _, _, r) => Size(l) + 1 + Size(r)
  }

  /** The search-tree invariant the source maintains: keys in the left subtree
      are smaller than the node's key, keys in the right subtree are at least
      as large (an equal key is always sent right). */
  ghost predicate Ordered<V>(t: Tree<V>)
  {
    match t
    case Empty => true
    case Node(l, k, _, r) =>
      && Ordered(l)
      && Ordered(r)
      && (forall x :: x in Keys(l) ==> x < k)
      && (forall x :: x in Keys(r) ==> k <= x)
  }

  /** The key/value pairs of a tree in in-order (left, node, right). */
  ghost function InOrder<V>(t: Tree<V>): seq<(int, V)>
  {
    match t
    case Empty => []
    case Node(l, k, v, r) => InOrder(l) + [(k, v)] + InOrder(r)
  }

  /** The in-order sequence lists exactly the tree's keys. */
  lemma {:induction false} KeysOfInOrder<V>(t: Tree<V>)
    ensures KeysOf(InOrder(t)) == Keys(t)
  {
    match t
    case Empty =>
    case Node(l, k, v, r) =>
      KeysOfInOrder(l);
      KeysOfInOrder(r);
      KeysOfConcat(InOrder(l) + [(k, v)], InOrder(r));
      KeysOfConcat(InOrder(l), [(k, v)]);
      KeysOfSingle((k, v));
  }

  /** A node is ordered when its subtrees are and its key separates them. */
  lemma OrderedNode<V>(l: Tree<V>, k: int, v: V, r: Tree<V>)
    requires Ordered(l) && Ordered(r)
    requires forall x :: x in Keys(l) ==> x < k
    requires forall x :: x in Keys(r) ==> k <= x
    ensures Ordered(Node(l, k, v, r))
  {
  }

  /** A bound on a tree's keys is a bound on its in-order sequence. */
  lemma InOrderBelow<V>(t: Tree<V>, b: int)
    requires forall x :: x in Keys(t) ==> x < b
    ensures forall i :: 0 <= i < |InOrder(t)| ==> InOrder(t)[i].0 < b
  {
    KeysOfInOrder(t);
    forall i | 0 <= i < |InOrder(t)|
      ensures InOrder(t)[i].0 < b
    {
      KeysOfIndex(InOrder(t), i);
    }
  }

  lemma InOrderAtLeast<V>(t: Tree<V>, b: int)
    requires forall x :: x in Keys(t) ==> b <= x
    ensures forall i :: 0 <= i < |InOrder(t)| ==> b <= InOrder(t)[i].0
  {
    KeysOfInOrder(t);
    forall i | 0 <= i < |InOrder(t)|
      ensures b <= InOrder(t)[i].0
    {
      KeysOfIndex(InOrder(t), i);
    }
  }

  /** An in-order traversal of an ordered tree yields its keys sorted. */
  lemma {:induction false} InOrderSorted<V>(t: Tree<V>)
    requires Ordered(t)
    ensures SortedKeys(InOrder(t))
  {
    match t
    case Empty =>
    case Node(l, k, v, r) =>
      InOrderSorted(l);
      InOrderSorted(r);
      InOrderBelow(l, k);
      InOrderAtLeast(r, k);
      SortedJoin(InOrder(l), (k, v), InOrder(r));
  }

  /** `insert(key, value)`: an empty tree gets the pair as its root; otherwise
      the key descends left when smaller than the node's key and right
      otherwise (equal keys included) until it reaches a missing child, where
      a new leaf is created. */
  function Insert<V>(t: Tree<V>, key: int, value: V): (r: Tree<V>)
    ensures r.Node?
    ensures Keys(r) == Keys(t) + multiset{key}
  {
    match t
    case Empty => Node(Empty, key, value, Empty)
    case Node(l, k, v, rt) =>
      if key < k then Node(Insert(l, key, value), k, v, rt)
      else Node(l, k, v, Insert(rt, key, value))
  }

  /** `find(key)`: binary-search descent that returns the value of the first
      node on the path whose key is `key`, and fails when the path reaches a
      missing child (descending into `Empty` is the source's final `else`,
      taken when the child to follow is `null`). */
  function Find<V>(t: Tree<V>, key: int): (r: Result<V>)
    ensures r.Ok? ==> key in Keys(t)
  {
    match t
    case Empty => KeyError
    case Node(l, k, v, rt) =>
      if key == k then Ok(v)
      else if key < k then Find(l, key)
      else Find(rt, key)
  }

  /** `_replaceWith` applied to a node with at most one child: the subtree
      that takes the node's place (its left child, else its right child, else
      nothing). At the root the source overwrites the node in place; below it
      relinks the parent; both amount to this subtree standing where `t` stood. */
  function Splice<V>(t: Tree<V>): (r: Tree<V>)
    requires t.Node? && (t.left.Empty? || t.right.Empty?)
    ensures r.Empty? <==> t.left.Empty? && t.right.Empty?
    ensures InOrder(r) == InOrder(t.left) + InOrder(t.right)
    ensures Keys(r) == Keys(t) - multiset{t.key}
    ensures Ordered(t) ==> Ordered(r)
  {
    if t.left.Node? then t.left
    else if t.right.Node? then t.right
    else Empty
  }

  /** `_findMin`: the leftmost node, reached by following left children. */
  function FindMin<V>(t: Tree<V>): (r: Tree<V>)
    requires t.Node?
    ensures r.Node? && r.left.Empty?
    ensures InOrder(t)[0] == (r.key, r.value)
    ensures r.key in Keys(t)
  {
    if t.left.Empty? then t else FindMin(t.left)
  }

  /** `successor.remove(successor.key)` in the two-child case: the leftmost
      node matches its own key at once, has no left child, and is replaced by
      its right subtree. */
  function DetachMin<V>(t: Tree<V>): (r: Tree<V>)
    requires t.Node?
    ensures InOrder(r) == InOrder(t)[1..]
  {
    if t.left.Empty? then Splice(t)
    else Node(DetachMin(t.left), t.key, t.value, t.right)
  }

  /** `remove(key)`: the same descent as `find`. At the first node carrying
      `key`, a node with two children takes over the key and value of its
      in-order successor, which is then detached; any other node is spliced
      out. A descent that reaches a missing child is a key error. */
  function Remove<V>(t: Tree<V>, key: int): (r: Result<Tree<V>>)
    ensures r.Ok? <==> Find(t, key).Ok?
  {
    match t
    case Empty => KeyError
    case Node(l, k, v, rt) =>
      if key == k then
        if l.Node? && rt.Node? then
          var successor := FindMin(rt);
          Ok(Node(l, successor.key, successor.value, DetachMin(rt)))
        else
          Ok(Splice(t))
      else if key < k then
        match Remove(l, key)
        case Ok(l') => Ok(Node(l', k, v, rt))
        case KeyError => KeyError
      else
        match Remove(rt, key)
        case Ok(r') => Ok(Node(l, k, v, r'))
        case KeyError => KeyError
  }
}
