/**
 The source's object graph taken literally: every `BinarySearchTree` object
 has an identity, `key`, `value`, and `parent`, `left`, `right` links, and
 the operations update objects in place. This is where `_replaceWith` shows
 its one defect: at the root it copies the replacement's children into the
 root object but leaves their `parent` links pointing at the replacement,
 which is no longer in the tree. A later removal of one of those children
 then unlinks it from the detached object, and the live tree keeps it.

 `ReplaceWithLinked` is the corrected `_replaceWith`: the copied children
 are re-parented to the root. It is proved to keep every parent link in
 agreement with the child links. The tree model in `BinarySearchTree`, where
 a subtree always moves as a whole, is the behaviour it restores.
 */
module Linked {

  /** An object reference: `null` or an object identity. */
  datatype Ref = Null | Ptr(id: nat)

  /** A JavaScript value that may be `null`. */
  datatype Opt<T> = None | Some(get: T)

  /** One `BinarySearchTree` object (the unused `root` field is omitted). */
  datatype Obj<V> = Obj(key: Opt<int>, value: Opt<V>, parent: Ref, left: Ref, right: Ref)

  /** The objects that exist, and the identity the next `new` receives. */
  datatype Heap<V> = Heap(objs: map<nat, Obj<V>>, next: nat)

  /** How a call ends: normally, with the thrown "Key Error", or at a point
      the model does not follow (its fuel ran out or a reference dangles). */
  datatype Outcome<T> = Done(get: T) | Thrown | Stuck

  /** `new BinarySearchTree(key, value)` as object 0, with no parent and no
      children; `new BinarySearchTree()` is `New(None, None)`. */
  function New<V>(key: Opt<int>, value: Opt<V>): (h: Heap<V>)
    ensures 0 in h.objs && h.next !in h.objs
    ensures h.objs[0].key == key && h.objs[0].value == value
    ensures h.objs[0].parent.Null? && h.objs[0].left.Null? && h.objs[0].right.Null?
  {
    Heap(map[0 := Obj(key, value, Null, Null, Null)], 1)
  }

  /** JavaScript's `<` and `>` coerce a `null` key to 0. */
  function Num(k: Opt<int>): int
  {
    if k.None? then 0 else k.get
  }

  /** `insert`, called on object `self`. */
  function Insert<V>(h: Heap<V>, self: nat, key: int, value: V, fuel: nat): (r: Outcome<Heap<V>>)
    ensures r.Done? ==> h.objs.Keys <= r.get.objs.Keys
    decreases fuel
  {
    if fuel == 0 || self !in h.objs then Stuck
    else
      var o := h.objs[self];
      if o.key.None? then
        Done(h.(objs := h.objs[self := o.(key := Some(key), value := Some(value))]))
      else if key < o.key.get then
        if o.left.Null? then
          var child := Obj(Some(key), Some(value), Ptr(self), Null, Null);
          Done(Heap(h.objs[h.next := child][self := o.(left := Ptr(h.next))], h.next + 1))
        else if o.left.id !in h.objs then Stuck
        else Insert(h, o.left.id, key, value, fuel - 1)
      else
        if o.right.Null? then
          var child := Obj(Some(key), Some(value), Ptr(self), Null, Null);
          Done(Heap(h.objs[h.next := child][self := o.(right := Ptr(h.next))], h.next + 1))
        else if o.right.id !in h.objs then Stuck
        else Insert(h, o.right.id, key, value, fuel - 1)
  }

  /** `find`, called on object `self`. */
  function Find<V>(h: Heap<V>, self: nat, key: int, fuel: nat): (r: Outcome<Opt<V>>)
    ensures r.Done? ==> exists id :: id in h.objs && h.objs[id].key == Some(key)
    decreases fuel
  {
    if fuel == 0 || self !in h.objs then Stuck
    else
      var o := h.objs[self];
      if o.key == Some(key) then Done(o.value)
      else if key < Num(o.key) && o.left.Ptr? then Find(h, o.left.id, key, fuel - 1)
      else if key > Num(o.key) && o.right.Ptr? then Find(h, o.right.id, key, fuel - 1)
      else Thrown
  }

  /** Object `b` is reached from object `a` by following at most `steps` left
      links through existing objects. */
  ghost predicate LeftReach<V>(objs: map<nat, Obj<V>>, a: nat, b: nat, steps: nat)
    decreases steps
  {
    a in objs &&
    (a == b || (steps > 0 && objs[a].left.Ptr? && LeftReach(objs, objs[a].left.id, b, steps - 1)))
  }

  /** `_findMin`, called on object `self`: the identity of the leftmost object
      below it, the one where the chain of left links ends. */
  function FindMin<V>(h: Heap<V>, self: nat, fuel: nat): (r: Outcome<nat>)
    ensures r.Done? ==> r.get in h.objs && h.objs[r.get].left.Null?
    ensures r.Done? ==> LeftReach(h.objs, self, r.get, fuel)
    decreases fuel
  {
    if fuel == 0 || self !in h.objs then Stuck
    else if h.objs[self].left.Null? then Done(self)
    else FindMin(h, h.objs[self].left.id, fuel - 1)
  }

  /** `_replaceWith(node)` as the source writes it. Below the root the parent's
      link is redirected to `node` and `node` adopts that parent. At the root
      the root object takes over `node`'s key, value and children (or is
      cleared when `node` is `null`); the children's `parent` links are left
      as they were, pointing at `node`. */
  function ReplaceWith<V>(h: Heap<V>, self: nat, node: Ref): (r: Outcome<Heap<V>>)
    ensures r.Done? ==> r.get.next == h.next && r.get.objs.Keys == h.objs.Keys
    ensures self in h.objs && h.objs[self].parent.Ptr? ==> r == Relink(h, self, node)
    ensures self in h.objs && h.objs[self].parent.Null? && node.Ptr? && node.id in h.objs ==>
      && r.Done?
      && r.get.objs[self] == h.objs[self].(key := h.objs[node.id].key, value := h.objs[node.id].value,
                                           left := h.objs[node.id].left, right := h.objs[node.id].right)
      && (forall id :: id in h.objs && id != self ==> r.get.objs[id] == h.objs[id])
    ensures self in h.objs && h.objs[self].parent.Null? && node.Null? ==>
      r == Done(h.(objs := h.objs[self := h.objs[self].(key := None, value := None, left := Null, right := Null)]))
  {
    if self !in h.objs then Stuck
    else
      var o := h.objs[self];
      if o.parent.Ptr? then
        Relink(h, self, node)
      else if node.Ptr? then
        if node.id !in h.objs then Stuck
        else
          var n := h.objs[node.id];
          Done(h.(objs := h.objs[self := o.(key := n.key, value := n.value, left := n.left, right := n.right)]))
      else
        Done(h.(objs := h.objs[self := o.(key := None, value := None, left := Null, right := Null)]))
  }

  /** The branch of `_replaceWith` below the root: the parent's link to `self`
      becomes `node`, and `node`'s parent becomes `self`'s parent. */
  function Relink<V>(h: Heap<V>, self: nat, node: Ref): (r: Outcome<Heap<V>>)
    requires self in h.objs && h.objs[self].parent.Ptr?
    ensures r.Done? ==> r.get.next == h.next && r.get.objs.Keys == h.objs.Keys
    ensures r.Done? <==> h.objs[self].parent.id in h.objs && (node.Null? || node.id in h.objs)
    ensures r.Done? ==>
      var p := h.objs[self].parent.id;
      && (h.objs[p].left == Ptr(self) ==> r.get.objs[p].left == node)
      && (h.objs[p].left != Ptr(self) ==> r.get.objs[p].left == h.objs[p].left)
      && (h.objs[p].left != Ptr(self) && h.objs[p].right == Ptr(self) ==> r.get.objs[p].right == node)
      && (h.objs[p].left == Ptr(self) || h.objs[p].right != Ptr(self) ==> r.get.objs[p].right == h.objs[p].right)
      && (node.Ptr? ==> r.get.objs[node.id].parent == Ptr(p))
      && r.get.objs[p].key == h.objs[p].key && r.get.objs[p].value == h.objs[p].value
      && ((node.Null? || node.id != p) ==> r.get.objs[p].parent == h.objs[p].parent)
      && (node.Ptr? && node.id != p ==> r.get.objs[node.id] == h.objs[node.id].(parent := Ptr(p)))
      && (forall id :: id in h.objs && id != p && (node.Null? || id != node.id) ==> r.get.objs[id] == h.objs[id])
  {
    var o := h.objs[self];
    var p := o.parent.id;
    if p !in h.objs then Stuck
    else
      var po := h.objs[p];
      var objs1 :=
        if po.left == Ptr(self) then h.objs[p := po.(left := node)]
        else if po.right == Ptr(self) then h.objs[p := po.(right := node)]
        else h.objs;
      if node.Null? then Done(h.(objs := objs1))
      else if node.id !in objs1 then Stuck
      else Done(h.(objs := objs1[node.id := objs1[node.id].(parent := o.parent)]))
  }

  /** `_replaceWith` corrected: at the root the copied children are
      re-parented to the root object. Objects that nothing refers to any more
      (the removed object below the root, the copied one at the root) are
      dropped from the map, which is what garbage collection does to them. */
  function ReplaceWithLinked<V>(h: Heap<V>, self: nat, node: Ref): (r: Outcome<Heap<V>>)
    ensures r.Done? ==> r.get.next == h.next && r.get.objs.Keys <= h.objs.Keys
  {
    if self !in h.objs then Stuck
    else
      var o := h.objs[self];
      if o.parent.Ptr? then
        match Relink(h, self, node)
        case Done(h1) => Done(h1.(objs := h1.objs - {self}))
        case _ => Stuck
      else if node.Ptr? then
        if node.id !in h.objs || node.id == self then Stuck
        else
          var n := h.objs[node.id];
          var objs1 := h.objs[self := o.(key := n.key, value := n.value, left := n.left, right := n.right)];
          var objs2 := Adopt(Adopt(objs1, n.left, self), n.right, self);
          Done(h.(objs := objs2 - {node.id}))
      else
        Done(h.(objs := h.objs[self := o.(key := None, value := None, left := Null, right := Null)]))
  }

  /** Point `c`'s parent link at `p`. */
  function Adopt<V>(objs: map<nat, Obj<V>>, c: Ref, p: nat): (r: map<nat, Obj<V>>)
    ensures r.Keys == objs.Keys
    ensures c.Ptr? && c.id in objs ==> r[c.id] == objs[c.id].(parent := Ptr(p))
    ensures forall id :: id in objs && (c.Null? || id != c.id) ==> r[id] == objs[id]
  {
    if c.Ptr? && c.id in objs then objs[c.id := objs[c.id].(parent := Ptr(p))] else objs
  }

  /** `_replaceWith`, as written or corrected. */
  function Replace<V>(h: Heap<V>, self: nat, node: Ref, corrected: bool): Outcome<Heap<V>>
  {
    if corrected then ReplaceWithLinked(h, self, node) else ReplaceWith(h, self, node)
  }

  /** `remove`, called on object `self`, with `_replaceWith` as written or corrected. */
  function Remove<V>(h: Heap<V>, self: nat, key: int, fuel: nat, corrected: bool): (r: Outcome<Heap<V>>)
    ensures r.Done? ==> r.get.next == h.next && r.get.objs.Keys <= h.objs.Keys
    decreases fuel
  {
    if fuel == 0 || self !in h.objs then Stuck
    else
      var o := h.objs[self];
      if o.key == Some(key) then
        if o.left.Ptr? && o.right.Ptr? then
          match FindMin(h, o.right.id, fuel - 1)
          case Done(s) =>
            var so := h.objs[s];
            if so.key.None? then Stuck
            else
              var h1 := h.(objs := h.objs[self := o.(key := so.key, value := so.value)]);
              Remove(h1, s, so.key.get, fuel - 1, corrected)
          case _ => Stuck
        else if o.left.Ptr? then Replace(h, self, o.left, corrected)
        else if o.right.Ptr? then Replace(h, self, o.right, corrected)
        else Replace(h, self, Null, corrected)
      else if key < Num(o.key) && o.left.Ptr? then Remove(h, o.left.id, key, fuel - 1, corrected)
      else if key > Num(o.key) && o.right.Ptr? then Remove(h, o.right.id, key, fuel - 1, corrected)
      else Thrown
  }

  /** Object `id`'s links agree with its neighbours': each child's `parent`
      is `id`, the two children are distinct, the parent holds `id` as a
      child, and `rank` strictly increases from the parent to `id` (so the
      links form no cycle). */
  ghost predicate LinkedAt<V>(objs: map<nat, Obj<V>>, rank: map<nat, nat>, id: nat)
    requires id in objs
  {
    var o := objs[id];
    && id in rank
    && (o.left.Ptr? ==> o.left.id in objs && objs[o.left.id].parent == Ptr(id))
    && (o.right.Ptr? ==> o.right.id in objs && objs[o.right.id].parent == Ptr(id))
    && (o.left.Ptr? ==> o.left != o.right)
    && (o.parent.Ptr? ==>
          && o.parent.id in objs
          && o.parent.id in rank
          && rank[o.parent.id] < rank[id]
          && (objs[o.parent.id].left == Ptr(id) || objs[o.parent.id].right == Ptr(id)))
  }

  /** Parent links agree with child links throughout. */
  ghost predicate WellLinked<V>(objs: map<nat, Obj<V>>, rank: map<nat, nat>)
  {
    forall id {:trigger LinkedAt(objs, rank, id)} :: id in objs ==> LinkedAt(objs, rank, id)
  }

  /** The argument `remove` passes to `_replaceWith`: the only child, or
      `null` when there is none. */
  ghost predicate OnlyChild<V>(o: Obj<V>, node: Ref)
  {
    || (node.Ptr? && node == o.left && o.right.Null?)
    || (node.Ptr? && node == o.right && o.left.Null?)
    || (node.Null? && o.left.Null? && o.right.Null?)
  }

  /** `_replaceWith` as written, called as `remove` calls it at the root of a
      consistently linked tree: when the replacement `node` has a child `c`,
      the root object now holds `c` while `c`'s `parent` still names `node`,
      so no ranking makes the result consistently linked. */
  lemma ReplaceWithAtRootLeavesStaleParent<V>(h: Heap<V>, rank: map<nat, nat>, self: nat, node: Ref, c: nat)
    requires WellLinked(h.objs, rank) && self in h.objs && OnlyChild(h.objs[self], node)
    requires h.objs[self].parent.Null? && node.Ptr?
    requires node.id in h.objs && (h.objs[node.id].left == Ptr(c) || h.objs[node.id].right == Ptr(c))
    ensures ReplaceWith(h, self, node).Done?
    ensures var r := ReplaceWith(h, self, node).get.objs;
      && (r[self].left == Ptr(c) || r[self].right == Ptr(c))
      && c in r && r[c].parent == node && node != Ptr(self)
    ensures forall rank' :: !WellLinked(ReplaceWith(h, self, node).get.objs, rank')
  {
    var n := node.id;
    assert LinkedAt(h.objs, rank, self);
    assert LinkedAt(h.objs, rank, n);
    assert h.objs[c].parent == Ptr(n);
    var r := ReplaceWith(h, self, node).get.objs;
    forall rank': map<nat, nat>
      ensures !WellLinked(r, rank')
    {
      assert !LinkedAt(r, rank', self);
    }
  }

  /** The corrected `_replaceWith`, called as `remove` calls it, keeps parent
      links in agreement with child links. */
  lemma ReplaceWithLinkedKeepsLinks<V>(h: Heap<V>, rank: map<nat, nat>, self: nat, node: Ref)
    requires WellLinked(h.objs, rank) && self in h.objs && OnlyChild(h.objs[self], node)
    ensures ReplaceWithLinked(h, self, node).Done?
    ensures WellLinked(ReplaceWithLinked(h, self, node).get.objs, rank)
  {
    assert LinkedAt(h.objs, rank, self);
    if h.objs[self].parent.Ptr? {
      BelowRootKeepsLinks(h, rank, self, node);
    } else if node.Ptr? {
      AtRootKeepsLinks(h, rank, self, node.id);
    } else {
      ClearRootKeepsLinks(h, rank, self);
    }
  }

  /** Below the root: the parent adopts the only child and `self` is dropped. */
  lemma BelowRootKeepsLinks<V>(h: Heap<V>, rank: map<nat, nat>, self: nat, node: Ref)
    requires WellLinked(h.objs, rank) && self in h.objs && OnlyChild(h.objs[self], node)
    requires h.objs[self].parent.Ptr?
    ensures ReplaceWithLinked(h, self, node).Done?
    ensures WellLinked(ReplaceWithLinked(h, self, node).get.objs, rank)
  {
    var objs := h.objs;
    var p := objs[self].parent.id;
    assert LinkedAt(objs, rank, self);
    assert LinkedAt(objs, rank, p);
    if node.Ptr? {
      assert LinkedAt(objs, rank, node.id);
    }
    var r := BelowRootShape(h, rank, self, node);
    forall id | id in r
      ensures LinkedAt(r, rank, id)
    {
      if id == p {
        BelowRootAtParent(objs, r, rank, self, p, node);
      } else if node.Ptr? && id == node.id {
        BelowRootAtChild(objs, r, rank, self, p, node.id);
      } else {
        BelowRootElsewhere(objs, r, rank, self, p, node, id);
      }
    }
  }

  /** What the corrected `_replaceWith` does below the root, object by object. */
  ghost predicate RelinkedBelow<V>(objs: map<nat, Obj<V>>, r: map<nat, Obj<V>>, self: nat, p: nat, node: Ref)
    requires p in objs
  {
    && r.Keys == objs.Keys - {self}
    && p in r
    && r[p] == (if objs[p].left == Ptr(self) then objs[p].(left := node) else objs[p].(right := node))
    && (node.Ptr? ==> node.id in objs && node.id in r && r[node.id] == objs[node.id].(parent := Ptr(p)))
    && (forall x :: x in r && x != p && (node.Null? || x != node.id) ==> r[x] == objs[x])
  }

  lemma BelowRootShape<V>(h: Heap<V>, rank: map<nat, nat>, self: nat, node: Ref) returns (r: map<nat, Obj<V>>)
    requires self in h.objs && h.objs[self].parent.Ptr?
    requires LinkedAt(h.objs, rank, self) && LinkedAt(h.objs, rank, h.objs[self].parent.id)
    requires node.Ptr? ==> node.id in h.objs && LinkedAt(h.objs, rank, node.id) && h.objs[node.id].parent == Ptr(self)
    ensures ReplaceWithLinked(h, self, node) == Done(h.(objs := r))
    ensures RelinkedBelow(h.objs, r, self, h.objs[self].parent.id, node)
  {
    var objs := h.objs;
    var o := objs[self];
    var p := o.parent.id;
    var po := objs[p];
    var objs1 :=
      if po.left == Ptr(self) then objs[p := po.(left := node)]
      else objs[p := po.(right := node)];
    var objs2 := if node.Null? then objs1 else objs1[node.id := objs1[node.id].(parent := o.parent)];
    r := objs2 - {self};
    assert Relink(h, self, node) == Done(h.(objs := objs2));
  }

  lemma BelowRootAtParent<V>(objs: map<nat, Obj<V>>, r: map<nat, Obj<V>>, rank: map<nat, nat>, self: nat, p: nat, node: Ref)
    requires WellLinked(objs, rank) && self in objs && p in objs && objs[self].parent == Ptr(p)
    requires OnlyChild(objs[self], node)
    requires RelinkedBelow(objs, r, self, p, node)
    ensures LinkedAt(r, rank, p)
  {
    var po := objs[p];
    assert LinkedAt(objs, rank, self);
    assert LinkedAt(objs, rank, p);
    var other := if po.left == Ptr(self) then po.right else po.left;
    if other.Ptr? {
      assert LinkedAt(objs, rank, other.id);
      assert other != node by {
        if node.Ptr? {
          assert LinkedAt(objs, rank, node.id);
        }
      }
    }
    if node.Ptr? {
      assert LinkedAt(objs, rank, node.id);
    }
    if po.parent.Ptr? {
      assert LinkedAt(objs, rank, po.parent.id);
      if node.Ptr? {
        assert po.parent.id != node.id;
      }
    }
  }

  lemma BelowRootAtChild<V>(objs: map<nat, Obj<V>>, r: map<nat, Obj<V>>, rank: map<nat, nat>, self: nat, p: nat, c: nat)
    requires WellLinked(objs, rank) && self in objs && p in objs && objs[self].parent == Ptr(p)
    requires OnlyChild(objs[self], Ptr(c))
    requires RelinkedBelow(objs, r, self, p, Ptr(c))
    ensures LinkedAt(r, rank, c)
  {
    assert LinkedAt(objs, rank, self);
    assert LinkedAt(objs, rank, c);
    var co := objs[c];
    if co.left.Ptr? {
      assert LinkedAt(objs, rank, co.left.id);
    }
    if co.right.Ptr? {
      assert LinkedAt(objs, rank, co.right.id);
    }
  }

  lemma BelowRootElsewhere<V>(objs: map<nat, Obj<V>>, r: map<nat, Obj<V>>, rank: map<nat, nat>, self: nat, p: nat, node: Ref, id: nat)
    requires WellLinked(objs, rank) && self in objs && p in objs && objs[self].parent == Ptr(p)
    requires OnlyChild(objs[self], node)
    requires RelinkedBelow(objs, r, self, p, node)
    requires id in r && id != p && (node.Null? || id != node.id)
    ensures LinkedAt(r, rank, id)
  {
    assert LinkedAt(objs, rank, self);
    assert LinkedAt(objs, rank, id);
    if node.Ptr? {
      assert LinkedAt(objs, rank, node.id);
    }
    var io := objs[id];
    assert r[id] == io;
    if io.left.Ptr? {
      assert LinkedAt(objs, rank, io.left.id);
    }
    if io.right.Ptr? {
      assert LinkedAt(objs, rank, io.right.id);
    }
    if io.parent.Ptr? {
      assert LinkedAt(objs, rank, io.parent.id);
    }
  }

  /** At the root with one child `n`: the root takes over `n`'s pair and
      children, the children are re-parented, and `n` is dropped. */
  lemma AtRootKeepsLinks<V>(h: Heap<V>, rank: map<nat, nat>, self: nat, n: nat)
    requires WellLinked(h.objs, rank) && self in h.objs && OnlyChild(h.objs[self], Ptr(n))
    requires h.objs[self].parent.Null?
    ensures ReplaceWithLinked(h, self, Ptr(n)).Done?
    ensures WellLinked(ReplaceWithLinked(h, self, Ptr(n)).get.objs, rank)
  {
    var objs := h.objs;
    assert LinkedAt(objs, rank, self);
    assert LinkedAt(objs, rank, n);
    var no := objs[n];
    if no.left.Ptr? {
      assert LinkedAt(objs, rank, no.left.id);
    }
    if no.right.Ptr? {
      assert LinkedAt(objs, rank, no.right.id);
    }
    var r := AtRootShape(h, rank, self, n);
    forall id | id in r
      ensures LinkedAt(r, rank, id)
    {
      if id == self {
        AtRootAtSelf(objs, r, rank, self, n);
      } else if (no.left.Ptr? && id == no.left.id) || (no.right.Ptr? && id == no.right.id) {
        AtRootAtGrandchild(objs, r, rank, self, n, id);
      } else {
        AtRootElsewhere(objs, r, rank, self, n, id);
      }
    }
  }

  /** What the corrected `_replaceWith` does at the root, object by object. */
  ghost predicate CopiedAtRoot<V>(objs: map<nat, Obj<V>>, r: map<nat, Obj<V>>, self: nat, n: nat)
    requires self in objs && n in objs
  {
    var a, b := objs[n].left, objs[n].right;
    && r.Keys == objs.Keys - {n}
    && self in r
    && r[self] == objs[self].(key := objs[n].key, value := objs[n].value, left := a, right := b)
    && (a.Ptr? ==> a.id in objs && a.id in r && r[a.id] == objs[a.id].(parent := Ptr(self)))
    && (b.Ptr? ==> b.id in objs && b.id in r && r[b.id] == objs[b.id].(parent := Ptr(self)))
    && (forall x :: x in r && x != self && (a.Null? || x != a.id) && (b.Null? || x != b.id) ==> r[x] == objs[x])
  }

  lemma AtRootShape<V>(h: Heap<V>, rank: map<nat, nat>, self: nat, n: nat) returns (r: map<nat, Obj<V>>)
    requires self in h.objs && n in h.objs && self != n && h.objs[self].parent.Null?
    requires LinkedAt(h.objs, rank, n) && h.objs[n].parent == Ptr(self)
    requires h.objs[n].left.Ptr? ==> LinkedAt(h.objs, rank, h.objs[n].left.id)
    requires h.objs[n].right.Ptr? ==> LinkedAt(h.objs, rank, h.objs[n].right.id)
    ensures ReplaceWithLinked(h, self, Ptr(n)) == Done(h.(objs := r))
    ensures CopiedAtRoot(h.objs, r, self, n)
  {
    var objs := h.objs;
    var o, no := objs[self], objs[n];
    var objs1 := objs[self := o.(key := no.key, value := no.value, left := no.left, right := no.right)];
    var objs2 := Adopt(Adopt(objs1, no.left, self), no.right, self);
    r := objs2 - {n};
  }

  lemma AtRootAtSelf<V>(objs: map<nat, Obj<V>>, r: map<nat, Obj<V>>, rank: map<nat, nat>, self: nat, n: nat)
    requires WellLinked(objs, rank) && self in objs && n in objs && self != n
    requires objs[self].parent.Null? && objs[n].parent == Ptr(self)
    requires CopiedAtRoot(objs, r, self, n)
    ensures LinkedAt(r, rank, self)
  {
    assert LinkedAt(objs, rank, self);
    assert LinkedAt(objs, rank, n);
    var no := objs[n];
    if no.left.Ptr? {
      assert LinkedAt(objs, rank, no.left.id);
    }
    if no.right.Ptr? {
      assert LinkedAt(objs, rank, no.right.id);
    }
  }

  lemma AtRootAtGrandchild<V>(objs: map<nat, Obj<V>>, r: map<nat, Obj<V>>, rank: map<nat, nat>, self: nat, n: nat, c: nat)
    requires WellLinked(objs, rank) && self in objs && n in objs && self != n
    requires objs[self].parent.Null? && objs[n].parent == Ptr(self)
    requires CopiedAtRoot(objs, r, self, n)
    requires objs[n].left == Ptr(c) || objs[n].right == Ptr(c)
    ensures LinkedAt(r, rank, c)
  {
    assert LinkedAt(objs, rank, self);
    assert LinkedAt(objs, rank, n);
    assert LinkedAt(objs, rank, c);
    var no, co := objs[n], objs[c];
    var sibling := if no.left == Ptr(c) then no.right else no.left;
    if sibling.Ptr? {
      assert LinkedAt(objs, rank, sibling.id);
    }
    assert r[c] == co.(parent := Ptr(self));
    if co.left.Ptr? {
      assert LinkedAt(objs, rank, co.left.id);
    }
    if co.right.Ptr? {
      assert LinkedAt(objs, rank, co.right.id);
    }
  }

  lemma AtRootElsewhere<V>(objs: map<nat, Obj<V>>, r: map<nat, Obj<V>>, rank: map<nat, nat>, self: nat, n: nat, id: nat)
    requires WellLinked(objs, rank) && self in objs && n in objs && self != n
    requires objs[self].parent.Null? && OnlyChild(objs[self], Ptr(n))
    requires CopiedAtRoot(objs, r, self, n)
    requires id in r && id != self && objs[n].left != Ptr(id) && objs[n].right != Ptr(id)
    ensures LinkedAt(r, rank, id)
  {
    assert LinkedAt(objs, rank, self);
    assert LinkedAt(objs, rank, n);
    assert LinkedAt(objs, rank, id);
    var no, io := objs[n], objs[id];
    if no.left.Ptr? {
      assert LinkedAt(objs, rank, no.left.id);
    }
    if no.right.Ptr? {
      assert LinkedAt(objs, rank, no.right.id);
    }
    assert r[id] == io;
    if io.left.Ptr? {
      assert LinkedAt(objs, rank, io.left.id);
    }
    if io.right.Ptr? {
      assert LinkedAt(objs, rank, io.right.id);
    }
    if io.parent.Ptr? {
      assert LinkedAt(objs, rank, io.parent.id);
    }
  }

  /** At the root with no child: the root is cleared and nothing else changes. */
  lemma ClearRootKeepsLinks<V>(h: Heap<V>, rank: map<nat, nat>, self: nat)
    requires WellLinked(h.objs, rank) && self in h.objs && OnlyChild(h.objs[self], Null)
    requires h.objs[self].parent.Null?
    ensures ReplaceWithLinked(h, self, Null).Done?
    ensures WellLinked(ReplaceWithLinked(h, self, Null).get.objs, rank)
  {
    var objs := h.objs;
    var o := objs[self];
    var r := objs[self := o.(key := None, value := None, left := Null, right := Null)];
    assert ReplaceWithLinked(h, self, Null) == Done(h.(objs := r));
    forall id | id in r
      ensures LinkedAt(r, rank, id)
    {
      assert LinkedAt(objs, rank, id);
      var io := objs[id];
      if io.parent.Ptr? {
        assert LinkedAt(objs, rank, io.parent.id);
      }
    }
  }
}
