/**
 The call sequence that exposes the stale parent links: insert 5, 3, 1 (a chain down
 the left), remove 5 (the root, which has only a left child), then remove 1.
 With `_replaceWith` as written, the second removal unlinks 1 from the
 object that used to hold 3, which is no longer in the tree, so `find(1)`
 still succeeds. With the corrected `_replaceWith` it throws, as it does in
 the tree model.

 The same stale link also duplicates a key: insert 5, 3, 2, 4, remove 5,
 then remove 3. The successor 4 is copied into the root, and its removal
 unlinks it from the detached object, so the live tree holds 4 twice.
 */
module StaleParent {
  import opened Linked

  const Fuel := 5

  function Root5(): Heap<int>
  {
    Heap(map[0 := Obj(Some(5), Some(50), Null, Null, Null)], 1)
  }

  function Chain53(): Heap<int>
  {
    Heap(map[0 := Obj(Some(5), Some(50), Null, Ptr(1), Null),
             1 := Obj(Some(3), Some(30), Ptr(0), Null, Null)], 2)
  }

  /** 5 at the root (object 0), 3 as its left child (object 1), 1 below it (object 2). */
  function Chain531(): Heap<int>
  {
    Heap(map[0 := Obj(Some(5), Some(50), Null, Ptr(1), Null),
             1 := Obj(Some(3), Some(30), Ptr(0), Ptr(2), Null),
             2 := Obj(Some(1), Some(10), Ptr(1), Null, Null)], 3)
  }

  lemma InsertsBuildChain()
    ensures Insert(New(None, None), 0, 5, 50, Fuel) == Done(Root5())
    ensures Insert(Root5(), 0, 3, 30, Fuel) == Done(Chain53())
    ensures Insert(Chain53(), 0, 1, 10, Fuel) == Done(Chain531())
    ensures WellLinked(Chain531().objs, map[0 := 0, 1 := 1, 2 := 2])
  {
    var h0 := New<int>(None, None);
    assert h0.objs[0 := h0.objs[0].(key := Some(5), value := Some(50))] == Root5().objs;
    var h1 := Root5();
    var c1 := Obj(Some(3), Some(30), Ptr(0), Null, Null);
    assert h1.objs[1 := c1][0 := h1.objs[0].(left := Ptr(1))] == Chain53().objs;
    var h2 := Chain53();
    var c2 := Obj(Some(1), Some(10), Ptr(1), Null, Null);
    assert Insert(h2, 0, 1, 10, Fuel) == Insert(h2, 1, 1, 10, Fuel - 1);
    assert h2.objs[2 := c2][1 := h2.objs[1].(left := Ptr(2))] == Chain531().objs;
    assert LinkedAt(Chain531().objs, map[0 := 0, 1 := 1, 2 := 2], 0);
    assert LinkedAt(Chain531().objs, map[0 := 0, 1 := 1, 2 := 2], 1);
    assert LinkedAt(Chain531().objs, map[0 := 0, 1 := 1, 2 := 2], 2);
  }

  /** As written, after `remove(5)`: the root holds 3 and points at object 2,
      whose parent is still object 1. */
  function AfterRemove5(): Heap<int>
  {
    Heap(map[0 := Obj(Some(3), Some(30), Null, Ptr(2), Null),
             1 := Obj(Some(3), Some(30), Ptr(0), Ptr(2), Null),
             2 := Obj(Some(1), Some(10), Ptr(1), Null, Null)], 3)
  }

  /** As written, after `remove(1)`: only the detached object 1 lost its child. */
  function AfterRemove1(): Heap<int>
  {
    Heap(map[0 := Obj(Some(3), Some(30), Null, Ptr(2), Null),
             1 := Obj(Some(3), Some(30), Ptr(0), Null, Null),
             2 := Obj(Some(1), Some(10), Ptr(1), Null, Null)], 3)
  }

  /** The defect: `remove(1)` succeeds, yet `find(1)` still returns 1's value. */
  lemma AsWrittenRemovalIsLost()
    ensures Remove(Chain531(), 0, 5, Fuel, false) == Done(AfterRemove5())
    ensures AfterRemove5().objs[2].parent != Ptr(0)
    ensures Remove(AfterRemove5(), 0, 1, Fuel, false) == Done(AfterRemove1())
    ensures Find(AfterRemove1(), 0, 1, Fuel) == Done(Some(10))
  {
    var h := Chain531();
    var n := h.objs[1];
    assert h.objs[0 := h.objs[0].(key := n.key, value := n.value, left := n.left, right := n.right)]
      == AfterRemove5().objs;
    var h' := AfterRemove5();
    assert Remove(h', 0, 1, Fuel, false) == Remove(h', 2, 1, Fuel - 1, false);
    assert h'.objs[1 := h'.objs[1].(left := Null)] == AfterRemove1().objs;
  }

  /** Corrected, after `remove(5)`: object 2 is re-parented to the root and
      object 1 is gone. */
  function FixedAfterRemove5(): Heap<int>
  {
    Heap(map[0 := Obj(Some(3), Some(30), Null, Ptr(2), Null),
             2 := Obj(Some(1), Some(10), Ptr(0), Null, Null)], 3)
  }

  function FixedAfterRemove1(): Heap<int>
  {
    Heap(map[0 := Obj(Some(3), Some(30), Null, Null, Null)], 3)
  }

  /** The corrected `_replaceWith` on the same calls: `find(1)` throws. */
  lemma CorrectedRemovalTakesEffect()
    ensures Remove(Chain531(), 0, 5, Fuel, true) == Done(FixedAfterRemove5())
    ensures Remove(FixedAfterRemove5(), 0, 1, Fuel, true) == Done(FixedAfterRemove1())
    ensures Find(FixedAfterRemove1(), 0, 1, Fuel) == Thrown
  {
    var h := Chain531();
    var n := h.objs[1];
    var objs1 := h.objs[0 := h.objs[0].(key := n.key, value := n.value, left := n.left, right := n.right)];
    assert Adopt(Adopt(objs1, n.left, 0), n.right, 0) - {1} == FixedAfterRemove5().objs;
    var h' := FixedAfterRemove5();
    assert Remove(h', 0, 1, Fuel, true) == Remove(h', 2, 1, Fuel - 1, true);
    assert h'.objs[0 := h'.objs[0].(left := Null)] - {2} == FixedAfterRemove1().objs;
  }
  /** 5 at the root (object 0), 3 as its left child (object 1), 2 and 4 as
      3's children (objects 2 and 3). */
  function Tree5324(): Heap<int>
  {
    Heap(map[0 := Obj(Some(5), Some(50), Null, Ptr(1), Null),
             1 := Obj(Some(3), Some(30), Ptr(0), Ptr(2), Ptr(3)),
             2 := Obj(Some(2), Some(20), Ptr(1), Null, Null),
             3 := Obj(Some(4), Some(40), Ptr(1), Null, Null)], 4)
  }

  lemma InsertsBuildTree5324()
    ensures Insert(Chain53(), 0, 2, 20, Fuel).Done?
    ensures Insert(Insert(Chain53(), 0, 2, 20, Fuel).get, 0, 4, 40, Fuel) == Done(Tree5324())
  {
    var h2 := Chain53();
    var c2 := Obj(Some(2), Some(20), Ptr(1), Null, Null);
    assert Insert(h2, 0, 2, 20, Fuel) == Insert(h2, 1, 2, 20, Fuel - 1);
    var h3 := Heap(h2.objs[2 := c2][1 := h2.objs[1].(left := Ptr(2))], 3);
    assert Insert(h2, 1, 2, 20, Fuel - 1) == Done(h3);
    var c3 := Obj(Some(4), Some(40), Ptr(1), Null, Null);
    assert Insert(h3, 0, 4, 40, Fuel) == Insert(h3, 1, 4, 40, Fuel - 1);
    assert h3.objs[3 := c3][1 := h3.objs[1].(right := Ptr(3))] == Tree5324().objs;
  }

  /** As written, after `remove(5)`: the root holds 3 and points at objects 2
      and 3, whose parent is still object 1. */
  function DupAfterRemove5(): Heap<int>
  {
    Heap(map[0 := Obj(Some(3), Some(30), Null, Ptr(2), Ptr(3)),
             1 := Obj(Some(3), Some(30), Ptr(0), Ptr(2), Ptr(3)),
             2 := Obj(Some(2), Some(20), Ptr(1), Null, Null),
             3 := Obj(Some(4), Some(40), Ptr(1), Null, Null)], 4)
  }

  /** As written, after `remove(3)`: the root took the successor's pair, and
      the successor was unlinked only from the detached object 1. */
  function DupAfterRemove3(): Heap<int>
  {
    Heap(map[0 := Obj(Some(4), Some(40), Null, Ptr(2), Ptr(3)),
             1 := Obj(Some(3), Some(30), Ptr(0), Ptr(2), Null),
             2 := Obj(Some(2), Some(20), Ptr(1), Null, Null),
             3 := Obj(Some(4), Some(40), Ptr(1), Null, Null)], 4)
  }

  /** The defect's second face: after the removals, key 4 sits both in the
      root and in the root's right child. */
  lemma AsWrittenDuplicatesKey()
    ensures Remove(Tree5324(), 0, 5, Fuel, false) == Done(DupAfterRemove5())
    ensures Remove(DupAfterRemove5(), 0, 3, Fuel, false) == Done(DupAfterRemove3())
    ensures var objs := DupAfterRemove3().objs;
      objs[0].key == Some(4) && objs[0].right == Ptr(3) && objs[3].key == Some(4)
  {
    var h := Tree5324();
    var n := h.objs[1];
    assert h.objs[0 := h.objs[0].(key := n.key, value := n.value, left := n.left, right := n.right)]
      == DupAfterRemove5().objs;
    var h' := DupAfterRemove5();
    assert FindMin(h', 3, Fuel - 1) == Done(3);
    var h1 := h'.(objs := h'.objs[0 := h'.objs[0].(key := Some(4), value := Some(40))]);
    assert Remove(h', 0, 3, Fuel, false) == Remove(h1, 3, 4, Fuel - 1, false);
    assert h1.objs[1 := h1.objs[1].(right := Null)] == DupAfterRemove3().objs;
  }

  /** Corrected, after `remove(5)` and `remove(3)`: 4 is in the root alone,
      with 2 as its left child. */
  function FixedDupAfterRemove5(): Heap<int>
  {
    Heap(map[0 := Obj(Some(3), Some(30), Null, Ptr(2), Ptr(3)),
             2 := Obj(Some(2), Some(20), Ptr(0), Null, Null),
             3 := Obj(Some(4), Some(40), Ptr(0), Null, Null)], 4)
  }

  function FixedDupAfterRemove3(): Heap<int>
  {
    Heap(map[0 := Obj(Some(4), Some(40), Null, Ptr(2), Null),
             2 := Obj(Some(2), Some(20), Ptr(0), Null, Null)], 4)
  }

  /** The corrected `_replaceWith` on the same calls keeps one copy of 4. */
  lemma CorrectedKeepsOneCopy()
    ensures Remove(Tree5324(), 0, 5, Fuel, true) == Done(FixedDupAfterRemove5())
    ensures Remove(FixedDupAfterRemove5(), 0, 3, Fuel, true) == Done(FixedDupAfterRemove3())
    ensures Find(FixedDupAfterRemove3(), 0, 4, Fuel) == Done(Some(40))
  {
    var h := Tree5324();
    var n := h.objs[1];
    var objs1 := h.objs[0 := h.objs[0].(key := n.key, value := n.value, left := n.left, right := n.right)];
    assert Adopt(Adopt(objs1, n.left, 0), n.right, 0) - {1} == FixedDupAfterRemove5().objs;
    var h' := FixedDupAfterRemove5();
    assert FindMin(h', 3, Fuel - 1) == Done(3);
    var h1 := h'.(objs := h'.objs[0 := h'.objs[0].(key := Some(4), value := Some(40))]);
    assert Remove(h', 0, 3, Fuel, true) == Remove(h1, 3, 4, Fuel - 1, true);
    assert h1.objs[0 := h1.objs[0].(right := Null)] - {3} == FixedDupAfterRemove3().objs;
  }
}
