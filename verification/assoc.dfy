/**
 Reference behaviour of an ordered map kept as a sorted sequence of
 key/value pairs (the in-order view of a tree). The tree operations are
 proved to act on their in-order sequence exactly as these do.
 */
module Assoc {

  /** The outcome of a lookup: a value, or the "Key Error" the source throws
      when the key cannot be found. */
  datatype Result<T> = Ok(value: T) | KeyError

  /** The keys of a sequence of pairs, with multiplicities. */
  ghost function KeysOf<V>(s: seq<(int, V)>): multiset<int>
  {
    if |s| == 0 then multiset{} else multiset{s[0].0} + KeysOf(s[1..])
  }

  /** Keys in non-decreasing order. */
  ghost predicate SortedKeys<V>(s: seq<(int, V)>)
  {
    forall i, j :: 0 <= i < j < |s| ==> s[i].0 <= s[j].0
  }

  lemma {:induction false} KeysOfConcat<V>(a: seq<(int, V)>, b: seq<(int, V)>)
    ensures KeysOf(a + b) == KeysOf(a) + KeysOf(b)
  {
    if |a| == 0 {
      assert a + b == b;
    } else {
      assert (a + b)[1..] == a[1..] + b;
      KeysOfConcat(a[1..], b);
    }
  }

  lemma KeysOfSingle<V>(x: (int, V))
    ensures KeysOf([x]) == multiset{x.0}
  {
    assert [x][1..] == [];
  }

  lemma {:induction false} KeysOfIndex<V>(s: seq<(int, V)>, i: int)
    requires 0 <= i < |s|
    ensures s[i].0 in KeysOf(s)
  {
    if i > 0 {
      KeysOfIndex(s[1..], i - 1);
    }
  }

  /** Joining two sorted runs around a pivot keeps the keys sorted. */
  lemma SortedJoin<V>(a: seq<(int, V)>, x: (int, V), b: seq<(int, V)>)
    requires SortedKeys(a) && SortedKeys(b)
    requires forall i :: 0 <= i < |a| ==> a[i].0 < x.0
    requires forall i :: 0 <= i < |b| ==> x.0 <= b[i].0
    ensures SortedKeys(a + [x] + b)
  {
    var s := a + [x] + b;
    forall i, j | 0 <= i < j < |s|
      ensures s[i].0 <= s[j].0
    {
      if j < |a| {
        assert s[i] == a[i] && s[j] == a[j];
      } else if i > |a| {
        assert s[i] == b[i - |a| - 1] && s[j] == b[j - |a| - 1];
      } else if i == |a| {
        assert s[j] == b[j - |a| - 1];
      } else if j == |a| {
        assert s[i] == a[i];
      } else {
        assert s[i] == a[i] && s[j] == b[j - |a| - 1];
      }
    }
  }

  /** The value of the first pair carrying key `k`, or a key error. */
  ghost function FirstWith<V>(s: seq<(int, V)>, k: int): Result<V>
  {
    if |s| == 0 then KeyError
    else if s[0].0 == k then Ok(s[0].1)
    else FirstWith(s[1..], k)
  }

  /** The sequence with its first pair carrying key `k` deleted (unchanged if there is none). */
  ghost function RemoveFirst<V>(s: seq<(int, V)>, k: int): seq<(int, V)>
  {
    if |s| == 0 then []
    else if s[0].0 == k then s[1..]
    else [s[0]] + RemoveFirst(s[1..], k)
  }

  /** The sequence with `(k, v)` placed just before the first pair whose key
      exceeds `k`; on a sorted sequence that is after every key `<= k`. */
  ghost function Place<V>(s: seq<(int, V)>, k: int, v: V): seq<(int, V)>
  {
    if |s| == 0 then [(k, v)]
    else if k < s[0].0 then [(k, v)] + s
    else [s[0]] + Place(s[1..], k, v)
  }

  /** A lookup fails exactly when the key is absent. */
  lemma {:induction false} FirstWithAbsent<V>(s: seq<(int, V)>, k: int)
    ensures FirstWith(s, k).KeyError? <==> k !in KeysOf(s)
  {
    if |s| > 0 {
      FirstWithAbsent(s[1..], k);
    }
  }

  lemma {:induction false} FirstWithConcat<V>(a: seq<(int, V)>, b: seq<(int, V)>, k: int)
    ensures FirstWith(a + b, k) == if FirstWith(a, k).Ok? then FirstWith(a, k) else FirstWith(b, k)
  {
    if |a| == 0 {
      assert a + b == b;
    } else {
      assert (a + b)[1..] == a[1..] + b;
      FirstWithConcat(a[1..], b, k);
    }
  }

  lemma {:induction false} RemoveFirstConcat<V>(a: seq<(int, V)>, b: seq<(int, V)>, k: int)
    ensures RemoveFirst(a + b, k) == if k in KeysOf(a) then RemoveFirst(a, k) + b else a + RemoveFirst(b, k)
  {
    if |a| == 0 {
      assert a + b == b;
    } else {
      assert (a + b)[1..] == a[1..] + b;
      RemoveFirstConcat(a[1..], b, k);
      if a[0].0 != k {
        assert [a[0]] + (a[1..] + RemoveFirst(b, k)) == a + RemoveFirst(b, k);
      }
    }
  }

  /** Removing the first occurrence takes away exactly one copy of `k`. */
  lemma {:induction false} RemoveFirstKeys<V>(s: seq<(int, V)>, k: int)
    ensures KeysOf(RemoveFirst(s, k)) == KeysOf(s) - multiset{k}
  {
    if |s| > 0 && s[0].0 != k {
      RemoveFirstKeys(s[1..], k);
      var rest := RemoveFirst(s[1..], k);
      assert ([s[0]] + rest)[1..] == rest;
    }
  }

  /** Removing one key does not disturb the lookup of any other key. */
  lemma {:induction false} RemoveFirstOther<V>(s: seq<(int, V)>, k: int, k': int)
    requires k != k'
    ensures FirstWith(RemoveFirst(s, k), k') == FirstWith(s, k')
  {
    if |s| > 0 {
      if s[0].0 != k {
        RemoveFirstOther(s[1..], k, k');
        var rest := RemoveFirst(s[1..], k);
        assert ([s[0]] + rest)[1..] == rest;
      } else {
        assert FirstWith(s, k') == FirstWith(s[1..], k');
      }
    }
  }

  /** Placing a pair in front of a run that starts above `k` lands it in the first part. */
  lemma {:induction false} PlaceBefore<V>(a: seq<(int, V)>, b: seq<(int, V)>, k: int, v: V)
    requires |b| == 0 || k < b[0].0
    ensures Place(a + b, k, v) == Place(a, k, v) + b
  {
    if |a| == 0 {
      assert a + b == b;
    } else {
      assert (a + b)[1..] == a[1..] + b;
      assert (a + b)[0] == a[0];
      if k >= a[0].0 {
        PlaceBefore(a[1..], b, k, v);
      }
    }
  }

  /** Placing a pair behind a run of keys all at most `k` lands it in the second part. */
  lemma {:induction false} PlaceAfter<V>(a: seq<(int, V)>, b: seq<(int, V)>, k: int, v: V)
    requires forall i :: 0 <= i < |a| ==> a[i].0 <= k
    ensures Place(a + b, k, v) == a + Place(b, k, v)
  {
    if |a| == 0 {
      assert a + b == b;
    } else {
      assert (a + b)[1..] == a[1..] + b;
      assert (a + b)[0] == a[0];
      PlaceAfter(a[1..], b, k, v);
    }
  }

  /** A key below the pivot is placed inside the left run. */
  lemma PlaceLeft<V>(a: seq<(int, V)>, x: (int, V), b: seq<(int, V)>, k: int, v: V)
    requires k < x.0
    ensures Place(a + [x] + b, k, v) == Place(a, k, v) + [x] + b
  {
    assert a + [x] + b == a + ([x] + b);
    PlaceBefore(a, [x] + b, k, v);
  }

  /** A key at or above the pivot, which bounds the left run, is placed inside the right run. */
  lemma PlaceRight<V>(a: seq<(int, V)>, x: (int, V), b: seq<(int, V)>, k: int, v: V)
    requires forall i :: 0 <= i < |a| ==> a[i].0 < x.0
    requires x.0 <= k
    ensures Place(a + [x] + b, k, v) == a + [x] + Place(b, k, v)
  {
    PlaceAfter(a + [x], b, k, v);
  }

  /** The first pair with key `k` in `a + [x] + b`. */
  lemma FirstWithAround<V>(a: seq<(int, V)>, x: (int, V), b: seq<(int, V)>, k: int)
    ensures FirstWith(a + [x] + b, k) ==
      if FirstWith(a, k).Ok? then FirstWith(a, k)
      else if x.0 == k then Ok(x.1)
      else FirstWith(b, k)
  {
    FirstWithConcat(a + [x], b, k);
    FirstWithConcat(a, [x], k);
    assert [x][1..] == [];
  }

  /** When the left run holds the key, it loses its first pair with that key. */
  lemma RemoveFirstInLeft<V>(a: seq<(int, V)>, x: (int, V), b: seq<(int, V)>, k: int)
    requires k in KeysOf(a)
    ensures RemoveFirst(a + [x] + b, k) == RemoveFirst(a, k) + [x] + b
  {
    calc {
      RemoveFirst(a + [x] + b, k);
      { assert a + [x] + b == a + ([x] + b); }
      RemoveFirst(a + ([x] + b), k);
      { RemoveFirstConcat(a, [x] + b, k); }
      RemoveFirst(a, k) + ([x] + b);
      RemoveFirst(a, k) + [x] + b;
    }
  }

  /** When the pivot is the first pair with the key, it is the one deleted. */
  lemma RemoveFirstAtPivot<V>(a: seq<(int, V)>, x: (int, V), b: seq<(int, V)>, k: int)
    requires k !in KeysOf(a) && x.0 == k
    ensures RemoveFirst(a + [x] + b, k) == a + b
  {
    calc {
      RemoveFirst(a + [x] + b, k);
      { assert a + [x] + b == a + ([x] + b); }
      RemoveFirst(a + ([x] + b), k);
      { RemoveFirstConcat(a, [x] + b, k); }
      a + RemoveFirst([x] + b, k);
      { RemoveFirstCons(x, b, k); }
      a + b;
    }
  }

  /** When neither the left run nor the pivot holds the key, the right run loses it. */
  lemma RemoveFirstInRight<V>(a: seq<(int, V)>, x: (int, V), b: seq<(int, V)>, k: int)
    requires k !in KeysOf(a) && x.0 != k
    ensures RemoveFirst(a + [x] + b, k) == a + [x] + RemoveFirst(b, k)
  {
    calc {
      RemoveFirst(a + [x] + b, k);
      { assert a + [x] + b == a + ([x] + b); }
      RemoveFirst(a + ([x] + b), k);
      { RemoveFirstConcat(a, [x] + b, k); }
      a + RemoveFirst([x] + b, k);
      { RemoveFirstCons(x, b, k); }
      a + ([x] + RemoveFirst(b, k));
      a + [x] + RemoveFirst(b, k);
    }
  }

  lemma RemoveFirstCons<V>(x: (int, V), b: seq<(int, V)>, k: int)
    ensures RemoveFirst([x] + b, k) == if x.0 == k then b else [x] + RemoveFirst(b, k)
  {
    assert ([x] + b)[0] == x;
    assert ([x] + b)[1..] == b;
  }
}
