/**
  A stable sort by a lexicographic pair key. Python's `list.sort`/`sorted` and
  JavaScript's `Array.prototype.sort` are both stable, so every sort in the
  source is modelled by this one function with an appropriate key.
 */
module Sorting {

  /** A sort key compared first on `major`, then on `minor`. */
  datatype Key = Key(major: int, minor: int)

  predicate KeyLe(a: Key, b: Key) {
    a.major < b.major || (a.major == b.major && a.minor <= b.minor)
  }

  /** A key that orders by a single integer. */
  function Plain(k: int): Key {
    Key(k, 0)
  }

  predicate SortedBy<T>(s: seq<T>, key: T -> Key) {
    forall i, j :: 0 <= i < j < |s| ==> KeyLe(key(s[i]), key(s[j]))
  }

  /** The elements of `s` whose key is `k`, in their order in `s`. */
  function WithKey<T>(s: seq<T>, key: T -> Key, k: Key): seq<T> {
    if |s| == 0 then [] else (if key(s[0]) == k then [s[0]] else []) + WithKey(s[1..], key, k)
  }

  lemma {:induction false} WithKeyConcat<T>(a: seq<T>, b: seq<T>, key: T -> Key, k: Key)
    ensures WithKey(a + b, key, k) == WithKey(a, key, k) + WithKey(b, key, k)
  {
    if |a| == 0 {
      assert a + b == b;
    } else {
      assert (a + b)[1..] == a[1..] + b;
      WithKeyConcat(a[1..], b, key, k);
    }
  }

  /** Inserts `x` after every element of `r` whose key is at most `x`'s. */
  function Insert<T>(r: seq<T>, x: T, key: T -> Key): (out: seq<T>)
    ensures multiset(out) == multiset(r) + multiset{x}
    ensures SortedBy(r, key) ==> SortedBy(out, key)
    ensures forall k :: WithKey(out, key, k) == WithKey(r, key, k) + WithKey([x], key, k)
  {
    if |r| == 0 then [x]
    else
      var init := r[..|r| - 1];
      var last := r[|r| - 1];
      assert r == init + [last];
      if KeyLe(key(last), key(x)) then
        assert forall k :: WithKey(r + [x], key, k) == WithKey(r, key, k) + WithKey([x], key, k) by {
          forall k ensures WithKey(r + [x], key, k) == WithKey(r, key, k) + WithKey([x], key, k) {
            WithKeyConcat(r, [x], key, k);
          }
        }
        r + [x]
      else
        var front := Insert(init, x, key);
        InsertTail(init, last, x, front, key);
        front + [last]
  }

  /** The step of `Insert` that puts `last` back behind the insertion into `init`. */
  lemma InsertTail<T>(init: seq<T>, last: T, x: T, front: seq<T>, key: T -> Key)
    requires !KeyLe(key(last), key(x))
    requires multiset(front) == multiset(init) + multiset{x}
    requires SortedBy(init, key) ==> SortedBy(front, key)
    requires forall k :: WithKey(front, key, k) == WithKey(init, key, k) + WithKey([x], key, k)
    ensures SortedBy(init + [last], key) ==> SortedBy(front + [last], key)
    ensures forall k :: WithKey(front + [last], key, k) == WithKey(init + [last], key, k) + WithKey([x], key, k)
  {
    if SortedBy(init + [last], key) {
      assert SortedBy(init, key) by {
        forall i, j | 0 <= i < j < |init| ensures KeyLe(key(init[i]), key(init[j])) {
          assert (init + [last])[i] == init[i] && (init + [last])[j] == init[j];
        }
      }
      forall i | 0 <= i < |front| ensures KeyLe(key(front[i]), key(last)) {
        assert front[i] in multiset(front);
        if front[i] == x {
        } else {
          assert front[i] in multiset(init);
          var j :| 0 <= j < |init| && init[j] == front[i];
          assert (init + [last])[j] == init[j] && (init + [last])[|init|] == last;
        }
      }
    }
    forall k ensures WithKey(front + [last], key, k) == WithKey(init + [last], key, k) + WithKey([x], key, k) {
      WithKeyConcat(front, [last], key, k);
      WithKeyConcat(init, [last], key, k);
    }
  }

  /**
    Stable sort: the result is ordered by `key`, is a permutation of `s`, and
    elements with equal keys keep the relative order they had in `s`.
   */
  function SortBy<T>(s: seq<T>, key: T -> Key): (r: seq<T>)
    ensures SortedBy(r, key)
    ensures multiset(r) == multiset(s)
    ensures |r| == |s|
    ensures forall k :: WithKey(r, key, k) == WithKey(s, key, k)
  {
    if |s| == 0 then []
    else
      var init := s[..|s| - 1];
      var x := s[|s| - 1];
      assert s == init + [x];
      var sorted := SortBy(init, key);
      var r := Insert(sorted, x, key);
      assert forall k :: WithKey(s, key, k) == WithKey(init, key, k) + WithKey([x], key, k) by {
        forall k ensures WithKey(s, key, k) == WithKey(init, key, k) + WithKey([x], key, k) {
          WithKeyConcat(init, [x], key, k);
        }
      }
      assert |r| == |multiset(r)| == |s|;
      r
  }
}
