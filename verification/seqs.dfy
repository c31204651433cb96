/** Sequence and map helpers shared by the whole model. */
module Seqs {
  import opened Wrappers

  /** The number of elements of `s` that satisfy `p` (JavaScript's `filter(p).length`). */
  function Count<T>(s: seq<T>, p: T -> bool): (n: nat)
    ensures n <= |s|
    ensures n == 0 <==> forall i :: 0 <= i < |s| ==> !p(s[i])
    ensures n == |s| <==> forall i :: 0 <= i < |s| ==> p(s[i])
  {
    if |s| == 0 then 0 else (if p(s[0]) then 1 else 0) + Count(s[1..], p)
  }

  lemma {:induction false} CountConcat<T>(a: seq<T>, b: seq<T>, p: T -> bool)
    ensures Count(a + b, p) == Count(a, p) + Count(b, p)
  {
    if |a| == 0 {
      assert a + b == b;
    } else {
      assert (a + b)[1..] == a[1..] + b;
      CountConcat(a[1..], b, p);
    }
  }

  /** Two complementary tests split `s` between them. */
  lemma {:induction false} CountSplit<T>(s: seq<T>, p: T -> bool, q: T -> bool)
    requires forall i :: 0 <= i < |s| ==> q(s[i]) == !p(s[i])
    ensures Count(s, p) + Count(s, q) == |s|
  {
    if |s| > 0 {
      CountSplit(s[1..], p, q);
    }
  }

  /** The elements of `s` that satisfy `p`, in their original order. */
  function Filter<T>(s: seq<T>, p: T -> bool): (r: seq<T>)
    ensures |r| == Count(s, p)
    ensures forall i :: 0 <= i < |r| ==> p(r[i]) && r[i] in s
    ensures forall i :: 0 <= i < |s| && p(s[i]) ==> s[i] in r
  {
    if |s| == 0 then []
    else
      var rest := Filter(s[1..], p);
      assert forall i :: 1 <= i < |s| ==> s[i] == s[1..][i - 1];
      (if p(s[0]) then [s[0]] else []) + rest
  }

  /** Filtering keeps a sequence whose elements all pass. */
  lemma {:induction false} FilterAll<T>(s: seq<T>, p: T -> bool)
    requires forall i :: 0 <= i < |s| ==> p(s[i])
    ensures Filter(s, p) == s
  {
    if |s| > 0 {
      FilterAll(s[1..], p);
    }
  }

  /** Filtering only removes elements. */
  lemma {:induction false} FilterMultiset<T>(s: seq<T>, p: T -> bool)
    ensures multiset(Filter(s, p)) <= multiset(s)
  {
    if |s| > 0 {
      FilterMultiset(s[1..], p);
      assert s == [s[0]] + s[1..];
    }
  }

  lemma {:induction false} FilterConcat<T>(a: seq<T>, b: seq<T>, p: T -> bool)
    ensures Filter(a + b, p) == Filter(a, p) + Filter(b, p)
  {
    if |a| == 0 {
      assert a + b == b;
    } else {
      assert (a + b)[1..] == a[1..] + b;
      FilterConcat(a[1..], b, p);
    }
  }

  /** Filtering a sequence cut in two agrees with filtering a sequence built from pieces that filter alike. */
  lemma FilterPieces<T>(s: seq<T>, j: nat, head: seq<T>, tail: seq<T>, p: T -> bool)
    requires j <= |s|
    requires Filter(head, p) == Filter(s[..j], p)
    requires Filter(tail, p) == Filter(s[j..], p)
    ensures Filter(head + tail, p) == Filter(s, p)
  {
    SplitJoin(s, j);
    FilterConcat(head, tail, p);
    FilterConcat(s[..j], s[j..], p);
  }

  /** A sequence is its prefix followed by the rest. */
  lemma SplitJoin<T>(s: seq<T>, j: nat)
    requires j <= |s|
    ensures s[..j] + s[j..] == s
  {
  }

  /** `s` with every occurrence of `x` removed, the rest kept in order. */
  function Without<T(==)>(s: seq<T>, x: T): (r: seq<T>)
    ensures x !in r
    ensures forall i :: 0 <= i < |r| ==> r[i] in s
    ensures forall i :: 0 <= i < |s| && s[i] != x ==> s[i] in r
    ensures |r| <= |s|
    ensures x !in s ==> r == s
  {
    if |s| == 0 then [] else (if s[0] == x then [] else [s[0]]) + Without(s[1..], x)
  }

  /** No element occurs twice. */
  predicate NoDup<T(==)>(s: seq<T>) {
    forall i, j :: 0 <= i < j < |s| ==> s[i] != s[j]
  }

  /** The first occurrence of each element, in order (JavaScript's `[...new Set(s)]`). */
  function Dedup<T(==)>(s: seq<T>): (r: seq<T>)
    ensures NoDup(r)
    ensures forall i :: 0 <= i < |r| ==> r[i] in s
    ensures forall i :: 0 <= i < |s| ==> s[i] in r
    ensures |r| <= |s|
    ensures NoDup(s) ==> r == s
  {
    if |s| == 0 then []
    else
      var rest := Dedup(s[..|s|-1]);
      if s[|s|-1] in rest then rest else rest + [s[|s|-1]]
  }

  /** The first `n` elements, or all of them when there are fewer. */
  function Take<T>(s: seq<T>, n: nat): (r: seq<T>)
    ensures |r| <= n && |r| <= |s|
    ensures |r| == if |s| < n then |s| else n
    ensures r == s[..|r|]
  {
    if |s| <= n then s else s[..n]
  }

  /** `sub` occurs in `s` at position `i`. */
  predicate OccursAt<T(==)>(s: seq<T>, sub: seq<T>, i: int) {
    0 <= i <= |s| - |sub| && s[i..i + |sub|] == sub
  }

  /** `sub` occurs in `s` as a contiguous block (Python's `sub in s` on strings). */
  predicate Contains<T(==)>(s: seq<T>, sub: seq<T>) {
    exists i :: 0 <= i <= |s| - |sub| && OccursAt(s, sub, i)
  }

  /** The map built by writing every pair in order, so that a later pair overwrites an earlier one with the same key. */
  function LastWins<K, V>(pairs: seq<(K, V)>): (m: map<K, V>)
    ensures forall i :: 0 <= i < |pairs| ==> pairs[i].0 in m
    ensures forall k :: k in m ==> exists i :: 0 <= i < |pairs| && pairs[i].0 == k
    ensures forall i :: 0 <= i < |pairs| && (forall j :: i < j < |pairs| ==> pairs[j].0 != pairs[i].0) ==>
      m[pairs[i].0] == pairs[i].1
  {
    if |pairs| == 0 then map[]
    else
      var prefix := pairs[..|pairs|-1];
      var last := pairs[|pairs|-1];
      var before := LastWins(prefix);
      assert forall i :: 0 <= i < |prefix| ==> prefix[i] == pairs[i];
      before[last.0 := last.1]
  }

  /** Every element replaced by the sequence `f` gives for it, in order (a per-character string transform). */
  function FlatMap<T, U>(s: seq<T>, f: T -> seq<U>): seq<U> {
    if |s| == 0 then [] else f(s[0]) + FlatMap(s[1..], f)
  }

  lemma {:induction false} FlatMapConcat<T, U>(a: seq<T>, b: seq<T>, f: T -> seq<U>)
    ensures FlatMap(a + b, f) == FlatMap(a, f) + FlatMap(b, f)
  {
    if |a| == 0 {
      assert a + b == b;
    } else {
      assert (a + b)[1..] == a[1..] + b;
      FlatMapConcat(a[1..], b, f);
    }
  }

  /** Every element of a flat map comes from the image of some element. */
  lemma {:induction false} FlatMapFrom<T, U>(s: seq<T>, f: T -> seq<U>, P: U -> bool)
    requires forall i :: 0 <= i < |s| ==> forall k :: 0 <= k < |f(s[i])| ==> P(f(s[i])[k])
    ensures forall k :: 0 <= k < |FlatMap(s, f)| ==> P(FlatMap(s, f)[k])
  {
    if |s| > 0 {
      FlatMapFrom(s[1..], f, P);
      var head, tail := f(s[0]), FlatMap(s[1..], f);
      assert FlatMap(s, f) == head + tail;
      forall k | 0 <= k < |head + tail| ensures P((head + tail)[k]) {
        if k >= |head| {
          assert (head + tail)[k] == tail[k - |head|];
        }
      }
    }
  }

  /** The values `f` gives for the elements of `s`, skipping the elements it gives none for, in order. */
  function Collect<T, U>(s: seq<T>, f: T -> Option<U>): (r: seq<U>)
    ensures |r| <= |s|
    ensures forall i :: 0 <= i < |r| ==> exists j :: 0 <= j < |s| && f(s[j]) == Some(r[i])
    ensures forall j :: 0 <= j < |s| && f(s[j]).Some? ==> f(s[j]).value in r
  {
    if |s| == 0 then []
    else
      var rest := Collect(s[1..], f);
      assert forall j :: 1 <= j < |s| ==> s[j] == s[1..][j - 1];
      match f(s[0])
      case None => rest
      case Some(v) => [v] + rest
  }

  /** An element of a rearrangement of `a + b` that is not in `a` is in `b`. */
  lemma FromSecondPart<T>(a: seq<T>, b: seq<T>, r: seq<T>, x: T)
    requires multiset(r) == multiset(a + b)
    requires x in r && x !in a
    ensures x in b
  {
    assert x in multiset(a + b);
  }

  /** Every element of `a` or `b` is in any rearrangement of `a + b`. */
  lemma IntoRearrangement<T>(a: seq<T>, b: seq<T>, r: seq<T>, x: T)
    requires multiset(r) == multiset(a + b)
    requires x in a || x in b
    ensures x in r
  {
    assert x in multiset(a + b);
  }

  /** When `f` gives a value for every element, nothing is skipped. */
  lemma {:induction false} CollectAll<T, U>(s: seq<T>, f: T -> Option<U>)
    requires forall i :: 0 <= i < |s| ==> f(s[i]).Some?
    ensures |Collect(s, f)| == |s|
  {
    if |s| > 0 {
      assert forall i :: 0 <= i < |s[1..]| ==> s[1..][i] == s[i + 1];
      CollectAll(s[1..], f);
    }
  }

  /** The set of elements of `s`. */
  function Elements<T>(s: seq<T>): set<T> {
    set x | x in s
  }

  /** A sequence without repetitions has as many distinct elements as entries. */
  lemma {:induction false} NoDupSize<T>(s: seq<T>)
    requires NoDup(s)
    ensures |Elements(s)| == |s|
  {
    if |s| > 0 {
      var init := s[..|s| - 1];
      assert NoDup(init);
      NoDupSize(init);
      assert Elements(s) == Elements(init) + {s[|s| - 1]};
      assert s[|s| - 1] !in Elements(init);
    }
  }

  /** Extending a prefix by one element adds that element's vote to the count. */
  lemma CountPrefixStep<T>(s: seq<T>, p: T -> bool, i: nat)
    requires i < |s|
    ensures Count(s[..i + 1], p) == Count(s[..i], p) + (if p(s[i]) then 1 else 0)
  {
    assert s[..i + 1] == s[..i] + [s[i]];
    CountConcat(s[..i], [s[i]], p);
  }

  /** A longer prefix counts at least as many. */
  lemma {:induction false} CountPrefixMono<T>(s: seq<T>, p: T -> bool, i: nat, j: nat)
    requires i <= j <= |s|
    ensures Count(s[..i], p) <= Count(s[..j], p)
    decreases j - i
  {
    if i < j {
      CountPrefixStep(s, p, i);
      CountPrefixMono(s, p, i + 1, j);
    }
  }

  /** Extending a prefix by one element appends it to the filtered prefix when it passes. */
  lemma FilterPrefixStep<T>(s: seq<T>, p: T -> bool, i: nat)
    requires i < |s|
    ensures Filter(s[..i + 1], p) == Filter(s[..i], p) + (if p(s[i]) then [s[i]] else [])
  {
    assert s[..i + 1] == s[..i] + [s[i]];
    FilterConcat(s[..i], [s[i]], p);
  }

  /** Filtering a prefix gives a prefix of the filtered sequence. */
  lemma FilterPrefix<T>(s: seq<T>, p: T -> bool, i: nat)
    requires i <= |s|
    ensures Filter(s[..i], p) == Take(Filter(s, p), Count(s[..i], p))
  {
    assert s == s[..i] + s[i..];
    FilterConcat(s[..i], s[i..], p);
  }

  /** The number of the first `i` elements that satisfy `p`, counted one element at a time. */
  function CountBefore<T>(s: seq<T>, p: T -> bool, i: nat): nat
    requires i <= |s|
  {
    if i == 0 then 0 else CountBefore(s, p, i - 1) + (if p(s[i - 1]) then 1 else 0)
  }

  lemma {:induction false} CountBeforeIsCount<T>(s: seq<T>, p: T -> bool, i: nat)
    requires i <= |s|
    ensures CountBefore(s, p, i) == Count(s[..i], p)
  {
    if i == 0 {
      assert s[..0] == [];
    } else {
      CountBeforeIsCount(s, p, i - 1);
      CountPrefixStep(s, p, i - 1);
    }
  }

  /** Both tests at once. */
  function And<T>(p: T -> bool, q: T -> bool): T -> bool {
    (x: T) => p(x) && q(x)
  }

  /** Counting `q` among the elements that pass `p` counts the elements that pass both. */
  lemma {:induction false} CountFiltered<T>(s: seq<T>, p: T -> bool, q: T -> bool)
    ensures Count(Filter(s, p), q) == Count(s, And(p, q))
  {
    if |s| > 0 {
      CountFiltered(s[1..], p, q);
      var head := if p(s[0]) then [s[0]] else [];
      assert Filter(s, p) == head + Filter(s[1..], p);
      CountConcat(head, Filter(s[1..], p), q);
    }
  }

  /** Rearranging a sequence does not change how many of its elements pass a test. */
  lemma {:induction false} CountPermutation<T>(a: seq<T>, b: seq<T>, p: T -> bool)
    requires multiset(a) == multiset(b)
    ensures Count(a, p) == Count(b, p)
    decreases |a|
  {
    if |a| == 0 {
      assert |b| == |multiset(b)| == 0;
    } else {
      var x := a[0];
      assert x in multiset(b);
      var k :| 0 <= k < |b| && b[k] == x;
      var front, back := b[..k], b[k + 1..];
      assert b == front + [x] + back;
      RemoveOneMultiset(front, x, back);
      RemoveOneCount(front, x, back, p);
      assert a == [x] + a[1..];
      assert multiset(a[1..]) == multiset(a) - multiset{x};
      CountPermutation(a[1..], front + back, p);
    }
  }

  /** Taking an element out of a sequence takes it out of the multiset. */
  lemma RemoveOneMultiset<T>(front: seq<T>, x: T, back: seq<T>)
    ensures multiset(front + back) == multiset(front + [x] + back) - multiset{x}
  {
    assert multiset(front + [x] + back) == multiset(front) + multiset{x} + multiset(back);
  }

  lemma RemoveOneCount<T>(front: seq<T>, x: T, back: seq<T>, p: T -> bool)
    ensures Count(front + [x] + back, p) == Count(front + back, p) + (if p(x) then 1 else 0)
  {
    CountConcat(front + [x], back, p);
    CountConcat(front, [x], p);
    CountConcat(front, back, p);
  }

  /** `f` has a value for the element. */
  function Defined<T, U>(f: T -> Option<U>): T -> bool {
    (x: T) => f(x).Some?
  }

  /** `Collect` keeps one value per element that `f` gives one for. */
  lemma {:induction false} CollectCount<T, U>(s: seq<T>, f: T -> Option<U>)
    ensures |Collect(s, f)| == Count(s, Defined(f))
  {
    if |s| > 0 {
      CollectCount(s[1..], f);
    }
  }

  /** Two tests that agree on every element of `s` count the same elements. */
  lemma {:induction false} CountSame<T>(s: seq<T>, p: T -> bool, q: T -> bool)
    requires forall i :: 0 <= i < |s| ==> p(s[i]) == q(s[i])
    ensures Count(s, p) == Count(s, q)
  {
    if |s| > 0 {
      assert forall i :: 0 <= i < |s[1..]| ==> s[1..][i] == s[i + 1];
      CountSame(s[1..], p, q);
    }
  }
}
