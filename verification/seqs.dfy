/**
  Sequence utilities shared by the detector pipeline: the index range `np.arange`,
  order-preserving filtering (boolean-mask indexing), counting, `np.argmax`, and
  the sorts behind `np.argsort` and Python's `sorted`.
 */
module Seqs {

  /** The indices 0, 1, ..., n-1 in order (`np.arange(n)`). */
  function Range(n: nat): (r: seq<nat>)
    ensures |r| == n
    ensures forall i :: 0 <= i < n ==> r[i] == i
  {
    seq(n, (i: nat) => i)
  }

  /** No element occurs twice. */
  predicate Distinct<T(==)>(s: seq<T>) {
    forall i, j :: 0 <= i < j < |s| ==> s[i] != s[j]
  }

  /** `s` is non-decreasing under `key`. */
  predicate SortedBy<T>(s: seq<T>, key: T -> real) {
    forall i, j :: 0 <= i < j < |s| ==> key(s[i]) <= key(s[j])
  }

  /** The last element of a sorted sequence has the largest key. */
  lemma SortedLast<T>(s: seq<T>, key: T -> real)
    requires SortedBy(s, key) && |s| > 0
    ensures forall x :: x in s ==> key(x) <= key(s[|s| - 1])
  {
    forall x | x in s ensures key(x) <= key(s[|s| - 1]) {
      var i :| 0 <= i < |s| && s[i] == x;
    }
  }

  /** The elements of `s` satisfying `p`, in their original order (`s[mask]`). */
  function Filter<T(!new)>(s: seq<T>, p: T -> bool): (r: seq<T>)
    ensures |r| <= |s|
    ensures forall x :: x in r <==> x in s && p(x)
  {
    if |s| == 0 then []
    else (if p(s[0]) then [s[0]] else []) + Filter(s[1..], p)
  }

  /** Filtering drops an element that fails the test, so the result is strictly shorter. */
  lemma {:induction false} FilterShrinks<T(!new)>(s: seq<T>, p: T -> bool, x: T)
    requires x in s && !p(x)
    ensures |Filter(s, p)| < |s|
  {
    if s[0] != x {
      FilterShrinks(s[1..], p, x);
    }
  }

  /** When every element passes, filtering changes nothing. */
  lemma {:induction false} FilterAll<T(!new)>(s: seq<T>, p: T -> bool)
    requires forall x :: x in s ==> p(x)
    ensures Filter(s, p) == s
  {
    if |s| > 0 {
      FilterAll(s[1..], p);
      assert s == [s[0]] + s[1..];
    }
  }

  /** Filtering keeps the relative order, so a sorted sequence stays sorted. */
  lemma {:induction false} FilterSorted<T(!new)>(s: seq<T>, p: T -> bool, key: T -> real)
    requires SortedBy(s, key)
    ensures SortedBy(Filter(s, p), key)
  {
    if |s| > 0 {
      FilterSorted(s[1..], p, key);
      var rest := Filter(s[1..], p);
      forall y | y in rest ensures key(s[0]) <= key(y) {
        var j :| 0 <= j < |s[1..]| && s[1..][j] == y;
        assert s[j + 1] == y;
      }
    }
  }

  /** Filtering a sequence without repetitions yields one without repetitions. */
  lemma {:induction false} FilterDistinct<T(!new)>(s: seq<T>, p: T -> bool)
    requires Distinct(s)
    ensures Distinct(Filter(s, p))
  {
    if |s| > 0 {
      FilterDistinct(s[1..], p);
      assert s[0] !in s[1..] by {
        forall j | 0 <= j < |s[1..]| ensures s[1..][j] != s[0] {
          assert s[1..][j] == s[j + 1];
        }
      }
    }
  }

  /** The elements of `xs` at the positions `idx`, in that order (`xs[idx]`). */
  function Select<T>(xs: seq<T>, idx: seq<nat>): (r: seq<T>)
    requires forall k :: 0 <= k < |idx| ==> idx[k] < |xs|
    ensures |r| == |idx|
    ensures forall k :: 0 <= k < |idx| ==> r[k] == xs[idx[k]]
  {
    seq(|idx|, k requires 0 <= k < |idx| => xs[idx[k]])
  }

  /** Distinct positions of a repetition-free sequence select distinct elements. */
  lemma SelectDistinct<T>(xs: seq<T>, idx: seq<nat>)
    requires forall k :: 0 <= k < |idx| ==> idx[k] < |xs|
    requires Distinct(xs) && Distinct(idx)
    ensures Distinct(Select(xs, idx))
  {
  }

  /** Number of elements satisfying `p`, counted from the back so that prefix counts unfold one step at a time. */
  function Count<T>(s: seq<T>, p: T -> bool): (n: nat)
    ensures n <= |s|
  {
    if |s| == 0 then 0
    else Count(s[..|s| - 1], p) + (if p(s[|s| - 1]) then 1 else 0)
  }

  /** Counting distributes over concatenation. */
  lemma {:induction false} CountConcat<T>(a: seq<T>, b: seq<T>, p: T -> bool)
    ensures Count(a + b, p) == Count(a, p) + Count(b, p)
  {
    if |b| > 0 {
      CountConcat(a, b[..|b| - 1], p);
      assert (a + b)[..|a + b| - 1] == a + b[..|b| - 1];
    } else {
      assert a + b == a;
    }
  }

  /** Setting one element that failed `p` to one that passes raises the count by exactly one. */
  lemma {:induction false} CountUpdate<T>(s: seq<T>, i: nat, v: T, p: T -> bool)
    requires i < |s| && !p(s[i]) && p(v)
    ensures Count(s[i := v], p) == Count(s, p) + 1
  {
    var t := s[i := v];
    if i == |s| - 1 {
      assert t[..|t| - 1] == s[..|s| - 1];
    } else {
      CountUpdate(s[..|s| - 1], i, v, p);
      assert t[..|t| - 1] == s[..|s| - 1][i := v];
    }
  }

  /** When every element passes, the count is the length. */
  lemma {:induction false} CountAll<T>(s: seq<T>, p: T -> bool)
    requires forall x :: x in s ==> p(x)
    ensures Count(s, p) == |s|
  {
    if |s| > 0 {
      CountAll(s[..|s| - 1], p);
    }
  }

  /** A longer prefix never has a smaller count. */
  lemma {:induction false} CountPrefix<T>(s: seq<T>, i: nat, j: nat, p: T -> bool)
    requires i <= j <= |s|
    ensures Count(s[..i], p) <= Count(s[..j], p)
  {
    if i < j {
      CountPrefix(s, i, j - 1, p);
      assert s[..j][..j - 1] == s[..j - 1];
    }
  }

  /** When no element passes, the count is zero. */
  lemma {:induction false} CountNone<T>(s: seq<T>, p: T -> bool)
    requires forall i :: 0 <= i < |s| ==> !p(s[i])
    ensures Count(s, p) == 0
  {
    if |s| > 0 {
      CountNone(s[..|s| - 1], p);
    }
  }

  /** A count equal to the length means every element passes. */
  lemma {:induction false} CountFull<T>(s: seq<T>, p: T -> bool)
    requires Count(s, p) == |s|
    ensures forall i :: 0 <= i < |s| ==> p(s[i])
  {
    if |s| > 0 {
      CountFull(s[..|s| - 1], p);
      forall i | 0 <= i < |s| - 1 ensures p(s[i]) {
        assert s[..|s| - 1][i] == s[i];
      }
    }
  }

  /** Index of the first maximal element (`np.argmax`). */
  function ArgMax(xs: seq<real>): (k: nat)
    requires |xs| > 0
    ensures k < |xs|
    ensures forall j :: 0 <= j < |xs| ==> xs[j] <= xs[k]
    ensures forall j :: 0 <= j < k ==> xs[j] < xs[k]
  {
    if |xs| == 1 then 0
    else
      var k := ArgMax(xs[..|xs| - 1]);
      if xs[|xs| - 1] > xs[k] then |xs| - 1 else k
  }

  /** Inserts `x` after every element whose key is not greater. */
  function Insert<T(!new)>(x: T, s: seq<T>, key: T -> real): (r: seq<T>)
    ensures |r| == |s| + 1
    ensures multiset(r) == multiset(s) + multiset{x}
  {
    if |s| == 0 then [x]
    else if key(x) < key(s[0]) then [x] + s
    else
      assert s == [s[0]] + s[1..];
      [s[0]] + Insert(x, s[1..], key)
  }

  /** Insertion into a sorted sequence keeps it sorted. */
  lemma {:induction false} InsertSorted<T(!new)>(x: T, s: seq<T>, key: T -> real)
    requires SortedBy(s, key)
    ensures SortedBy(Insert(x, s, key), key)
  {
    if |s| > 0 && key(x) >= key(s[0]) {
      var rest := Insert(x, s[1..], key);
      InsertSorted(x, s[1..], key);
      assert s == [s[0]] + s[1..];
      forall j | 0 <= j < |rest| ensures key(s[0]) <= key(rest[j]) {
        assert rest[j] in multiset(rest);
        assert rest[j] in multiset(s[1..]) || rest[j] == x;
        if rest[j] != x {
          var m :| 0 <= m < |s[1..]| && s[1..][m] == rest[j];
          assert s[m + 1] == rest[j];
        }
      }
    }
  }

  /** Insertion of a new element into a repetition-free sequence keeps it repetition-free. */
  lemma {:induction false} InsertDistinct<T(!new)>(x: T, s: seq<T>, key: T -> real)
    requires Distinct(s) && x !in s
    ensures Distinct(Insert(x, s, key))
  {
    if |s| > 0 && key(x) >= key(s[0]) {
      var rest := Insert(x, s[1..], key);
      assert s == [s[0]] + s[1..];
      InsertDistinct(x, s[1..], key);
      assert s[0] !in s[1..] by {
        forall j | 0 <= j < |s[1..]| ensures s[1..][j] != s[0] {
          assert s[1..][j] == s[j + 1];
        }
      }
      assert s[0] !in multiset(rest);
    }
  }

  /** Insertion adds exactly the inserted element to any count. */
  lemma {:induction false} InsertCount<T(!new)>(x: T, s: seq<T>, key: T -> real, p: T -> bool)
    ensures Count(Insert(x, s, key), p) == Count(s, p) + Count([x], p)
  {
    if |s| == 0 {
    } else if key(x) < key(s[0]) {
      CountConcat([x], s, p);
    } else {
      var rest := Insert(x, s[1..], key);
      InsertCount(x, s[1..], key, p);
      CountConcat([s[0]], rest, p);
      CountConcat([s[0]], s[1..], p);
      assert s == [s[0]] + s[1..];
    }
  }

  /** The elements of `s` whose key is `v`, in their order in `s`. */
  function WithKey<T>(s: seq<T>, key: T -> real, v: real): seq<T> {
    if |s| == 0 then []
    else (if key(s[0]) == v then [s[0]] else []) + WithKey(s[1..], key, v)
  }

  /** Selecting by key distributes over concatenation. */
  lemma {:induction false} WithKeyConcat<T>(a: seq<T>, b: seq<T>, key: T -> real, v: real)
    ensures WithKey(a + b, key, v) == WithKey(a, key, v) + WithKey(b, key, v)
  {
    if |a| > 0 {
      WithKeyConcat(a[1..], b, key, v);
      assert (a + b)[1..] == a[1..] + b;
    } else {
      assert a + b == b;
    }
  }

  /** No element has key `v` in a sequence whose keys all exceed `v`. */
  lemma {:induction false} WithKeyAbove<T>(s: seq<T>, key: T -> real, v: real)
    requires forall i :: 0 <= i < |s| ==> v < key(s[i])
    ensures WithKey(s, key, v) == []
  {
    if |s| > 0 {
      WithKeyAbove(s[1..], key, v);
    }
  }

  /** Selecting from a sequence with a known first element. */
  lemma WithKeyCons<T>(y: T, s: seq<T>, key: T -> real, v: real)
    ensures WithKey([y] + s, key, v) == (if key(y) == v then [y] else []) + WithKey(s, key, v)
  {
    assert ([y] + s)[1..] == s;
  }

  /** The tail of a sorted sequence is sorted, and its head has the least key. */
  lemma SortedTail<T>(s: seq<T>, key: T -> real)
    requires SortedBy(s, key) && |s| > 0
    ensures SortedBy(s[1..], key)
    ensures forall i :: 0 <= i < |s| ==> key(s[0]) <= key(s[i])
  {
  }

  /**
    Inserting into a sorted sequence places `x` after every element of equal key: among
    the elements of any one key, `x` comes last.
   */
  lemma {:induction false} InsertStable<T(!new)>(x: T, s: seq<T>, key: T -> real, v: real)
    requires SortedBy(s, key)
    ensures WithKey(Insert(x, s, key), key, v) == WithKey(s, key, v) + WithKey([x], key, v)
  {
    var mine := if key(x) == v then [x] else [];
    assert WithKey([x], key, v) == mine by {
      WithKeyCons(x, [], key, v);
      assert [x] + [] == [x];
    }
    if |s| == 0 {
      assert Insert(x, s, key) == [x];
    } else if key(x) < key(s[0]) {
      InsertShape(x, s, key);
      WithKeyCons(x, s, key, v);
      if key(x) == v {
        SortedTail(s, key);
        WithKeyAbove(s, key, v);
      }
    } else {
      InsertShape(x, s, key);
      SortedTail(s, key);
      InsertStable(x, s[1..], key, v);
      WithKeyCons(s[0], Insert(x, s[1..], key), key, v);
      WithKeyCons(s[0], s[1..], key, v);
    }
  }

  /** The two ways a non-empty insertion begins. */
  lemma InsertShape<T(!new)>(x: T, s: seq<T>, key: T -> real)
    requires |s| > 0
    ensures key(x) < key(s[0]) ==> Insert(x, s, key) == [x] + s
    ensures key(s[0]) <= key(x) ==> s == [s[0]] + s[1..] && Insert(x, s, key) == [s[0]] + Insert(x, s[1..], key)
  {
  }

  /**
    Stable sort by ascending key: elements with equal keys keep their input order.
    Python's `sorted(..., reverse=True)` is this sort on the negated key.
   */
  function SortByKey<T(!new)>(s: seq<T>, key: T -> real): (r: seq<T>)
    ensures |r| == |s|
    ensures SortedBy(r, key)
    ensures multiset(r) == multiset(s)
    ensures forall v :: WithKey(r, key, v) == WithKey(s, key, v)
  {
    if |s| == 0 then []
    else
      var init, last := s[..|s| - 1], s[|s| - 1];
      assert s == init + [last];
      var sorted := SortByKey(init, key);
      InsertSorted(last, sorted, key);
      forall v ensures WithKey(Insert(last, sorted, key), key, v) == WithKey(s, key, v) {
        InsertStable(last, sorted, key, v);
        WithKeyConcat(init, [last], key, v);
      }
      Insert(last, sorted, key)
  }

  /** Sorting rearranges elements, so every count is unchanged. */
  lemma {:induction false} SortCount<T(!new)>(s: seq<T>, key: T -> real, p: T -> bool)
    ensures Count(SortByKey(s, key), p) == Count(s, p)
  {
    if |s| > 0 {
      var init, last := s[..|s| - 1], s[|s| - 1];
      SortCount(init, key, p);
      InsertCount(last, SortByKey(init, key), key, p);
      assert SortByKey(s, key) == Insert(last, SortByKey(init, key), key);
      assert Count([last], p) == if p(last) then 1 else 0 by { assert [last][..0] == []; }
    }
  }

  /** Sorting a repetition-free sequence yields a repetition-free sequence. */
  lemma {:induction false} SortDistinct<T(!new)>(s: seq<T>, key: T -> real)
    requires Distinct(s)
    ensures Distinct(SortByKey(s, key))
  {
    if |s| > 0 {
      var init := s[..|s| - 1];
      assert Distinct(init);
      SortDistinct(init, key);
      assert s[|s| - 1] !in init;
      assert s[|s| - 1] !in multiset(SortByKey(init, key));
      InsertDistinct(s[|s| - 1], SortByKey(init, key), key);
    }
  }

  /** Key of index `i` in `keys`; indices outside the sequence get a dummy key. */
  function KeyAt(keys: seq<real>): nat -> real {
    (i: nat) => if i < |keys| then keys[i] else 0.0
  }

  /**
    `order` lists every index of `keys` exactly once, by ascending key: what any
    implementation of `np.argsort(keys)` returns, whatever it does with ties.
   */
  predicate IsArgsort(order: seq<nat>, keys: seq<real>) {
    && |order| == |keys|
    && (forall i :: 0 <= i < |order| ==> order[i] < |keys|)
    && (forall k :: 0 <= k < |keys| ==> k in order)
    && Distinct(order)
    && (forall i, j :: 0 <= i < j < |order| ==> keys[order[i]] <= keys[order[j]])
  }

  /**
    Indices of `keys` ordered by ascending key (`np.argsort`). NumPy's default sort is not
    stable, so the model proves its properties for every ascending order; this function fixes
    one such order, the stable one.
   */
  function ArgsortAsc(keys: seq<real>): (r: seq<nat>)
    ensures IsArgsort(r, keys)
  {
    var range := Range(|keys|);
    var r := SortByKey<nat>(range, KeyAt(keys));
    SortDistinct<nat>(range, KeyAt(keys));
    SortedIndicesArgsort(keys, r);
    r
  }

  /** A distinct rearrangement of the indices of `keys` sorted by key is an argsort of `keys`. */
  lemma SortedIndicesArgsort(keys: seq<real>, r: seq<nat>)
    requires multiset(r) == multiset(Range(|keys|)) && SortedBy(r, KeyAt(keys)) && Distinct(r)
    ensures IsArgsort(r, keys)
  {
    var range := Range(|keys|);
    assert |r| == |range| by { assert |multiset(r)| == |multiset(range)|; }
    forall i | 0 <= i < |r| ensures r[i] < |keys| {
      assert r[i] in multiset(range);
    }
    forall k | 0 <= k < |keys| ensures k in r {
      assert range[k] in multiset(range);
      assert k in multiset(r);
    }
    forall i, j | 0 <= i < j < |r| ensures keys[r[i]] <= keys[r[j]] {
      assert KeyAt(keys)(r[i]) <= KeyAt(keys)(r[j]);
    }
  }
}
