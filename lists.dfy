/** The list primitives of the source that carry meaning: the built-in
    `sorted(..., key=...)`, which is a stable sort, and `list.remove`, which
    removes the first occurrence of a value. Both are modelled on sequences,
    together with the folds used to state what sorting preserves. */
module Lists {

  /** `s` ascends in `key` (ties allowed). */
  predicate SortedBy<T>(s: seq<T>, key: T -> int) {
    forall i, j :: 0 <= i < j < |s| ==> key(s[i]) <= key(s[j])
  }

  /** `s` ascends in `k1`, and strictly in `k2` among elements with equal `k1`. */
  predicate LexSorted<T>(s: seq<T>, k1: T -> int, k2: T -> int) {
    forall i, j :: 0 <= i < j < |s| ==>
      k1(s[i]) < k1(s[j]) || (k1(s[i]) == k1(s[j]) && k2(s[i]) < k2(s[j]))
  }

  /** No two elements of `s` agree on `f`. */
  ghost predicate InjectiveOn<T, K>(s: seq<T>, f: T -> K) {
    forall i, j :: 0 <= i < j < |s| ==> f(s[i]) != f(s[j])
  }

  /** Puts `x` in front of the first element whose key is not smaller than
      its own, so that `x` precedes the equal-keyed elements of `s`. */
  function Insert<T>(x: T, s: seq<T>, key: T -> int): (r: seq<T>)
    ensures |r| == |s| + 1
    ensures multiset(r) == multiset(s) + multiset{x}
  {
    if s == [] then [x]
    else if key(x) <= key(s[0]) then [x] + s
    else
      assert s == [s[0]] + s[1..];
      [s[0]] + Insert(x, s[1..], key)
  }

  /** `sorted(s, key=key)`: insertion sort, stable like the source's sort. */
  function SortBy<T>(s: seq<T>, key: T -> int): (r: seq<T>)
    ensures |r| == |s|
    ensures multiset(r) == multiset(s)
  {
    if s == [] then []
    else
      assert s == [s[0]] + s[1..];
      Insert(s[0], SortBy(s[1..], key), key)
  }

  lemma SortedCons<T>(h: T, t: seq<T>, key: T -> int)
    requires SortedBy(t, key)
    requires forall y :: y in t ==> key(h) <= key(y)
    ensures SortedBy([h] + t, key)
  {
    var r := [h] + t;
    forall i, j | 0 <= i < j < |r| ensures key(r[i]) <= key(r[j]) {
      assert r[j] == t[j - 1];
      if i > 0 {
        assert r[i] == t[i - 1];
      } else {
        assert r[j] in t;
      }
    }
  }

  lemma {:induction false} InsertSorted<T>(x: T, s: seq<T>, key: T -> int)
    requires SortedBy(s, key)
    ensures SortedBy(Insert(x, s, key), key)
  {
    if s == [] {
    } else if key(x) <= key(s[0]) {
      forall y | y in s ensures key(x) <= key(y) {
        var m :| 0 <= m < |s| && s[m] == y;
      }
      SortedCons(x, s, key);
    } else {
      var t := s[1..];
      assert SortedBy(t, key);
      InsertSorted(x, t, key);
      var ins := Insert(x, t, key);
      forall y | y in ins ensures key(s[0]) <= key(y) {
        assert y in multiset(ins);
        if y != x {
          assert y in multiset(t);
          var m :| 0 <= m < |t| && t[m] == y;
          assert s[m + 1] == y;
        }
      }
      SortedCons(s[0], ins, key);
    }
  }

  /** The result of `SortBy` ascends in the key. */
  lemma {:induction false} SortByIsSorted<T>(s: seq<T>, key: T -> int)
    ensures SortedBy(SortBy(s, key), key)
  {
    if s != [] {
      SortByIsSorted(s[1..], key);
      InsertSorted(s[0], SortBy(s[1..], key), key);
    }
  }

  /** `[x]` when the key of `x` is `v`, nothing otherwise. */
  function Keep<T>(x: T, key: T -> int, v: int): seq<T> {
    if key(x) == v then [x] else []
  }

  /** The elements of `s` whose key is `v`, in their order in `s`. */
  function WithKey<T>(s: seq<T>, key: T -> int, v: int): seq<T> {
    if s == [] then [] else Keep(s[0], key, v) + WithKey(s[1..], key, v)
  }

  lemma WithKeyCons<T>(h: T, t: seq<T>, key: T -> int, v: int)
    ensures WithKey([h] + t, key, v) == Keep(h, key, v) + WithKey(t, key, v)
  {
    assert ([h] + t)[1..] == t;
  }

  lemma InsertPast<T>(x: T, s: seq<T>, key: T -> int)
    requires s != [] && key(x) > key(s[0])
    ensures Insert(x, s, key) == [s[0]] + Insert(x, s[1..], key)
  {
  }

  lemma KeepSwap<T>(a: seq<T>, b: seq<T>, c: seq<T>)
    requires a == [] || b == []
    ensures a + (b + c) == b + (a + c)
  {
    if a == [] {
      assert a + (b + c) == b + c == b + (a + c);
    } else {
      assert a + (b + c) == a + c == b + (a + c);
    }
  }

  lemma {:induction false} InsertWithKey<T>(x: T, s: seq<T>, key: T -> int, v: int)
    ensures WithKey(Insert(x, s, key), key, v) == Keep(x, key, v) + WithKey(s, key, v)
  {
    if s == [] || key(x) <= key(s[0]) {
      WithKeyCons(x, s, key, v);
    } else {
      InsertPast(x, s, key);
      WithKeyCons(s[0], Insert(x, s[1..], key), key, v);
      InsertWithKey(x, s[1..], key, v);
      KeepSwap(Keep(s[0], key, v), Keep(x, key, v), WithKey(s[1..], key, v));
    }
  }

  /** Stability: sorting keeps the relative order of the elements that share
      a key, for every key value. */
  lemma {:induction false} SortByStable<T>(s: seq<T>, key: T -> int, v: int)
    ensures WithKey(SortBy(s, key), key, v) == WithKey(s, key, v)
  {
    if s != [] {
      SortByStable(s[1..], key, v);
      InsertWithKey(s[0], SortBy(s[1..], key), key, v);
    }
  }

  lemma LexCons<T>(h: T, t: seq<T>, k1: T -> int, k2: T -> int)
    requires LexSorted(t, k1, k2)
    requires forall y :: y in t ==> k1(h) < k1(y) || (k1(h) == k1(y) && k2(h) < k2(y))
    ensures LexSorted([h] + t, k1, k2)
  {
    var r := [h] + t;
    forall i, j | 0 <= i < j < |r|
      ensures k1(r[i]) < k1(r[j]) || (k1(r[i]) == k1(r[j]) && k2(r[i]) < k2(r[j]))
    {
      assert r[j] == t[j - 1];
      if i > 0 {
        assert r[i] == t[i - 1];
      } else {
        assert r[j] in t;
      }
    }
  }

  lemma {:induction false} InsertLex<T>(x: T, t: seq<T>, k1: T -> int, k2: T -> int)
    requires LexSorted(t, k1, k2)
    requires forall y :: y in t ==> k2(x) < k2(y)
    ensures LexSorted(Insert(x, t, k1), k1, k2)
  {
    if t == [] {
    } else if k1(x) <= k1(t[0]) {
      forall y | y in t ensures k1(x) < k1(y) || (k1(x) == k1(y) && k2(x) < k2(y)) {
        var m :| 0 <= m < |t| && t[m] == y;
        assert m > 0 ==> k1(t[0]) <= k1(t[m]);
      }
      LexCons(x, t, k1, k2);
    } else {
      var u := t[1..];
      assert LexSorted(u, k1, k2);
      InsertLex(x, u, k1, k2);
      var ins := Insert(x, u, k1);
      forall y | y in ins
        ensures k1(t[0]) < k1(y) || (k1(t[0]) == k1(y) && k2(t[0]) < k2(y))
      {
        assert y in multiset(ins);
        if y != x {
          assert y in multiset(u);
          var m :| 0 <= m < |u| && u[m] == y;
          assert t[m + 1] == y;
        }
      }
      LexCons(t[0], ins, k1, k2);
    }
  }

  /** Sorting by `k1` a sequence that ascends strictly in `k2` gives a
      sequence ordered by `k1` with ties ascending in `k2`: stability is what
      makes an earlier sort serve as the tie-break of a later one. */
  lemma {:induction false} SortByThenBy<T>(s: seq<T>, k1: T -> int, k2: T -> int)
    requires forall i, j :: 0 <= i < j < |s| ==> k2(s[i]) < k2(s[j])
    ensures LexSorted(SortBy(s, k1), k1, k2)
  {
    if s != [] {
      var u := s[1..];
      SortByThenBy(u, k1, k2);
      var t := SortBy(u, k1);
      forall y | y in t ensures k2(s[0]) < k2(y) {
        assert y in multiset(t);
        assert y in u;
        var m :| 0 <= m < |u| && u[m] == y;
        assert s[m + 1] == y;
      }
      InsertLex(s[0], t, k1, k2);
    }
  }

  lemma InjectiveCons<T, K>(h: T, s: seq<T>, f: T -> K)
    requires InjectiveOn(s, f)
    requires forall y :: y in s ==> f(y) != f(h)
    ensures InjectiveOn([h] + s, f)
  {
    var r := [h] + s;
    forall i, j | 0 <= i < j < |r| ensures f(r[i]) != f(r[j]) {
      assert r[j] == s[j - 1];
      if i > 0 {
        assert r[i] == s[i - 1];
      } else {
        assert r[j] in s;
      }
    }
  }

  /** The head of an injective list differs under `f` from the rest. */
  lemma InjectiveHead<T, K>(s: seq<T>, f: T -> K)
    requires s != [] && InjectiveOn(s, f)
    ensures InjectiveOn(s[1..], f)
    ensures forall y :: y in s[1..] ==> f(y) != f(s[0])
  {
    forall y | y in s[1..] ensures f(y) != f(s[0]) {
      var m :| 0 <= m < |s[1..]| && s[1..][m] == y;
      assert s[m + 1] == y;
    }
  }

  lemma {:induction false} InsertInjective<T, K>(x: T, t: seq<T>, key: T -> int, f: T -> K)
    requires InjectiveOn(t, f)
    requires forall y :: y in t ==> f(y) != f(x)
    ensures InjectiveOn(Insert(x, t, key), f)
  {
    if t == [] || key(x) <= key(t[0]) {
      InjectiveCons(x, t, f);
    } else {
      var h, u := t[0], t[1..];
      InjectiveHead(t, f);
      assert h in t;
      InsertInjective(x, u, key, f);
      var ins := Insert(x, u, key);
      forall y | y in ins ensures f(y) != f(h) {
        assert y in multiset(ins);
      }
      InjectiveCons(h, ins, f);
    }
  }

  /** Sorting never makes two elements agree on a projection on which no two
      agreed before. */
  lemma {:induction false} SortByInjective<T, K>(s: seq<T>, key: T -> int, f: T -> K)
    requires InjectiveOn(s, f)
    ensures InjectiveOn(SortBy(s, key), f)
  {
    if s != [] {
      var u := s[1..];
      assert InjectiveOn(u, f);
      SortByInjective(u, key, f);
      var t := SortBy(u, key);
      forall y | y in t ensures f(y) != f(s[0]) {
        assert y in multiset(t);
        assert y in u;
        var m :| 0 <= m < |u| && u[m] == y;
        assert s[m + 1] == y;
      }
      InsertInjective(s[0], t, key, f);
    }
  }

  /** `list.remove(x)` drops the first occurrence of `x` and keeps every
      other element in order. */
  lemma RemoveFirstSpec<T>(s: seq<T>, x: T)
    requires x in s
    ensures exists i :: 0 <= i < |s| && s[i] == x && x !in s[..i] &&
                        RemoveFirst(s, x) == s[..i] + s[i + 1..]
  {
    var i := RemoveFirstAt(s, x);
    assert s[i] == x && x !in s[..i] && RemoveFirst(s, x) == s[..i] + s[i + 1..];
  }

  /** The index of the occurrence `RemoveFirst` drops. */
  lemma {:induction false} RemoveFirstAt<T>(s: seq<T>, x: T) returns (i: nat)
    requires x in s
    ensures i < |s| && s[i] == x && x !in s[..i]
    ensures RemoveFirst(s, x) == s[..i] + s[i + 1..]
  {
    if s[0] == x {
      i := 0;
      assert s[..0] == [];
    } else {
      assert x in s[1..];
      var j := RemoveFirstAt(s[1..], x);
      i := j + 1;
      ConsSplit(s, x, j);
    }
  }

  /** Putting back the head `s[0] != x` in front of a split of `s[1..]` at
      `j` gives the split of `s` at `j + 1`. */
  lemma ConsSplit<T>(s: seq<T>, x: T, j: nat)
    requires j + 1 < |s| && s[0] != x && x !in s[1..][..j]
    ensures x !in s[..j + 1]
    ensures [s[0]] + (s[1..][..j] + s[1..][j + 1..]) == s[..j + 1] + s[j + 2..]
  {
    assert s[..j + 1] == [s[0]] + s[1..][..j];
  }

  /** The sum of `f` over `s`. */
  function SumOf<T>(s: seq<T>, f: T -> int): int {
    if s == [] then 0 else f(s[0]) + SumOf(s[1..], f)
  }

  lemma SumOfFirstTwo<T>(s: seq<T>, f: T -> int)
    requires |s| >= 2
    ensures SumOf(s, f) == f(s[0]) + f(s[1]) + SumOf(s[2..], f)
  {
    assert s[1..][1..] == s[2..];
  }

  lemma {:induction false} SumOfAppend<T>(a: seq<T>, b: seq<T>, f: T -> int)
    ensures SumOf(a + b, f) == SumOf(a, f) + SumOf(b, f)
  {
    if a == [] {
      assert a + b == b;
    } else {
      assert (a + b)[1..] == a[1..] + b;
      SumOfAppend(a[1..], b, f);
    }
  }

  lemma {:induction false} SumOfInsert<T>(x: T, s: seq<T>, key: T -> int, f: T -> int)
    ensures SumOf(Insert(x, s, key), f) == f(x) + SumOf(s, f)
  {
    if s != [] && key(x) > key(s[0]) {
      SumOfInsert(x, s[1..], key, f);
      assert Insert(x, s, key)[1..] == Insert(x, s[1..], key);
    } else if s != [] {
      assert ([x] + s)[1..] == s;
    }
  }

  /** Sorting does not change a sum over the elements. */
  lemma {:induction false} SumOfSortBy<T>(s: seq<T>, key: T -> int, f: T -> int)
    ensures SumOf(SortBy(s, key), f) == SumOf(s, f)
  {
    if s != [] {
      SumOfSortBy(s[1..], key, f);
      SumOfInsert(s[0], SortBy(s[1..], key), key, f);
    }
  }

  /** The multiset union of `f` over `s`. */
  function BagOf<T, X>(s: seq<T>, f: T -> multiset<X>): multiset<X> {
    if s == [] then multiset{} else f(s[0]) + BagOf(s[1..], f)
  }

  lemma BagOfFirstTwo<T, X>(s: seq<T>, f: T -> multiset<X>)
    requires |s| >= 2
    ensures BagOf(s, f) == f(s[0]) + f(s[1]) + BagOf(s[2..], f)
  {
    assert s[1..][1..] == s[2..];
  }

  lemma {:induction false} BagOfAppend<T, X>(a: seq<T>, b: seq<T>, f: T -> multiset<X>)
    ensures BagOf(a + b, f) == BagOf(a, f) + BagOf(b, f)
  {
    if a == [] {
      assert a + b == b;
    } else {
      assert (a + b)[1..] == a[1..] + b;
      BagOfAppend(a[1..], b, f);
    }
  }

  lemma {:induction false} BagOfInsert<T, X>(x: T, s: seq<T>, key: T -> int, f: T -> multiset<X>)
    ensures BagOf(Insert(x, s, key), f) == f(x) + BagOf(s, f)
  {
    if s != [] && key(x) > key(s[0]) {
      BagOfInsert(x, s[1..], key, f);
      assert Insert(x, s, key)[1..] == Insert(x, s[1..], key);
    } else if s != [] {
      assert ([x] + s)[1..] == s;
    }
  }

  /** Sorting does not change a multiset union over the elements. */
  lemma {:induction false} BagOfSortBy<T, X>(s: seq<T>, key: T -> int, f: T -> multiset<X>)
    ensures BagOf(SortBy(s, key), f) == BagOf(s, f)
  {
    if s != [] {
      BagOfSortBy(s[1..], key, f);
      BagOfInsert(s[0], SortBy(s[1..], key), key, f);
    }
  }

  lemma AppendNil<T>(s: seq<T>)
    ensures s + [] == s
  {
  }

  lemma Assoc<T>(a: seq<T>, b: seq<T>, c: seq<T>)
    ensures (a + b) + c == a + (b + c)
  {
  }

  lemma MapAssoc<K, V>(a: map<K, V>, b: map<K, V>, c: map<K, V>)
    ensures (a + b) + c == a + (b + c)
  {
    var x, y := (a + b) + c, a + (b + c);
    assert x.Keys == y.Keys;
    forall k | k in x ensures x[k] == y[k] {
      if k !in c && k !in b {
        assert x[k] == a[k] == y[k];
      }
    }
  }

  /** `list.remove(x)`: the list without the first occurrence of `x`; the
      source raises an error when `x` is absent, which callers never allow. */
  function RemoveFirst<T(==)>(s: seq<T>, x: T): (r: seq<T>)
    requires x in s
    ensures |r| == |s| - 1
    ensures multiset(r) == multiset(s) - multiset{x}
  {
    assert s == [s[0]] + s[1..];
    if s[0] == x then s[1..] else [s[0]] + RemoveFirst(s[1..], x)
  }
}
