/**
 * `Array.prototype.sort` with a numeric comparator `(a, b) => key(b) - key(a)`:
 * a stable sort by `key`, largest first. ECMAScript has required `sort` to be
 * stable since the 2019 edition, so records with equal keys keep the order they
 * had before sorting. The sort is modelled as an insertion sort, which is stable.
 */
module JsSort {
  import JsArray

  ghost predicate SortedDesc<T>(s: seq<T>, key: T -> int) {
    forall i, j :: 0 <= i < j < |s| ==> key(s[i]) >= key(s[j])
  }

  /** No two elements of `s` share an identity. */
  ghost predicate DistinctIds<T>(s: seq<T>, id: T -> int) {
    forall i, j :: 0 <= i < j < |s| ==> id(s[i]) != id(s[j])
  }

  /** Inserts `x` in front of the first element whose key is not larger than its own. */
  function Insert<T(==)>(x: T, t: seq<T>, key: T -> int): (r: seq<T>)
    ensures |r| == |t| + 1
    ensures multiset(r) == multiset(t) + multiset{x}
  {
    if t == [] || key(t[0]) <= key(x) then [x] + t
    else
      assert t == [t[0]] + t[1..];
      [t[0]] + Insert(x, t[1..], key)
  }

  lemma {:induction false} InsertSorted<T>(x: T, t: seq<T>, key: T -> int)
    requires SortedDesc(t, key)
    ensures SortedDesc(Insert(x, t, key), key)
  {
    if t != [] && key(t[0]) > key(x) {
      InsertSorted(x, t[1..], key);
      var rest := Insert(x, t[1..], key);
      forall j | 0 <= j < |rest|
        ensures key(rest[j]) <= key(t[0])
      {
        assert rest[j] in multiset(rest);
        if rest[j] != x {
          assert rest[j] in multiset(t[1..]);
        }
      }
    }
  }

  /** The stable descending sort of `s` by `key`. */
  function SortDesc<T(==)>(s: seq<T>, key: T -> int): (r: seq<T>)
    ensures |r| == |s|
    ensures multiset(r) == multiset(s)
    ensures SortedDesc(r, key)
  {
    if s == [] then []
    else
      assert s == [s[0]] + s[1..];
      InsertSorted(s[0], SortDesc(s[1..], key), key);
      Insert(s[0], SortDesc(s[1..], key), key)
  }

  /** How many elements of `s` have a key larger than `c`. */
  function CountAbove<T>(s: seq<T>, key: T -> int, c: int): (n: nat)
    ensures n <= |s|
  {
    if s == [] then 0 else (if key(s[0]) > c then 1 else 0) + CountAbove(s[1..], key, c)
  }

  /** How many elements of `s` have key exactly `c`. */
  function CountEqual<T>(s: seq<T>, key: T -> int, c: int): (n: nat)
    ensures n <= |s|
  {
    if s == [] then 0 else (if key(s[0]) == c then 1 else 0) + CountEqual(s[1..], key, c)
  }

  lemma {:induction false} CountAboveInsert<T>(x: T, t: seq<T>, key: T -> int, c: int)
    ensures CountAbove(Insert(x, t, key), key, c) == CountAbove(t, key, c) + (if key(x) > c then 1 else 0)
  {
    if t == [] || key(t[0]) <= key(x) {
      assert ([x] + t)[1..] == t;
    } else {
      CountAboveInsert(x, t[1..], key, c);
      assert ([t[0]] + Insert(x, t[1..], key))[1..] == Insert(x, t[1..], key);
    }
  }

  /** Sorting does not change how many elements lie above a threshold. */
  lemma {:induction false} CountAboveSort<T>(s: seq<T>, key: T -> int, c: int)
    ensures CountAbove(SortDesc(s, key), key, c) == CountAbove(s, key, c)
  {
    if s != [] {
      CountAboveSort(s[1..], key, c);
      CountAboveInsert(s[0], SortDesc(s[1..], key), key, c);
    }
  }

  /** Counting depends only on the keys, position by position. */
  lemma {:induction false} CountsFollowKeys<T, U>(a: seq<T>, ka: T -> int, b: seq<U>, kb: U -> int, c: int)
    requires |a| == |b|
    requires forall i :: 0 <= i < |a| ==> ka(a[i]) == kb(b[i])
    ensures CountAbove(a, ka, c) == CountAbove(b, kb, c)
    ensures CountEqual(a, ka, c) == CountEqual(b, kb, c)
  {
    if a != [] {
      CountsFollowKeys(a[1..], ka, b[1..], kb, c);
    }
  }

  lemma {:induction false} InsertKeepsDistinctIds<T>(x: T, t: seq<T>, key: T -> int, id: T -> int)
    requires DistinctIds(t, id)
    requires forall y :: y in t ==> id(y) != id(x)
    ensures DistinctIds(Insert(x, t, key), id)
  {
    if t != [] && key(t[0]) > key(x) {
      InsertKeepsDistinctIds(x, t[1..], key, id);
      var rest := Insert(x, t[1..], key);
      forall j | 0 <= j < |rest|
        ensures id(rest[j]) != id(t[0])
      {
        assert rest[j] in multiset(rest);
        if rest[j] != x {
          assert rest[j] in multiset(t[1..]);
        }
      }
    }
  }

  /** Sorting a sequence with distinct identities keeps them distinct. */
  lemma {:induction false} SortKeepsDistinctIds<T>(s: seq<T>, key: T -> int, id: T -> int)
    requires DistinctIds(s, id)
    ensures DistinctIds(SortDesc(s, key), id)
  {
    if s != [] {
      SortKeepsDistinctIds(s[1..], key, id);
      forall y | y in SortDesc(s[1..], key)
        ensures id(y) != id(s[0])
      {
        assert y in multiset(SortDesc(s[1..], key));
        assert y in multiset(s[1..]);
      }
      InsertKeepsDistinctIds(s[0], SortDesc(s[1..], key), key, id);
    }
  }

  /** In a sorted sequence, `x` lands after exactly the elements with a larger key. */
  lemma {:induction false} InsertedPosition<T>(x: T, t: seq<T>, key: T -> int, id: T -> int)
    requires SortedDesc(t, key)
    requires forall y :: y in t ==> id(y) != id(x)
    ensures JsArray.FindIndex(Insert(x, t, key), id, id(x)) == CountAbove(t, key, key(x))
  {
    if t == [] || key(t[0]) <= key(x) {
      CountAboveNone(t, key, key(x));
    } else {
      assert t[0] in t;
      InsertedPosition(x, t[1..], key, id);
      assert ([t[0]] + Insert(x, t[1..], key))[1..] == Insert(x, t[1..], key);
    }
  }

  lemma {:induction false} CountAboveNone<T>(t: seq<T>, key: T -> int, c: int)
    requires forall j :: 0 <= j < |t| ==> key(t[j]) <= c
    ensures CountAbove(t, key, c) == 0
  {
    if t != [] {
      CountAboveNone(t[1..], key, c);
    }
  }

  /** An element already present moves back by one exactly when `x` goes in front of it. */
  lemma {:induction false} ShiftedPosition<T>(x: T, t: seq<T>, key: T -> int, id: T -> int, u: int)
    requires SortedDesc(t, key)
    requires id(x) != u
    requires 0 <= JsArray.FindIndex(t, id, u)
    ensures var p := JsArray.FindIndex(t, id, u);
      JsArray.FindIndex(Insert(x, t, key), id, u) == p + (if key(t[p]) <= key(x) then 1 else 0)
  {
    var p := JsArray.FindIndex(t, id, u);
    if t == [] || key(t[0]) <= key(x) {
      assert ([x] + t)[1..] == t;
    } else if id(t[0]) == u {
    } else {
      assert t[1..][p - 1] == t[p];
      ShiftedPosition(x, t[1..], key, id, u);
      assert ([t[0]] + Insert(x, t[1..], key))[1..] == Insert(x, t[1..], key);
    }
  }

  /** With distinct identities, an element is determined by its identity. */
  lemma IdentifiesElement<T>(s: seq<T>, id: T -> int, y: T, i: int)
    requires DistinctIds(s, id)
    requires 0 <= i < |s|
    requires y in multiset(s) && id(y) == id(s[i])
    ensures y == s[i]
  {
    assert y in s;
    var j :| 0 <= j < |s| && s[j] == y;
    assert j == i;
  }

  /**
   * Where the stable sort puts the element at index `i`: after every element with a
   * larger key and after every element with an equal key that came before it.
   */
  lemma {:induction false} SortedPosition<T>(s: seq<T>, key: T -> int, id: T -> int, i: int)
    requires 0 <= i < |s|
    requires DistinctIds(s, id)
    ensures JsArray.FindIndex(SortDesc(s, key), id, id(s[i]))
            == CountAbove(s, key, key(s[i])) + CountEqual(s[..i], key, key(s[i]))
  {
    var t := SortDesc(s[1..], key);
    assert SortDesc(s, key) == Insert(s[0], t, key);
    TailIdsDiffer(s, t, id);
    if i == 0 {
      InsertedPosition(s[0], t, key, id);
      CountAboveSort(s[1..], key, key(s[0]));
    } else {
      assert s[1..][i - 1] == s[i];
      SortedPosition(s[1..], key, id, i - 1);
      SortedPositionStep(s, t, key, id, i);
    }
  }

  lemma TailIdsDiffer<T>(s: seq<T>, t: seq<T>, id: T -> int)
    requires |s| > 0 && DistinctIds(s, id)
    requires multiset(t) == multiset(s[1..])
    ensures forall y :: y in t ==> id(y) != id(s[0])
  {
    forall y | y in t
      ensures id(y) != id(s[0])
    {
      assert y in multiset(t);
      assert y in s[1..];
    }
  }

  lemma {:induction false} SortedPositionStep<T>(s: seq<T>, t: seq<T>, key: T -> int, id: T -> int, i: int)
    requires 0 < i < |s|
    requires DistinctIds(s, id)
    requires SortedDesc(t, key) && multiset(t) == multiset(s[1..])
    requires JsArray.FindIndex(t, id, id(s[i]))
             == CountAbove(s[1..], key, key(s[i])) + CountEqual(s[1..][..i - 1], key, key(s[i]))
    ensures JsArray.FindIndex(Insert(s[0], t, key), id, id(s[i]))
            == CountAbove(s, key, key(s[i])) + CountEqual(s[..i], key, key(s[i]))
  {
    var k := key(s[i]);
    var p := JsArray.FindIndex(t, id, id(s[i]));
    assert key(t[p]) == k by {
      assert s[1..][i - 1] == s[i];
      assert t[p] in multiset(t);
      IdentifiesElement(s[1..], id, t[p], i - 1);
    }
    assert id(s[0]) != id(s[i]);
    ShiftedPosition(s[0], t, key, id, id(s[i]));
    assert CountAbove(s, key, k) == (if key(s[0]) > k then 1 else 0) + CountAbove(s[1..], key, k);
    assert s[..i][1..] == s[1..][..i - 1];
    assert CountEqual(s[..i], key, k) == (if key(s[0]) == k then 1 else 0) + CountEqual(s[1..][..i - 1], key, k);
  }

  /** In a sorted sequence, an element whose key beats the one at index `i` sits before `i`. */
  lemma AboveComesFirst<T>(t: seq<T>, key: T -> int, y: T, i: int)
    requires SortedDesc(t, key)
    requires y in multiset(t)
    requires 0 <= i < |t|
    requires key(y) > key(t[i])
    ensures exists j :: 0 <= j < i && t[j] == y
  {
    var q :| 0 <= q < |t| && t[q] == y;
    assert q < i;
  }

  /** Counting distributes over concatenation. */
  lemma {:induction false} CountEqualConcat<T>(a: seq<T>, b: seq<T>, key: T -> int, c: int)
    ensures CountEqual(a + b, key, c) == CountEqual(a, key, c) + CountEqual(b, key, c)
  {
    if a == [] {
      assert a + b == b;
    } else {
      assert (a + b)[0] == a[0] && (a + b)[1..] == a[1..] + b;
      CountEqualConcat(a[1..], b, key, c);
    }
  }

  /**
   * Stability: of two elements with equal keys, the one that came first in `s`
   * comes first after sorting.
   */
  lemma StableOrder<T>(s: seq<T>, key: T -> int, id: T -> int, a: int, b: int)
    requires DistinctIds(s, id)
    requires 0 <= a < b < |s| && key(s[a]) == key(s[b])
    ensures JsArray.FindIndex(SortDesc(s, key), id, id(s[a])) < JsArray.FindIndex(SortDesc(s, key), id, id(s[b]))
  {
    SortedPosition(s, key, id, a);
    SortedPosition(s, key, id, b);
    CountEqualGrows(s, key, a, b);
  }

  /** An element with key `key(s[a])` at index `a` is counted in `s[..b]` but not in `s[..a]`. */
  lemma CountEqualGrows<T>(s: seq<T>, key: T -> int, a: int, b: int)
    requires 0 <= a < b <= |s|
    ensures CountEqual(s[..a], key, key(s[a])) < CountEqual(s[..b], key, key(s[a]))
  {
    assert s[..b] == s[..a] + s[a..b];
    CountEqualConcat(s[..a], s[a..b], key, key(s[a]));
    assert s[a..b][0] == s[a];
  }

  /** The sum of the keys of `s`. */
  function SumKey<T>(s: seq<T>, key: T -> int): int {
    if s == [] then 0 else key(s[0]) + SumKey(s[1..], key)
  }

  lemma {:induction false} SumKeyAppend<T>(s: seq<T>, x: T, key: T -> int)
    ensures SumKey(s + [x], key) == SumKey(s, key) + key(x)
  {
    if s != [] {
      assert (s + [x])[1..] == s[1..] + [x];
      SumKeyAppend(s[1..], x, key);
    }
  }

  lemma {:induction false} SumKeyUpdate<T>(s: seq<T>, i: int, x: T, key: T -> int)
    requires 0 <= i < |s|
    ensures SumKey(s[i := x], key) == SumKey(s, key) - key(s[i]) + key(x)
  {
    if i == 0 {
      assert s[i := x][1..] == s[1..];
    } else {
      assert s[i := x][1..] == s[1..][i - 1 := x];
      SumKeyUpdate(s[1..], i - 1, x, key);
    }
  }

  lemma {:induction false} SumKeyInsert<T>(x: T, t: seq<T>, key: T -> int)
    ensures SumKey(Insert(x, t, key), key) == key(x) + SumKey(t, key)
  {
    if t == [] || key(t[0]) <= key(x) {
      assert ([x] + t)[1..] == t;
    } else {
      SumKeyInsert(x, t[1..], key);
      assert ([t[0]] + Insert(x, t[1..], key))[1..] == Insert(x, t[1..], key);
    }
  }

  /** Sorting does not change the sum of the keys. */
  lemma {:induction false} SumKeySort<T>(s: seq<T>, key: T -> int)
    ensures SumKey(SortDesc(s, key), key) == SumKey(s, key)
  {
    if s != [] {
      SumKeySort(s[1..], key);
      SumKeyInsert(s[0], SortDesc(s[1..], key), key);
    }
  }

  /** With distinct identities, an element's identity finds that element's own index. */
  lemma FindOwnIndex<T>(s: seq<T>, id: T -> int, i: int)
    requires DistinctIds(s, id) && 0 <= i < |s|
    ensures JsArray.FindIndex(s, id, id(s[i])) == i
  {
  }
}
