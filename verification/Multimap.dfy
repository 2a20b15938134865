/** A `std::multimap` keyed by a time: a sequence in key order, new elements after equal keys. */
module Multimap {

  type Sorted<V> = seq<(int, V)>

  function Insert<V>(s: Sorted<V>, key: int, value: V): (r: Sorted<V>)
    ensures |r| == |s| + 1
    decreases |s|
  {
    if s == [] || key < s[0].0 then [(key, value)] + s
    else [s[0]] + Insert(s[1..], key, value)
  }

  ghost predicate InOrder<V>(s: Sorted<V>) {
    forall i, j :: 0 <= i < j < |s| ==> s[i].0 <= s[j].0
  }

  /** The elements with one key, in sequence order. */
  function At<V>(s: Sorted<V>, key: int): (r: Sorted<V>)
    ensures forall x :: x in r ==> x in s && x.0 == key
    ensures forall x :: x in s && x.0 == key ==> x in r
    decreases |s|
  {
    if s == [] then []
    else (if s[0].0 == key then [s[0]] else []) + At(s[1..], key)
  }

  function Map<V, W>(s: Sorted<V>, f: V -> W): (r: Sorted<W>)
    ensures |r| == |s|
    ensures forall i :: 0 <= i < |s| ==> r[i] == (s[i].0, f(s[i].1))
    decreases |s|
  {
    if s == [] then [] else [(s[0].0, f(s[0].1))] + Map(s[1..], f)
  }

  /** Everything but the first occurrence of `x`. */
  function Without<V(==)>(s: Sorted<V>, x: (int, V)): Sorted<V>
    decreases |s|
  {
    if s == [] then []
    else if s[0] == x then s[1..]
    else [s[0]] + Without(s[1..], x)
  }

  lemma {:induction false} InsertContents<V>(s: Sorted<V>, key: int, value: V)
    ensures multiset(Insert(s, key, value)) == multiset(s) + multiset{(key, value)}
    ensures forall x :: x in Insert(s, key, value) ==> x in s || x == (key, value)
    ensures forall x :: x in s || x == (key, value) ==> x in Insert(s, key, value)
    decreases |s|
  {
    if s == [] || key < s[0].0 {
    } else {
      InsertContents(s[1..], key, value);
      assert s == [s[0]] + s[1..];
    }
  }

  lemma {:induction false} InsertInOrder<V>(s: Sorted<V>, key: int, value: V)
    requires InOrder(s)
    ensures InOrder(Insert(s, key, value))
    decreases |s|
  {
    if s == [] || key < s[0].0 {
    } else {
      InsertInOrder(s[1..], key, value);
      InsertContents(s[1..], key, value);
      var tail := Insert(s[1..], key, value);
      forall j | 0 <= j < |tail| ensures s[0].0 <= tail[j].0 {
        assert tail[j] in tail;
        assert tail[j] in s[1..] || tail[j] == (key, value);
      }
    }
  }

  lemma {:induction false} AtNone<V>(s: Sorted<V>, key: int)
    requires forall i :: 0 <= i < |s| ==> s[i].0 != key
    ensures At(s, key) == []
    decreases |s|
  {
    if s != [] {
      AtNone(s[1..], key);
    }
  }

  /** Insertion is stable: it goes behind every element with the same key and moves no other. */
  lemma {:induction false} InsertStable<V>(s: Sorted<V>, key: int, value: V, k: int)
    requires InOrder(s)
    ensures At(Insert(s, key, value), k) == At(s, k) + (if k == key then [(key, value)] else [])
    decreases |s|
  {
    if s == [] || key < s[0].0 {
      assert ([(key, value)] + s)[1..] == s;
      if k == key {
        AtNone(s, k);
      }
    } else {
      InsertStable(s[1..], key, value, k);
      assert Insert(s, key, value)[1..] == Insert(s[1..], key, value);
    }
  }

  lemma {:induction false} InsertLast<V>(s: Sorted<V>, key: int, value: V)
    requires forall i :: 0 <= i < |s| ==> s[i].0 <= key
    ensures Insert(s, key, value) == s + [(key, value)]
    decreases |s|
  {
    if s != [] {
      InsertLast(s[1..], key, value);
    }
  }

  /** An element that belongs before the last one leaves the last one in place. */
  lemma {:induction false} InsertBeforeLast<V>(s: Sorted<V>, last: (int, V), key: int, value: V)
    requires key < last.0
    ensures Insert(s + [last], key, value) == Insert(s, key, value) + [last]
    decreases |s|
  {
    if s != [] && s[0].0 <= key {
      assert (s + [last])[1..] == s[1..] + [last];
      InsertBeforeLast(s[1..], last, key, value);
    }
  }

  lemma {:induction false} MapInsert<V, W>(s: Sorted<V>, f: V -> W, key: int, value: V)
    ensures Map(Insert(s, key, value), f) == Insert(Map(s, f), key, f(value))
    decreases |s|
  {
    if s == [] || key < s[0].0 {
      assert ([(key, value)] + s)[1..] == s;
    } else {
      MapInsert(s[1..], f, key, value);
      assert Map(s, f)[1..] == Map(s[1..], f);
    }
  }

  lemma {:induction false} WithoutInsertSame<V>(s: Sorted<V>, key: int, value: V)
    requires (key, value) !in s
    ensures Without(Insert(s, key, value), (key, value)) == s
    decreases |s|
  {
    if s == [] || key < s[0].0 {
    } else {
      WithoutInsertSame(s[1..], key, value);
      assert s[0] != (key, value);
    }
  }

  lemma {:induction false} WithoutKeepsOrder<V>(s: Sorted<V>, x: (int, V))
    requires InOrder(s)
    ensures InOrder(Without(s, x))
    ensures forall y :: y in Without(s, x) ==> y in s
    decreases |s|
  {
    if s != [] && s[0] != x {
      WithoutKeepsOrder(s[1..], x);
      var tail := Without(s[1..], x);
      forall j | 0 <= j < |tail| ensures s[0].0 <= tail[j].0 && tail[j] in s {
        assert tail[j] in tail && tail[j] in s[1..];
      }
    }
  }

  /** Removing one element and inserting another commute. */
  lemma {:induction false} WithoutInsertOther<V>(s: Sorted<V>, x: (int, V), key: int, value: V)
    requires InOrder(s) && (key, value) != x
    ensures Without(Insert(s, key, value), x) == Insert(Without(s, x), key, value)
    decreases |s|
  {
    if s == [] {
    } else if key < s[0].0 {
      WithoutKeepsOrder(s, x);
      var w := Without(s, x);
      if w != [] {
        assert w[0] in w && w[0] in s;
      }
    } else if s[0] == x {
    } else {
      WithoutInsertOther(s[1..], x, key, value);
    }
  }

  ghost predicate Distinct<V>(s: Sorted<V>) {
    forall i, j :: 0 <= i < j < |s| ==> s[i] != s[j]
  }

  lemma {:induction false} WithoutAt<V>(s: Sorted<V>, i: nat)
    requires i < |s| && Distinct(s)
    ensures Without(s, s[i]) == s[..i] + s[i + 1..]
    decreases |s|
  {
    if i > 0 {
      assert s[0] != s[i];
      var tail := s[1..];
      assert Distinct(tail);
      WithoutAt(tail, i - 1);
      assert tail[i - 1] == s[i];
      assert [s[0]] + (tail[..i - 1] + tail[i..]) == s[..i] + s[i + 1..];
    }
  }
}
