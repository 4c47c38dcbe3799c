/**
  The stable sort by an integer key that both halves of the system rely on:
  Python's `sorted(emails, key=lambda x: x["epoch"])` on the server and
  `children.sort((a, b) => a.epoch - b.epoch)` in the browser.  Both are stable,
  so the result is fully determined: ascending keys, and elements with equal
  keys kept in their original order.  The reference definition is insertion
  sort from left to right.
 */
module EpochSort {

  predicate SortedBy<T>(s: seq<T>, key: T -> int) {
    forall i, j :: 0 <= i < j < |s| ==> key(s[i]) <= key(s[j])
  }

  /** Places `x` after every element whose key is not greater than its own. */
  function Insert<T>(s: seq<T>, x: T, key: T -> int): (r: seq<T>)
    ensures |r| == |s| + 1
    ensures multiset(r) == multiset(s) + multiset{x}
  {
    if s == [] then [x]
    else if key(x) < key(s[0]) then [x] + s
    else
      assert s == [s[0]] + s[1..];
      [s[0]] + Insert(s[1..], x, key)
  }

  lemma {:induction false} InsertSorted<T>(s: seq<T>, x: T, key: T -> int)
    requires SortedBy(s, key)
    ensures SortedBy(Insert(s, x, key), key)
  {
    if s != [] && key(s[0]) <= key(x) {
      var t := Insert(s[1..], x, key);
      InsertSorted(s[1..], x, key);
      forall j | 0 <= j < |t|
        ensures key(s[0]) <= key(t[j])
      {
        assert t[j] in multiset(t);
        if t[j] != x {
          assert t[j] in multiset(s[1..]);
          var k :| 0 <= k < |s[1..]| && s[1..][k] == t[j];
          assert s[k + 1] == t[j];
        }
      }
      assert Insert(s, x, key) == [s[0]] + t;
    }
  }

  function SortBy<T>(s: seq<T>, key: T -> int): (r: seq<T>)
    ensures |r| == |s|
    ensures multiset(r) == multiset(s)
    ensures SortedBy(r, key)
  {
    if s == [] then []
    else
      assert s == s[..|s| - 1] + [s[|s| - 1]];
      var p := SortBy(s[..|s| - 1], key);
      InsertSorted(p, s[|s| - 1], key);
      Insert(p, s[|s| - 1], key)
  }

  /** Sorting draws every element from the input. */
  lemma SortByMembers<T>(s: seq<T>, key: T -> int)
    ensures forall i :: 0 <= i < |SortBy(s, key)| ==> SortBy(s, key)[i] in s
  {
    var r := SortBy(s, key);
    forall i | 0 <= i < |r|
      ensures r[i] in s
    {
      assert r[i] in multiset(r);
    }
  }

  /** The elements of `s` whose key is `v`, in their order in `s`. */
  function WithKey<T>(s: seq<T>, key: T -> int, v: int): (r: seq<T>)
    ensures |r| <= |s|
  {
    if s == [] then []
    else if key(s[|s| - 1]) == v then WithKey(s[..|s| - 1], key, v) + [s[|s| - 1]]
    else WithKey(s[..|s| - 1], key, v)
  }

  lemma {:induction false} WithKeyAppend<T>(a: seq<T>, b: seq<T>, key: T -> int, v: int)
    ensures WithKey(a + b, key, v) == WithKey(a, key, v) + WithKey(b, key, v)
    decreases |b|
  {
    if b != [] {
      var b' := b[..|b| - 1];
      assert (a + b)[..|a + b| - 1] == a + b';
      WithKeyAppend(a, b', key, v);
    } else {
      assert a + b == a;
    }
  }

  lemma {:induction false} WithKeyNone<T>(s: seq<T>, key: T -> int, v: int)
    requires forall i :: 0 <= i < |s| ==> key(s[i]) != v
    ensures WithKey(s, key, v) == []
  {
    if s != [] {
      WithKeyNone(s[..|s| - 1], key, v);
    }
  }

  lemma {:induction false} InsertWithKey<T>(s: seq<T>, x: T, key: T -> int, v: int)
    requires SortedBy(s, key)
    ensures WithKey(Insert(s, x, key), key, v)
         == WithKey(s, key, v) + (if key(x) == v then [x] else [])
  {
    if s == [] {
      WithKeySingle(x, key, v);
    } else if key(x) < key(s[0]) {
      InsertWithKeyFront(s, x, key, v);
    } else {
      InsertWithKey(s[1..], x, key, v);
      InsertWithKeyBehind(s, x, key, v);
    }
  }

  /** `x` goes in front of `s`: no element of `s` shares its key. */
  lemma InsertWithKeyFront<T>(s: seq<T>, x: T, key: T -> int, v: int)
    requires SortedBy(s, key) && s != [] && key(x) < key(s[0])
    ensures WithKey(Insert(s, x, key), key, v)
         == WithKey(s, key, v) + (if key(x) == v then [x] else [])
  {
    WithKeyAppend([x], s, key, v);
    WithKeySingle(x, key, v);
    if key(x) == v {
      WithKeyNone(s, key, v);
    }
  }

  /** `x` goes behind the first element of `s`, where the rest of the insertion happens. */
  lemma InsertWithKeyBehind<T>(s: seq<T>, x: T, key: T -> int, v: int)
    requires s != [] && key(s[0]) <= key(x)
    requires WithKey(Insert(s[1..], x, key), key, v)
          == WithKey(s[1..], key, v) + (if key(x) == v then [x] else [])
    ensures WithKey(Insert(s, x, key), key, v)
         == WithKey(s, key, v) + (if key(x) == v then [x] else [])
  {
    var t := s[1..];
    var tail := if key(x) == v then [x] else [];
    var head := WithKey([s[0]], key, v);
    calc {
      WithKey(Insert(s, x, key), key, v);
      WithKey([s[0]] + Insert(t, x, key), key, v);
    == { WithKeyAppend([s[0]], Insert(t, x, key), key, v); }
      head + WithKey(Insert(t, x, key), key, v);
      head + (WithKey(t, key, v) + tail);
      (head + WithKey(t, key, v)) + tail;
    == { WithKeyAppend([s[0]], t, key, v); assert s == [s[0]] + t; }
      WithKey(s, key, v) + tail;
    }
  }

  lemma WithKeySingle<T>(x: T, key: T -> int, v: int)
    ensures WithKey([x], key, v) == if key(x) == v then [x] else []
  {
    assert [x][..0] == [];
  }

  /** Stability: for every key, the elements with that key keep their relative order. */
  lemma {:induction false} SortByStable<T>(s: seq<T>, key: T -> int, v: int)
    ensures WithKey(SortBy(s, key), key, v) == WithKey(s, key, v)
  {
    if s != [] {
      var p := s[..|s| - 1];
      SortByStable(p, key, v);
      InsertWithKey(SortBy(p, key), s[|s| - 1], key, v);
    }
  }

  lemma {:induction false} InsertLast<T>(s: seq<T>, x: T, key: T -> int)
    requires forall i :: 0 <= i < |s| ==> key(s[i]) <= key(x)
    ensures Insert(s, x, key) == s + [x]
  {
    if s != [] {
      InsertLast(s[1..], x, key);
      assert s == [s[0]] + s[1..];
    }
  }

  /** Sorting input that is already in key order leaves it unchanged, so sorting twice is sorting once. */
  lemma {:induction false} SortBySorted<T>(s: seq<T>, key: T -> int)
    requires SortedBy(s, key)
    ensures SortBy(s, key) == s
  {
    if s != [] {
      var p := s[..|s| - 1];
      SortBySorted(p, key);
      InsertLast(p, s[|s| - 1], key);
      assert p + [s[|s| - 1]] == s;
    }
  }

  lemma SortByIdempotent<T>(s: seq<T>, key: T -> int)
    ensures SortBy(SortBy(s, key), key) == SortBy(s, key)
  {
    SortBySorted(SortBy(s, key), key);
  }
}
