/** Stable sorting in descending order of an integer key: what
    `Array.prototype.sort` (stable since ECMAScript 2019) computes with the
    comparator `(a, b) => key(b) - key(a)`. */
module Ranking {

  /** Non-increasing in `key`. */
  predicate SortedDesc<T>(s: seq<T>, key: T -> int) {
    forall i, j :: 0 <= i < j < |s| ==> key(s[i]) >= key(s[j])
  }

  /** The elements whose key is `k`, in their order in `s`. */
  function WithKey<T>(s: seq<T>, key: T -> int, k: int): seq<T> {
    if s == [] then []
    else (if key(s[0]) == k then [s[0]] else []) + WithKey(s[1..], key, k)
  }

  /** `x` placed after every element whose key is at least its own. */
  function Insert<T>(s: seq<T>, x: T, key: T -> int): seq<T> {
    if s == [] then [x]
    else if key(s[|s| - 1]) >= key(x) then s + [x]
    else Insert(s[..|s| - 1], x, key) + [s[|s| - 1]]
  }

  /** Insertion sort, left to right. */
  function SortDesc<T>(s: seq<T>, key: T -> int): seq<T> {
    if s == [] then [] else Insert(SortDesc(s[..|s| - 1], key), s[|s| - 1], key)
  }

  lemma {:induction false} WithKeyAppend<T>(a: seq<T>, b: seq<T>, key: T -> int, k: int)
    ensures WithKey(a + b, key, k) == WithKey(a, key, k) + WithKey(b, key, k)
  {
    if a == [] {
      assert a + b == b;
    } else {
      var h: seq<T> := if key(a[0]) == k then [a[0]] else [];
      assert (a + b)[0] == a[0];
      assert (a + b)[1..] == a[1..] + b;
      assert WithKey(a + b, key, k) == h + WithKey(a[1..] + b, key, k);
      WithKeyAppend(a[1..], b, key, k);
      assert WithKey(a, key, k) == h + WithKey(a[1..], key, k);
    }
  }

  lemma WithKeySingle<T>(x: T, key: T -> int, k: int)
    ensures WithKey([x], key, k) == if key(x) == k then [x] else []
  {
    assert [x][1..] == [];
  }

  lemma {:induction false} InsertPerm<T>(s: seq<T>, x: T, key: T -> int)
    ensures multiset(Insert(s, x, key)) == multiset(s) + multiset{x}
  {
    if s != [] {
      var init, last := s[..|s| - 1], s[|s| - 1];
      assert s == init + [last];
      if key(last) < key(x) {
        InsertPerm(init, x, key);
      }
    }
  }

  lemma {:induction false} InsertGroups<T>(s: seq<T>, x: T, key: T -> int, k: int)
    ensures WithKey(Insert(s, x, key), key, k) == WithKey(s, key, k) + WithKey([x], key, k)
  {
    if s != [] {
      var init, last := s[..|s| - 1], s[|s| - 1];
      assert s == init + [last];
      if key(last) >= key(x) {
        WithKeyAppend(s, [x], key, k);
      } else {
        InsertGroups(init, x, key, k);
        var t := Insert(init, x, key);
        WithKeyAppend(t, [last], key, k);
        WithKeyAppend(init, [last], key, k);
        WithKeySingle(x, key, k);
        WithKeySingle(last, key, k);
      }
    }
  }

  lemma {:induction false} InsertSorted<T>(s: seq<T>, x: T, key: T -> int)
    requires SortedDesc(s, key)
    ensures SortedDesc(Insert(s, x, key), key)
  {
    if s != [] {
      var init, last := s[..|s| - 1], s[|s| - 1];
      assert s == init + [last];
      if key(last) < key(x) {
        InsertSorted(init, x, key);
        InsertPerm(init, x, key);
        var t := Insert(init, x, key);
        forall i, j | 0 <= i < j < |t| + 1 ensures key((t + [last])[i]) >= key((t + [last])[j]) {
          if j == |t| {
            var y := t[i];
            assert y in multiset(init) + multiset{x};
            if y != x {
              assert y in init;
              var m :| 0 <= m < |init| && init[m] == y;
              assert s[m] == y;
            }
          } else {
            assert (t + [last])[i] == t[i] && (t + [last])[j] == t[j];
          }
        }
      }
    }
  }

  /** The sort returns a permutation of its input, in non-increasing key
      order, and elements with equal keys keep their relative order. */
  lemma {:induction false} SortDescSpec<T>(s: seq<T>, key: T -> int)
    ensures multiset(SortDesc(s, key)) == multiset(s)
    ensures |SortDesc(s, key)| == |s|
    ensures SortedDesc(SortDesc(s, key), key)
    ensures forall k :: WithKey(SortDesc(s, key), key, k) == WithKey(s, key, k)
  {
    if s != [] {
      var init, last := s[..|s| - 1], s[|s| - 1];
      assert s == init + [last];
      SortDescSpec(init, key);
      InsertPerm(SortDesc(init, key), last, key);
      InsertSorted(SortDesc(init, key), last, key);
      forall k ensures WithKey(SortDesc(s, key), key, k) == WithKey(s, key, k) {
        InsertGroups(SortDesc(init, key), last, key, k);
        WithKeyAppend(init, [last], key, k);
      }
      assert |SortDesc(s, key)| == |multiset(SortDesc(s, key))|;
    }
  }

  /** The sort keeps exactly the elements of its input. */
  lemma SortDescMembers<T>(s: seq<T>, key: T -> int, x: T)
    ensures x in SortDesc(s, key) <==> x in s
  {
    SortDescSpec(s, key);
    assert x in SortDesc(s, key) <==> x in multiset(SortDesc(s, key));
    assert x in s <==> x in multiset(s);
  }

  /** A non-increasing arrangement that keeps equal keys in their order is
      unique: any such arrangement of `s` is the sort's result. */
  lemma SortDescUnique<T>(s: seq<T>, t: seq<T>, key: T -> int)
    requires SortedDesc(t, key)
    requires forall k :: WithKey(t, key, k) == WithKey(s, key, k)
    ensures t == SortDesc(s, key)
  {
    SortDescSpec(s, key);
    SortedSameGroupsEqual(t, SortDesc(s, key), key);
  }

  lemma {:induction false} SortedSameGroupsEqual<T>(u: seq<T>, t: seq<T>, key: T -> int)
    requires SortedDesc(u, key) && SortedDesc(t, key)
    requires forall k :: WithKey(u, key, k) == WithKey(t, key, k)
    ensures u == t
  {
    GroupsBothEmpty(u, t, key);
    if u != [] {
      var ku, kt := key(u[0]), key(t[0]);
      assert key(u[0]) <= kt by {
        WithKeyHead(u, key);
        WithKeyMember(t, key, ku);
      }
      assert key(t[0]) <= ku by {
        WithKeyHead(t, key);
        WithKeyMember(u, key, kt);
      }
      WithKeyHead(u, key);
      WithKeyHead(t, key);
      assert u[0] == t[0] by {
        assert WithKey(u, key, ku)[0] == u[0];
        assert WithKey(t, key, ku)[0] == t[0];
      }
      forall k ensures WithKey(u[1..], key, k) == WithKey(t[1..], key, k) {
        var h: seq<T> := if key(u[0]) == k then [u[0]] else [];
        assert WithKey(u, key, k) == h + WithKey(u[1..], key, k);
        assert WithKey(t, key, k) == h + WithKey(t[1..], key, k);
        assert WithKey(u[1..], key, k) == WithKey(u, key, k)[|h|..];
        assert WithKey(t[1..], key, k) == WithKey(t, key, k)[|h|..];
      }
      SortedSameGroupsEqual(u[1..], t[1..], key);
      assert u == [u[0]] + u[1..] && t == [t[0]] + t[1..];
    }
  }

  lemma GroupsBothEmpty<T>(u: seq<T>, t: seq<T>, key: T -> int)
    requires forall k :: WithKey(u, key, k) == WithKey(t, key, k)
    ensures u == [] <==> t == []
  {
    if u != [] {
      WithKeyHead(u, key);
    }
    if t != [] {
      WithKeyHead(t, key);
    }
  }

  lemma WithKeyHead<T>(s: seq<T>, key: T -> int)
    requires s != []
    ensures WithKey(s, key, key(s[0])) != [] && WithKey(s, key, key(s[0]))[0] == s[0]
  {
  }

  /** In a non-increasing sequence, an element of key `k` means the first
      key is at least `k`. */
  lemma {:induction false} WithKeyMember<T>(s: seq<T>, key: T -> int, k: int)
    requires s != [] && SortedDesc(s, key)
    requires WithKey(s, key, k) != []
    ensures key(s[0]) >= k
  {
    if key(s[0]) != k {
      var i := FirstWithKey(s, key, k);
    }
  }

  lemma {:induction false} FirstWithKey<T>(s: seq<T>, key: T -> int, k: int) returns (i: int)
    requires WithKey(s, key, k) != []
    ensures 0 <= i < |s| && key(s[i]) == k
  {
    if key(s[0]) == k {
      i := 0;
    } else {
      var j := FirstWithKey(s[1..], key, k);
      i := j + 1;
    }
  }
}
