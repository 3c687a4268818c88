/** `Array.prototype.sort` with a numeric comparator `(a, b) => key(a) - key(b)`:
    a stable sort, written here as insertion sort, with its specification
    (ascending by key, same elements) proved. */
module Sorting {

  predicate SortedBy<T>(s: seq<T>, key: T -> real)
  {
    forall i, j :: 0 <= i < j < |s| ==> key(s[i]) <= key(s[j])
  }

  /** Inserts `x` after every element whose key is not greater than its own,
      so that equal keys keep their arrival order. */
  function InsertBy<T>(x: T, s: seq<T>, key: T -> real): (r: seq<T>)
    requires SortedBy(s, key)
    ensures SortedBy(r, key)
    ensures multiset(r) == multiset(s) + multiset{x}
    ensures |r| == |s| + 1
  {
    if |s| == 0 then [x]
    else if key(x) < key(s[0]) then [x] + s
    else
      var t := InsertBy(x, s[1..], key);
      assert s == [s[0]] + s[1..];
      HeadBelow(s, x, t, key);
      [s[0]] + t
  }

  /** The head of a sorted list is no greater than anything its tail can
      become once `x` (no smaller than the head) joins it. */
  lemma HeadBelow<T>(s: seq<T>, x: T, t: seq<T>, key: T -> real)
    requires |s| > 0 && SortedBy(s, key) && key(s[0]) <= key(x)
    requires SortedBy(t, key) && multiset(t) == multiset(s[1..]) + multiset{x}
    ensures SortedBy([s[0]] + t, key)
  {
    forall k | 0 <= k < |t|
      ensures key(s[0]) <= key(t[k])
    {
      assert t[k] in multiset(t);
      assert t[k] in multiset(s[1..]) || t[k] == x;
    }
  }

  /** The stable sort of `s` by `key`. */
  function SortBy<T>(s: seq<T>, key: T -> real): (r: seq<T>)
    ensures SortedBy(r, key)
    ensures multiset(r) == multiset(s)
    ensures |r| == |s|
  {
    if |s| == 0 then []
    else
      assert s == s[..|s| - 1] + [s[|s| - 1]];
      InsertBy(s[|s| - 1], SortBy(s[..|s| - 1], key), key)
  }

  /** Sorting keeps exactly the elements it was given. */
  lemma SortByMembers<T>(s: seq<T>, key: T -> real, x: T)
    ensures x in SortBy(s, key) <==> x in s
  {
    var r := SortBy(s, key);
    assert x in r <==> x in multiset(r);
    assert x in s <==> x in multiset(s);
  }

  /** The first element of a sorted result is one of the inputs, with the
      least key among them. */
  lemma SortByHead<T>(s: seq<T>, key: T -> real)
    requires |s| > 0
    ensures SortBy(s, key)[0] in s
    ensures forall x :: x in s ==> key(SortBy(s, key)[0]) <= key(x)
  {
    var r := SortBy(s, key);
    SortByMembers(s, key, r[0]);
    forall x | x in s
      ensures key(r[0]) <= key(x)
    {
      SortByMembers(s, key, x);
      var j :| 0 <= j < |r| && r[j] == x;
      if j > 0 {
        assert key(r[0]) <= key(r[j]);
      }
    }
  }

  // ---------------------------------------------------------------------------
  // Stability

  /** The elements of `s` whose key is `v`, in the order of `s`. */
  function WithKey<T>(s: seq<T>, key: T -> real, v: real): (r: seq<T>)
    ensures |r| <= |s|
  {
    if |s| == 0 then []
    else (if key(s[0]) == v then [s[0]] else []) + WithKey(s[1..], key, v)
  }

  lemma {:induction false} WithKeyMembers<T>(s: seq<T>, key: T -> real, v: real)
    ensures forall x :: x in WithKey(s, key, v) <==> x in s && key(x) == v
    decreases |s|
  {
    if |s| > 0 {
      WithKeyMembers(s[1..], key, v);
      assert s == [s[0]] + s[1..];
    }
  }

  lemma WithKeyMember<T>(s: seq<T>, key: T -> real, v: real, y: T)
    requires y in WithKey(s, key, v)
    ensures y in s && key(y) == v
  {
    WithKeyMembers(s, key, v);
  }

  lemma {:induction false} WithKeyConcat<T>(a: seq<T>, b: seq<T>, key: T -> real, v: real)
    ensures WithKey(a + b, key, v) == WithKey(a, key, v) + WithKey(b, key, v)
    decreases |a|
  {
    if |a| == 0 {
      assert a + b == b;
    } else {
      assert (a + b)[0] == a[0] && (a + b)[1..] == a[1..] + b;
      WithKeyConcat(a[1..], b, key, v);
      var head := if key(a[0]) == v then [a[0]] else [];
      assert head + (WithKey(a[1..], key, v) + WithKey(b, key, v))
          == (head + WithKey(a[1..], key, v)) + WithKey(b, key, v);
    }
  }

  lemma SortedByTail<T>(s: seq<T>, key: T -> real)
    requires SortedBy(s, key) && |s| > 0
    ensures SortedBy(s[1..], key)
  {
    forall i, j | 0 <= i < j < |s| - 1
      ensures key(s[1..][i]) <= key(s[1..][j])
    {
      assert s[1..][i] == s[i + 1] && s[1..][j] == s[j + 1];
    }
  }

  lemma ConsWithKey<T>(h: T, u: seq<T>, key: T -> real, v: real)
    ensures WithKey([h] + u, key, v) == (if key(h) == v then [h] else []) + WithKey(u, key, v)
  {
    assert ([h] + u)[0] == h && ([h] + u)[1..] == u;
  }

  /** Inserting `x` puts it after every element with the same key. */
  lemma {:induction false} InsertByWithKey<T>(x: T, s: seq<T>, key: T -> real, v: real)
    requires SortedBy(s, key)
    ensures WithKey(InsertBy(x, s, key), key, v)
         == WithKey(s, key, v) + (if key(x) == v then [x] else [])
    decreases |s|
  {
    if |s| == 0 {
      ConsWithKey(x, [], key, v);
      assert [x] + [] == [x];
    } else if key(x) < key(s[0]) {
      assert InsertBy(x, s, key) == [x] + s;
      InsertFront(x, s, key, v);
    } else {
      var t := InsertBy(x, s[1..], key);
      assert InsertBy(x, s, key) == [s[0]] + t;
      SortedByTail(s, key);
      InsertByWithKey(x, s[1..], key, v);
      ConsAppend(s[0], s[1..], t, if key(x) == v then [x] else [], key, v);
    }
  }

  /** An element whose key is below a sorted sequence's head goes in front,
      and comes after every element of its own key (there are none). */
  lemma InsertFront<T>(x: T, s: seq<T>, key: T -> real, v: real)
    requires SortedBy(s, key) && |s| > 0 && key(x) < key(s[0])
    ensures WithKey([x] + s, key, v) == WithKey(s, key, v) + (if key(x) == v then [x] else [])
  {
    ConsWithKey(x, s, key, v);
    if key(x) == v {
      forall i | 0 <= i < |s|
        ensures key(s[i]) != v
      {
        if i > 0 {
          assert key(s[0]) <= key(s[i]);
        }
      }
      NoneWithKey(s, key, v);
    } else {
      assert [] + WithKey(s, key, v) == WithKey(s, key, v) + [];
    }
  }

  /** One step of the insertion: the head stays in front of the inserted tail. */
  lemma ConsAppend<T>(h: T, u: seq<T>, t: seq<T>, tail: seq<T>, key: T -> real, v: real)
    requires WithKey(t, key, v) == WithKey(u, key, v) + tail
    ensures WithKey([h] + t, key, v) == WithKey([h] + u, key, v) + tail
  {
    ConsWithKey(h, t, key, v);
    ConsWithKey(h, u, key, v);
    var wu := WithKey(u, key, v);
    if key(h) == v {
      assert [h] + (wu + tail) == ([h] + wu) + tail;
    } else {
      assert [] + (wu + tail) == ([] + wu) + tail;
    }
  }

  /** A sequence with no element of key `v` selects nothing. */
  lemma {:induction false} NoneWithKey<T>(s: seq<T>, key: T -> real, v: real)
    requires forall i :: 0 <= i < |s| ==> key(s[i]) != v
    ensures WithKey(s, key, v) == []
    decreases |s|
  {
    if |s| > 0 {
      NoneWithKey(s[1..], key, v);
    }
  }

  lemma SortByLast<T>(s: seq<T>, key: T -> real)
    requires |s| > 0
    ensures SortBy(s, key) == InsertBy(s[|s| - 1], SortBy(s[..|s| - 1], key), key)
  {
  }

  /** `SortBy` is stable: the elements sharing any one key come out in the
      order they went in. */
  lemma {:induction false} SortByStable<T>(s: seq<T>, key: T -> real, v: real)
    ensures WithKey(SortBy(s, key), key, v) == WithKey(s, key, v)
    decreases |s|
  {
    if |s| > 0 {
      var n := |s| - 1;
      SortByLast(s, key);
      InsertByWithKey(s[n], SortBy(s[..n], key), key, v);
      SortByStable(s[..n], key, v);
      LastWithKey(s, key, v);
    }
  }

  lemma LastWithKey<T>(s: seq<T>, key: T -> real, v: real)
    requires |s| > 0
    ensures WithKey(s, key, v)
         == WithKey(s[..|s| - 1], key, v) + (if key(s[|s| - 1]) == v then [s[|s| - 1]] else [])
  {
    var n := |s| - 1;
    assert s == s[..n] + [s[n]];
    WithKeyConcat(s[..n], [s[n]], key, v);
    ConsWithKey(s[n], [], key, v);
    assert [s[n]] + [] == [s[n]];
  }

  /** Picking out the elements of one key keeps a second ordering. */
  lemma {:induction false} WithKeySorted<T>(s: seq<T>, key: T -> real, v: real, key2: T -> real)
    requires SortedBy(s, key2)
    ensures SortedBy(WithKey(s, key, v), key2)
    decreases |s|
  {
    if |s| > 0 {
      SortedByTail(s, key2);
      WithKeySorted(s[1..], key, v, key2);
      assert s == [s[0]] + s[1..];
      ConsWithKey(s[0], s[1..], key, v);
      var rest := WithKey(s[1..], key, v);
      if key(s[0]) == v {
        HeadBelowSelection(s, key, v, key2);
        ConsSorted(s[0], rest, key2);
      } else {
        assert [] + rest == rest;
      }
    }
  }

  lemma HeadBelowSelection<T>(s: seq<T>, key: T -> real, v: real, key2: T -> real)
    requires SortedBy(s, key2) && |s| > 0
    ensures forall y :: y in WithKey(s[1..], key, v) ==> key2(s[0]) <= key2(y)
  {
    forall y | y in WithKey(s[1..], key, v)
      ensures key2(s[0]) <= key2(y)
    {
      WithKeyMember(s[1..], key, v, y);
      var k :| 0 <= k < |s| - 1 && s[1..][k] == y;
      assert s[k + 1] == y;
    }
  }

  lemma ConsSorted<T>(h: T, u: seq<T>, key2: T -> real)
    requires SortedBy(u, key2)
    requires forall y :: y in u ==> key2(h) <= key2(y)
    ensures SortedBy([h] + u, key2)
  {
    forall i, j | 0 <= i < j < |u| + 1
      ensures key2(([h] + u)[i]) <= key2(([h] + u)[j])
    {
      assert ([h] + u)[j] == u[j - 1];
      if i > 0 {
        assert ([h] + u)[i] == u[i - 1];
      } else {
        assert u[j - 1] in u;
      }
    }
  }

  lemma SplitWithKey<T>(a: seq<T>, h: T, b: seq<T>, key: T -> real)
    ensures WithKey(a + ([h] + b), key, key(h))
         == WithKey(a, key, key(h)) + ([h] + WithKey(b, key, key(h)))
  {
    WithKeyConcat(a, [h] + b, key, key(h));
    ConsWithKey(h, b, key, key(h));
  }

  /** Two elements of `s` with the same key keep, in any second ordering the
      key's selection is sorted by, the order `s` has them in. */
  lemma PairWithKey<T>(s: seq<T>, key: T -> real, key2: T -> real, i: nat, j: nat)
    requires i < j < |s| && key(s[i]) == key(s[j])
    requires SortedBy(WithKey(s, key, key(s[i])), key2)
    ensures key2(s[i]) <= key2(s[j])
  {
    var v := key(s[i]);
    var a, b, c := s[..i], s[i + 1..j], s[j + 1..];
    SplitAt(s, i, j);
    SplitWithKey(a, s[i], b + ([s[j]] + c), key);
    SplitWithKey(b, s[j], c, key);
    var wa, wb := WithKey(a, key, v), WithKey(b, key, v);
    var w := wa + ([s[i]] + (wb + ([s[j]] + WithKey(c, key, v))));
    assert WithKey(s, key, v) == w;
    OrderedPair(wa, s[i], wb, s[j], WithKey(c, key, v), key2);
  }

  lemma OrderedPair<T>(a: seq<T>, x: T, b: seq<T>, y: T, c: seq<T>, key2: T -> real)
    requires SortedBy(a + ([x] + (b + ([y] + c))), key2)
    ensures key2(x) <= key2(y)
  {
    var w := a + ([x] + (b + ([y] + c)));
    assert w[|a|] == x;
    assert w[|a| + 1 + |b|] == y;
  }

  lemma SplitAt<T>(s: seq<T>, i: nat, j: nat)
    requires i < j < |s|
    ensures s == s[..i] + ([s[i]] + (s[i + 1..j] + ([s[j]] + s[j + 1..])))
  {
    assert s[j..] == [s[j]] + s[j + 1..];
    assert s[i + 1..] == s[i + 1..j] + s[j..];
    assert s[i..] == [s[i]] + s[i + 1..];
    assert s == s[..i] + s[i..];
  }

  function Id(x: real): real { x }

  /** The first element of an ascending sequence of reals is its least value. */
  lemma HeadIsLeast(a: seq<real>, x: real)
    requires SortedBy(a, Id) && |a| > 0
    requires x in a
    ensures a[0] <= x
  {
    var i :| 0 <= i < |a| && a[i] == x;
    assert Id(a[0]) <= Id(a[i]);
  }

  lemma SortedTail(a: seq<real>)
    requires SortedBy(a, Id) && |a| > 0
    ensures SortedBy(a[1..], Id)
  {
    forall i, j | 0 <= i < j < |a| - 1
      ensures Id(a[1..][i]) <= Id(a[1..][j])
    {
      assert a[1..][i] == a[i + 1] && a[1..][j] == a[j + 1];
    }
  }

  lemma MultisetTail(a: seq<real>, b: seq<real>)
    requires |a| > 0 && |b| > 0 && a[0] == b[0]
    requires multiset(a) == multiset(b)
    ensures multiset(a[1..]) == multiset(b[1..])
  {
    assert a == [a[0]] + a[1..];
    assert b == [b[0]] + b[1..];
    assert multiset(a) == multiset{a[0]} + multiset(a[1..]);
    assert multiset(b) == multiset{b[0]} + multiset(b[1..]);
    assert multiset(a[1..]) == multiset(a) - multiset{a[0]};
    assert multiset(b[1..]) == multiset(b) - multiset{b[0]};
  }

  /** Two ascending sequences of reals holding the same values are equal, so
      an ascending sort of reals has exactly one possible result. */
  lemma {:induction false} SortedUnique(a: seq<real>, b: seq<real>)
    requires SortedBy(a, Id) && SortedBy(b, Id)
    requires multiset(a) == multiset(b)
    ensures a == b
    decreases |a|
  {
    assert |a| == |multiset(a)| == |multiset(b)| == |b|;
    if |a| > 0 {
      SameHead(a, b);
      MultisetTail(a, b);
      SortedTail(a);
      SortedTail(b);
      SortedUnique(a[1..], b[1..]);
      ConsTail(a, b);
    }
  }

  lemma SameHead(a: seq<real>, b: seq<real>)
    requires SortedBy(a, Id) && SortedBy(b, Id) && |a| > 0 && |b| > 0
    requires multiset(a) == multiset(b)
    ensures a[0] == b[0]
  {
    assert a[0] in multiset(b) && b[0] in multiset(a);
    HeadIsLeast(b, a[0]);
    HeadIsLeast(a, b[0]);
  }

  lemma ConsTail(a: seq<real>, b: seq<real>)
    requires |a| > 0 && |b| > 0 && a[0] == b[0] && a[1..] == b[1..]
    ensures a == b
  {
    assert a == [a[0]] + a[1..];
    assert b == [b[0]] + b[1..];
  }

}
