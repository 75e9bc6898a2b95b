/** Sorting a sequence by an integer key, and what two sorted orders of the same elements share. */
module Sorting {

  /** The keys never decrease along `s`. */
  ghost predicate SortedBy<T>(s: seq<T>, key: T -> int)
  {
    forall i, j :: 0 <= i < j < |s| ==> key(s[i]) <= key(s[j])
  }

  /** Inserts `x` in front of the first element whose key is not smaller. */
  function Insert<T>(x: T, s: seq<T>, key: T -> int): (r: seq<T>)
    requires SortedBy(s, key)
    ensures SortedBy(r, key)
    ensures multiset(r) == multiset(s) + multiset{x}
  {
    if s == [] then [x]
    else if key(x) <= key(s[0]) then [x] + s
    else
      var rest := Insert(x, s[1..], key);
      assert s == [s[0]] + s[1..];
      LowerBound(s[0], x, s[1..], rest, key);
      SortedCons(s[0], rest, key);
      [s[0]] + rest
  }

  lemma LowerBound<T>(h: T, x: T, t: seq<T>, r: seq<T>, key: T -> int)
    requires key(h) <= key(x)
    requires forall k :: 0 <= k < |t| ==> key(h) <= key(t[k])
    requires multiset(r) == multiset(t) + multiset{x}
    ensures forall k :: 0 <= k < |r| ==> key(h) <= key(r[k])
  {
    forall k | 0 <= k < |r| ensures key(h) <= key(r[k]) {
      assert r[k] in multiset(r);
      if r[k] != x {
        assert r[k] in multiset(t);
        var i :| 0 <= i < |t| && t[i] == r[k];
      }
    }
  }

  lemma SortedCons<T>(h: T, t: seq<T>, key: T -> int)
    requires SortedBy(t, key)
    requires forall k :: 0 <= k < |t| ==> key(h) <= key(t[k])
    ensures SortedBy([h] + t, key)
  {
  }

  /** Sorts `s` in ascending order of `key` (insertion sort). */
  function SortBy<T>(s: seq<T>, key: T -> int): (r: seq<T>)
    ensures SortedBy(r, key)
    ensures multiset(r) == multiset(s)
  {
    if s == [] then []
    else
      assert s == [s[0]] + s[1..];
      Insert(s[0], SortBy(s[1..], key), key)
  }

  /** The sequence of the keys of `s`, position by position. */
  function Keys<T>(s: seq<T>, key: T -> int): (r: seq<int>)
    ensures |r| == |s|
    ensures forall i :: 0 <= i < |s| ==> r[i] == key(s[i])
  {
    seq(|s|, i requires 0 <= i < |s| => key(s[i]))
  }

  lemma KeysAppend<T>(a: seq<T>, b: seq<T>, key: T -> int)
    ensures Keys(a + b, key) == Keys(a, key) + Keys(b, key)
  {
    var l, r := Keys(a + b, key), Keys(a, key) + Keys(b, key);
    assert |l| == |r|;
    forall i | 0 <= i < |l| ensures l[i] == r[i] {
      if i < |a| {
        assert (a + b)[i] == a[i];
      } else {
        assert (a + b)[i] == b[i - |a|];
      }
    }
  }

  /** Removing the element at `j` removes one copy of it from the multiset. */
  lemma RemoveAt<T>(b: seq<T>, j: nat)
    requires j < |b|
    ensures multiset(b[..j] + b[j + 1..]) == multiset(b) - multiset{b[j]}
  {
    assert b == b[..j] + [b[j]] + b[j + 1..];
    assert multiset(b) == multiset(b[..j]) + multiset{b[j]} + multiset(b[j + 1..]);
  }

  /** Removing the first element removes one copy of it from the multiset. */
  lemma RemoveFirst<T>(a: seq<T>)
    requires a != []
    ensures multiset(a[1..]) == multiset(a) - multiset{a[0]}
  {
    assert a == [a[0]] + a[1..];
    assert multiset(a) == multiset{a[0]} + multiset(a[1..]);
  }

  /** The keys of `b` are those of `b` without its element at `j`, plus that element's key. */
  lemma KeysRemoveAt<T>(b: seq<T>, j: nat, key: T -> int)
    requires j < |b|
    ensures multiset(Keys(b, key)) == multiset(Keys(b[..j] + b[j + 1..], key)) + multiset{key(b[j])}
  {
    var front, back := b[..j], b[j + 1..];
    assert b == front + ([b[j]] + back);
    KeysAppend(front, [b[j]] + back, key);
    KeysAppend([b[j]], back, key);
    KeysAppend(front, back, key);
    var kf, kb := Keys(front, key), Keys(back, key);
    assert Keys([b[j]], key) == [key(b[j])];
    assert Keys(b, key) == kf + ([key(b[j])] + kb);
    assert Keys(front + back, key) == kf + kb;
    assert multiset(kf + ([key(b[j])] + kb)) == multiset(kf) + multiset{key(b[j])} + multiset(kb);
  }

  /** Two orders of the same elements carry the same keys, counted with multiplicity. */
  lemma {:induction false} MultisetKeys<T>(a: seq<T>, b: seq<T>, key: T -> int)
    requires multiset(a) == multiset(b)
    ensures multiset(Keys(a, key)) == multiset(Keys(b, key))
  {
    if a == [] {
      assert |b| == |multiset(b)| == 0;
    } else {
      assert a[0] in multiset(b);
      var j :| 0 <= j < |b| && b[j] == a[0];
      RemoveAt(b, j);
      RemoveFirst(a);
      MultisetKeys(a[1..], b[..j] + b[j + 1..], key);
      MultisetKeysStep(a, b, j, key);
    }
  }

  /** Putting back one element of equal key on both sides keeps the key multisets equal. */
  lemma MultisetKeysStep<T>(a: seq<T>, b: seq<T>, j: nat, key: T -> int)
    requires a != [] && j < |b| && b[j] == a[0]
    requires multiset(Keys(a[1..], key)) == multiset(Keys(b[..j] + b[j + 1..], key))
    ensures multiset(Keys(a, key)) == multiset(Keys(b, key))
  {
    KeysRemoveAt(b, j, key);
    KeysRemoveFirst(a, key);
    var k := key(a[0]);
    var ka, kb := multiset(Keys(a[1..], key)), multiset(Keys(b[..j] + b[j + 1..], key));
    assert multiset(Keys(a, key)) == ka + multiset{k};
    assert multiset(Keys(b, key)) == kb + multiset{k};
  }

  /** The keys of `a` are those of its tail plus the key of its head. */
  lemma KeysRemoveFirst<T>(a: seq<T>, key: T -> int)
    requires a != []
    ensures multiset(Keys(a, key)) == multiset(Keys(a[1..], key)) + multiset{key(a[0])}
  {
    var ks := Keys(a, key);
    assert ks == [key(a[0])] + Keys(a[1..], key);
  }

  /** Non-decreasing integers. */
  ghost predicate Ascending(s: seq<int>)
  {
    forall i, j :: 0 <= i < j < |s| ==> s[i] <= s[j]
  }

  /** Two ascending arrangements of one multiset start with the same (least) element. */
  lemma AscendingHeads(a: seq<int>, b: seq<int>)
    requires Ascending(a) && Ascending(b)
    requires multiset(a) == multiset(b)
    requires a != []
    ensures |a| == |b| && a[0] == b[0]
  {
    assert |a| == |multiset(a)| == |multiset(b)| == |b|;
    assert a[0] in multiset(b);
    var i :| 0 <= i < |b| && b[i] == a[0];
    assert b[0] in multiset(a);
    var k :| 0 <= k < |a| && a[k] == b[0];
  }

  /** A multiset of integers has exactly one ascending arrangement. */
  lemma {:induction false} AscendingUnique(a: seq<int>, b: seq<int>)
    requires Ascending(a) && Ascending(b)
    requires multiset(a) == multiset(b)
    ensures a == b
  {
    if a == [] {
      assert |b| == |multiset(b)| == 0;
    } else {
      AscendingHeads(a, b);
      RemoveFirst(a);
      RemoveFirst(b);
      AscendingUnique(a[1..], b[1..]);
      assert a == [a[0]] + a[1..] && b == [b[0]] + b[1..];
    }
  }

  /** Two orders of the same elements, both sorted by `key`, agree on the key at every position,
      however ties between equal keys are broken. */
  lemma SortedKeysAgree<T>(a: seq<T>, b: seq<T>, key: T -> int)
    requires SortedBy(a, key) && SortedBy(b, key)
    requires multiset(a) == multiset(b)
    ensures Keys(a, key) == Keys(b, key)
  {
    MultisetKeys(a, b, key);
    AscendingUnique(Keys(a, key), Keys(b, key));
  }
}
