/** The stable sort the passes rely on, over composite string keys. */
module Sorting {
  import opened Ir
  import opened Text

  /** Tuples of strings compare component by component. */
  type SortKey = seq<string>

  function CompareKeys(a: SortKey, b: SortKey): Ordering {
    if a == [] then (if b == [] then Equal else Less)
    else if b == [] then Greater
    else
      match CompareStrings(a[0], b[0])
      case Equal => CompareKeys(a[1..], b[1..])
      case other => other
  }

  predicate KeyLe(a: SortKey, b: SortKey) {
    CompareKeys(a, b) != Greater
  }

  /** Keys compare by their first components, and by the rest when these are equal. */
  lemma KeyOrder(a: SortKey, b: SortKey)
    requires a != [] && b != []
    ensures KeyLe(a, b) <==> ComesBefore(a[0], b[0]) || (a[0] == b[0] && KeyLe(a[1..], b[1..]))
    ensures KeyLe([], b) && !KeyLe(a, [])
  {
    StringOrder(a[0], b[0]);
    StringsFlip(a[0], b[0]);
    hide ComesBefore;
  }

  function Flip(o: Ordering): Ordering {
    match o case Less => Greater case Equal => Equal case Greater => Less
  }

  lemma {:induction false} StringsFlip(a: string, b: string)
    ensures CompareStrings(b, a) == Flip(CompareStrings(a, b))
    ensures CompareStrings(a, b) == Equal <==> a == b
  {
    if a != [] && b != [] { StringsFlip(a[1..], b[1..]); }
  }

  /** `a` ends before `b` differs from it, or holds the smaller character where they first differ. */
  ghost predicate ComesBefore(a: string, b: string) {
    exists k :: 0 <= k <= |a| && k < |b| && a[..k] == b[..k] && (k == |a| || a[k] < b[k])
  }

  /** Strings compare character by character, the shorter one first. */
  lemma {:induction false} StringOrder(a: string, b: string)
    ensures CompareStrings(a, b) == Less <==> ComesBefore(a, b)
  {
    if a != [] && b != [] && a[0] == b[0] {
      StringOrder(a[1..], b[1..]);
      if k :| 0 <= k <= |a| && k < |b| && a[..k] == b[..k] && (k == |a| || a[k] < b[k]) {
        assert k > 0;
        assert a[1..][..k - 1] == a[..k][1..] && b[1..][..k - 1] == b[..k][1..];
      }
      if k :| 0 <= k <= |a| - 1 && k < |b| - 1 && a[1..][..k] == b[1..][..k] && (k == |a| - 1 || a[1..][k] < b[1..][k]) {
        assert a[..k + 1] == [a[0]] + a[1..][..k] && b[..k + 1] == [b[0]] + b[1..][..k];
      }
    } else if a != [] && b != [] && ComesBefore(a, b) {
      var k :| 0 <= k <= |a| && k < |b| && a[..k] == b[..k] && (k == |a| || a[k] < b[k]);
    } else if a == [] && b != [] {
      assert a[..0] == b[..0];
    }
    if a != [] && b != [] && a[0] < b[0] { assert a[..0] == b[..0]; }
  }

  lemma {:induction false} StringsTransitive(a: string, b: string, c: string)
    requires CompareStrings(a, b) == Less && CompareStrings(b, c) == Less
    ensures CompareStrings(a, c) == Less
  {
    if a != [] && b != [] && c != [] && a[0] == b[0] && b[0] == c[0] { StringsTransitive(a[1..], b[1..], c[1..]); }
  }

  lemma {:induction false} KeysFlip(a: SortKey, b: SortKey)
    ensures CompareKeys(b, a) == Flip(CompareKeys(a, b))
    ensures CompareKeys(a, b) == Equal <==> a == b
  {
    if a != [] && b != [] {
      StringsFlip(a[0], b[0]);
      KeysFlip(a[1..], b[1..]);
    }
  }

  lemma {:induction false} KeysTransitive(a: SortKey, b: SortKey, c: SortKey)
    requires KeyLe(a, b) && KeyLe(b, c)
    ensures KeyLe(a, c)
  {
    if a != [] && b != [] && c != [] {
      StringsFlip(a[0], b[0]); StringsFlip(b[0], c[0]); StringsFlip(a[0], c[0]);
      if a[0] == b[0] == c[0] {
        KeysTransitive(a[1..], b[1..], c[1..]);
      } else if a[0] != b[0] && b[0] != c[0] {
        StringsTransitive(a[0], b[0], c[0]);
      }
    }
  }

  ghost predicate Sorted<T>(s: seq<T>, key: T -> SortKey) {
    forall i, j :: 0 <= i < j < |s| ==> KeyLe(key(s[i]), key(s[j]))
  }

  /** Inserts in front of the first element that is not smaller. */
  function Insert<T>(x: T, s: seq<T>, key: T -> SortKey): (r: seq<T>)
    ensures |r| == |s| + 1
  {
    if s == [] || KeyLe(key(x), key(s[0])) then [x] + s else [s[0]] + Insert(x, s[1..], key)
  }

  /** `sort_by` on the key: stable, because an element is inserted before its equals. */
  function SortBy<T>(s: seq<T>, key: T -> SortKey): (r: seq<T>)
    ensures |r| == |s|
  {
    if s == [] then [] else Insert(s[0], SortBy(s[1..], key), key)
  }

  lemma {:induction false} InsertMembers<T>(x: T, s: seq<T>, key: T -> SortKey)
    ensures multiset(Insert(x, s, key)) == multiset(s) + multiset{x}
    decreases |s|
  {
    if s != [] {
      InsertMembers(x, s[1..], key);
      assert s == [s[0]] + s[1..];
    }
  }

  /** `k` is no larger than any key in `s`. */
  ghost predicate Below<T>(k: SortKey, s: seq<T>, key: T -> SortKey) {
    forall j :: 0 <= j < |s| ==> KeyLe(k, key(s[j]))
  }

  lemma SortedCons<T>(x: T, s: seq<T>, key: T -> SortKey)
    requires Sorted(s, key) && Below(key(x), s, key)
    ensures Sorted([x] + s, key)
  {
    hide KeyLe;
  }

  lemma SortedTail<T>(s: seq<T>, key: T -> SortKey)
    requires s != [] && Sorted(s, key)
    ensures Sorted(s[1..], key) && Below(key(s[0]), s[1..], key)
  {
    hide KeyLe;
  }

  lemma BelowTransitive<T>(k: SortKey, s: seq<T>, key: T -> SortKey)
    requires s != [] && Sorted(s, key) && KeyLe(k, key(s[0]))
    ensures Below(k, s, key)
  {
    forall j | 0 <= j < |s| ensures KeyLe(k, key(s[j])) {
      if j > 0 { KeysTransitive(k, key(s[0]), key(s[j])); }
    }
  }

  lemma BelowInsert<T>(k: SortKey, x: T, s: seq<T>, key: T -> SortKey)
    requires Below(k, s, key) && KeyLe(k, key(x))
    ensures Below(k, Insert(x, s, key), key)
  {
    hide KeyLe;
    InsertMembers(x, s, key);
    var r := Insert(x, s, key);
    forall j | 0 <= j < |r| ensures KeyLe(k, key(r[j])) {
      assert r[j] in multiset(r);
    }
  }

  lemma {:induction false} InsertSorted<T>(x: T, s: seq<T>, key: T -> SortKey)
    requires Sorted(s, key)
    ensures Sorted(Insert(x, s, key), key)
    decreases |s|
  {
    hide Sorted, Below, CompareKeys;
    if s == [] {
      SortedOne(x, key);
      assert [x] + s == [x];
    } else if KeyLe(key(x), key(s[0])) {
      BelowTransitive(key(x), s, key);
      SortedCons(x, s, key);
    } else {
      KeysFlip(key(x), key(s[0]));
      SortedTail(s, key);
      InsertSorted(x, s[1..], key);
      BelowInsert(key(s[0]), x, s[1..], key);
      SortedCons(s[0], Insert(x, s[1..], key), key);
    }
  }

  lemma SortedOne<T>(x: T, key: T -> SortKey)
    ensures Sorted([x], key)
  {
  }

  /** The result is a sorted permutation. */
  lemma {:induction false} SortBySorts<T>(s: seq<T>, key: T -> SortKey)
    ensures Sorted(SortBy(s, key), key)
    ensures multiset(SortBy(s, key)) == multiset(s)
    decreases |s|
  {
    if s != [] {
      SortBySorts(s[1..], key);
      InsertSorted(s[0], SortBy(s[1..], key), key);
      InsertMembers(s[0], SortBy(s[1..], key), key);
      assert s == [s[0]] + s[1..];
    }
  }

  /** The elements with a given key, in their order. */
  function WithKey<T>(s: seq<T>, key: T -> SortKey, k: SortKey): seq<T> {
    if s == [] then []
    else (if key(s[0]) == k then [s[0]] else []) + WithKey(s[1..], key, k)
  }

  lemma {:induction false} InsertIsStable<T>(x: T, s: seq<T>, key: T -> SortKey, k: SortKey)
    ensures WithKey(Insert(x, s, key), key, k) == WithKey([x] + s, key, k)
    decreases |s|
  {
    assert ([x] + s)[1..] == s;
    if s != [] && !KeyLe(key(x), key(s[0])) {
      KeysFlip(key(x), key(s[0]));
      InsertIsStable(x, s[1..], key, k);
      assert ([x] + s[1..])[1..] == s[1..];
      assert ([s[0]] + Insert(x, s[1..], key))[1..] == Insert(x, s[1..], key);
    }
  }

  /** Elements with equal keys keep their order. */
  lemma {:induction false} SortIsStable<T>(s: seq<T>, key: T -> SortKey, k: SortKey)
    ensures WithKey(SortBy(s, key), key, k) == WithKey(s, key, k)
    decreases |s|
  {
    if s != [] {
      SortIsStable(s[1..], key, k);
      var rest := SortBy(s[1..], key);
      InsertIsStable(s[0], rest, key, k);
      assert ([s[0]] + rest)[1..] == rest;
    }
  }

  lemma SortByMembers<T>(s: seq<T>, key: T -> SortKey)
    ensures forall x :: x in SortBy(s, key) <==> x in s
  {
    SortBySorts(s, key);
    forall x ensures x in SortBy(s, key) <==> x in s {
      assert x in SortBy(s, key) <==> x in multiset(SortBy(s, key));
      assert x in s <==> x in multiset(s);
    }
  }

  lemma SortByFrom<T>(s: seq<T>, key: T -> SortKey)
    ensures forall i :: 0 <= i < |SortBy(s, key)| ==> SortBy(s, key)[i] in s
  {
    var sorted := SortBy(s, key);
    SortBySorts(s, key);
    forall i | 0 <= i < |sorted| ensures sorted[i] in s {
      assert sorted[i] in multiset(sorted);
    }
  }

  /** A sorted sequence is left as it is. */
  lemma {:induction false} SortedIsFixed<T>(s: seq<T>, key: T -> SortKey)
    requires Sorted(s, key)
    ensures SortBy(s, key) == s
    decreases |s|
  {
    if s != [] { SortedIsFixed(s[1..], key); }
  }

  /** When no two different elements share a key, sorting forgets the original order. */
  lemma {:induction false} SortedUnique<T>(a: seq<T>, b: seq<T>, key: T -> SortKey)
    requires Sorted(a, key) && Sorted(b, key) && multiset(a) == multiset(b)
    requires forall x, y :: x in a && y in a && key(x) == key(y) ==> x == y
    ensures a == b
    decreases |a|, 1
  {
    hide Sorted, CompareKeys;
    assert |multiset(a)| == |a| && |multiset(b)| == |b|;
    if a != [] {
      assert a[0] in multiset(b) && b[0] in multiset(a);
      HeadIsLeast(b, key, a[0]);
      HeadIsLeast(a, key, b[0]);
      KeysFlip(key(a[0]), key(b[0]));
      assert a[0] == b[0];
      assert a == [a[0]] + a[1..] && b == [b[0]] + b[1..];
      assert multiset(a[1..]) == multiset(a) - multiset{a[0]};
      assert multiset(b[1..]) == multiset(b) - multiset{b[0]};
      TailsUnique(a, b, key);
    }
  }

  lemma {:induction false} TailsUnique<T>(a: seq<T>, b: seq<T>, key: T -> SortKey)
    requires a != [] && b != [] && Sorted(a, key) && Sorted(b, key) && multiset(a[1..]) == multiset(b[1..])
    requires forall x, y :: x in a && y in a && key(x) == key(y) ==> x == y
    ensures a[1..] == b[1..]
    decreases |a|, 0
  {
    assert forall x :: x in a[1..] ==> x in a;
    SortedUnique(a[1..], b[1..], key);
  }

  lemma HeadIsLeast<T>(s: seq<T>, key: T -> SortKey, x: T)
    requires Sorted(s, key) && x in s
    ensures KeyLe(key(s[0]), key(x))
  {
    var i :| 0 <= i < |s| && s[i] == x;
    KeysFlip(key(x), key(x));
  }
}
