/** Sorting by a string key. The operator's sorts are library calls of unspecified
    stability, so callers get only "a sorted permutation"; the lemmas say when that
    already fixes the result. */
module Sorting {
  import opened Text

  predicate SortedBy<T>(key: T -> string, s: seq<T>) {
    forall i, j :: 0 <= i < j < |s| ==> Leq(key(s[i]), key(s[j]))
  }

  /** Equal keys mean equal elements. */
  ghost predicate KeyFaithful<T>(key: T -> string, s: seq<T>) {
    forall i, j :: 0 <= i < |s| && 0 <= j < |s| && key(s[i]) == key(s[j]) ==> s[i] == s[j]
  }

  function Insert<T>(key: T -> string, x: T, s: seq<T>): (r: seq<T>) {
    if s == [] || Leq(key(x), key(s[0])) then [x] + s
    else [s[0]] + Insert(key, x, s[1..])
  }

  function Sorted<T>(key: T -> string, s: seq<T>): (r: seq<T>) {
    if s == [] then [] else Insert(key, s[0], Sorted(key, s[1..]))
  }

  lemma {:induction false} InsertAdds<T>(key: T -> string, x: T, s: seq<T>)
    ensures multiset(Insert(key, x, s)) == multiset(s) + multiset{x}
  {
    if s != [] && !Leq(key(x), key(s[0])) {
      InsertAdds(key, x, s[1..]);
      assert s == [s[0]] + s[1..];
    }
  }

  lemma SortedCons<T>(key: T -> string, x: T, s: seq<T>)
    requires SortedBy(key, s) && forall y :: y in s ==> Leq(key(x), key(y))
    ensures SortedBy(key, [x] + s)
  {
    var r := [x] + s;
    forall i, j | 0 <= i < j < |r| ensures Leq(key(r[i]), key(r[j])) {
      assert r[j] == s[j - 1];
      if i > 0 { assert r[i] == s[i - 1]; }
    }
  }

  lemma {:induction false} InsertSorts<T>(key: T -> string, x: T, s: seq<T>)
    requires SortedBy(key, s)
    ensures SortedBy(key, Insert(key, x, s))
  {
    if s == [] {
    } else if Leq(key(x), key(s[0])) {
      forall y | y in s ensures Leq(key(x), key(y)) {
        var j :| 0 <= j < |s| && s[j] == y;
        if j > 0 { LeqTransitive(key(x), key(s[0]), key(y)); }
      }
      SortedCons(key, x, s);
    } else {
      var rest := Insert(key, x, s[1..]);
      InsertSorts(key, x, s[1..]);
      InsertAdds(key, x, s[1..]);
      forall y | y in rest ensures Leq(key(s[0]), key(y)) {
        assert y in multiset(rest);
        if y == x {
          LessImpliesLeq(key(s[0]), key(x));
        } else {
          assert y in multiset(s[1..]);
          assert y in s[1..];
        }
      }
      SortedCons(key, s[0], rest);
    }
  }

  lemma {:induction false} SortedIsSorted<T>(key: T -> string, s: seq<T>)
    ensures multiset(Sorted(key, s)) == multiset(s)
    ensures SortedBy(key, Sorted(key, s))
  {
    if s != [] {
      SortedIsSorted(key, s[1..]);
      InsertAdds(key, s[0], Sorted(key, s[1..]));
      InsertSorts(key, s[0], Sorted(key, s[1..]));
      assert s == [s[0]] + s[1..];
    }
  }

  /** `sort.Slice` / `sort.SliceStable` / `sort.Strings`: some sorted permutation. */
  method Sort<T(==)>(key: T -> string, s: seq<T>) returns (r: seq<T>)
    ensures multiset(r) == multiset(s)
    ensures SortedBy(key, r)
  {
    r := Sorted(key, s);
    SortedIsSorted(key, s);
  }

  lemma TailMultiset<T>(s: seq<T>)
    requires s != []
    ensures multiset(s[1..]) == multiset(s) - multiset{s[0]}
  {
    assert s == [s[0]] + s[1..];
  }

  lemma FirstKeysAgree<T>(key: T -> string, a: seq<T>, b: seq<T>)
    requires multiset(a) == multiset(b) && a != [] && b != []
    requires SortedBy(key, a) && SortedBy(key, b)
    ensures key(a[0]) == key(b[0]) && b[0] in a
  {
    assert a[0] in multiset(b) && b[0] in multiset(a);
    var i :| 0 <= i < |b| && b[i] == a[0];
    var j :| 0 <= j < |a| && a[j] == b[0];
    LessIrreflexive(key(a[0]));
    LeqAntisymmetric(key(a[0]), key(b[0]));
  }

  lemma {:induction false} SortedUnique<T>(key: T -> string, a: seq<T>, b: seq<T>)
    requires multiset(a) == multiset(b)
    requires SortedBy(key, a) && SortedBy(key, b)
    requires KeyFaithful(key, a)
    ensures a == b
  {
    SameMultisetSameElements(a, b);
    if a != [] {
      FirstKeysAgree(key, a, b);
      TailMultiset(a);
      TailMultiset(b);
      assert a[0] == b[0];
      SortedUnique(key, a[1..], b[1..]);
      assert a == [a[0]] + a[1..] && b == [b[0]] + b[1..];
    }
  }

  // ------------------------------------------------------------------ sets of strings, listed in order

  predicate StrictlySorted(s: seq<string>) {
    forall i, j :: 0 <= i < j < |s| ==> Less(s[i], s[j])
  }

  function Elements<T(==)>(s: seq<T>): set<T> {
    set x | x in s
  }

  lemma {:induction false} LeastExists(s: set<string>) returns (x: string)
    requires s != {}
    ensures x in s && forall y :: y in s && y != x ==> Less(x, y)
  {
    var z :| z in s;
    if s == {z} {
      x := z;
    } else {
      var w := LeastExists(s - {z});
      LessTotal(z, w);
      if Less(z, w) {
        x := z;
        forall y | y in s && y != x ensures Less(x, y) {
          if y != w { LessTransitive(z, w, y); }
        }
      } else {
        x := w;
      }
    }
  }

  ghost function Least(s: set<string>): (x: string)
    requires s != {}
    ensures x in s && forall y :: y in s && y != x ==> Less(x, y)
  {
    assert exists x :: x in s && forall y :: y in s && y != x ==> Less(x, y) by {
      var x := LeastExists(s);
    }
    var x :| x in s && forall y :: y in s && y != x ==> Less(x, y);
    x
  }

  /** The strings of a set in increasing order. */
  ghost function Ascending(s: set<string>): (r: seq<string>)
    ensures StrictlySorted(r)
    ensures Elements(r) == s
    ensures |r| == |s|
  {
    if s == {} then []
    else
      var x := Least(s);
      var rest := Ascending(s - {x});
      assert forall j :: 0 <= j < |rest| ==> rest[j] in Elements(rest);
      assert Elements([x] + rest) == s by {
        forall y ensures y in [x] + rest <==> y in s {
          assert y in rest <==> y in Elements(rest);
        }
      }
      [x] + rest
  }

  lemma StrictHasNoDuplicates(s: seq<string>)
    requires StrictlySorted(s)
    ensures forall i, j :: 0 <= i < |s| && 0 <= j < |s| && s[i] == s[j] ==> i == j
  {
    forall i, j | 0 <= i < |s| && 0 <= j < |s| && s[i] == s[j] ensures i == j {
      LessIrreflexive(s[i]);
    }
  }

  lemma {:induction false} StrictUnique(a: seq<string>, b: seq<string>)
    requires StrictlySorted(a) && StrictlySorted(b)
    requires Elements(a) == Elements(b)
    ensures a == b
  {
    assert a != [] ==> a[0] in Elements(a);
    assert b != [] ==> b[0] in Elements(b);
    if a != [] {
      assert a[0] in Elements(b) && (b == [] || b[0] in Elements(a));
      var i :| 0 <= i < |b| && b[i] == a[0];
      var j :| 0 <= j < |a| && a[j] == b[0];
      if i > 0 && j > 0 {
        LessTransitive(a[0], b[0], a[0]);
        LessIrreflexive(a[0]);
      }
      assert a[0] == b[0];
      StrictHasNoDuplicates(a);
      StrictHasNoDuplicates(b);
      assert Elements(a[1..]) == Elements(a) - {a[0]};
      assert Elements(b[1..]) == Elements(b) - {b[0]};
      StrictUnique(a[1..], b[1..]);
    }
  }

  /** A strictly sorted list is the ascending listing of its elements. */
  lemma AscendingIs(s: seq<string>)
    requires StrictlySorted(s)
    ensures s == Ascending(Elements(s))
  {
    StrictUnique(s, Ascending(Elements(s)));
  }

  ghost predicate NoDuplicates<T>(s: seq<T>) {
    forall i, j :: 0 <= i < j < |s| ==> s[i] != s[j]
  }

  lemma {:induction false} NoDuplicatesCard<T>(s: seq<T>)
    requires NoDuplicates(s)
    ensures |Elements(s)| == |s|
    ensures forall x :: multiset(s)[x] <= 1
  {
    if s != [] {
      var t := s[..|s| - 1];
      var x := s[|s| - 1];
      NoDuplicatesCard(t);
      assert s == t + [x];
      assert Elements(s) == Elements(t) + {x};
      assert x !in t;
    }
  }

  lemma {:induction false} CountBounded<T>(s: seq<T>, i: nat, j: nat)
    requires i < j < |s| && s[i] == s[j]
    ensures multiset(s)[s[i]] >= 2
  {
    assert s == s[..i] + [s[i]] + s[i + 1..j] + [s[j]] + s[j + 1..];
  }

  /** A sorted permutation of a duplicate-free list of strings. */
  lemma SortedDistinct(s: seq<string>, r: seq<string>)
    requires NoDuplicates(s) && multiset(r) == multiset(s)
    requires SortedBy((x: string) => x, r)
    ensures r == Ascending(Elements(s))
  {
    NoDuplicatesCard(s);
    forall i, j | 0 <= i < j < |r| ensures Less(r[i], r[j]) {
      LessTotal(r[i], r[j]);
      if r[i] == r[j] { CountBounded(r, i, j); }
    }
    SameMultisetSameElements(r, s);
    AscendingIs(r);
  }

  /** `sort.Strings` on different strings. */
  method SortStrings(s: seq<string>) returns (r: seq<string>)
    requires NoDuplicates(s)
    ensures r == Ascending(Elements(s))
  {
    r := Sort((x: string) => x, s);
    SortedDistinct(s, r);
  }

  lemma SameMultisetSameElements<T>(a: seq<T>, b: seq<T>)
    requires multiset(a) == multiset(b)
    ensures Elements(a) == Elements(b) && |a| == |b|
  {
    assert forall x :: x in a <==> x in multiset(a);
    assert forall x :: x in b <==> x in multiset(b);
    assert |multiset(a)| == |a| && |multiset(b)| == |b|;
  }

  lemma Swap<T>(s: multiset<T>, a: multiset<T>, b: multiset<T>)
    ensures (s + a) + b == (s + b) + a
  {
  }

  function Without<T>(s: seq<T>, i: nat): seq<T>
    requires i < |s|
  {
    s[..i] + s[i + 1..]
  }

  lemma WithoutMultiset<T>(s: seq<T>, i: nat)
    requires i < |s|
    ensures multiset(Without(s, i)) == multiset(s) - multiset{s[i]}
  {
    assert s == s[..i] + [s[i]] + s[i + 1..];
  }

  lemma WithoutInit<T>(s: seq<T>, i: nat)
    requires i < |s|
    ensures s == s[..|s| - 1] + [s[|s| - 1]]
    ensures Without(s, i) == if i == |s| - 1 then s[..|s| - 1] else Without(s[..|s| - 1], i) + [s[|s| - 1]]
  {
  }

  /** The element at `i` first, the others in order. */
  function Hoist<T>(s: seq<T>, i: nat): seq<T>
    requires i < |s|
  {
    [s[i]] + Without(s, i)
  }

  /** Where the k-th element after hoisting was. */
  function HoistedFrom(i: nat, k: nat): nat {
    if k == 0 then i else if k <= i then k - 1 else k
  }

  lemma HoistAt<T>(s: seq<T>, i: nat, k: nat)
    requires i < |s| && k < |s|
    ensures |Hoist(s, i)| == |s| && HoistedFrom(i, k) < |s| && Hoist(s, i)[k] == s[HoistedFrom(i, k)]
  {
  }

  lemma HoistMultiset<T>(s: seq<T>, i: nat)
    requires i < |s|
    ensures multiset(Hoist(s, i)) == multiset(s)
  {
    WithoutMultiset(s, i);
  }

  function Sum<T>(f: T -> nat, s: seq<T>): nat {
    if s == [] then 0 else Sum(f, s[..|s| - 1]) + f(s[|s| - 1])
  }

  lemma {:induction false} SumWithout<T>(f: T -> nat, s: seq<T>, i: nat)
    requires i < |s|
    ensures Sum(f, s) == Sum(f, Without(s, i)) + f(s[i])
  {
    WithoutInit(s, i);
    if i < |s| - 1 {
      var init := s[..|s| - 1];
      SumWithout(f, init, i);
      assert (Without(init, i) + [s[|s| - 1]])[..|Without(init, i)|] == Without(init, i);
    }
  }

  lemma {:induction false} SumPermuted<T>(f: T -> nat, a: seq<T>, b: seq<T>)
    requires multiset(a) == multiset(b)
    ensures Sum(f, a) == Sum(f, b)
  {
    SameMultisetSameElements(a, b);
    if a != [] {
      var n := |a| - 1;
      assert a[n] in Elements(a);
      var i :| 0 <= i < |b| && b[i] == a[n];
      WithoutInit(a, n);
      WithoutMultiset(a, n);
      WithoutMultiset(b, i);
      SumPermuted(f, a[..n], Without(b, i));
      SumWithout(f, b, i);
    }
  }

  lemma TakeNext<T>(s: seq<T>, i: nat)
    requires i < |s|
    ensures s[..i + 1] == s[..i] + [s[i]]
  {
  }

  lemma ExtendDistinct<T>(s: seq<T>, x: T)
    requires NoDuplicates(s) && x !in s
    ensures NoDuplicates(s + [x])
    ensures Elements(s + [x]) == Elements(s) + {x}
  {
  }

  /** Sorting elements with different keys leaves the keys strictly increasing. */
  lemma StrictByKey<T>(key: T -> string, s: seq<T>, r: seq<T>)
    requires forall i, j :: 0 <= i < j < |s| ==> key(s[i]) != key(s[j])
    requires multiset(r) == multiset(s) && SortedBy(key, r)
    ensures forall i, j :: 0 <= i < j < |r| ==> Less(key(r[i]), key(r[j]))
  {
    SameMultisetSameElements(r, s);
    assert NoDuplicates(s);
    NoDuplicatesCard(s);
    forall i, j | 0 <= i < j < |r| ensures Less(key(r[i]), key(r[j])) {
      LessTotal(key(r[i]), key(r[j]));
      if r[i] == r[j] { CountBounded(r, i, j); }
      assert r[i] in Elements(r) && r[j] in Elements(r);
      var a :| 0 <= a < |s| && s[a] == r[i];
      var b :| 0 <= b < |s| && s[b] == r[j];
    }
  }

  // ------------------------------------------------------------------ listing a keyed map in key order

  function KeysOf<T>(key: T -> string, s: seq<T>): (ks: seq<string>)
    ensures |ks| == |s|
  {
    seq(|s|, i requires 0 <= i < |s| => key(s[i]))
  }

  /** Every value is stored under its own key. */
  ghost predicate KeyedBy<T>(key: T -> string, m: map<string, T>) {
    forall k :: k in m ==> key(m[k]) == k
  }

  /** The values of a map in the order of their keys. */
  ghost function Listing<T>(m: map<string, T>): (r: seq<T>)
    ensures |r| == |m|
  {
    var ks := Ascending(m.Keys);
    seq(|ks|, i requires 0 <= i < |ks| => assert ks[i] in Elements(ks); m[ks[i]])
  }

  /** The list holds, in some order, the values of the map under these keys. */
  ghost predicate Lists<T>(key: T -> string, s: seq<T>, keys: set<string>, m: map<string, T>) {
    && keys <= m.Keys
    && Elements(KeysOf(key, s)) == keys && NoDuplicates(KeysOf(key, s))
    && forall x :: x in s ==> key(x) in m && m[key(x)] == x
  }

  lemma ListsNext<T>(key: T -> string, s: seq<T>, keys: set<string>, m: map<string, T>, k: string)
    requires Lists(key, s, keys, m) && k in m && k !in keys && key(m[k]) == k
    ensures Lists(key, s + [m[k]], keys + {k}, m)
  {
    assert KeysOf(key, s + [m[k]]) == KeysOf(key, s) + [k];
    assert k !in Elements(KeysOf(key, s));
    ExtendDistinct(KeysOf(key, s), k);
  }

  lemma ElementsOfKeys<T>(key: T -> string, a: seq<T>, b: seq<T>)
    requires Elements(a) <= Elements(b)
    ensures Elements(KeysOf(key, a)) <= Elements(KeysOf(key, b))
  {
    forall k | k in KeysOf(key, a) ensures k in Elements(KeysOf(key, b)) {
      var i :| 0 <= i < |a| && KeysOf(key, a)[i] == k;
      assert a[i] in Elements(a);
      var j :| 0 <= j < |b| && b[j] == a[i];
      assert KeysOf(key, b)[j] == k;
    }
  }

  lemma KeysPermuted<T>(key: T -> string, r: seq<T>, s: seq<T>)
    requires multiset(r) == multiset(s)
    ensures Elements(KeysOf(key, r)) == Elements(KeysOf(key, s))
  {
    SameMultisetSameElements(r, s);
    ElementsOfKeys(key, r, s);
    ElementsOfKeys(key, s, r);
  }

  lemma KeysDiffer<T>(key: T -> string, s: seq<T>)
    requires NoDuplicates(KeysOf(key, s))
    ensures forall i, j :: 0 <= i < j < |s| ==> key(s[i]) != key(s[j])
  {
    assert forall i :: 0 <= i < |s| ==> KeysOf(key, s)[i] == key(s[i]);
  }

  lemma KeysStrict<T>(key: T -> string, s: seq<T>, r: seq<T>)
    requires NoDuplicates(KeysOf(key, s))
    requires multiset(r) == multiset(s) && SortedBy(key, r)
    ensures StrictlySorted(KeysOf(key, r))
  {
    KeysDiffer(key, s);
    StrictByKey(key, s, r);
  }

  lemma SortedKeysOf<T>(key: T -> string, s: seq<T>, r: seq<T>)
    requires NoDuplicates(KeysOf(key, s))
    requires multiset(r) == multiset(s) && SortedBy(key, r)
    ensures KeysOf(key, r) == Ascending(Elements(KeysOf(key, s)))
  {
    KeysPermuted(key, r, s);
    KeysStrict(key, s, r);
    AscendingIs(KeysOf(key, r));
  }

  /** Sorting such a list by key gives the listing, whatever the order was. */
  lemma SortedListing<T>(key: T -> string, s: seq<T>, m: map<string, T>, r: seq<T>)
    requires Lists(key, s, m.Keys, m)
    requires multiset(r) == multiset(s) && SortedBy(key, r)
    ensures r == Listing(m)
  {
    SortedKeysOf(key, s, r);
    SameMultisetSameElements(r, s);
    forall i | 0 <= i < |r| ensures r[i] == Listing(m)[i] {
      assert r[i] in Elements(r);
      assert KeysOf(key, r)[i] == key(r[i]);
    }
  }

  lemma ListingKeys<T>(key: T -> string, m: map<string, T>)
    requires KeyedBy(key, m)
    ensures KeysOf(key, Listing(m)) == Ascending(m.Keys)
    ensures NoDuplicates(KeysOf(key, Listing(m)))
  {
    var ks := Ascending(m.Keys);
    StrictHasNoDuplicates(ks);
    forall i | 0 <= i < |ks| ensures KeysOf(key, Listing(m))[i] == ks[i] {
      assert ks[i] in Elements(ks);
    }
  }

  lemma ListingLists<T>(key: T -> string, m: map<string, T>)
    requires KeyedBy(key, m)
    ensures Lists(key, Listing(m), m.Keys, m)
  {
    var ks := Ascending(m.Keys);
    ListingKeys(key, m);
    forall x | x in Listing(m) ensures key(x) in m && m[key(x)] == x {
      var i :| 0 <= i < |ks| && Listing(m)[i] == x;
      assert ks[i] in Elements(ks);
    }
  }
}
