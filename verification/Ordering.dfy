/** Comparison and sorting as the kernel uses them: String.compare, List.compare,
    List.sort and List.sort_uniq. A comparison is modelled by its strict "less" relation. */
module Ordering {
  import opened Sequences

  ghost predicate StrictOrder<T(!new)>(lt: (T, T) -> bool) {
    && (forall x :: !lt(x, x))
    && (forall x, y, z :: lt(x, y) && lt(y, z) ==> lt(x, z))
  }

  ghost predicate TotalOn<T(!new)>(lt: (T, T) -> bool, s: set<T>) {
    forall x, y :: x in s && y in s && x != y ==> lt(x, y) || lt(y, x)
  }

  ghost predicate StrictTotalOrder<T(!new)>(lt: (T, T) -> bool) {
    StrictOrder(lt) && forall x, y :: x == y || lt(x, y) || lt(y, x)
  }

  // ----- lexicographic comparison

  predicate CharLess(a: char, b: char) {
    a < b
  }

  /** List.compare: lexicographic, a proper prefix first. */
  predicate LexLess<T(==, !new)>(lt: (T, T) -> bool, a: seq<T>, b: seq<T>) {
    if b == [] then false
    else if a == [] then true
    else if a[0] == b[0] then LexLess(lt, a[1..], b[1..])
    else lt(a[0], b[0])
  }

  /** String.compare */
  predicate StringLess(a: string, b: string) {
    LexLess(CharLess, a, b)
  }

  /** List.compare String.compare */
  predicate StringsLess(a: seq<string>, b: seq<string>) {
    LexLess(StringLess, a, b)
  }

  /** Where they first differ, `a` ends or has the character with the lower code. */
  ghost predicate Precedes(a: string, b: string) {
    exists k :: 0 <= k <= |a| && k < |b| && a[..k] == b[..k] && (k == |a| || a[k] < b[k])
  }

  /** Where they first differ, `a` ends or has the string that precedes. */
  ghost predicate ListPrecedes(a: seq<string>, b: seq<string>) {
    exists k :: 0 <= k <= |a| && k < |b| && a[..k] == b[..k] && (k == |a| || Precedes(a[k], b[k]))
  }

  ghost predicate DiffersAt<T(!new)>(lt: (T, T) -> bool, a: seq<T>, b: seq<T>, k: nat) {
    k <= |a| && k < |b| && a[..k] == b[..k] && (k == |a| || lt(a[k], b[k]))
  }

  lemma {:induction false} LexDiffers<T(!new)>(lt: (T, T) -> bool, a: seq<T>, b: seq<T>) returns (k: nat)
    requires LexLess(lt, a, b)
    ensures DiffersAt(lt, a, b, k)
  {
    if a == [] || a[0] != b[0] {
      k := 0;
    } else {
      var m := LexDiffers(lt, a[1..], b[1..]);
      k := m + 1;
      assert a[..k] == [a[0]] + a[1..][..m] && b[..k] == [b[0]] + b[1..][..m];
    }
  }

  lemma {:induction false} DiffersLex<T(!new)>(lt: (T, T) -> bool, a: seq<T>, b: seq<T>, k: nat)
    requires DiffersAt(lt, a, b, k) && forall x :: !lt(x, x)
    ensures LexLess(lt, a, b)
  {
    if k > 0 {
      assert a[0] == a[..k][0] == b[..k][0] == b[0];
      assert a[1..][..k - 1] == a[..k][1..] && b[1..][..k - 1] == b[..k][1..];
      DiffersLex(lt, a[1..], b[1..], k - 1);
    }
  }

  lemma StringLessMeaning(a: string, b: string)
    ensures StringLess(a, b) <==> Precedes(a, b)
  {
    if StringLess(a, b) {
      var k := LexDiffers(CharLess, a, b);
      assert k == |a| || a[k] < b[k];
    }
    if Precedes(a, b) {
      var k :| 0 <= k <= |a| && k < |b| && a[..k] == b[..k] && (k == |a| || a[k] < b[k]);
      assert DiffersAt(CharLess, a, b, k);
      DiffersLex(CharLess, a, b, k);
    }
  }

  /** Strings are compared by the codes of their characters, and lists of strings by their strings,
      a proper prefix first. */
  lemma StringsLessMeaning(a: seq<string>, b: seq<string>)
    ensures StringsLess(a, b) <==> ListPrecedes(a, b)
  {
    if StringsLess(a, b) {
      var k := LexDiffers(StringLess, a, b);
      if k < |a| {
        StringLessMeaning(a[k], b[k]);
      }
    }
    if ListPrecedes(a, b) {
      var k :| 0 <= k <= |a| && k < |b| && a[..k] == b[..k] && (k == |a| || Precedes(a[k], b[k]));
      if k < |a| {
        StringLessMeaning(a[k], b[k]);
      }
      assert DiffersAt(StringLess, a, b, k);
      StringOrder();
      DiffersLex(StringLess, a, b, k);
    }
  }

  lemma {:induction false} LexIrreflexive<T(!new)>(lt: (T, T) -> bool, a: seq<T>)
    ensures !LexLess(lt, a, a)
  {
    if a != [] {
      LexIrreflexive(lt, a[1..]);
    }
  }

  lemma {:induction false} LexTransitive<T(!new)>(lt: (T, T) -> bool, a: seq<T>, b: seq<T>, c: seq<T>)
    requires StrictOrder(lt)
    requires LexLess(lt, a, b) && LexLess(lt, b, c)
    ensures LexLess(lt, a, c)
  {
    if a != [] {
      if a[0] == b[0] == c[0] {
        LexTransitive(lt, a[1..], b[1..], c[1..]);
      }
    }
  }

  lemma {:induction false} LexTotal<T(!new)>(lt: (T, T) -> bool, a: seq<T>, b: seq<T>)
    requires StrictTotalOrder(lt)
    ensures a == b || LexLess(lt, a, b) || LexLess(lt, b, a)
  {
    if a != [] && b != [] && a[0] == b[0] {
      LexTotal(lt, a[1..], b[1..]);
      assert a == [a[0]] + a[1..] && b == [b[0]] + b[1..];
    }
  }

  /** String.compare is a strict total order. */
  lemma StringOrder()
    ensures StrictTotalOrder(StringLess)
  {
    assert StrictTotalOrder(CharLess);
    forall x: string
      ensures !StringLess(x, x)
    {
      LexIrreflexive(CharLess, x);
    }
    forall x: string, y: string, z: string | StringLess(x, y) && StringLess(y, z)
      ensures StringLess(x, z)
    {
      LexTransitive(CharLess, x, y, z);
    }
    forall x: string, y: string
      ensures x == y || StringLess(x, y) || StringLess(y, x)
    {
      LexTotal(CharLess, x, y);
    }
  }

  lemma StringsOrder()
    ensures StrictTotalOrder(StringsLess)
  {
    StringOrder();
    forall x: seq<string>
      ensures !StringsLess(x, x)
    {
      LexIrreflexive(StringLess, x);
    }
    forall x: seq<string>, y: seq<string>, z: seq<string> | StringsLess(x, y) && StringsLess(y, z)
      ensures StringsLess(x, z)
    {
      LexTransitive(StringLess, x, y, z);
    }
    forall x: seq<string>, y: seq<string>
      ensures x == y || StringsLess(x, y) || StringsLess(y, x)
    {
      LexTotal(StringLess, x, y);
    }
  }

  // ----- List.sort: stable insertion

  ghost predicate Sorted<T(!new)>(lt: (T, T) -> bool, s: seq<T>) {
    forall i, j :: 0 <= i < j < |s| ==> !lt(s[j], s[i])
  }

  ghost predicate StrictlySorted<T(!new)>(lt: (T, T) -> bool, s: seq<T>) {
    forall i, j :: 0 <= i < j < |s| ==> lt(s[i], s[j])
  }

  function Insert<T(!new)>(lt: (T, T) -> bool, x: T, s: seq<T>): (r: seq<T>)
    ensures multiset(r) == multiset(s) + multiset{x}
    ensures forall y :: y in r <==> y == x || y in s
  {
    if s == [] || !lt(s[0], x) then [x] + s
    else
      assert s == [s[0]] + s[1..];
      [s[0]] + Insert(lt, x, s[1..])
  }

  function Sort<T(!new)>(lt: (T, T) -> bool, s: seq<T>): (r: seq<T>)
    ensures multiset(r) == multiset(s)
    ensures |r| == |s|
    ensures forall y :: y in r <==> y in s
  {
    if s == [] then []
    else
      assert s == [s[0]] + s[1..];
      var r := Insert(lt, s[0], Sort(lt, s[1..]));
      PermutationMembers(r, s);
      r
  }

  lemma {:induction false} InsertSorted<T(!new)>(lt: (T, T) -> bool, x: T, s: seq<T>)
    requires StrictOrder(lt) && TotalOn(lt, Elements([x] + s))
    requires Sorted(lt, s)
    ensures Sorted(lt, Insert(lt, x, s))
  {
    if s != [] && lt(s[0], x) {
      assert Elements([x] + s[1..]) <= Elements([x] + s);
      InsertSorted(lt, x, s[1..]);
      var r := Insert(lt, x, s[1..]);
      forall j | 0 <= j < |r|
        ensures !lt(r[j], s[0])
      {
        assert r[j] in r;
        if r[j] in s[1..] {
          var k :| 0 <= k < |s[1..]| && s[1..][k] == r[j];
          assert s[k + 1] == r[j];
        }
      }
    } else if s != [] {
      forall j | 0 <= j < |s|
        ensures !lt(s[j], x)
      {
        assert s[0] in [x] + s && x in [x] + s;
        assert x == s[0] || lt(x, s[0]);
        assert j == 0 || !lt(s[j], s[0]);
      }
    }
  }

  lemma {:induction false} SortSorted<T(!new)>(lt: (T, T) -> bool, s: seq<T>)
    requires StrictOrder(lt) && TotalOn(lt, Elements(s))
    ensures Sorted(lt, Sort(lt, s))
  {
    if s != [] {
      assert Elements(s[1..]) <= Elements(s);
      SortSorted(lt, s[1..]);
      assert Elements([s[0]] + Sort(lt, s[1..])) <= Elements(s);
      InsertSorted(lt, s[0], Sort(lt, s[1..]));
    }
  }

  lemma SortedHead<T(!new)>(lt: (T, T) -> bool, s: seq<T>, t: seq<T>)
    requires StrictOrder(lt) && TotalOn(lt, Elements(s))
    requires Sorted(lt, s) && Sorted(lt, t)
    requires s != [] && t != [] && forall x :: x in s <==> x in t
    ensures s[0] == t[0]
  {
    assert s[0] in t && t[0] in s;
    var i :| 0 <= i < |s| && s[i] == t[0];
    var j :| 0 <= j < |t| && t[j] == s[0];
    assert !lt(t[0], s[0]) && !lt(s[0], t[0]);
    assert s[0] in Elements(s) && t[0] in Elements(s);
  }

  lemma {:induction false} SortedEqual<T(!new)>(lt: (T, T) -> bool, s: seq<T>, t: seq<T>)
    requires StrictOrder(lt) && TotalOn(lt, Elements(s))
    requires Sorted(lt, s) && Sorted(lt, t)
    requires multiset(s) == multiset(t)
    ensures s == t
  {
    PermutationMembers(s, t);
    if s != [] {
      SortedHead(lt, s, t);
      TailPermutation(s, t);
      assert Sorted(lt, s[1..]) && Sorted(lt, t[1..]);
      TotalOnSubset(lt, Elements(s[1..]), Elements(s));
      SortedEqual(lt, s[1..], t[1..]);
      assert s == [s[0]] + s[1..] && t == [t[0]] + t[1..];
    }
  }

  lemma TotalOnSubset<T(!new)>(lt: (T, T) -> bool, a: set<T>, b: set<T>)
    requires TotalOn(lt, b) && a <= b
    ensures TotalOn(lt, a)
  {
  }

  /** Sorting forgets the input order. */
  lemma SortPermutation<T(!new)>(lt: (T, T) -> bool, s: seq<T>, t: seq<T>)
    requires StrictOrder(lt) && TotalOn(lt, Elements(s))
    requires multiset(s) == multiset(t)
    ensures Sort(lt, s) == Sort(lt, t)
  {
    PermutationMembers(s, t);
    assert Elements(s) == Elements(t);
    SortSorted(lt, s);
    SortSorted(lt, t);
    assert Elements(Sort(lt, s)) == Elements(s);
    SortedEqual(lt, Sort(lt, s), Sort(lt, t));
  }

  /** A filter of a sorted list is sorted, so filtering commutes with sorting. */
  lemma {:induction false} FilterSorted<T(!new)>(lt: (T, T) -> bool, p: T -> bool, s: seq<T>)
    requires Sorted(lt, s)
    ensures Sorted(lt, Filter(p, s))
  {
    if s != [] {
      FilterSorted(lt, p, s[1..]);
      var r := Filter(p, s[1..]);
      forall j | 0 <= j < |r|
        ensures !lt(r[j], s[0])
      {
        assert r[j] in s[1..];
      }
    }
  }

  // ----- List.sort_uniq

  function InsertUnique<T(==, !new)>(lt: (T, T) -> bool, x: T, s: seq<T>): (r: seq<T>)
    ensures forall y :: y in r <==> y == x || y in s
  {
    if s == [] then [x]
    else if x == s[0] then s
    else if lt(x, s[0]) then [x] + s
    else [s[0]] + InsertUnique(lt, x, s[1..])
  }

  function SortUnique<T(==, !new)>(lt: (T, T) -> bool, s: seq<T>): (r: seq<T>)
    ensures forall y :: y in r <==> y in s
  {
    if s == [] then [] else InsertUnique(lt, s[0], SortUnique(lt, s[1..]))
  }

  lemma {:induction false} InsertUniqueSorted<T(!new)>(lt: (T, T) -> bool, x: T, s: seq<T>)
    requires StrictTotalOrder(lt)
    requires StrictlySorted(lt, s)
    ensures StrictlySorted(lt, InsertUnique(lt, x, s))
  {
    if s != [] && x != s[0] && !lt(x, s[0]) {
      InsertUniqueSorted(lt, x, s[1..]);
      var r := InsertUnique(lt, x, s[1..]);
      forall j | 0 <= j < |r|
        ensures lt(s[0], r[j])
      {
        assert r[j] in r;
      }
    }
  }

  lemma {:induction false} SortUniqueSorted<T(!new)>(lt: (T, T) -> bool, s: seq<T>)
    requires StrictTotalOrder(lt)
    ensures StrictlySorted(lt, SortUnique(lt, s))
  {
    if s != [] {
      SortUniqueSorted(lt, s[1..]);
      InsertUniqueSorted(lt, s[0], SortUnique(lt, s[1..]));
    }
  }

  lemma {:induction false} StrictlySortedEqual<T(!new)>(lt: (T, T) -> bool, s: seq<T>, t: seq<T>)
    requires StrictOrder(lt)
    requires StrictlySorted(lt, s) && StrictlySorted(lt, t)
    requires forall x :: x in s <==> x in t
    ensures s == t
  {
    assert t != [] ==> t[0] in t;
    if s != [] {
      assert s[0] in t && t != [];
      assert t[0] in s;
      var i :| 0 <= i < |s| && s[i] == t[0];
      var j :| 0 <= j < |t| && t[j] == s[0];
      assert s[0] == t[0];
      forall x
        ensures x in s[1..] <==> x in t[1..]
      {
        if x in s[1..] {
          assert x in t && lt(s[0], x);
          var k :| 0 <= k < |t| && t[k] == x;
          assert k != 0;
          assert t[1..][k - 1] == x;
        }
        if x in t[1..] {
          assert x in s && lt(t[0], x);
          var k :| 0 <= k < |s| && s[k] == x;
          assert k != 0;
          assert s[1..][k - 1] == x;
        }
      }
      StrictlySortedEqual(lt, s[1..], t[1..]);
    }
  }

  // ----- finite sets listed in order (BTreeMap iteration, ORDER BY)

  predicate IsLeast<T(==, !new)>(lt: (T, T) -> bool, m: T, s: set<T>) {
    m in s && forall y :: y in s ==> y == m || lt(m, y)
  }

  lemma {:induction false} LeastExists<T(!new)>(lt: (T, T) -> bool, s: set<T>) returns (m: T)
    requires StrictTotalOrder(lt)
    requires s != {}
    ensures IsLeast(lt, m, s)
  {
    var x :| x in s;
    if s == {x} {
      m := x;
    } else {
      var rest := LeastExists(lt, s - {x});
      m := if lt(x, rest) then x else rest;
      forall y | y in s
        ensures y == m || lt(m, y)
      {
        assert y == x || y in s - {x};
      }
    }
  }

  function Least<T(==, !new)>(lt: (T, T) -> bool, s: set<T>): (m: T)
    requires StrictTotalOrder(lt)
    requires s != {}
    ensures IsLeast(lt, m, s)
  {
    assert exists m :: m in s && IsLeast(lt, m, s) by {
      var m := LeastExists(lt, s);
    }
    var m :| m in s && IsLeast(lt, m, s);
    m
  }

  /** The elements of a finite set in increasing order. */
  function Listed<T(==, !new)>(lt: (T, T) -> bool, s: set<T>): (r: seq<T>)
    requires StrictTotalOrder(lt)
    ensures StrictlySorted(lt, r)
    ensures |r| == |s|
    ensures forall x :: x in r <==> x in s
  {
    if s == {} then []
    else
      var m := Least(lt, s);
      [m] + Listed(lt, s - {m})
  }

  /** The keys of a map in increasing order. */
  function Keys<V>(m: map<string, V>): (r: seq<string>)
    ensures StrictlySorted(StringLess, r)
    ensures |r| == |m|
    ensures forall x :: x in r <==> x in m
  {
    StringOrder();
    Listed(StringLess, m.Keys)
  }

  /** The values found under a list of keys. */
  function Lookups<V>(m: map<string, V>, keys: seq<string>): (r: seq<V>)
    requires forall k :: k in keys ==> k in m
    ensures |r| == |keys|
    ensures forall i :: 0 <= i < |keys| ==> r[i] == m[keys[i]]
  {
    if keys == [] then [] else [m[keys[0]]] + Lookups(m, keys[1..])
  }

  /** The values of a map in key order (Map.bindings, BTreeMap::into_values, ORDER BY id). */
  function Values<V>(m: map<string, V>): (r: seq<V>)
    ensures |r| == |m|
  {
    Lookups(m, Keys(m))
  }

  lemma ValuesAt<V(!new)>(m: map<string, V>)
    ensures Distinct(Keys(m)) && |Values(m)| == |Keys(m)|
    ensures forall i :: 0 <= i < |Keys(m)| ==> Keys(m)[i] in m && Values(m)[i] == m[Keys(m)[i]]
  {
    StringOrder();
    var keys := Keys(m);
    assert forall i :: 0 <= i < |keys| ==> keys[i] in keys;
  }

  lemma ValuesMembers<V(!new)>(m: map<string, V>)
    ensures forall k :: k in m ==> m[k] in Values(m)
    ensures forall v :: v in Values(m) ==> exists k :: k in m && m[k] == v
  {
    var keys, r := Keys(m), Values(m);
    ValuesAt(m);
    forall k | k in m
      ensures m[k] in r
    {
      assert k in keys;
      var i :| 0 <= i < |keys| && keys[i] == k;
      assert r[i] == m[k];
    }
    forall v | v in r
      ensures exists k :: k in m && m[k] == v
    {
      var i :| 0 <= i < |r| && r[i] == v;
      assert keys[i] in m;
    }
  }

  // ----- the head of a sorted list

  /** A comparison by key: incomparable elements are interchangeable. */
  ghost predicate WeakOrder<T(!new)>(lt: (T, T) -> bool) {
    && (forall x, y :: lt(x, y) ==> !lt(y, x))
    && (forall x, y, z :: !lt(x, y) && !lt(y, z) ==> !lt(x, z))
  }

  lemma {:induction false} SortHead<T(!new)>(lt: (T, T) -> bool, s: seq<T>)
    requires WeakOrder(lt)
    requires s != []
    ensures forall x :: x in s ==> !lt(x, Sort(lt, s)[0])
  {
    if |s| > 1 {
      SortHead(lt, s[1..]);
      var rest := Sort(lt, s[1..]);
      forall x | x in s
        ensures !lt(x, Sort(lt, s)[0])
      {
        assert x == s[0] || x in s[1..];
        assert !lt(s[0], s[0]);
        assert x in s[1..] ==> !lt(x, rest[0]);
      }
    }
  }
}
