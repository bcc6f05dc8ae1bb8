/** Vectors whose elements carry a string key, kept sorted by it: the shape of `models` and
    `fields` in a schema.  `SortBy` is the standard library's stable `sort_by`; the other
    operations are `push`, `retain`, and updating the element found by `iter_mut().find`. */
module Keyed {
  import opened Order
  import opened Wrappers

  ghost predicate Distinct<T(!new)>(s: seq<T>, key: T -> string) {
    forall i, j :: 0 <= i < j < |s| ==> key(s[i]) != key(s[j])
  }

  /** Strictly increasing keys. */
  ghost predicate Sorted<T(!new)>(s: seq<T>, key: T -> string) {
    forall i, j :: 0 <= i < j < |s| ==> Before(key(s[i]), key(s[j]))
  }

  ghost predicate Ordered<T(!new)>(s: seq<T>, key: T -> string) {
    Sorted(s, key) && Distinct(s, key)
  }

  ghost predicate HasKey<T(!new)>(s: seq<T>, key: T -> string, k: string) {
    exists i :: 0 <= i < |s| && key(s[i]) == k
  }

  ghost predicate SameElements<T(!new)>(s: seq<T>, t: seq<T>) {
    forall x :: x in s <==> x in t
  }

  lemma SortedIsDistinct<T(!new)>(s: seq<T>, key: T -> string)
    requires Sorted(s, key)
    ensures Distinct(s, key)
  {
    forall i, j | 0 <= i < j < |s| ensures key(s[i]) != key(s[j]) {
      Irreflexive(key(s[i]));
    }
  }

  /** A strictly sorted vector is determined by the set of its elements. */
  lemma {:induction false} SortedUnique<T(!new)>(s: seq<T>, t: seq<T>, key: T -> string)
    requires Sorted(s, key) && Sorted(t, key) && SameElements(s, t)
    ensures s == t
  {
    if s == [] {
      assert forall i :: 0 <= i < |t| ==> t[i] in s;
    } else {
      assert s[0] in t;
      assert t[0] in s;
      if s[0] != t[0] {
        Asymmetric(key(s[0]), key(t[0]));
        assert false;
      }
      SortedIsDistinct(s, key);
      SortedIsDistinct(t, key);
      forall x ensures x in s[1..] <==> x in t[1..] {
        assert x in s[1..] ==> x in s && x != s[0];
        assert x in t[1..] ==> x in t && x != t[0];
        assert s == [s[0]] + s[1..] && t == [t[0]] + t[1..];
      }
      SortedUnique(s[1..], t[1..], key);
      assert s == [s[0]] + s[1..] && t == [t[0]] + t[1..];
    }
  }

  // ----- the element map of a vector with distinct keys -----

  ghost function Index<T(!new)>(s: seq<T>, key: T -> string): (m: map<string, T>)
    requires Distinct(s, key)
    ensures forall x :: x in s ==> key(x) in m && m[key(x)] == x
    ensures forall k :: k in m ==> m[k] in s && key(m[k]) == k
  {
    map i | 0 <= i < |s| :: key(s[i]) := s[i]
  }

  lemma IndexAt<T(!new)>(s: seq<T>, key: T -> string, k: string) returns (i: nat)
    requires Distinct(s, key) && k in Index(s, key)
    ensures i < |s| && key(s[i]) == k && s[i] == Index(s, key)[k]
    ensures forall j :: 0 <= j < |s| && key(s[j]) == k ==> j == i
  {
    i :| 0 <= i < |s| && s[i] == Index(s, key)[k];
  }

  lemma IndexKeys<T(!new)>(s: seq<T>, key: T -> string, k: string)
    requires Distinct(s, key)
    ensures k in Index(s, key) <==> HasKey(s, key, k)
  {
  }

  /** The element map is the one map that holds exactly the elements under their keys. */
  lemma IndexIs<T(!new)>(s: seq<T>, key: T -> string, m: map<string, T>)
    requires Distinct(s, key)
    requires forall x :: x in s ==> key(x) in m && m[key(x)] == x
    requires forall k :: k in m ==> m[k] in s && key(m[k]) == k
    ensures Index(s, key) == m
  {
  }

  lemma SameIndex<T(!new)>(s: seq<T>, t: seq<T>, key: T -> string)
    requires Distinct(s, key) && Distinct(t, key) && SameElements(s, t)
    ensures Index(s, key) == Index(t, key)
  {
  }

  /** Two sorted vectors with the same element map are the same vector. */
  lemma IndexInjective<T(!new)>(s: seq<T>, t: seq<T>, key: T -> string)
    requires Sorted(s, key) && Sorted(t, key)
    requires Distinct(s, key) && Distinct(t, key) && Index(s, key) == Index(t, key)
    ensures s == t
  {
    assert forall x :: x in s ==> x in t;
    assert forall x :: x in t ==> x in s;
    SortedUnique(s, t, key);
  }

  // ----- find -----

  /** `iter().find(|x| key(x) == k)`. */
  function Find<T>(s: seq<T>, key: T -> string, k: string): Option<T> {
    if s == [] then None else if key(s[0]) == k then Some(s[0]) else Find(s[1..], key, k)
  }

  lemma {:induction false} FindElement<T(!new)>(s: seq<T>, key: T -> string, k: string)
    ensures Find(s, key, k).Some? ==> Find(s, key, k).value in s && key(Find(s, key, k).value) == k
    ensures Find(s, key, k).None? ==> !HasKey(s, key, k)
  {
    if s != [] {
      FindElement(s[1..], key, k);
      if key(s[0]) != k {
        forall i | 0 <= i < |s| ensures Find(s, key, k).None? ==> key(s[i]) != k {
          assert i > 0 ==> s[i] == s[1..][i - 1];
        }
      }
    }
  }

  lemma FindIsIndex<T(!new)>(s: seq<T>, key: T -> string, k: string)
    requires Distinct(s, key)
    ensures Find(s, key, k) == if k in Index(s, key) then Some(Index(s, key)[k]) else None
  {
    FindElement(s, key, k);
    IndexKeys(s, key, k);
  }

  // ----- sort_by -----

  function Insert<T>(x: T, s: seq<T>, key: T -> string): seq<T> {
    if s == [] || !Before(key(s[0]), key(x)) then [x] + s
    else [s[0]] + Insert(x, s[1..], key)
  }

  function SortBy<T>(s: seq<T>, key: T -> string): seq<T> {
    if s == [] then [] else Insert(s[0], SortBy(s[1..], key), key)
  }

  lemma {:induction false} InsertElements<T(!new)>(x: T, s: seq<T>, key: T -> string)
    ensures multiset(Insert(x, s, key)) == multiset([x]) + multiset(s)
  {
    if s == [] || !Before(key(s[0]), key(x)) {
    } else {
      InsertElements(x, s[1..], key);
      assert s == [s[0]] + s[1..];
    }
  }

  /** Sorting permutes. */
  lemma {:induction false} SortPermutes<T(!new)>(s: seq<T>, key: T -> string)
    ensures multiset(SortBy(s, key)) == multiset(s)
  {
    if s != [] {
      SortPermutes(s[1..], key);
      InsertElements(s[0], SortBy(s[1..], key), key);
      assert s == [s[0]] + s[1..];
    }
  }

  lemma PermutedElements<T(!new)>(s: seq<T>, t: seq<T>)
    requires multiset(s) == multiset(t)
    ensures SameElements(s, t)
  {
    forall x ensures x in s <==> x in t {
      assert x in s <==> x in multiset(s);
      assert x in t <==> x in multiset(t);
    }
  }

  lemma {:induction false} InsertSorted<T(!new)>(x: T, s: seq<T>, key: T -> string)
    requires Sorted(s, key) && !HasKey(s, key, key(x))
    ensures Sorted(Insert(x, s, key), key)
  {
    if s == [] {
    } else if !Before(key(s[0]), key(x)) {
      Total(key(s[0]), key(x));
      forall j | 0 <= j < |s| ensures Before(key(x), key(s[j])) {
        if j > 0 { Transitive(key(x), key(s[0]), key(s[j])); }
      }
    } else {
      InsertSorted(x, s[1..], key);
      InsertElements(x, s[1..], key);
      PermutedElements(Insert(x, s[1..], key), [x] + s[1..]);
      var rest := Insert(x, s[1..], key);
      forall j | 0 <= j < |rest| ensures Before(key(s[0]), key(rest[j])) {
        assert rest[j] in [x] + s[1..];
      }
    }
  }

  /** With distinct keys, sorting yields the strictly sorted vector of the same elements. */
  lemma {:induction false} SortSorts<T(!new)>(s: seq<T>, key: T -> string)
    requires Distinct(s, key)
    ensures Sorted(SortBy(s, key), key) && SameElements(SortBy(s, key), s)
    ensures Distinct(SortBy(s, key), key) && Index(SortBy(s, key), key) == Index(s, key)
  {
    SortPermutes(s, key);
    PermutedElements(SortBy(s, key), s);
    if s != [] {
      SortSorts(s[1..], key);
      var rest := SortBy(s[1..], key);
      forall i | 0 <= i < |rest| ensures key(rest[i]) != key(s[0]) {
        assert rest[i] in s[1..];
      }
      InsertSorted(s[0], rest, key);
    }
    SortedIsDistinct(SortBy(s, key), key);
    SameIndex(SortBy(s, key), s, key);
  }

  /** The elements of one key, in order. */
  ghost function Group<T>(s: seq<T>, key: T -> string, k: string): seq<T> {
    if s == [] then [] else (if key(s[0]) == k then [s[0]] else []) + Group(s[1..], key, k)
  }

  /** Sorting is stable: elements of equal key keep their relative order, whatever the keys. */
  lemma {:induction false} SortStable<T>(s: seq<T>, key: T -> string, k: string)
    ensures Group(SortBy(s, key), key, k) == Group(s, key, k)
  {
    if s != [] {
      SortStable(s[1..], key, k);
      InsertGroup(s[0], SortBy(s[1..], key), key, k);
    }
  }

  lemma {:induction false} InsertGroup<T>(x: T, s: seq<T>, key: T -> string, k: string)
    ensures Group(Insert(x, s, key), key, k) == (if key(x) == k then [x] else []) + Group(s, key, k)
  {
    if s == [] || !Before(key(s[0]), key(x)) {
      GroupCons(x, s, key, k);
    } else {
      InsertGroup(x, s[1..], key, k);
      GroupCons(s[0], Insert(x, s[1..], key), key, k);
      if key(x) == k { Irreflexive(k); }
    }
  }

  lemma GroupCons<T>(x: T, s: seq<T>, key: T -> string, k: string)
    ensures Group([x] + s, key, k) == (if key(x) == k then [x] else []) + Group(s, key, k)
  {
  }

  lemma DistinctCons<T(!new)>(s: seq<T>, key: T -> string)
    requires s != []
    ensures Distinct(s, key) <==> Distinct(s[1..], key) && !HasKey(s[1..], key, key(s[0]))
  {
  }

  /** Distinct keys, said of the groups: none holds two elements. */
  ghost predicate SmallGroups<T(!new)>(s: seq<T>, key: T -> string) {
    forall k :: |Group(s, key, k)| <= 1
  }

  lemma {:induction false} DistinctByGroups<T(!new)>(s: seq<T>, key: T -> string)
    ensures Distinct(s, key) <==> SmallGroups(s, key)
  {
    if s != [] {
      DistinctByGroups(s[1..], key);
      DistinctCons(s, key);
      GroupEmpty(s[1..], key, key(s[0]));
      if SmallGroups(s[1..], key) && Group(s[1..], key, key(s[0])) == [] {
        assert SmallGroups(s, key);
      }
      if SmallGroups(s, key) {
        assert |Group(s, key, key(s[0]))| <= 1;
        forall k ensures |Group(s[1..], key, k)| <= 1 { assert |Group(s, key, k)| <= 1; }
      }
    }
  }

  lemma {:induction false} GroupEmpty<T(!new)>(s: seq<T>, key: T -> string, k: string)
    ensures Group(s, key, k) == [] <==> !HasKey(s, key, k)
  {
    if s != [] {
      GroupEmpty(s[1..], key, k);
      if HasKey(s[1..], key, k) {
        var i :| 0 <= i < |s[1..]| && key(s[1..][i]) == k;
        assert key(s[i + 1]) == k;
      }
      if HasKey(s, key, k) && key(s[0]) != k {
        var i :| 0 <= i < |s| && key(s[i]) == k;
        assert key(s[1..][i - 1]) == k;
      }
    }
  }

  lemma SortDistinct<T(!new)>(s: seq<T>, key: T -> string)
    ensures Distinct(SortBy(s, key), key) <==> Distinct(s, key)
  {
    DistinctByGroups(s, key);
    DistinctByGroups(SortBy(s, key), key);
    forall k ensures |Group(SortBy(s, key), key, k)| <= 1 <==> |Group(s, key, k)| <= 1 {
      SortStable(s, key, k);
    }
    if SmallGroups(s, key) {
      forall k ensures |Group(SortBy(s, key), key, k)| <= 1 { assert |Group(s, key, k)| <= 1; }
    }
    if SmallGroups(SortBy(s, key), key) {
      forall k ensures |Group(s, key, k)| <= 1 { assert |Group(SortBy(s, key), key, k)| <= 1; }
    }
  }

  /** Two orderings of the same distinctly keyed elements sort to the same vector. */
  lemma SortIgnoresOrder<T(!new)>(s: seq<T>, t: seq<T>, key: T -> string)
    requires Distinct(s, key) && Distinct(t, key) && SameElements(s, t)
    ensures SortBy(s, key) == SortBy(t, key)
  {
    SortSorts(s, key);
    SortSorts(t, key);
    SortedUnique(SortBy(s, key), SortBy(t, key), key);
  }

  // ----- push -----

  lemma PushIndex<T(!new)>(s: seq<T>, x: T, key: T -> string)
    requires Distinct(s, key) && key(x) !in Index(s, key)
    ensures Distinct(s + [x], key)
    ensures Index(s + [x], key) == Index(s, key)[key(x) := x]
  {
    var t := s + [x];
    forall i, j | 0 <= i < j < |t| ensures key(t[i]) != key(t[j]) {
      if j == |s| { assert t[i] == s[i]; }
    }
    var m, n := Index(t, key), Index(s, key)[key(x) := x];
    forall k ensures k in m <==> k in n
      ensures k in m && k in n ==> m[k] == n[k]
    {
      if k in m { var i := IndexAt(t, key, k); assert i < |s| ==> t[i] == s[i]; }
      if k in n {
        if k == key(x) { assert t[|s|] == x; }
        else { var i := IndexAt(s, key, k); assert t[i] == s[i]; }
      }
    }
  }

  /** `push` followed by `sort_by`. */
  lemma PushSortIndex<T(!new)>(s: seq<T>, x: T, key: T -> string)
    requires Distinct(s, key) && key(x) !in Index(s, key)
    ensures Sorted(SortBy(s + [x], key), key) && Distinct(SortBy(s + [x], key), key)
    ensures Index(SortBy(s + [x], key), key) == Index(s, key)[key(x) := x]
  {
    PushIndex(s, x, key);
    SortSorts(s + [x], key);
  }

  // ----- retain -----

  /** `retain(|x| key(x) != k)`. */
  function Without<T>(s: seq<T>, key: T -> string, k: string): seq<T> {
    if s == [] then []
    else (if key(s[0]) != k then [s[0]] else []) + Without(s[1..], key, k)
  }

  lemma {:induction false} WithoutElements<T(!new)>(s: seq<T>, key: T -> string, k: string, x: T)
    ensures x in Without(s, key, k) <==> x in s && key(x) != k
  {
    if s != [] {
      WithoutElements(s[1..], key, k, x);
      assert s == [s[0]] + s[1..];
    }
  }

  lemma {:induction false} WithoutAbsent<T(!new)>(s: seq<T>, key: T -> string, k: string)
    requires !HasKey(s, key, k)
    ensures Without(s, key, k) == s
  {
    if s != [] {
      assert key(s[0]) != k;
      forall i | 0 <= i < |s[1..]| ensures key(s[1..][i]) != k { assert s[1..][i] == s[i + 1]; }
      WithoutAbsent(s[1..], key, k);
    }
  }

  /** Removing an element whose key occurs once. */
  lemma {:induction false} WithoutAt<T(!new)>(s: seq<T>, key: T -> string, i: nat)
    requires i < |s| && Distinct(s, key)
    ensures Without(s, key, key(s[i])) == s[..i] + s[i + 1..]
  {
    var k := key(s[i]);
    if i == 0 {
      WithoutAbsent(s[1..], key, k);
    } else {
      assert s[1..][i - 1] == s[i];
      WithoutAt(s[1..], key, i - 1);
      assert key(s[0]) != k;
      assert s[..i] + s[i + 1..] == [s[0]] + (s[1..][..i - 1] + s[1..][i..]);
    }
  }

  lemma CutKeepsOrder<T(!new)>(s: seq<T>, key: T -> string, i: nat)
    requires Distinct(s, key) && i < |s|
    ensures Distinct(s[..i] + s[i + 1..], key)
    ensures Sorted(s, key) ==> Sorted(s[..i] + s[i + 1..], key)
  {
  }

  lemma WithoutKeepsOrder<T(!new)>(s: seq<T>, key: T -> string, k: string)
    requires Distinct(s, key) && k in Index(s, key)
    ensures Distinct(Without(s, key, k), key)
    ensures Sorted(s, key) ==> Sorted(Without(s, key, k), key)
  {
    hide Without, Distinct, Sorted;
    var i := IndexAt(s, key, k);
    WithoutAt(s, key, i);
    CutKeepsOrder(s, key, i);
  }

  lemma WithoutIndex<T(!new)>(s: seq<T>, key: T -> string, k: string)
    requires Distinct(s, key) && k in Index(s, key)
    ensures Distinct(Without(s, key, k), key)
    ensures Index(Without(s, key, k), key) == Index(s, key) - {k}
    ensures Sorted(s, key) ==> Sorted(Without(s, key, k), key)
  {
    hide Without, Distinct, Sorted;
    WithoutKeepsOrder(s, key, k);
    forall x ensures x in Without(s, key, k) <==> x in s && key(x) != k {
      WithoutElements(s, key, k, x);
    }
    IndexIs(Without(s, key, k), key, Index(s, key) - {k});
  }

  lemma {:induction false} WithoutFind<T(!new)>(s: seq<T>, key: T -> string, k: string, c: string)
    ensures Find(Without(s, key, k), key, c) == if c == k then None else Find(s, key, c)
  {
    if s != [] {
      WithoutFind(s[1..], key, k, c);
      var rest := Without(s[1..], key, k);
      assert [] + rest == rest && ([s[0]] + rest)[1..] == rest;
    }
  }

  lemma {:induction false} PushFind<T(!new)>(s: seq<T>, x: T, key: T -> string, c: string)
    ensures Find(s + [x], key, c) ==
      if Find(s, key, c).Some? then Find(s, key, c) else if key(x) == c then Some(x) else None
  {
    if s == [] {
      assert [x][1..] == [];
    } else {
      assert (s + [x])[1..] == s[1..] + [x];
      PushFind(s[1..], x, key, c);
    }
  }

  lemma WithoutCons<T(!new)>(x: T, s: seq<T>, key: T -> string, k: string)
    ensures Without([x] + s, key, k) == (if key(x) != k then [x] else []) + Without(s, key, k)
  {
    assert ([x] + s)[1..] == s;
  }

  lemma WithoutNone<T(!new)>(key: T -> string, k: string)
    ensures Without([], key, k) == []
  {
  }

  /** Removing one key commutes with pushing or removing another. */
  lemma {:induction false} PushThenRemove<T(!new)>(s: seq<T>, x: T, key: T -> string, k: string)
    requires key(x) != k
    ensures Without(s + [x], key, k) == Without(s, key, k) + [x]
  {
    hide Without;
    if s == [] {
      WithoutNone(key, k);
      WithoutCons(x, [], key, k);
      assert s + [x] == [x] + [];
    } else {
      var rest := s[1..];
      PushThenRemove(rest, x, key, k);
      WithoutCons(s[0], rest + [x], key, k);
      WithoutCons(s[0], rest, key, k);
      assert s == [s[0]] + rest && s + [x] == [s[0]] + (rest + [x]);
      var front := if key(s[0]) != k then [s[0]] else [];
      assert front + (Without(rest, key, k) + [x]) == front + Without(rest, key, k) + [x];
    }
  }

  lemma {:induction false} RemoveBoth<T(!new)>(s: seq<T>, key: T -> string, k: string, c: string)
    ensures Without(Without(s, key, k), key, c) == Without(Without(s, key, c), key, k)
  {
    if s != [] {
      RemoveBoth(s[1..], key, k, c);
      var a, b := Without(s[1..], key, k), Without(s[1..], key, c);
      WithoutCons(s[0], a, key, c);
      WithoutCons(s[0], b, key, k);
      assert [] + a == a && [] + b == b;
    }
  }

  // ----- iter_mut().find -----

  /** Update the first element of key `k`, if there is one. */
  function UpdateFirst<T>(s: seq<T>, key: T -> string, k: string, f: T -> T): seq<T> {
    if s == [] then []
    else if key(s[0]) == k then [f(s[0])] + s[1..]
    else [s[0]] + UpdateFirst(s[1..], key, k, f)
  }

  lemma {:induction false} UpdateFirstAt<T>(s: seq<T>, key: T -> string, i: nat, f: T -> T)
    requires i < |s| && forall j :: 0 <= j < i ==> key(s[j]) != key(s[i])
    ensures UpdateFirst(s, key, key(s[i]), f) == s[i := f(s[i])]
  {
    if i > 0 {
      assert key(s[0]) != key(s[i]);
      forall j | 0 <= j < i - 1 ensures key(s[1..][j]) != key(s[1..][i - 1]) {
        assert s[1..][j] == s[j + 1];
      }
      UpdateFirstAt(s[1..], key, i - 1, f);
    }
  }

  lemma {:induction false} UpdateFirstAbsent<T(!new)>(s: seq<T>, key: T -> string, k: string, f: T -> T)
    requires !HasKey(s, key, k)
    ensures UpdateFirst(s, key, k, f) == s
  {
    if s != [] {
      assert key(s[0]) != k;
      forall i | 0 <= i < |s[1..]| ensures key(s[1..][i]) != k { assert s[1..][i] == s[i + 1]; }
      UpdateFirstAbsent(s[1..], key, k, f);
    }
  }

  lemma UpdateElements<T(!new)>(s: seq<T>, key: T -> string, k: string, f: T -> T, x: T)
    requires Distinct(s, key) && k in Index(s, key)
    ensures x in UpdateFirst(s, key, k, f) <==>
      (x in s && key(x) != k) || x == f(Index(s, key)[k])
  {
    var i := IndexAt(s, key, k);
    UpdateFirstAt(s, key, i, f);
    var t := UpdateFirst(s, key, k, f);
    if x in t { var j :| 0 <= j < |t| && t[j] == x; assert j != i ==> x == s[j]; }
    if x in s && key(x) != k { var j :| 0 <= j < |s| && s[j] == x; assert t[j] == x; }
    assert t[i] == f(Index(s, key)[k]);
  }

  lemma UpdateIsIndex<T(!new)>(s: seq<T>, key: T -> string, k: string, f: T -> T, y: T, m: map<string, T>)
    requires Distinct(s, key) && k in Index(s, key)
    requires Distinct(UpdateFirst(s, key, k, f), key)
    requires y == f(Index(s, key)[k]) && (key(y) == k || key(y) !in Index(s, key))
    requires key(y) in m && m[key(y)] == y
    requires forall c :: c != key(y) ==> (c in m <==> c in Index(s, key) && c != k)
    requires forall c :: c in m && c != key(y) ==> m[c] == Index(s, key)[c]
    ensures Index(UpdateFirst(s, key, k, f), key) == m
  {
    var t := UpdateFirst(s, key, k, f);
    forall x ensures x in t <==> (x in s && key(x) != k) || x == y {
      UpdateElements(s, key, k, f, x);
    }
    forall x | x in t ensures key(x) in m && m[key(x)] == x {
      if x != y { assert x in s && key(x) != k && key(x) != key(y); }
    }
    forall c | c in m ensures m[c] in t && key(m[c]) == c {
      if c != key(y) { assert c != k && m[c] == Index(s, key)[c]; }
    }
    IndexIs(t, key, m);
  }

  /** An update that keeps the key. */
  lemma UpdateIndex<T(!new)>(s: seq<T>, key: T -> string, k: string, f: T -> T)
    requires Distinct(s, key) && k in Index(s, key) && key(f(Index(s, key)[k])) == k
    ensures Distinct(UpdateFirst(s, key, k, f), key)
    ensures Sorted(s, key) ==> Sorted(UpdateFirst(s, key, k, f), key)
    ensures Index(UpdateFirst(s, key, k, f), key) == Index(s, key)[k := f(Index(s, key)[k])]
  {
    var y := f(Index(s, key)[k]);
    UpdateKeepsKeys(s, key, k, f);
    UpdateIsIndex(s, key, k, f, y, Index(s, key)[k := y]);
  }

  lemma UpdateKeepsKeys<T(!new)>(s: seq<T>, key: T -> string, k: string, f: T -> T)
    requires Distinct(s, key) && k in Index(s, key) && key(f(Index(s, key)[k])) == k
    ensures Distinct(UpdateFirst(s, key, k, f), key)
    ensures Sorted(s, key) ==> Sorted(UpdateFirst(s, key, k, f), key)
  {
    var i := IndexAt(s, key, k);
    UpdateFirstAt(s, key, i, f);
    var t := UpdateFirst(s, key, k, f);
    assert |t| == |s| && forall j :: 0 <= j < |s| ==> key(t[j]) == key(s[j]);
  }

  /** The entry at `k` replaced by `y` at `k'`. */
  ghost function Rekey<T>(m: map<string, T>, k: string, k': string, y: T): (r: map<string, T>)
    ensures k' in r && r[k'] == y
    ensures forall c :: c != k' ==> (c in r <==> c in m && c != k)
    ensures forall c :: c in r && c != k' ==> r[c] == m[c]
  {
    (m - {k})[k' := y]
  }

  /** An update that renames the element to a key not in use. */
  lemma RenameIndex<T(!new)>(s: seq<T>, key: T -> string, k: string, f: T -> T)
    requires Distinct(s, key) && k in Index(s, key) && key(f(Index(s, key)[k])) !in Index(s, key)
    ensures Distinct(UpdateFirst(s, key, k, f), key)
    ensures var y := f(Index(s, key)[k]);
      Index(UpdateFirst(s, key, k, f), key) == Rekey(Index(s, key), k, key(y), y)
  {
    var y := f(Index(s, key)[k]);
    RenameKeepsDistinct(s, key, k, f);
    UpdateIsIndex(s, key, k, f, y, Rekey(Index(s, key), k, key(y), y));
  }

  lemma RenameKeepsDistinct<T(!new)>(s: seq<T>, key: T -> string, k: string, f: T -> T)
    requires Distinct(s, key) && k in Index(s, key) && key(f(Index(s, key)[k])) !in Index(s, key)
    ensures Distinct(UpdateFirst(s, key, k, f), key)
  {
    var i := IndexAt(s, key, k);
    UpdateFirstAt(s, key, i, f);
    var t, y := UpdateFirst(s, key, k, f), f(Index(s, key)[k]);
    forall j | 0 <= j < |s| ensures key(s[j]) != key(y) { assert s[j] in s; }
  }
}
