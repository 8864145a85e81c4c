/** Rust's slice::sort_by, which is stable, as a function of a real key. */
module StableSort {

  function Insert<T>(x: T, s: seq<T>, key: T -> real): seq<T> {
    if s == [] || key(x) <= key(s[0]) then [x] + s else [s[0]] + Insert(x, s[1..], key)
  }

  /** s by rising key, equals in their original order. */
  function Sort<T>(s: seq<T>, key: T -> real): seq<T> {
    if s == [] then [] else Insert(s[0], Sort(s[1..], key), key)
  }

  ghost predicate Sorted<T>(s: seq<T>, key: T -> real) {
    forall i, j :: 0 <= i < j < |s| ==> key(s[i]) <= key(s[j])
  }

  /** The elements with key k, in order. */
  function WithKey<T>(s: seq<T>, key: T -> real, k: real): seq<T> {
    if s == [] then [] else (if key(s[0]) == k then [s[0]] else []) + WithKey(s[1..], key, k)
  }

  lemma SortedCons<T>(x: T, s: seq<T>, key: T -> real)
    requires Sorted(s, key) && (s == [] || key(x) <= key(s[0]))
    ensures Sorted([x] + s, key)
  {
  }

  lemma {:induction false} InsertSorted<T>(x: T, s: seq<T>, key: T -> real)
    requires Sorted(s, key)
    ensures Sorted(Insert(x, s, key), key)
    ensures |Insert(x, s, key)| == |s| + 1 && Insert(x, s, key)[0] in [x] + s[..if s == [] then 0 else 1]
  {
    if s == [] || key(x) <= key(s[0]) {
      SortedCons(x, s, key);
    } else {
      InsertSorted(x, s[1..], key);
      SortedCons(s[0], Insert(x, s[1..], key), key);
    }
  }

  lemma {:induction false} InsertKeeps<T>(x: T, s: seq<T>, key: T -> real)
    ensures multiset(Insert(x, s, key)) == multiset(s) + multiset{x}
  {
    if s != [] && key(x) > key(s[0]) {
      assert s == [s[0]] + s[1..];
      InsertKeeps(x, s[1..], key);
    }
  }

  /** Sorting orders, loses nothing and adds nothing. */
  lemma {:induction false} SortSorts<T>(s: seq<T>, key: T -> real)
    ensures Sorted(Sort(s, key), key) && multiset(Sort(s, key)) == multiset(s) && |Sort(s, key)| == |s|
  {
    if s != [] {
      assert s == [s[0]] + s[1..];
      SortSorts(s[1..], key);
      InsertSorted(s[0], Sort(s[1..], key), key);
      InsertKeeps(s[0], Sort(s[1..], key), key);
    }
  }

  lemma {:induction false} WithKeyCons<T>(x: T, s: seq<T>, key: T -> real, k: real)
    ensures WithKey([x] + s, key, k) == (if key(x) == k then [x] else []) + WithKey(s, key, k)
  {
    assert ([x] + s)[1..] == s;
  }

  lemma {:induction false} InsertStable<T>(x: T, s: seq<T>, key: T -> real, k: real)
    ensures WithKey(Insert(x, s, key), key, k) == (if key(x) == k then [x] else []) + WithKey(s, key, k)
  {
    if s == [] || key(x) <= key(s[0]) {
      WithKeyCons(x, s, key, k);
    } else {
      InsertStable(x, s[1..], key, k);
      WithKeyCons(s[0], Insert(x, s[1..], key), key, k);
      var mine := if key(x) == k then [x] else [];
      var first := if key(s[0]) == k then [s[0]] else [];
      var rest := WithKey(s[1..], key, k);
      assert first + (mine + rest) == mine + (first + rest);
    }
  }

  /** Equal keys keep their order. */
  lemma {:induction false} SortStable<T>(s: seq<T>, key: T -> real, k: real)
    ensures WithKey(Sort(s, key), key, k) == WithKey(s, key, k)
  {
    if s != [] {
      SortStable(s[1..], key, k);
      InsertStable(s[0], Sort(s[1..], key), key, k);
    }
  }
}
