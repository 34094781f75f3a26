/** Sequence helpers shared by every table of the store: first-match search (LINQ's
    `FirstOrDefault`), removal of one row, filtering (`Where`), and keys that are unique
    and below the next identity value. */
module Seqs {
  import opened Wrappers

  /** The index of the first element satisfying `p`, or `None` when no element does. */
  function FirstIndex<T>(s: seq<T>, p: T -> bool): (r: Option<nat>)
    ensures r.Some? ==> r.value < |s| && p(s[r.value])
    ensures r.Some? ==> forall j :: 0 <= j < r.value ==> !p(s[j])
    ensures r.None? <==> forall j :: 0 <= j < |s| ==> !p(s[j])
  {
    if |s| == 0 then None
    else if p(s[0]) then Some(0)
    else match FirstIndex(s[1..], p)
      case None => None
      case Some(k) => Some(k + 1)
  }

  /** `s` without its element at index `i`. */
  function RemoveAt<T>(s: seq<T>, i: nat): (r: seq<T>)
    requires i < |s|
    ensures |r| == |s| - 1
    ensures forall j :: 0 <= j < i ==> r[j] == s[j]
    ensures forall j :: i <= j < |r| ==> r[j] == s[j + 1]
    ensures multiset(r) == multiset(s) - multiset{s[i]}
  {
    assert s == s[..i] + [s[i]] + s[i+1..];
    s[..i] + s[i+1..]
  }

  /** The elements of `s` satisfying `p`, in their order in `s`. */
  function Filter<T(!new)>(s: seq<T>, p: T -> bool): (r: seq<T>)
    ensures forall i :: 0 <= i < |r| ==> p(r[i]) && r[i] in s
    ensures forall x :: x in r <==> x in s && p(x)
    ensures |r| <= |s|
  {
    if |s| == 0 then []
    else
      var rest := Filter(s[1..], p);
      if p(s[0]) then [s[0]] + rest else rest
  }

  /** `Filter` keeps every element satisfying `p` as often as it occurs, and nothing else. */
  lemma {:induction false} FilterCount<T(!new)>(s: seq<T>, p: T -> bool, x: T)
    ensures multiset(Filter(s, p))[x] == if p(x) then multiset(s)[x] else 0
  {
    if |s| > 0 {
      assert s == [s[0]] + s[1..];
      FilterCount(s[1..], p, x);
    }
  }

  /** `FilterCount` for every element at once. */
  lemma FilterMultiset<T(!new)>(s: seq<T>, p: T -> bool)
    ensures forall x :: multiset(Filter(s, p))[x] == if p(x) then multiset(s)[x] else 0
  {
    forall x ensures multiset(Filter(s, p))[x] == if p(x) then multiset(s)[x] else 0 {
      FilterCount(s, p, x);
    }
  }

  /** Filtering distributes over appending one element. */
  lemma {:induction false} FilterAppend<T(!new)>(s: seq<T>, p: T -> bool, x: T)
    ensures Filter(s + [x], p) == Filter(s, p) + (if p(x) then [x] else [])
  {
    var t := s + [x];
    if |s| == 0 {
      assert t == [x] && t[1..] == [];
    } else {
      assert t[0] == s[0] && t[1..] == s[1..] + [x];
      FilterAppend(s[1..], p, x);
    }
  }

  /** Every key of `s` is below `bound`. */
  ghost predicate KeysBelow<T>(s: seq<T>, key: T -> int, bound: int) {
    forall i :: 0 <= i < |s| ==> key(s[i]) < bound
  }

  /** No two elements of `s` share a key. */
  ghost predicate KeysDistinct<T>(s: seq<T>, key: T -> int) {
    forall i, j :: 0 <= i < j < |s| ==> key(s[i]) != key(s[j])
  }

  /** A table whose primary keys are unique and were all handed out before `bound`. */
  ghost predicate WellKeyed<T>(s: seq<T>, key: T -> int, bound: int) {
    KeysBelow(s, key, bound) && KeysDistinct(s, key)
  }

  lemma KeyedGrow<T>(s: seq<T>, key: T -> int, bound: int, bound': int)
    requires WellKeyed(s, key, bound) && bound <= bound'
    ensures WellKeyed(s, key, bound')
  {
  }

  /** Inserting a row that carries the next key keeps a table well keyed. */
  lemma KeyedAppend<T>(s: seq<T>, key: T -> int, bound: int, x: T, bound': int)
    requires WellKeyed(s, key, bound) && key(x) == bound && bound < bound'
    ensures WellKeyed(s + [x], key, bound')
  {
    var s' := s + [x];
    forall i, j | 0 <= i < j < |s'| ensures key(s'[i]) != key(s'[j]) {
      if j == |s| {
        assert key(s'[i]) == key(s[i]) < bound;
      } else {
        assert s'[i] == s[i] && s'[j] == s[j];
      }
    }
  }

  /** Removing a row keeps a table well keyed. */
  lemma KeyedRemove<T>(s: seq<T>, key: T -> int, bound: int, i: nat)
    requires WellKeyed(s, key, bound) && i < |s|
    ensures WellKeyed(RemoveAt(s, i), key, bound)
  {
    var r := RemoveAt(s, i);
    forall a, b | 0 <= a < b < |r| ensures key(r[a]) != key(r[b]) {
      var a' := if a < i then a else a + 1;
      var b' := if b < i then b else b + 1;
      assert r[a] == s[a'] && r[b] == s[b'] && a' < b';
    }
  }

  /** Overwriting a row without touching its key keeps a table well keyed. */
  lemma KeyedReplace<T>(s: seq<T>, key: T -> int, bound: int, i: nat, x: T)
    requires WellKeyed(s, key, bound) && i < |s| && key(x) == key(s[i])
    ensures WellKeyed(s[i := x], key, bound)
  {
    var r := s[i := x];
    forall a, b | 0 <= a < b < |r| ensures key(r[a]) != key(r[b]) {
      assert key(r[a]) == key(s[a]) && key(r[b]) == key(s[b]);
    }
  }

  /** Deleting every row that fails `p` keeps a table well keyed. */
  lemma {:induction false} KeyedFilter<T(!new)>(s: seq<T>, key: T -> int, bound: int, p: T -> bool)
    requires WellKeyed(s, key, bound)
    ensures WellKeyed(Filter(s, p), key, bound)
  {
    if |s| > 0 {
      assert WellKeyed(s[1..], key, bound) by {
        forall a, b | 0 <= a < b < |s| - 1 ensures key(s[1..][a]) != key(s[1..][b]) {
          assert s[1..][a] == s[a + 1] && s[1..][b] == s[b + 1];
        }
      }
      KeyedFilter(s[1..], key, bound, p);
      var rest := Filter(s[1..], p);
      if p(s[0]) {
        var r := [s[0]] + rest;
        forall a, b | 0 <= a < b < |r| ensures key(r[a]) != key(r[b]) {
          if a == 0 {
            assert r[b] == rest[b - 1] && rest[b - 1] in s[1..];
            var k :| 0 <= k < |s[1..]| && s[1..][k] == rest[b - 1];
            assert s[1..][k] == s[k + 1];
          } else {
            assert r[a] == rest[a - 1] && r[b] == rest[b - 1];
          }
        }
      }
    }
  }
}
