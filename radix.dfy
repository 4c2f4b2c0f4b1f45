/**
 * The parts of the kernel's radix tree and list primitives the hot-data
 * engine relies on, stated over values: `radix_tree_gang_lookup` (up to
 * `max` present keys at or above `first`, ascending), removal of a node
 * from a list, and sums of reference counts used as termination measures.
 */
module Radix {

  /** The least element of a non-empty finite set. */
  function SetMin(s: set<int>): (m: int)
    requires s != {}
    ensures m in s && forall x :: x in s ==> m <= x
  {
    SetHasMin(s);
    var m :| m in s && forall x :: x in s ==> m <= x;
    m
  }

  lemma {:induction false} SetHasMin(s: set<int>)
    requires s != {}
    ensures exists m :: m in s && forall x :: x in s ==> m <= x
    decreases |s|
  {
    HasElement(s);
    var y :| y in s;
    var rest := s - {y};
    if rest == {} {
      LeastOfSingleton(s, y);
    } else {
      SetHasMin(rest);
      var m :| m in rest && forall x :: x in rest ==> m <= x;
      LeastOfInsert(s, y, rest, m);
      assert if y < m then y in s else m in s;
    }
  }

  lemma HasElement(s: set<int>)
    requires s != {}
    ensures exists y :: y in s
  {
    if forall y :: y !in s {
      assert false;
    }
  }

  lemma LeastOfSingleton(s: set<int>, y: int)
    requires y in s && s - {y} == {}
    ensures forall x :: x in s ==> y <= x
  {
    forall x | x in s
      ensures y <= x
    {
      assert x !in s - {y};
    }
  }

  lemma LeastOfInsert(s: set<int>, y: int, rest: set<int>, m: int)
    requires y in s && rest == s - {y}
    requires m in rest && forall x :: x in rest ==> m <= x
    ensures forall x :: x in s ==> (if y < m then y else m) <= x
  {
    forall x | x in s
      ensures (if y < m then y else m) <= x
    {
      if x != y {
        assert x in rest;
      }
    }
  }

  /**
   * `radix_tree_gang_lookup(root, results, first, max)`: the present keys
   * at or above `first`, smallest first, at most `max` of them.
   */
  function GangLookup(keys: set<int>, first: int, max: nat): (r: seq<int>)
    ensures |r| <= max
    decreases max
  {
    var above := set k | k in keys && k >= first;
    if max == 0 || above == {} then []
    else
      var m := SetMin(above);
      [m] + GangLookup(keys, m + 1, max - 1)
  }

  /**
   * What a caller of the gang lookup relies on: the batch holds present
   * keys at or above `first` in ascending order, skips no present key up
   * to its last element, is empty only when no key is left at or above
   * `first`, and holds every such key when it is shorter than `max`.
   */
  lemma GangLookupSpec(keys: set<int>, first: int, max: nat)
    ensures var r := GangLookup(keys, first, max);
      && (forall i :: 0 <= i < |r| ==> r[i] in keys && r[i] >= first)
      && (forall i, j :: 0 <= i < j < |r| ==> r[i] < r[j])
      && (|r| < max ==> forall k :: k in keys && k >= first ==> k in r)
      && (|r| > 0 ==> forall k :: k in keys && first <= k <= r[|r| - 1] ==> k in r)
      && (max > 0 && (exists k :: k in keys && k >= first) ==> |r| > 0)
  {
    GangLookupSorted(keys, first, max);
    GangLookupComplete(keys, first, max);
    var above := set k | k in keys && k >= first;
    if max > 0 && exists k :: k in keys && k >= first {
      var k :| k in keys && k >= first;
      assert k in above;
    }
  }

  /** The batch holds present keys at or above `first`, in ascending order. */
  lemma {:induction false} GangLookupSorted(keys: set<int>, first: int, max: nat)
    ensures forall i :: 0 <= i < |GangLookup(keys, first, max)| ==>
      GangLookup(keys, first, max)[i] in keys && GangLookup(keys, first, max)[i] >= first
    ensures forall i, j :: 0 <= i < j < |GangLookup(keys, first, max)| ==>
      GangLookup(keys, first, max)[i] < GangLookup(keys, first, max)[j]
    decreases max
  {
    var above := set k | k in keys && k >= first;
    if max > 0 && above != {} {
      var m := SetMin(above);
      var rest := GangLookup(keys, m + 1, max - 1);
      GangLookupSorted(keys, m + 1, max - 1);
      var r := GangLookup(keys, first, max);
      assert r == [m] + rest;
      forall i | 0 <= i < |r|
        ensures r[i] in keys && r[i] >= first
      {
        if i > 0 {
          assert r[i] == rest[i - 1];
        } else {
          assert m in above;
        }
      }
      forall i, j | 0 <= i < j < |r|
        ensures r[i] < r[j]
      {
        assert r[j] == rest[j - 1];
        if i > 0 {
          assert r[i] == rest[i - 1];
        }
      }
    }
  }

  /** The batch skips no present key up to its last element, nor any at all when short. */
  lemma {:induction false} GangLookupComplete(keys: set<int>, first: int, max: nat)
    ensures var r := GangLookup(keys, first, max);
      && (|r| < max ==> forall k :: k in keys && k >= first ==> k in r)
      && (|r| > 0 ==> forall k :: k in keys && first <= k <= r[|r| - 1] ==> k in r)
    decreases max
  {
    var above := set k | k in keys && k >= first;
    assert forall k :: k in keys && k >= first ==> k in above;
    if max > 0 && above != {} {
      var m := SetMin(above);
      var rest := GangLookup(keys, m + 1, max - 1);
      GangLookupComplete(keys, m + 1, max - 1);
      assert GangLookup(keys, first, max) == [m] + rest;
      assert forall k :: k in keys && first <= k ==> k == m || m + 1 <= k;
    }
  }

  /** The part of the gang lookup's promise a caller needs before using the batch. */
  lemma GangLookupBasics(keys: set<int>, first: int, max: nat)
    requires max > 0
    ensures var r := GangLookup(keys, first, max);
      && (forall i :: 0 <= i < |r| ==> r[i] in keys && r[i] >= first)
      && (forall i, j :: 0 <= i < j < |r| ==> r[i] < r[j])
      && (|r| == 0 ==> forall k :: k in keys ==> k < first)
  {
    GangLookupSpec(keys, first, max);
  }

  /**
   * After each key of a batch has had its count lowered, every key from
   * `first` up to the last of the batch has a lower count.
   */
  lemma BatchLowers(keys: set<int>, first: int, max: nat, rB: map<int, nat>, r: map<int, nat>)
    requires var b := GangLookup(keys, first, max);
      && |b| > 0 && r.Keys <= keys && r.Keys <= rB.Keys
      && forall j :: 0 <= j < |b| && b[j] in r ==> r[b[j]] < rB[b[j]]
    ensures var b := GangLookup(keys, first, max);
      forall k :: k in r && first <= k <= b[|b| - 1] ==> r[k] < rB[k]
  {
    GangLookupSpec(keys, first, max);
    var b := GangLookup(keys, first, max);
    forall k | k in r && first <= k <= b[|b| - 1]
      ensures r[k] < rB[k]
    {
      assert k in b;
      var j :| 0 <= j < |b| && b[j] == k;
    }
  }

  predicate NoDup<T(==)>(s: seq<T>)
  {
    forall i, j :: 0 <= i < j < |s| ==> s[i] != s[j]
  }

  /** `list_del_init` of node `x` from the list `s`. */
  function Remove<T(==,!new)>(s: seq<T>, x: T): (r: seq<T>)
    ensures forall y :: y in r <==> y in s && y != x
    ensures NoDup(s) ==> NoDup(r)
    ensures NoDup(s) && x in s ==> |r| == |s| - 1
    ensures x !in s ==> r == s
  {
    if s == [] then []
    else
      var rest := Remove(s[1..], x);
      if s[0] == x then
        assert NoDup(s) ==> s[0] !in s[1..];
        rest
      else
        assert forall y :: y in s <==> y == s[0] || y in s[1..];
        assert NoDup(s) ==> s[0] !in rest;
        [s[0]] + rest
  }

  /** Removing the first node of a list without repeats leaves its tail. */
  lemma RemoveHead<T(!new)>(s: seq<T>)
    requires NoDup(s) && |s| > 0
    ensures Remove(s, s[0]) == s[1..]
  {
    assert s[0] !in s[1..];
  }

  /** Sum of the counts of a finite map. */
  ghost function Total<K>(m: map<K, nat>): nat
    decreases |m.Keys|
  {
    if m == map[] then 0
    else
      var k :| k in m;
      m[k] + Total(m - {k})
  }

  lemma {:induction false} TotalRemove<K>(m: map<K, nat>, k: K)
    requires k in m
    ensures Total(m) == m[k] + Total(m - {k})
    decreases |m.Keys|
  {
    var j :| j in m && Total(m) == m[j] + Total(m - {j});
    if j != k {
      var mj := m - {j};
      var mk := m - {k};
      assert |mj.Keys| < |m.Keys| by { assert mj.Keys == m.Keys - {j}; }
      assert |mk.Keys| < |m.Keys| by { assert mk.Keys == m.Keys - {k}; }
      TotalRemove(mj, k);
      TotalRemove(mk, j);
      assert mj - {k} == mk - {j};
    }
  }

  /** Taking one away from one count lowers the total by one. */
  lemma TotalDecrement<K>(m: map<K, nat>, k: K)
    requires k in m && m[k] >= 1
    ensures Total(m[k := m[k] - 1]) == Total(m) - 1
  {
    var m' := m[k := m[k] - 1];
    TotalRemove(m, k);
    TotalRemove(m', k);
    assert m' - {k} == m - {k};
  }
}
