/**
 * The fixed-size bucket hash table: an array of `2^bits` list heads, each
 * bucket a list of node identities with the list head first.  The hash
 * function (`hash_min`) is not part of the model: callers pass the bucket
 * index it would produce.
 */
module HashTable {
  import opened Base
  import Radix

  /** `HASH_SIZE`: `1 << bits` on a C `int`, which is `2^bits` below bit 31. */
  function HashSize(bits: nat): (n: nat)
    requires bits < 31
    ensures n == Pow2(bits)
  {
    Pow2Monotone(bits, 32);
    Pow2Widths();
    Shl64IsMul(1, bits);
    DivModUnique(Pow2(bits), U64, 0, Pow2(bits));
    Shl64(1, bits)
  }

  /** The node/bucket pairs `hash_for_each_size` visits in bucket `b`, list order. */
  function Pairs(b: nat, l: seq<nat>): (r: seq<(nat, nat)>)
    ensures |r| == |l|
    ensures forall i :: 0 <= i < |l| ==> r[i] == (b, l[i])
  {
    seq(|l|, i requires 0 <= i < |l| => (b, l[i]))
  }

  /** Everything `hash_for_each_size` visits in buckets `0 .. k - 1`. */
  function Walk(bs: seq<seq<nat>>, k: nat): seq<(nat, nat)>
    requires k <= |bs|
  {
    if k == 0 then [] else Walk(bs, k - 1) + Pairs(k - 1, bs[k - 1])
  }

  /** The walk visits the buckets in ascending order... */
  lemma {:induction false} WalkAscending(bs: seq<seq<nat>>, k: nat)
    requires k <= |bs|
    ensures forall i, j :: 0 <= i < j < |Walk(bs, k)| ==> Walk(bs, k)[i].0 <= Walk(bs, k)[j].0
    ensures forall i :: 0 <= i < |Walk(bs, k)| ==> Walk(bs, k)[i].0 < k
  {
    if k > 0 {
      WalkAscending(bs, k - 1);
      var w: seq<(nat, nat)>, p: seq<(nat, nat)> := Walk(bs, k - 1), Pairs(k - 1, bs[k - 1]);
      assert Walk(bs, k) == w + p;
      forall i | 0 <= i < |w + p|
        ensures (w + p)[i].0 < k
        ensures |w| <= i ==> (w + p)[i].0 == k - 1
      {
        if i >= |w| {
          assert (w + p)[i] == p[i - |w|];
        }
      }
    }
  }

  /** ...and visits exactly the nodes of each bucket, each in the bucket it is in. */
  lemma {:induction false} WalkMembers(bs: seq<seq<nat>>, k: nat, b: nat, n: nat)
    requires k <= |bs|
    ensures (b, n) in Walk(bs, k) <==> b < k && n in bs[b]
  {
    if k > 0 {
      WalkMembers(bs, k - 1, b, n);
      var w: seq<(nat, nat)>, p: seq<(nat, nat)> := Walk(bs, k - 1), Pairs(k - 1, bs[k - 1]);
      assert Walk(bs, k) == w + p;
      assert (b, n) in p <==> b == k - 1 && n in bs[k - 1] by {
        if (b, n) in p {
          var i :| 0 <= i < |p| && p[i] == (b, n);
          assert bs[k - 1][i] == n;
        }
        if b == k - 1 && n in bs[k - 1] {
          var i :| 0 <= i < |bs[k - 1]| && bs[k - 1][i] == n;
          assert p[i] == (b, n);
        }
      }
    }
  }

  /** A table `DEFINE_HASHTABLE(name, bits)`: `2^bits` bucket lists. */
  class Table {
    const bits: nat
    const heads: array<seq<nat>>

    /** Allocate the buckets; their contents are whatever the memory held. */
    constructor(bits: nat, garbage: seq<seq<nat>>)
      requires bits < 31 && |garbage| == Pow2(bits)
      ensures this.bits == bits && heads.Length == Pow2(bits) && heads[..] == garbage
    {
      this.bits := bits;
      heads := new seq<nat>[|garbage|](i requires 0 <= i < |garbage| => garbage[i]);
    }

    /** Every node is at most once in at most one bucket. */
    ghost predicate Valid()
      reads this, heads
    {
      && bits < 31 && heads.Length == Pow2(bits)
      && (forall b :: 0 <= b < heads.Length ==> Radix.NoDup(heads[b]))
      && (forall b1, b2, n :: 0 <= b1 < heads.Length && 0 <= b2 < heads.Length && n in heads[b1] && n in heads[b2]
            ==> b1 == b2)
    }

    /** `hash_hashed`: the node is on some bucket list. */
    ghost predicate Hashed(n: nat)
      reads this, heads
    {
      exists b :: 0 <= b < heads.Length && n in heads[b]
    }

    /** `hash_init_size`: empty every bucket `0 .. HASH_SIZE(bits) - 1`. */
    method InitSize()
      requires bits < 31 && heads.Length == Pow2(bits)
      modifies heads
      ensures forall b :: 0 <= b < heads.Length ==> heads[b] == []
      ensures Valid()
      ensures forall n :: !Hashed(n)
    {
      var i := 0;
      var size := HashSize(bits);
      while i < size
        invariant 0 <= i <= size
        invariant forall b :: 0 <= b < i ==> heads[b] == []
      {
        heads[i] := [];
        i := i + 1;
      }
    }

    /**
     * `hash_add_size`: `hlist_add_head` onto bucket `h`, the bucket
     * `hash_min(key, bits)` selects.
     */
    method AddSize(n: nat, h: nat)
      requires Valid() && h < heads.Length && !Hashed(n)
      modifies heads
      ensures heads[h] == [n] + old(heads[h])
      ensures forall b :: 0 <= b < heads.Length && b != h ==> heads[b] == old(heads[b])
      ensures Valid() && Hashed(n)
    {
      heads[h] := [n] + heads[h];
      assert n in heads[h];
    }

    /**
     * `hash_del`: `hlist_del_init` unlinks the node from whichever list
     * holds it; a node on no list is left alone.
     */
    method Del(n: nat)
      requires Valid()
      modifies heads
      ensures forall b :: 0 <= b < heads.Length ==> heads[b] == Radix.Remove(old(heads[b]), n)
      ensures Valid() && !Hashed(n)
      ensures forall m :: m != n ==> (Hashed(m) <==> old(Hashed(m)))
    {
      forall b | 0 <= b < heads.Length {
        heads[b] := Radix.Remove(heads[b], n);
      }
    }

    /** `hash_empty_size`: scan the buckets in order, stop at the first non-empty one. */
    method EmptySize() returns (empty: bool)
      requires Valid()
      ensures empty <==> forall b :: 0 <= b < heads.Length ==> heads[b] == []
      ensures empty <==> forall n :: !Hashed(n)
    {
      var size := HashSize(bits);
      var i := 0;
      while i < size
        invariant 0 <= i <= size
        invariant forall b :: 0 <= b < i ==> heads[b] == []
      {
        if heads[i] != [] {
          assert heads[i][0] in heads[i];
          assert Hashed(heads[i][0]);
          return false;
        }
        i := i + 1;
      }
      return true;
    }

    /**
     * `hash_for_each_size`: bucket by bucket from 0, each list from its
     * head; returns the (bucket, node) pairs in visiting order.
     */
    method ForEachSize() returns (visited: seq<(nat, nat)>)
      requires Valid()
      ensures visited == Walk(heads[..], heads.Length)
    {
      var size := HashSize(bits);
      visited := [];
      var bkt := 0;
      while bkt < size
        invariant 0 <= bkt <= size
        invariant visited == Walk(heads[..], bkt)
      {
        var l := heads[bkt];
        var j := 0;
        while j < |l|
          invariant 0 <= j <= |l|
          invariant visited == Walk(heads[..], bkt) + Pairs(bkt, l[..j])
        {
          assert l[..j + 1] == l[..j] + [l[j]];
          visited := visited + [(bkt, l[j])];
          j := j + 1;
        }
        assert l[..j] == l;
        bkt := bkt + 1;
      }
    }
  }
}
