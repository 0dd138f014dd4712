/**
 pintos/src/lib/kernel/hash.c: a chained hash table that resizes.  A bucket is the sequence of
 the elements of its list.  Elements are equal when neither is less than the other; `key` names
 the classes of equal elements, and the hash must be the same throughout a class.
 */
module HashTable {
  import opened Arithmetic
  import opened BitTricks
  import opened Sequences
  import opened Wrappers

  const BEST_ELEMS_PER_BUCKET := 2

  lemma PutAgain<K, E>(m: map<K, E>, k: K, e: E)
    ensures (m - {k})[k := e] == m[k := e]
  {
  }

  /** The elements from place p of bucket b on, bucket by bucket. */
  function Rest<E>(bs: seq<seq<E>>, b: nat, p: nat): seq<E>
    requires b < |bs| && p <= |bs[b]|
    decreases |bs| - b
  {
    bs[b][p..] + (if b + 1 < |bs| then Rest(bs, b + 1, 0) else [])
  }

  /** The number of buckets for n elements: the greatest power of two that is at most one for every two
      elements, or 4. */
  function Ideal(n: nat): nat {
    Top(if n / BEST_ELEMS_PER_BUCKET < 4 then 4 else n / BEST_ELEMS_PER_BUCKET)
  }

  class HashTable<E(==, !new), K(==, !new)> {
    const hash: E -> nat
    const less: (E, E) -> bool
    ghost const key: E -> K
    var elemCnt: nat
    var buckets: array<seq<E>>
    /** The map that the table stands for. */
    ghost var contents: map<K, E>

    ghost predicate Lawful() {
      && (forall a, b :: !less(a, b) && !less(b, a) <==> key(a) == key(b))
      && (forall a, b :: key(a) == key(b) ==> hash(a) == hash(b))
    }

    /** find_bucket: hash & (n - 1) */
    function Place(e: E, n: nat): (p: nat)
      requires n > 0
      ensures p < n
    {
      And(hash(e), n - 1)
    }

    /** The buckets hold exactly the values of m, each once, in the bucket of its hash. */
    ghost predicate Stores(bs: seq<seq<E>>, m: map<K, E>) {
      && |bs| > 0
      && (forall i, e | 0 <= i < |bs| && e in bs[i] :: Place(e, |bs|) == i && key(e) in m && m[key(e)] == e)
      && (forall k | k in m :: key(m[k]) == k && m[k] in bs[Place(m[k], |bs|)])
      && (forall i | 0 <= i < |bs| :: Distinct(bs[i]))
    }

    ghost predicate Valid()
      reads this, buckets
    {
      && Lawful()
      && buckets.Length >= 4 && IsPowerOf2(buckets.Length)
      && Stores(buckets[..], contents)
      && elemCnt == |contents|
    }

    constructor (hash: E -> nat, less: (E, E) -> bool, ghost key: E -> K)
      requires forall a, b :: !less(a, b) && !less(b, a) <==> key(a) == key(b)
      requires forall a, b :: key(a) == key(b) ==> hash(a) == hash(b)
      ensures Valid() && fresh(buckets) && contents == map[]
      ensures this.hash == hash && this.less == less && this.key == key
    {
      this.hash, this.less, this.key := hash, less, key;
      elemCnt := 0;
      buckets := new seq<E>[4](i => []);
      contents := map[];
      new;
      PowerPasses(2);
      assert Pow2(2) == 4;
    }

    /** find_elem: the place in bucket b of the first element equal to e. */
    method FindElem(b: nat, e: E) returns (j: Option<nat>)
      requires Lawful() && b < buckets.Length
      ensures match j
              case Some(i) => i < |buckets[b]| && key(buckets[b][i]) == key(e)
              case None => forall x | x in buckets[b] :: key(x) != key(e)
    {
      var i := 0;
      while i < |buckets[b]|
        invariant i <= |buckets[b]| && forall x | x in buckets[b][..i] :: key(x) != key(e)
      {
        if !less(buckets[b][i], e) && !less(e, buckets[b][i]) {
          return Some(i);
        }
        assert buckets[b][..i + 1] == buckets[b][..i] + [buckets[b][i]];
        i := i + 1;
      }
      assert buckets[b][..i] == buckets[b];
      return None;
    }

    /** find_elem in the bucket of the hash finds what the map has. */
    method Lookup(e: E) returns (b: nat, j: Option<nat>)
      requires Lawful() && buckets.Length > 0 && Stores(buckets[..], contents)
      ensures b == Place(e, buckets.Length) && b < buckets.Length
      ensures match j
              case Some(i) => i < |buckets[b]| && key(e) in contents && contents[key(e)] == buckets[b][i]
                              && key(buckets[b][i]) == key(e)
              case None => key(e) !in contents
    {
      b := Place(e, buckets.Length);
      j := FindElem(b, e);
      match j
      case Some(i) => assert buckets[..][b][i] in buckets[..][b];
      case None => assert key(e) in contents ==> Place(contents[key(e)], buckets.Length) == b;
    }

    lemma InsertStores(bs: seq<seq<E>>, m: map<K, E>, e: E)
      requires Stores(bs, m) && key(e) !in m
      ensures var b := Place(e, |bs|); Stores(bs[b := [e] + bs[b]], m[key(e) := e])
    {
      var b := Place(e, |bs|);
      var bs' := bs[b := [e] + bs[b]];
      assert e !in bs[b];
      forall i | 0 <= i < |bs'| ensures Distinct(bs'[i]) {
        assert Distinct(bs[i]);
      }
    }

    lemma RemoveStores(bs: seq<seq<E>>, m: map<K, E>, b: nat, j: nat)
      requires Stores(bs, m) && b < |bs| && j < |bs[b]|
      ensures Stores(bs[b := Without(bs[b], j)], m - {key(bs[b][j])})
    {
      var e := bs[b][j];
      assert e in bs[b] && Distinct(bs[b]);
      WithoutMembers(bs[b], j);
      var bs', m' := bs[b := Without(bs[b], j)], m - {key(e)};
      forall i, x | 0 <= i < |bs'| && x in bs'[i] ensures Place(x, |bs'|) == i && key(x) in m' && m'[key(x)] == x {
        assert x in bs[i];
      }
      forall i | 0 <= i < |bs'| ensures Distinct(bs'[i]) {
        assert Distinct(bs[i]);
      }
    }

    method InsertElem(b: nat, e: E)
      requires Lawful() && Stores(buckets[..], contents) && elemCnt == |contents|
      requires key(e) !in contents && b == Place(e, buckets.Length) && b < buckets.Length
      modifies this`elemCnt, this`contents, buckets
      ensures Stores(buckets[..], contents) && elemCnt == |contents| && contents == old(contents)[key(e) := e]
    {
      InsertStores(buckets[..], contents, e);
      ghost var bs := buckets[..];
      elemCnt := elemCnt + 1;
      buckets[b] := [e] + buckets[b];
      contents := contents[key(e) := e];
      assert buckets[..] == bs[b := [e] + bs[b]];
    }

    method RemoveElem(b: nat, j: nat)
      requires Lawful() && Stores(buckets[..], contents) && elemCnt == |contents|
      requires b < buckets.Length && j < |buckets[b]|
      modifies this`elemCnt, this`contents, buckets
      ensures Stores(buckets[..], contents) && elemCnt == |contents|
      ensures contents == old(contents) - {old(key(buckets[b][j]))}
    {
      RemoveStores(buckets[..], contents, b, j);
      ghost var bs, e := buckets[..], buckets[b][j];
      assert e in bs[b] && key(e) in contents;
      elemCnt := elemCnt - 1;
      buckets[b] := Without(buckets[b], j);
      contents := contents - {key(e)};
      assert buckets[..] == bs[b := Without(bs[b], j)];
    }

    /** The number of buckets that rehash aims at. */
    method IdealCount() returns (n: nat)
      ensures n == Ideal(elemCnt)
      ensures n >= 4 && IsPowerOf2(n) && elemCnt < 4 * n
    {
      n := elemCnt / BEST_ELEMS_PER_BUCKET;
      if n < 4 {
        n := 4;
      }
      ghost var start := n;
      TopIsPower(start);
      TopAtLeast4(start);
      while !IsPowerOf2(n)
        invariant n > 0 && Top(n) == Top(start)
        decreases n
      {
        TurnOffKeepsTop(n);
        n := TurnOffLeast1Bit(n);
      }
      TurnOffKeepsTop(n);
    }

    lemma TopAtLeast4(x: nat)
      requires x >= 4
      ensures Top(x) >= 4
    {
      assert Top(x / 2) >= 2 by {
        assert Top(x / 2 / 2) >= 1;
      }
    }

    /** rehash; `memory` says whether malloc will succeed, and if it does not then nothing changes. */
    method Rehash(memory: bool)
      requires Valid()
      modifies this`buckets, buckets
      ensures Valid() && (buckets == old(buckets) || fresh(buckets))
      ensures if memory then buckets.Length == Ideal(elemCnt) && elemCnt < 4 * buckets.Length
              else buckets == old(buckets) && buckets[..] == old(buckets[..])
    {
      hide Stores, Lawful, IsPowerOf2, Moved, Rebuilt, Ideal, Place;
      var n := IdealCount();
      if n == buckets.Length {
        return;
      }
      if !memory {
        return;
      }
      var newBuckets := new seq<E>[n](i => []);
      ghost var moved: set<E> := {};
      ghost var bs := buckets[..];
      var i := 0;
      NoneMoved(bs, newBuckets[..]);
      while i < buckets.Length
        invariant i <= |bs| && buckets[..] == bs && fresh(newBuckets) && newBuckets.Length == n
        invariant Moved(bs, i, 0, moved) && Rebuilt(newBuckets[..], moved)
      {
        var j := 0;
        while j < |buckets[i]|
          invariant j <= |bs[i]| && buckets[..] == bs && newBuckets.Length == n
          invariant Moved(bs, i, j, moved) && Rebuilt(newBuckets[..], moved)
        {
          var e := buckets[i][j];
          MoveOne(bs, contents, i, j, moved);
          RebuildOne(newBuckets[..], moved, e);
          ghost var was := newBuckets[..];
          var b := Place(e, n);
          newBuckets[b] := [e] + newBuckets[b];
          assert newBuckets[..] == was[b := [e] + was[b]];
          moved := moved + {e};
          j := j + 1;
        }
        MovedBucket(bs, i, moved);
        i := i + 1;
      }
      AllMoved(bs, contents, moved);
      RebuiltStores(newBuckets[..], bs, contents, moved);
      buckets := newBuckets;
    }

    /** The elements of the first i old buckets and the first j of bucket i. */
    ghost predicate Moved(bs: seq<seq<E>>, i: nat, j: nat, moved: set<E>) {
      && i <= |bs| && (i < |bs| ==> j <= |bs[i]|)
      && forall e :: e in moved <==> (exists b :: 0 <= b < i && e in bs[b]) || (i < |bs| && e in bs[i][..j])
    }

    /** Buckets that hold exactly a set, each element once and in its place. */
    ghost predicate Rebuilt(bs: seq<seq<E>>, elems: set<E>) {
      && |bs| > 0
      && (forall i, e | 0 <= i < |bs| && e in bs[i] :: Place(e, |bs|) == i && e in elems)
      && (forall e | e in elems :: e in bs[Place(e, |bs|)])
      && (forall i | 0 <= i < |bs| :: Distinct(bs[i]))
    }

    lemma NoneMoved(bs: seq<seq<E>>, empty: seq<seq<E>>)
      requires |empty| > 0 && forall i :: 0 <= i < |empty| ==> empty[i] == []
      ensures Moved(bs, 0, 0, {}) && Rebuilt(empty, {})
    {
    }

    lemma MoveOne(bs: seq<seq<E>>, m: map<K, E>, i: nat, j: nat, moved: set<E>)
      requires Stores(bs, m) && i < |bs| && j < |bs[i]| && Moved(bs, i, j, moved)
      ensures bs[i][j] !in moved && Moved(bs, i, j + 1, moved + {bs[i][j]})
    {
      var e := bs[i][j];
      assert e in bs[i] && Distinct(bs[i]);
      assert Place(e, |bs|) == i;
      assert forall b | 0 <= b < i :: e !in bs[b];
      assert e !in bs[i][..j];
      assert bs[i][..j + 1] == bs[i][..j] + [e];
    }

    lemma MovedBucket(bs: seq<seq<E>>, i: nat, moved: set<E>)
      requires i < |bs| && Moved(bs, i, |bs[i]|, moved)
      ensures Moved(bs, i + 1, 0, moved)
    {
      assert bs[i][..|bs[i]|] == bs[i];
    }

    lemma RebuildOne(bs: seq<seq<E>>, elems: set<E>, e: E)
      requires Rebuilt(bs, elems) && e !in elems
      ensures var b := Place(e, |bs|); Rebuilt(bs[b := [e] + bs[b]], elems + {e})
    {
      var b := Place(e, |bs|);
      var bs' := bs[b := [e] + bs[b]];
      forall i | 0 <= i < |bs'| ensures Distinct(bs'[i]) {
        assert Distinct(bs[i]);
      }
    }

    lemma AllMoved(bs: seq<seq<E>>, m: map<K, E>, moved: set<E>)
      requires Stores(bs, m) && Moved(bs, |bs|, 0, moved)
      ensures forall e :: e in moved <==> key(e) in m && m[key(e)] == e
    {
      forall k | k in m ensures m[k] in moved {
        assert m[k] in bs[Place(m[k], |bs|)];
      }
    }

    lemma RebuiltStores(bs': seq<seq<E>>, bs: seq<seq<E>>, m: map<K, E>, moved: set<E>)
      requires Stores(bs, m) && Rebuilt(bs', moved) && forall e :: e in moved <==> key(e) in m && m[key(e)] == e
      ensures Stores(bs', m)
    {
    }

    /** hash_insert: returns an equal element that is there already, and inserts nothing then. */
    method Insert(e: E, memory: bool) returns (old_: Option<E>)
      requires Valid()
      modifies this, buckets
      ensures Valid() && (buckets == old(buckets) || fresh(buckets))
      ensures memory ==> buckets.Length == Ideal(elemCnt)
      ensures key(e) in old(contents) ==> old_ == Some(old(contents)[key(e)]) && contents == old(contents)
      ensures key(e) !in old(contents) ==> old_ == None && contents == old(contents)[key(e) := e]
    {
      hide Stores, Lawful, IsPowerOf2;
      var b, j := Lookup(e);
      if j == None {
        old_ := None;
        InsertElem(b, e);
      } else {
        old_ := Some(buckets[b][j.value]);
      }
      Rehash(memory);
    }

    /** hash_replace: returns the equal element that e takes the place of, if any. */
    method Replace(e: E, memory: bool) returns (old_: Option<E>)
      requires Valid()
      modifies this, buckets
      ensures Valid() && (buckets == old(buckets) || fresh(buckets))
      ensures memory ==> buckets.Length == Ideal(elemCnt)
      ensures old_ == if key(e) in old(contents) then Some(old(contents)[key(e)]) else None
      ensures contents == old(contents)[key(e) := e]
    {
      hide Stores, Lawful, IsPowerOf2;
      var b, j := Lookup(e);
      old_ := if j == None then None else Some(buckets[b][j.value]);
      ghost var m := contents;
      TakeOut(b, j, e);
      InsertElem(b, e);
      PutAgain(m, key(e), e);
      Rehash(memory);
    }

    method TakeOut(b: nat, j: Option<nat>, e: E)
      requires Lawful() && Stores(buckets[..], contents) && elemCnt == |contents| && b < buckets.Length
      requires match j
               case Some(i) => i < |buckets[b]| && key(buckets[b][i]) == key(e)
               case None => key(e) !in contents
      modifies this`elemCnt, this`contents, buckets
      ensures Stores(buckets[..], contents) && elemCnt == |contents|
      ensures contents == old(contents) - {key(e)}
    {
      hide Stores, Lawful;
      if j.Some? {
        RemoveElem(b, j.value);
      } else {
        assert contents - {key(e)} == contents;
      }
    }

    /** hash_find */
    method Find(e: E) returns (found: Option<E>)
      requires Valid()
      ensures found == if key(e) in contents then Some(contents[key(e)]) else None
    {
      hide Stores, Lawful, IsPowerOf2;
      var b, j := Lookup(e);
      found := if j == None then None else Some(buckets[b][j.value]);
    }

    /** hash_delete */
    method Delete(e: E, memory: bool) returns (found: Option<E>)
      requires Valid()
      modifies this, buckets
      ensures Valid() && (buckets == old(buckets) || fresh(buckets))
      ensures memory && found.Some? ==> buckets.Length == Ideal(elemCnt)
      ensures found == if key(e) in old(contents) then Some(old(contents)[key(e)]) else None
      ensures contents == old(contents) - {key(e)}
    {
      hide Stores, Lawful, IsPowerOf2;
      var b, j := Lookup(e);
      if j == None {
        return None;
      }
      found := Some(buckets[b][j.value]);
      RemoveElem(b, j.value);
      Rehash(memory);
    }

    // ---- iteration ----

    lemma {:induction false} RestMembers(bs: seq<seq<E>>, m: map<K, E>, b: nat)
      requires Stores(bs, m) && b < |bs|
      ensures forall e :: e in Rest(bs, b, 0) <==> exists i :: b <= i < |bs| && e in bs[i]
      ensures Distinct(Rest(bs, b, 0))
      decreases |bs| - b
    {
      assert bs[b][0..] == bs[b];
      if b + 1 < |bs| {
        RestMembers(bs, m, b + 1);
        var r := Rest(bs, b + 1, 0);
        forall e | e in bs[b] ensures e !in r {
          assert Place(e, |bs|) == b;
        }
        DistinctConcat(bs[b], r);
      }
    }

    /** An iteration from hash_first visits each element of the table once, and nothing else. */
    lemma IterationVisits(bs: seq<seq<E>>, m: map<K, E>)
      requires Stores(bs, m)
      ensures Distinct(Rest(bs, 0, 0))
      ensures forall e :: e in Rest(bs, 0, 0) <==> key(e) in m && m[key(e)] == e
    {
      RestMembers(bs, m, 0);
      forall k | k in m ensures m[k] in Rest(bs, 0, 0) {
        assert m[k] in bs[Place(m[k], |bs|)];
      }
    }

    /** The iteration idiom of hash.h. */
    method Iterate() returns (visited: seq<E>)
      requires Valid()
      ensures visited == Rest(buckets[..], 0, 0)
      ensures Distinct(visited) && forall e :: e in visited <==> key(e) in contents && contents[key(e)] == e
    {
      IterationVisits(buckets[..], contents);
      visited := Walk(buckets);
    }
  }

  method Walk<E(==)>(buckets: array<seq<E>>) returns (visited: seq<E>)
    requires buckets.Length > 0
    ensures visited == Rest(buckets[..], 0, 0)
  {
    var i := new HashIterator(buckets);
    visited := [];
    while true
      invariant i.buckets == buckets && i.Valid()
      invariant visited + i.Remaining() == Rest(buckets[..], 0, 0)
      decreases |i.Remaining()|
    {
      var e := i.Next();
      if e == None {
        break;
      }
      visited := visited + [e.value];
    }
  }

  lemma {:induction false} RestSkipsEmpty<E>(bs: seq<seq<E>>, b: nat, p: nat)
    requires b < |bs| && p <= |bs[b]|
    ensures p == |bs[b]| ==> Rest(bs, b, p) == if b + 1 < |bs| then Rest(bs, b + 1, 0) else []
    ensures p < |bs[b]| ==> Rest(bs, b, p) == [bs[b][p]] + Rest(bs, b, p + 1)
  {
    if p < |bs[b]| {
      assert bs[b][p..] == [bs[b][p]] + bs[b][p + 1..];
    }
  }

  /** struct hash_iterator: the current bucket and the place of the current element in it; -1 is
      the list head. */
  class HashIterator<E(==)> {
    const buckets: array<seq<E>>
    var bucket: nat
    var elem: int

    ghost predicate Valid()
      reads this, buckets
    {
      bucket < buckets.Length && -1 <= elem < |buckets[bucket]|
    }

    /** What the iteration has yet to visit. */
    ghost function Remaining(): seq<E>
      requires Valid()
      reads this, buckets
    {
      Rest(buckets[..], bucket, elem + 1)
    }

    /** hash_first */
    constructor (buckets: array<seq<E>>)
      requires buckets.Length > 0
      ensures Valid() && this.buckets == buckets && Remaining() == Rest(buckets[..], 0, 0)
    {
      this.buckets := buckets;
      bucket, elem := 0, -1;
    }

    /** hash_next */
    method Next() returns (e: Option<E>)
      requires Valid()
      modifies this
      ensures match e
              case Some(x) => Valid() && old(Remaining()) == [x] + Remaining()
              case None => old(Remaining()) == []
    {
      elem := elem + 1;
      while elem == |buckets[bucket]|
        invariant bucket < buckets.Length && 0 <= elem <= |buckets[bucket]|
        invariant Rest(buckets[..], bucket, elem) == old(Remaining())
        decreases buckets.Length - bucket
      {
        RestSkipsEmpty(buckets[..], bucket, elem);
        if bucket + 1 >= buckets.Length {
          return None;
        }
        bucket := bucket + 1;
        elem := 0;
      }
      RestSkipsEmpty(buckets[..], bucket, elem);
      return Some(buckets[bucket][elem]);
    }
  }
}
