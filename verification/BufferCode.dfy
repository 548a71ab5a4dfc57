/** fs/buffer.c on its pointers: relinking, lookup, initialisation and the choice of a victim. */
module BufferCode {
  import opened Common
  import opened Lists
  import opened BufferIndex
  import opened BufferLinks

  class BufferTable {
    /** (b_dev, b_blocknr), the four link fields, and the heads. */
    const ids: array<Id>
    const next: array<int>
    const prev: array<int>
    const nextFree: array<int>
    const prevFree: array<int>
    const hashTable: array<int>
    var freeList: int
    /** b_count, b_dirt, b_lock and b_uptodate. */
    const count: array<nat>
    const dirt: array<bool>
    const lock: array<bool>
    const uptodate: array<bool>
    ghost var cache: Cache

    ghost predicate Apart() {
      && next != prev && next != nextFree && next != prevFree && next != hashTable
      && prev != nextFree && prev != prevFree && prev != hashTable
      && nextFree != prevFree && nextFree != hashTable && prevFree != hashTable
      && next.Length == prev.Length == nextFree.Length == prevFree.Length == ids.Length
      && count.Length == dirt.Length == lock.Length == uptodate.Length == ids.Length > 0
      && dirt != lock && dirt != uptodate && lock != uptodate && hashTable.Length == NR_HASH
    }

    /** The pointers spell out `cache`. */
    ghost predicate Linked()
      reads this, ids, next, prev, nextFree, prevFree, hashTable
    {
      && Apart() && cache.ids == ids[..]
      && AllChains(cache, next[..], prev[..], hashTable[..]) && LooseNil(ids[..], next[..], prev[..])
      && RingLinks(cache.ring, nextFree[..], prevFree[..], freeList)
    }

    ghost predicate Valid()
      reads this, ids, next, prev, nextFree, prevFree, hashTable
    {
      Linked() && Ok(cache)
    }

    /** Apart from the indexes, buffers without a device other than b have null hash links. */
    ghost predicate LooseBut(b: nat)
      reads ids, next, prev
      requires ids.Length == next.Length == prev.Length
    {
      forall x: nat :: x < ids.Length && x != b && ids[x].dev == 0 ==> next[x] == NIL && prev[x] == NIL
    }

    /** The state between remove_from_queues and insert_into_queues. */
    ghost predicate LinkedWithout(b: nat)
      reads this, ids, next, prev, nextFree, prevFree, hashTable
    {
      && Apart() && b < ids.Length && OkWithout(cache, b) && cache.ids[b := ids[b]] == ids[..]
      && AllChains(cache, next[..], prev[..], hashTable[..]) && LooseBut(b)
      && RingLinks(cache.ring, nextFree[..], prevFree[..], freeList)
      && (cache.ring == [] ==> freeList == b && nextFree[b] == b && prevFree[b] == b)
    }

    method RemoveFromQueues(b: nat)
      requires Valid() && b < ids.Length
      modifies this`freeList, this`cache, next, prev, nextFree, prevFree, hashTable
      ensures cache == Remove(old(cache), b) && LinkedWithout(b)
    {
      RemoveOk(cache, b);
      RemoveFromHash(b);
      RemoveFromFree(b);
      cache := Remove(cache, b);
    }

    method RemoveFromHash(b: nat)
      requires Valid() && b < ids.Length
      modifies next, prev, hashTable
      ensures AllChains(Remove(cache, b), next[..], prev[..], hashTable[..]) && LooseBut(b)
    {
      UnlinkAll(cache, next[..], prev[..], hashTable[..], b);
      NeighboursHaveDevices(cache, next[..], prev[..], hashTable[..], b);
      var h := Hash(ids[b]);
      if next[b] != NIL {
        prev[next[b]] := prev[b];
      }
      if prev[b] != NIL {
        next[prev[b]] := next[b];
      }
      if hashTable[h] == b {
        hashTable[h] := next[b];
      }
      assert next[..] == Poke(old(next[..]), old(prev[b]), old(next[b]));
      assert prev[..] == Poke(old(prev[..]), old(next[b]), old(prev[b]));
    }

    method RemoveFromFree(b: nat)
      requires Apart() && NoDup(cache.ring) && b in cache.ring && b < ids.Length
      requires RingLinks(cache.ring, nextFree[..], prevFree[..], freeList)
      modifies this`freeList, nextFree, prevFree
      ensures var ring := RemoveAt(cache.ring, IndexOf(cache.ring, b));
              && RingLinks(ring, nextFree[..], prevFree[..], freeList)
              && (ring == [] ==> freeList == b && nextFree[b] == b && prevFree[b] == b)
    {
      UnlinkRing(cache.ring, nextFree[..], prevFree[..], freeList, IndexOf(cache.ring, b));
      nextFree[prevFree[b]] := nextFree[b];
      prevFree[nextFree[b]] := prevFree[b];
      if freeList == b {
        freeList := nextFree[b];
      }
      assert nextFree[..] == Poke(old(nextFree[..]), old(prevFree[b]), old(nextFree[b]));
      assert prevFree[..] == Poke(old(prevFree[..]), old(nextFree[b]), old(prevFree[b]));
    }

    method InsertIntoQueues(b: nat)
      requires LinkedWithout(b)
      modifies this`cache, next, prev, nextFree, prevFree, hashTable
      ensures Valid() && cache == Insert(old(cache), b, ids[b]) && freeList == old(freeList)
    {
      InsertOk(cache, b, ids[b]);
      InsertIntoFree(b);
      InsertIntoHash(b);
      cache := Insert(cache, b, ids[b]);
    }

    method InsertIntoFree(b: nat)
      requires Apart() && NoDup(cache.ring) && b !in cache.ring && b < ids.Length
      requires RingLinks(cache.ring, nextFree[..], prevFree[..], freeList)
      requires cache.ring == [] ==> freeList == b && nextFree[b] == b && prevFree[b] == b
      modifies nextFree, prevFree
      ensures RingLinks(cache.ring + [b], nextFree[..], prevFree[..], freeList)
    {
      LinkRing(cache.ring, nextFree[..], prevFree[..], freeList, b);
      ghost var next1, prev1 := nextFree[..][b := freeList], prevFree[..][b := prevFree[freeList]];
      nextFree[b] := freeList;
      prevFree[b] := prevFree[freeList];
      assert prevFree[freeList] == prev1[freeList];
      nextFree[prevFree[freeList]] := b;
      prevFree[freeList] := b;
      assert nextFree[..] == next1[prev1[freeList] := b] && prevFree[..] == prev1[freeList := b];
    }

    method InsertIntoHash(b: nat)
      requires Apart() && OkWithout(cache, b) && b < ids.Length && cache.ids[b := ids[b]] == ids[..]
      requires AllChains(cache, next[..], prev[..], hashTable[..]) && LooseBut(b)
      modifies next, prev, hashTable
      ensures AllChains(Insert(cache, b, ids[b]), next[..], prev[..], hashTable[..])
      ensures LooseNil(ids[..], next[..], prev[..])
    {
      var id := ids[b];
      LinkAll(cache, next[..], prev[..], hashTable[..], b, id);
      HeadHasDevice(cache, next[..], prev[..], hashTable[..], b, Hash(id));
      prev[b] := NIL;
      next[b] := NIL;
      assert prev[..] == old(prev[..])[b := NIL];
      if id.dev == 0 {
        assert next[..] == old(next[..])[b := NIL];
        return;
      }
      next[b] := hashTable[Hash(id)];
      hashTable[Hash(id)] := b;
      assert next[..] == old(next[..])[b := old(hashTable[Hash(id)])];
      assert hashTable[..] == old(hashTable[..])[Hash(id) := b];
      if next[b] != NIL {
        prev[next[b]] := b;
      }
      assert prev[..] == Poke(old(prev[..])[b := NIL], next[b], b);
    }

    /** The end of getblk: buffer b is given a new identity. */
    method Recycle(b: nat, id: Id)
      requires Valid() && b < ids.Length
      modifies this`freeList, this`cache, ids, next, prev, nextFree, prevFree, hashTable
      ensures Valid() && cache == Insert(Remove(old(cache), b), b, id)
    {
      RemoveFromQueues(b);
      ids[b] := id;
      InsertIntoQueues(b);
    }

    method FindBuffer(id: Id) returns (r: int)
      requires Valid()
      ensures match Find(cache, id)
              case None => r == NIL
              case Some(b) => r == b
    {
      var h := Hash(id);
      ghost var chain := cache.chains[h];
      assert ChainLinks(chain, next[..], prev[..], hashTable[h]);
      r := hashTable[h];
      ghost var k := 0;
      while r != NIL
        invariant 0 <= k <= |chain| && r == (if k < |chain| then chain[k] else NIL)
        invariant Find(cache, id) == Search(cache.ids, chain, k, id)
        decreases |chain| - k
      {
        assert ChainAt(chain, next[..], prev[..], k);
        if ids[r] == id {
          return;
        }
        r := next[r];
        k := k + 1;
      }
    }

    function Badness(b: nat): (w: nat)
      reads dirt, lock
      requires b < dirt.Length && b < lock.Length
    {
      (if dirt[b] then 2 else 0) + (if lock[b] then 1 else 0)
    }

    /** The search of getblk along the free list: an unused buffer of least badness, the first of
        them in the ring; NIL when every buffer is in use. */
    method ChooseVictim() returns (v: int)
      requires Valid()
      ensures v == NIL ==> forall b: nat :: b < ids.Length ==> count[b] != 0
      ensures v != NIL ==>
        && 0 <= v < ids.Length && count[v] == 0
        && (forall b: nat :: b < ids.Length && count[b] == 0 ==> Badness(v) <= Badness(b))
        && (exists p: nat :: p < |cache.ring| && cache.ring[p] == v
              && forall k: nat :: k < p && count[cache.ring[k]] == 0 ==> Badness(cache.ring[k]) > Badness(v))
    {
      ghost var ring := cache.ring;
      assert 0 in ring;
      v := NIL;
      var tmp := freeList;
      ghost var k: nat := 0;
      ghost var p: nat := 0;
      while true
        invariant k < |ring| && tmp == ring[k]
        invariant v == NIL ==> forall i :: 0 <= i < k ==> count[ring[i]] != 0
        invariant v != NIL ==>
          && p < k && v == ring[p] && count[v] == 0 && Badness(v) != 0
          && (forall i :: 0 <= i < k && count[ring[i]] == 0 ==> Badness(v) <= Badness(ring[i]))
          && (forall i :: 0 <= i < p && count[ring[i]] == 0 ==> Badness(ring[i]) > Badness(v))
        decreases |ring| - k
      {
        assert RingAt(ring, nextFree[..], prevFree[..], k);
        if count[tmp] == 0 && (v == NIL || Badness(tmp) < Badness(v)) {
          v, p := tmp, k;
          if Badness(tmp) == 0 {
            return;
          }
        }
        if nextFree[tmp] == freeList {
          LastInRing(ring, nextFree[..], prevFree[..], freeList, k);
          forall b: nat | b < ids.Length
            ensures exists i :: 0 <= i < |ring| && ring[i] == b
            ensures count[b] == 0 ==> v != NIL && Badness(v) <= Badness(b)
          {
            assert b in ring;
          }
          return;
        }
        tmp := nextFree[tmp];
        k := k + 1;
      }
    }

    /** buffer_init: a table of n free buffers. */
    constructor (n: nat)
      requires n > 0
      ensures Valid() && ids.Length == n && fresh(ids) && fresh(count) && fresh(dirt) && fresh(lock)
      ensures fresh(uptodate)
      ensures fresh(next) && fresh(prev) && fresh(nextFree) && fresh(prevFree) && fresh(hashTable)
      ensures cache == Empty(n)
      ensures forall b :: 0 <= b < n ==> count[b] == 0 && !dirt[b] && !lock[b] && !uptodate[b]
    {
      ids := new Id[n](_ => Id(0, 0));
      next, prev := new int[n](_ => NIL), new int[n](_ => NIL);
      var nextInRing, prevInRing := FreeRing(n);
      nextFree, prevFree := nextInRing, prevInRing;
      hashTable := new int[NR_HASH](_ => NIL);
      count := new nat[n](_ => 0);
      dirt, lock, uptodate := new bool[n](_ => false), new bool[n](_ => false), new bool[n](_ => false);
      cache := Empty(n);
      freeList := 0;
      new;
      hide Empty, Ok, AllChains, RingLinks, LooseNil;
      InitialCache(n, ids[..], next[..], prev[..], hashTable[..]);
    }

    /** The free list through all buffers in order. */
    static method FreeRing(n: nat) returns (next: array<int>, prev: array<int>)
      requires n > 0
      ensures fresh(next) && fresh(prev) && next != prev && next.Length == prev.Length == n
      ensures RingLinks(seq(n, k => k), next[..], prev[..], 0)
    {
      next, prev := new int[n], new int[n];
      for h := 0 to n
        invariant forall k :: 0 <= k < h ==> prev[k] == k - 1 && next[k] == k + 1
      {
        prev[h] := h - 1;
        next[h] := h + 1;
      }
      prev[0] := n - 1;
      next[n - 1] := 0;
      InitialRing(n, next[..], prev[..]);
    }
  }

  lemma InitialRing(n: nat, next: seq<int>, prev: seq<int>)
    requires n > 0 && |next| == |prev| == n
    requires forall k :: 0 <= k < n ==> next[k] == (if k + 1 < n then k + 1 else 0)
    requires forall k :: 0 <= k < n ==> prev[k] == (if k > 0 then k - 1 else n - 1)
    ensures RingLinks(seq(n, k => k), next, prev, 0)
  {
    var ring := seq(n, k => k);
    forall k: nat | k < n ensures RingAt(ring, next, prev, k) {
    }
  }

  /** Every buffer is free and none has a block. */
  ghost function Empty(n: nat): (c: Cache)
    ensures c.ring == seq(n, k => k) && |c.ids| == n && forall b :: 0 <= b < n ==> c.ids[b] == Id(0, 0)
  {
    Cache(seq(n, _ => Id(0, 0)), seq(n, k => k), seq(NR_HASH, _ => []))
  }

  lemma InitialCache(n: nat, ids: seq<Id>, next: seq<int>, prev: seq<int>, hash: seq<int>)
    requires |ids| == |next| == |prev| == n && |hash| == NR_HASH
    requires (forall b :: 0 <= b < n ==> ids[b] == Id(0, 0)) && forall h :: 0 <= h < NR_HASH ==> hash[h] == NIL
    requires forall b :: 0 <= b < n ==> next[b] == NIL && prev[b] == NIL
    ensures Empty(n).ids == ids && Ok(Empty(n)) && AllChains(Empty(n), next, prev, hash) && LooseNil(ids, next, prev)
  {
    var c := Empty(n);
    forall b: nat | b < n ensures b in c.ring && Chained(c, b) {
      assert c.ring[b] == b;
    }
  }

  /** The hash neighbours of a buffer have devices. */
  lemma NeighboursHaveDevices(c: Cache, next: seq<int>, prev: seq<int>, hash: seq<int>, b: nat)
    requires Ok(c) && b < |c.ids| && AllChains(c, next, prev, hash) && LooseNil(c.ids, next, prev)
    ensures next[b] != NIL ==> 0 <= next[b] < |c.ids| && c.ids[next[b]].dev != 0 && next[b] != b
    ensures prev[b] != NIL ==> 0 <= prev[b] < |c.ids| && c.ids[prev[b]].dev != 0 && prev[b] != b
  {
    if c.ids[b].dev != 0 {
      var chain := c.chains[Hash(c.ids[b])];
      assert Chained(c, b);
      var p := IndexOf(chain, b);
      assert ChainLinks(chain, next, prev, hash[Hash(c.ids[b])]);
      assert ChainAt(chain, next, prev, p);
      if p + 1 < |chain| {
        assert chain[p + 1] in chain;
        assert Chained(c, chain[p + 1]);
      }
      if p > 0 {
        assert chain[p - 1] in chain;
        assert Chained(c, chain[p - 1]);
      }
    }
  }

  lemma HeadHasDevice(c: Cache, next: seq<int>, prev: seq<int>, hash: seq<int>, b: nat, h: nat)
    requires OkWithout(c, b) && h < NR_HASH && AllChains(c, next, prev, hash)
    ensures hash[h] != NIL ==> 0 <= hash[h] < |c.ids| && hash[h] != b && c.ids[hash[h]].dev != 0
  {
    assert ChainLinks(c.chains[h], next, prev, hash[h]);
    if c.chains[h] != [] {
      assert c.chains[h][0] in c.chains[h];
      assert Chained(c, c.chains[h][0]);
    }
  }

  lemma LastInRing(ring: seq<nat>, next: seq<int>, prev: seq<int>, head: int, k: nat)
    requires NoDup(ring) && RingLinks(ring, next, prev, head) && k < |ring| && ring[k] < |next| && next[ring[k]] == head
    ensures k == |ring| - 1
  {
    assert RingAt(ring, next, prev, k);
  }
}
