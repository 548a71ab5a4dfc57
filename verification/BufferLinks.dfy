/** What the link fields of the buffers (fs/buffer.c) say: hash chains and the free ring spelled out
    by pointers, and how unlinking and linking one buffer changes them.  Buffers are named by their
    place in the buffer table.
 */
module BufferLinks {
  import opened Lists
  import opened BufferIndex

  // ---------- hash chains: b_next, b_prev and hash_table ----------

  function NextOf(chain: seq<nat>, k: nat): int
    requires k < |chain|
  {
    if k + 1 < |chain| then chain[k + 1] else NIL
  }

  function PrevOf(chain: seq<nat>, k: nat): int
    requires k < |chain|
  {
    if k > 0 then chain[k - 1] else NIL
  }

  function HeadOf(chain: seq<nat>): int {
    if chain == [] then NIL else chain[0]
  }

  predicate ChainAt(chain: seq<nat>, next: seq<int>, prev: seq<int>, k: nat)
    requires k < |chain| && |next| == |prev|
  {
    chain[k] < |next| && next[chain[k]] == NextOf(chain, k) && prev[chain[k]] == PrevOf(chain, k)
  }

  ghost predicate ChainLinks(chain: seq<nat>, next: seq<int>, prev: seq<int>, head: int) {
    && |next| == |prev| && head == HeadOf(chain)
    && forall k: nat :: k < |chain| ==> ChainAt(chain, next, prev, k)
  }

  /** s with s[i] := v, or s itself for the null pointer. */
  function Poke(s: seq<int>, i: int, v: int): (r: seq<int>)
    ensures |r| == |s| && forall k :: 0 <= k < |s| ==> r[k] == if k == i then v else s[k]
  {
    if 0 <= i < |s| then s[i := v] else s
  }

  lemma UnlinkChain(chain: seq<nat>, next: seq<int>, prev: seq<int>, head: int, p: nat)
    requires NoDup(chain) && ChainLinks(chain, next, prev, head) && p < |chain|
    ensures chain[p] < |next|
    ensures var b := chain[p];
            && NIL <= prev[b] < |next| && NIL <= next[b] < |prev|
            && ChainLinks(RemoveAt(chain, p), Poke(next, prev[b], next[b]), Poke(prev, next[b], prev[b]),
                          if head == b then next[b] else head)
  {
    var b := chain[p];
    assert ChainAt(chain, next, prev, p);
    assert p > 0 ==> ChainAt(chain, next, prev, p - 1);
    assert p + 1 < |chain| ==> ChainAt(chain, next, prev, p + 1);
    var r := RemoveAt(chain, p);
    var next', prev' := Poke(next, prev[b], next[b]), Poke(prev, next[b], prev[b]);
    forall k: nat | k < |r| ensures ChainAt(r, next', prev', k) {
      assert ChainAt(chain, next, prev, if k < p then k else k + 1);
    }
  }

  /** Pointer changes at buffers outside a chain leave it alone. */
  lemma OtherChain(chain: seq<nat>, next: seq<int>, prev: seq<int>, head: int, i: int, v: int, j: int, w: int)
    requires ChainLinks(chain, next, prev, head) && i < |next| && j < |prev|
    requires forall k :: 0 <= k < |chain| ==> chain[k] != i && chain[k] != j
    ensures ChainLinks(chain, Poke(next, i, v), Poke(prev, j, w), head)
  {
    forall k: nat | k < |chain| ensures ChainAt(chain, Poke(next, i, v), Poke(prev, j, w), k) {
      assert ChainAt(chain, next, prev, k);
    }
  }

  lemma LinkChain(chain: seq<nat>, next: seq<int>, prev: seq<int>, head: int, b: nat)
    requires NoDup(chain) && ChainLinks(chain, next, prev, head) && b < |next| && b !in chain
    ensures NIL <= head < |prev|
    ensures ChainLinks([b] + chain, next[b := head], Poke(prev[b := NIL], head, b), b)
  {
    var r := [b] + chain;
    var next', prev' := next[b := head], Poke(prev[b := NIL], head, b);
    assert chain != [] ==> ChainAt(chain, next, prev, 0);
    forall k: nat | k < |r| ensures ChainAt(r, next', prev', k) {
      assert k > 0 ==> r[k] == chain[k - 1] && ChainAt(chain, next, prev, k - 1);
    }
  }

  // ---------- the free ring: b_next_free, b_prev_free and free_list ----------

  function RingNext(ring: seq<nat>, k: nat): nat
    requires k < |ring|
  {
    if k + 1 < |ring| then ring[k + 1] else ring[0]
  }

  function RingPrev(ring: seq<nat>, k: nat): nat
    requires k < |ring|
  {
    if k > 0 then ring[k - 1] else ring[|ring| - 1]
  }

  predicate RingAt(ring: seq<nat>, next: seq<int>, prev: seq<int>, k: nat)
    requires k < |ring| && |next| == |prev|
  {
    ring[k] < |next| && next[ring[k]] == RingNext(ring, k) && prev[ring[k]] == RingPrev(ring, k)
  }

  ghost predicate RingLinks(ring: seq<nat>, next: seq<int>, prev: seq<int>, head: int) {
    && |next| == |prev| && (ring != [] ==> head == ring[0])
    && forall k: nat :: k < |ring| ==> RingAt(ring, next, prev, k)
  }

  lemma UnlinkRing(ring: seq<nat>, next: seq<int>, prev: seq<int>, head: int, p: nat)
    requires NoDup(ring) && RingLinks(ring, next, prev, head) && p < |ring|
    ensures ring[p] < |next|
    ensures var b := ring[p];
            var next', prev' := Poke(next, prev[b], next[b]), Poke(prev, next[b], prev[b]);
            && 0 <= prev[b] < |next| && 0 <= next[b] < |prev|
            && RingLinks(RemoveAt(ring, p), next', prev', if head == b then next[b] else head)
            && (|ring| == 1 ==> next[b] == b && next'[b] == b && prev'[b] == b)
  {
    var b := ring[p];
    var n := |ring|;
    assert RingAt(ring, next, prev, p);
    assert RingAt(ring, next, prev, if p > 0 then p - 1 else n - 1);
    assert RingAt(ring, next, prev, if p + 1 < n then p + 1 else 0);
    var r := RemoveAt(ring, p);
    var next', prev' := Poke(next, prev[b], next[b]), Poke(prev, next[b], prev[b]);
    forall k: nat | k < |r| ensures RingAt(r, next', prev', k) {
      assert RingAt(ring, next, prev, if k < p then k else k + 1);
    }
  }

  /** insert_into_queues puts b before the head, that is, at the end of the ring. */
  lemma LinkRing(ring: seq<nat>, next: seq<int>, prev: seq<int>, head: int, b: nat)
    requires NoDup(ring) && RingLinks(ring, next, prev, head) && b < |next| && b !in ring
    requires ring == [] ==> head == b && next[b] == b && prev[b] == b
    ensures 0 <= head < |next|
    ensures var next1, prev1 := next[b := head], prev[b := prev[head]];
            && 0 <= prev1[head] < |next|
            && RingLinks(ring + [b], next1[prev1[head] := b], prev1[head := b], head)
  {
    if ring == [] {
      assert RingAt([b], next, prev, 0);
      assert next[b := b] == next && prev[b := b] == prev && ring + [b] == [b];
    } else {
      var last := ring[|ring| - 1];
      assert RingAt(ring, next, prev, 0) && RingAt(ring, next, prev, |ring| - 1);
      assert prev[head] == last && b != head && b != last;
      var r := ring + [b];
      var next', prev' := next[b := head][last := b], prev[b := last][head := b];
      forall k: nat | k < |r| ensures RingAt(r, next', prev', k) {
        assert k < |ring| ==> RingAt(ring, next, prev, k);
      }
    }
  }

  // ---------- all chains at once ----------

  ghost predicate AllChains(c: Cache, next: seq<int>, prev: seq<int>, hash: seq<int>) {
    && |c.chains| == NR_HASH == |hash| && |next| == |prev| == |c.ids|
    && forall h :: 0 <= h < NR_HASH ==> ChainLinks(c.chains[h], next, prev, hash[h])
  }

  /** Buffers without a device have null hash links. */
  ghost predicate LooseNil(ids: seq<Id>, next: seq<int>, prev: seq<int>)
    requires |next| == |prev| == |ids|
  {
    forall b: nat :: b < |ids| && ids[b].dev == 0 ==> next[b] == NIL && prev[b] == NIL
  }

  lemma UnlinkAll(c: Cache, next: seq<int>, prev: seq<int>, hash: seq<int>, b: nat)
    requires Ok(c) && b < |c.ids| && AllChains(c, next, prev, hash) && LooseNil(c.ids, next, prev)
    ensures NIL <= prev[b] < |next| && NIL <= next[b] < |next|
    ensures var h0 := Hash(c.ids[b]);
            AllChains(Remove(c, b), Poke(next, prev[b], next[b]), Poke(prev, next[b], prev[b]),
                      if hash[h0] == b then hash[h0 := next[b]] else hash)
  {
    var h0 := Hash(c.ids[b]);
    assert Chained(c, b);
    assert ChainLinks(c.chains[h0], next, prev, hash[h0]);
    if b in c.chains[h0] {
      var p := IndexOf(c.chains[h0], b);
      UnlinkChain(c.chains[h0], next, prev, hash[h0], p);
      assert ChainAt(c.chains[h0], next, prev, p);
      forall h | 0 <= h < NR_HASH && h != h0
        ensures ChainLinks(c.chains[h], Poke(next, prev[b], next[b]), Poke(prev, next[b], prev[b]), hash[h])
      {
        ChainsDisjoint(c, h0, h);
        OtherChain(c.chains[h], next, prev, hash[h], prev[b], next[b], next[b], prev[b]);
      }
    } else {
      assert c.ids[b].dev == 0 && next[b] == NIL && prev[b] == NIL;
      assert Poke(next, prev[b], next[b]) == next && Poke(prev, next[b], prev[b]) == prev;
    }
  }

  lemma ChainsDisjoint(c: Cache, h: nat, h': nat)
    requires Ok(c) && h < NR_HASH && h' < NR_HASH && h != h'
    ensures forall k, k' :: 0 <= k < |c.chains[h]| && 0 <= k' < |c.chains[h']| ==> c.chains[h][k] != c.chains[h'][k']
  {
    forall k, k' | 0 <= k < |c.chains[h]| && 0 <= k' < |c.chains[h']| ensures c.chains[h][k] != c.chains[h'][k'] {
      assert Chained(c, c.chains[h][k]);
    }
  }

  lemma LinkAll(c: Cache, next: seq<int>, prev: seq<int>, hash: seq<int>, b: nat, id: Id)
    requires OkWithout(c, b) && AllChains(c, next, prev, hash)
    ensures var h0 := Hash(id);
            && NIL <= hash[h0] < |next|
            && AllChains(Insert(c, b, id),
                         if id.dev == 0 then next[b := NIL] else next[b := hash[h0]],
                         if id.dev == 0 then prev[b := NIL] else Poke(prev[b := NIL], hash[h0], b),
                         if id.dev == 0 then hash else hash[h0 := b])
  {
    var h0 := Hash(id);
    assert b !in c.chains[h0] && ChainLinks(c.chains[h0], next, prev, hash[h0]);
    LinkChain(c.chains[h0], next, prev, hash[h0], b);
    forall h | 0 <= h < NR_HASH && (h != h0 || id.dev == 0)
      ensures id.dev == 0 ==> ChainLinks(c.chains[h], next[b := NIL], prev[b := NIL], hash[h])
      ensures id.dev != 0 ==> ChainLinks(c.chains[h], next[b := hash[h0]], Poke(prev[b := NIL], hash[h0], b), hash[h])
    {
      assert b !in c.chains[h];
      OtherChain(c.chains[h], next, prev, hash[h], b, NIL, b, NIL);
      if id.dev != 0 {
        HeadElsewhere(c, b, h0, h);
        OtherChain(c.chains[h], next, prev, hash[h], b, hash[h0], b, NIL);
        OtherChain(c.chains[h], next[b := hash[h0]], prev[b := NIL], hash[h], NIL, NIL, hash[h0], b);
      }
    }
  }

  lemma HeadElsewhere(c: Cache, b: nat, h0: nat, h: nat)
    requires OkWithout(c, b) && h0 < NR_HASH && h < NR_HASH && h != h0
    ensures forall k :: 0 <= k < |c.chains[h]| ==> c.chains[h][k] != HeadOf(c.chains[h0])
  {
    if c.chains[h0] != [] {
      var x := c.chains[h0][0];
      assert x in c.chains[h0] && x != b;
      assert Chained(c, x);
    }
  }
}
