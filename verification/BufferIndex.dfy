/** The two indexes of the buffer cache (fs/buffer.c): hash chains threaded through b_next and
    b_prev, and the free ring threaded through b_next_free and b_prev_free.  Both are shown to
    agree with a plain table of buffers.
 */
module BufferIndex {
  import opened Common
  import opened Lists

  const NR_HASH: nat := 307

  datatype Id = Id(dev: nat, block: nat)

  /** Exclusive or of two numbers, bit by bit. */
  function Xor(a: nat, b: nat): (r: nat)
    decreases a + b
  {
    if a == 0 && b == 0 then 0 else (a + b) % 2 + 2 * Xor(a / 2, b / 2)
  }

  function Hash(id: Id): (h: nat)
    ensures h < NR_HASH
  {
    Xor(id.dev, id.block) % NR_HASH
  }

  // ---------- sequences without repetition ----------

  function IndexOf(s: seq<nat>, x: nat): (p: nat)
    requires x in s
    ensures p < |s| && s[p] == x
  {
    if s[0] == x then 0 else 1 + IndexOf(s[1..], x)
  }

  // ---------- the plain table and its indexes ----------

  /** `ids` says which block each buffer holds (device 0 for none); `ring` is the free list from
      its head on, `chains` the hash chains from their heads on. */
  datatype Cache = Cache(ids: seq<Id>, ring: seq<nat>, chains: seq<seq<nat>>)

  ghost predicate Shape(c: Cache) {
    && |c.chains| == NR_HASH && NoDup(c.ring) && (forall k :: 0 <= k < |c.ring| ==> c.ring[k] < |c.ids|)
    && (forall h :: 0 <= h < NR_HASH ==> NoDup(c.chains[h]))
    && (forall h, k :: 0 <= h < NR_HASH && 0 <= k < |c.chains[h]| ==> c.chains[h][k] < |c.ids|)
  }

  /** Buffer b is in the chain of its own hash value if it has a device, and in no other. */
  ghost predicate Chained(c: Cache, b: nat)
    requires |c.chains| == NR_HASH && b < |c.ids|
  {
    forall h :: 0 <= h < NR_HASH ==> (b in c.chains[h] <==> c.ids[b].dev != 0 && Hash(c.ids[b]) == h)
  }

  ghost predicate Ok(c: Cache) {
    && Shape(c) && (forall b: nat :: b < |c.ids| ==> b in c.ring)
    && (forall b: nat :: b < |c.ids| ==> Chained(c, b))
  }

  /** Everything as in Ok, except that buffer x is in neither index. */
  ghost predicate OkWithout(c: Cache, x: nat) {
    && Shape(c) && x < |c.ids|
    && (forall b: nat :: b < |c.ids| ==> (b in c.ring <==> b != x))
    && (forall b: nat :: b < |c.ids| && b != x ==> Chained(c, b))
    && (forall h :: 0 <= h < NR_HASH ==> x !in c.chains[h])
  }

  function Remove(c: Cache, b: nat): (r: Cache)
    requires |c.chains| == NR_HASH && b < |c.ids| && b in c.ring
  {
    var h := Hash(c.ids[b]);
    c.(ring := RemoveAt(c.ring, IndexOf(c.ring, b)),
       chains := if b in c.chains[h] then c.chains[h := RemoveAt(c.chains[h], IndexOf(c.chains[h], b))] else c.chains)
  }

  function Insert(c: Cache, b: nat, id: Id): (r: Cache)
    requires |c.chains| == NR_HASH && b < |c.ids|
  {
    c.(ids := c.ids[b := id], ring := c.ring + [b],
       chains := if id.dev == 0 then c.chains else c.chains[Hash(id) := [b] + c.chains[Hash(id)]])
  }

  lemma RemoveOk(c: Cache, b: nat)
    requires Ok(c) && b < |c.ids|
    ensures OkWithout(Remove(c, b), b)
  {
    var r := Remove(c, b);
    var h := Hash(c.ids[b]);
    forall x: nat | x < |c.ids| ensures x in r.ring <==> x != b {
      RemoveAtMembers(c.ring, IndexOf(c.ring, b), x);
    }
    RemoveAtMembers(c.ring, IndexOf(c.ring, b), b);
    if b in c.chains[h] {
      RemoveAtMembers(c.chains[h], IndexOf(c.chains[h], b), b);
    }
    assert Chained(c, b);
    forall x: nat | x < |c.ids| && x != b ensures Chained(r, x) {
      assert Chained(c, x);
      if b in c.chains[h] {
        RemoveAtMembers(c.chains[h], IndexOf(c.chains[h], b), x);
      }
    }
  }

  lemma InsertOk(c: Cache, b: nat, id: Id)
    requires OkWithout(c, b)
    ensures Ok(Insert(c, b, id))
  {
    var r := Insert(c, b, id);
    assert b !in c.ring && b !in c.chains[Hash(id)];
    forall x: nat | x < |c.ids| ensures x in r.ring && Chained(r, x) {
      if x != b {
        assert x in c.ring && Chained(c, x);
      } else {
        assert r.ring[|c.ring|] == b;
        assert id.dev != 0 ==> r.chains[Hash(id)][0] == b;
      }
    }
  }

  /** getblk gives buffer b a new identity: both indexes stay exact. */
  lemma RecycleOk(c: Cache, b: nat, id: Id)
    requires Ok(c) && b < |c.ids|
    ensures Ok(Insert(Remove(c, b), b, id))
    ensures Insert(Remove(c, b), b, id).ids == c.ids[b := id]
  {
    RemoveOk(c, b);
    InsertOk(Remove(c, b), b, id);
  }

  // ---------- find_buffer ----------

  function Search(ids: seq<Id>, chain: seq<nat>, k: nat, id: Id): (r: Option<nat>)
    requires k <= |chain| && forall i :: 0 <= i < |chain| ==> chain[i] < |ids|
    ensures r.Some? ==> r.value in chain && r.value < |ids| && ids[r.value] == id
    ensures r.None? ==> forall i :: k <= i < |chain| ==> ids[chain[i]] != id
    decreases |chain| - k
  {
    if k == |chain| then None
    else if ids[chain[k]] == id then Some(chain[k])
    else Search(ids, chain, k + 1, id)
  }

  function Find(c: Cache, id: Id): (r: Option<nat>)
    requires |c.chains| == NR_HASH && forall i :: 0 <= i < |c.chains[Hash(id)]| ==> c.chains[Hash(id)][i] < |c.ids|
  {
    Search(c.ids, c.chains[Hash(id)], 0, id)
  }

  /** No two buffers hold the same block. */
  predicate Distinct(ids: seq<Id>) {
    forall b, b' :: 0 <= b < b' < |ids| && ids[b].dev != 0 ==> ids[b] != ids[b']
  }

  /** The hash lookup finds exactly what a scan of all buffers would. */
  lemma FindIsScan(c: Cache, id: Id)
    requires Ok(c) && id.dev != 0
    ensures Find(c, id).None? <==> forall b: nat :: b < |c.ids| ==> c.ids[b] != id
    ensures Find(c, id).Some? ==> Find(c, id).value < |c.ids| && c.ids[Find(c, id).value] == id
    ensures Distinct(c.ids) ==> forall b: nat :: b < |c.ids| && c.ids[b] == id ==> Find(c, id) == Some(b)
  {
    forall b: nat | b < |c.ids| && c.ids[b] == id ensures Find(c, id).Some? {
      assert Chained(c, b);
      assert b in c.chains[Hash(id)];
    }
  }

  /** A recycling: buffer b comes to hold block id. */
  datatype Recycling = Recycling(b: nat, id: Id)

  ghost predicate CanRecycle(n: nat, rs: seq<Recycling>) {
    forall i :: 0 <= i < |rs| ==> rs[i].b < n
  }

  ghost function After(c: Cache, rs: seq<Recycling>): Cache
    requires Ok(c) && CanRecycle(|c.ids|, rs)
    decreases |rs|
  {
    if rs == [] then c
    else
      RecycleOk(c, rs[0].b, rs[0].id);
      After(Insert(Remove(c, rs[0].b), rs[0].b, rs[0].id), rs[1..])
  }

  /** However buffers have been recycled, the ring holds each of them once and lookups are exact. */
  lemma {:induction false} RunOk(c: Cache, rs: seq<Recycling>)
    requires Ok(c) && CanRecycle(|c.ids|, rs)
    ensures Ok(After(c, rs)) && |After(c, rs).ids| == |c.ids|
    decreases |rs|
  {
    if rs == [] {
    } else {
      RecycleOk(c, rs[0].b, rs[0].id);
      RunOk(Insert(Remove(c, rs[0].b), rs[0].b, rs[0].id), rs[1..]);
    }
  }
}
