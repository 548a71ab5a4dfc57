/** How far a write gets: exactly as far as the free zones of the device reach. */
module FileSpace {
  import opened Common
  import opened FileModel
  import opened FileInvariant
  import opened FileBytes

  /** The data zones whose bit is clear. */
  ghost function Free(fs: Fs): set<nat> {
    set z: nat | fs.first <= z < fs.zones && !fs.bits[BitOf(fs, z)]
  }

  ghost function SlotsOf(p: seq<Slot>): set<Slot> {
    set s | s in p
  }

  /** The slots of a set that have no zone yet. */
  ghost function Holes(fs: Fs, slots: set<Slot>): set<Slot> {
    set s | s in slots && IsSlot(fs, s) && Zone(fs, s) == 0
  }

  /** fs' is fs with the empty slots among `slots` filled, each with a zone that was free. */
  ghost predicate FilledIn(fs: Fs, fs': Fs, slots: set<Slot>) {
    && SameFiles(fs, fs') && |Free(fs')| == |Free(fs)| - |Holes(fs, slots)|
    && forall s :: IsSlot(fs, s) ==> (Zone(fs', s) == 0 <==> Zone(fs, s) == 0 && s !in slots)
  }

  // ---------- new_block ----------

  lemma NewBlockExact(fs: Fs)
    requires Inv(fs)
    ensures var r := NewBlock(fs);
            && (r.zone != 0 <==> Free(fs) != {})
            && (r.zone != 0 ==> Free(r.fs) == Free(fs) - {r.zone} && r.zone in Free(fs))
  {
    var r := NewBlock(fs);
    var j := FirstZero(fs.bits, 0);
    if r.zone != 0 {
      NewZone(fs);
      forall z: nat ensures z in Free(r.fs) <==> z in Free(fs) - {r.zone} {
        assert fs.first <= z < fs.zones ==> (BitOf(fs, z) == j <==> z == r.zone);
      }
      assert r.zone in Free(fs) && Free(r.fs) == Free(fs) - {r.zone};
    } else if z :| z in Free(fs) {
      assert false;
    }
  }

  lemma SameBits(fs: Fs, fs': Fs)
    requires SameFiles(fs, fs') && fs'.bits == fs.bits
    ensures Free(fs') == Free(fs)
  {
    forall z: nat ensures z in Free(fs') <==> z in Free(fs) {
    }
  }

  lemma EnsureExact(fs: Fs, s: Slot)
    requires Inv(fs) && CanFill(fs, s)
    ensures var r := Ensure(fs, s);
            && (r.zone != 0 <==> |Holes(fs, {s})| <= |Free(fs)|)
            && (r.zone != 0 ==> FilledIn(fs, r.fs, {s}))
  {
    EnsureSlot(fs, s);
    var r := Ensure(fs, s);
    if Zone(fs, s) != 0 {
      assert Holes(fs, {s}) == {};
    } else {
      assert Holes(fs, {s}) == {s};
      NewBlockExact(fs);
      var new_ := NewBlock(fs);
      assert Free(fs) != {} <==> |Free(fs)| >= 1;
      if new_.zone != 0 {
        SameBits(new_.fs, r.fs);
      }
    }
  }

  // ---------- create_block ----------

  /** The holes of two sets are filled one set after the other. */
  lemma HolesSplit(fs: Fs, fs1: Fs, a: set<Slot>, b: set<Slot>)
    requires FilledIn(fs, fs1, a)
    ensures |Holes(fs, a + b)| == |Holes(fs, a)| + |Holes(fs1, b)|
  {
    forall s ensures s in Holes(fs, a + b) <==> s in Holes(fs, a) || s in Holes(fs1, b) {
      assert IsSlot(fs1, s) <==> IsSlot(fs, s);
    }
    assert Holes(fs, a + b) == Holes(fs, a) + Holes(fs1, b);
    assert Holes(fs, a) !! Holes(fs1, b);
  }

  lemma FilledTwice(fs: Fs, fs1: Fs, fs2: Fs, a: set<Slot>, b: set<Slot>)
    requires FilledIn(fs, fs1, a) && FilledIn(fs1, fs2, b)
    ensures FilledIn(fs, fs2, a + b)
  {
    HolesSplit(fs, fs1, a, b);
    assert forall s :: IsSlot(fs1, s) <==> IsSlot(fs, s);
  }

  lemma MoreHoles(fs: Fs, a: set<Slot>, b: set<Slot>)
    ensures |Holes(fs, a)| <= |Holes(fs, a + b)|
  {
    SubsetSize(Holes(fs, a), Holes(fs, a + b));
  }

  lemma {:induction false} EnsureAllExact(fs: Fs, p: seq<Slot>)
    requires Inv(fs) && IsPath(fs, p) && CanFill(fs, p[0])
    ensures var r := EnsureAll(fs, p);
            && (r.zone != 0 <==> |Holes(fs, SlotsOf(p))| <= |Free(fs)|)
            && (r.zone != 0 ==> FilledIn(fs, r.fs, SlotsOf(p)))
    decreases |p|
  {
    EnsureExact(fs, p[0]);
    var r := Ensure(fs, p[0]);
    if |p| == 1 {
      assert SlotsOf(p) == {p[0]};
    } else {
      assert SlotsOf(p) == {p[0]} + SlotsOf(p[1..]);
      if r.zone == 0 {
        MoreHoles(fs, {p[0]}, SlotsOf(p[1..]));
      } else {
        EnsureSlot(fs, p[0]);
        PathTail(fs, r.fs, p);
        EnsureAllExact(r.fs, p[1..]);
        HolesSplit(fs, r.fs, {p[0]}, SlotsOf(p[1..]));
        if EnsureAll(r.fs, p[1..]).zone != 0 {
          FilledTwice(fs, r.fs, EnsureAll(r.fs, p[1..]).fs, {p[0]}, SlotsOf(p[1..]));
        }
      }
    }
  }

  /** create_block succeeds if and only if there are as many free zones as slots on the way to the
      block without one, and takes exactly so many. */
  lemma CreateExact(fs: Fs, n: nat, b: nat)
    requires Inv(fs) && IsFile(fs, n) && b < MAX_BLOCKS
    ensures var r := CreateBlock(fs, n, b);
            && (r.zone != 0 <==> |Holes(fs, SlotsOf(Path(n, b)))| <= |Free(fs)|)
            && (r.zone != 0 ==> FilledIn(fs, r.fs, SlotsOf(Path(n, b))))
  {
    EnsureAllExact(fs, Path(n, b));
  }

  // ---------- file_write ----------

  /** The slots on the way to blocks lo to hi - 1 of file n. */
  ghost function Ways(n: nat, lo: nat, hi: nat): set<Slot>
    requires hi <= MAX_BLOCKS
    decreases hi - lo
  {
    if lo >= hi then {} else SlotsOf(Path(n, lo)) + Ways(n, lo + 1, hi)
  }

  /** The slots that bytes i to k - 1 of a write at `base` pass. */
  ghost function Passed(n: nat, base: nat, i: nat, k: nat): set<Slot>
    requires base + k <= MAX_BYTES
  {
    if k <= i then {} else Ways(n, (base + i) / BLOCK_SIZE, (base + k - 1) / BLOCK_SIZE + 1)
  }

  lemma PutFilled(fs: Fs, fs1: Fs, n: nat, base: nat, data: seq<Byte>, i: nat, c: nat, slots: set<Slot>)
    requires Inv(fs1) && ChunkFits(fs1, n, base, data, i, c) && FilledIn(fs, fs1, slots)
    ensures FilledIn(fs, Put(fs1, n, base, data, i, c), slots)
  {
    PutZones(fs1, n, base, data, i, c);
    SameBits(fs1, Put(fs1, n, base, data, i, c));
    assert forall s :: IsSlot(fs1, s) <==> IsSlot(fs, s);
  }

  lemma ChunkExact(fs: Fs, n: nat, base: nat, data: seq<Byte>, i: nat)
    requires Inv(fs) && IsFile(fs, n) && base + |data| <= MAX_BYTES && i < |data|
    ensures var w := WriteChunk(fs, n, base, data, i);
            var slots := SlotsOf(Path(n, (base + i) / BLOCK_SIZE));
            && Inv(w.fs) && IsFile(w.fs, n)
            && (w.count > i <==> |Holes(fs, slots)| <= |Free(fs)|)
            && (w.count > i ==> w.count == i + Chunk(base + i, |data| - i) && FilledIn(fs, w.fs, slots))
  {
    var b := (base + i) / BLOCK_SIZE;
    WriteRound(fs, n, base, data, i);
    CreateExact(fs, n, b);
    CreateKeeps(fs, n, b);
    var r := CreateBlock(fs, n, b);
    if r.zone != 0 {
      PutFilled(fs, r.fs, n, base, data, i, Chunk(base + i, |data| - i), SlotsOf(Path(n, b)));
    }
  }

  /** Bytes up to k are within the first chunk, or the rest starts at the next block. */
  lemma ChunkEnds(n: nat, base: nat, i: nat, len: nat, k: nat)
    requires i < k <= len && base + len <= MAX_BYTES
    ensures var c := Chunk(base + i, len - i);
            var slots := SlotsOf(Path(n, (base + i) / BLOCK_SIZE));
            Passed(n, base, i, k) == if k <= i + c then slots else slots + Passed(n, base, i + c, k)
  {
    var b, e := (base + i) / BLOCK_SIZE, (base + k - 1) / BLOCK_SIZE;
    assert Ways(n, b, e + 1) == SlotsOf(Path(n, b)) + Ways(n, b + 1, e + 1);
  }

  /** What one round of c bytes needs, and what is then left to be had. */
  ghost predicate Counted(fs: Fs, w: Written, i: nat, k: nat, all: set<Slot>, rest: set<Slot>) {
    && (w.count == i ==> |Holes(fs, all)| > |Free(fs)|)
    && (k <= w.count ==> |Holes(fs, all)| <= |Free(fs)|)
    && (i < w.count < k ==> |Holes(fs, all)| - |Free(fs)| == |Holes(w.fs, rest)| - |Free(w.fs)|)
  }

  lemma CountRound(fs: Fs, w: Written, i: nat, k: nat, slots: set<Slot>, all: set<Slot>, rest: set<Slot>)
    requires i <= w.count && i < k && slots <= all
    requires w.count > i <==> |Holes(fs, slots)| <= |Free(fs)|
    requires w.count > i ==> FilledIn(fs, w.fs, slots) && all == if k <= w.count then slots else slots + rest
    ensures Counted(fs, w, i, k, all, rest)
  {
    SubsetSize(Holes(fs, slots), Holes(fs, all));
    if i < w.count < k {
      HolesSplit(fs, w.fs, slots, rest);
    }
  }

  /** One round: the first chunk, and then the rest. */
  lemma RoundExact(fs: Fs, n: nat, base: nat, data: seq<Byte>, i: nat, k: nat)
    requires Inv(fs) && IsFile(fs, n) && base + |data| <= MAX_BYTES && i < k <= |data|
    ensures var w := WriteChunk(fs, n, base, data, i);
            && Inv(w.fs) && IsFile(w.fs, n)
            && Counted(fs, w, i, k, Passed(n, base, i, k), Passed(n, base, w.count, k))
  {
    var w := WriteChunk(fs, n, base, data, i);
    var slots := SlotsOf(Path(n, (base + i) / BLOCK_SIZE));
    ChunkExact(fs, n, base, data, i);
    ChunkEnds(n, base, i, |data|, k);
    CountRound(fs, w, i, k, slots, Passed(n, base, i, k), Passed(n, base, w.count, k));
  }

  /** A WRITE GETS EXACTLY AS FAR AS THE ZONES REACH: bytes up to k are written if and only if the
      slots without a zone on the way to them are no more than the free zones of the device. */
  lemma {:induction false} WriteExact(fs: Fs, n: nat, base: nat, data: seq<Byte>, i: nat, k: nat)
    requires Inv(fs) && IsFile(fs, n) && base + |data| <= MAX_BYTES && i <= k <= |data|
    ensures k <= Write(fs, n, base, data, i).count <==> |Holes(fs, Passed(n, base, i, k))| <= |Free(fs)|
    decreases |data| - i
  {
    if k == i {
      assert Holes(fs, {}) == {};
    } else {
      RoundExact(fs, n, base, data, i, k);
      var w := WriteChunk(fs, n, base, data, i);
      if i < w.count < k {
        WriteExact(w.fs, n, base, data, w.count, k);
      }
    }
  }
}
