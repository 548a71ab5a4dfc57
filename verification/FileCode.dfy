/** The code of fs/bitmap.c, fs/inode.c (_bmap), fs/truncate.c and fs/file_dev.c: loops that
    change maps, blocks and inodes in place.  Every method leaves exactly the state its model
    function gives, and no call of free_block panics on a consistent disk.
 */
module FileCode {
  import opened FileModel
  import opened FileInvariant
  import opened FileBytes
  import opened FileTruncate

  lemma {:induction false} FirstZeroIs(bits: seq<bool>, i: nat, j: nat)
    requires i <= j <= |bits| && (forall k :: i <= k < j ==> bits[k]) && (j < |bits| ==> !bits[j])
    ensures FirstZero(bits, i) == j
    decreases j - i
  {
    if i == j {
    } else {
      FirstZeroIs(bits, i + 1, j);
    }
  }

  class Volume {
    const first: nat
    const zones: nat
    /** The zone maps, one behind the other. */
    const bits: array<bool>
    const blocks: array<Block>
    const inodes: array<Inode>

    ghost predicate Valid() {
      && 1 <= first <= zones < ZONE_LIMIT && blocks.Length == ZONE_LIMIT
      && bits.Length % BITS_PER_MAP == 0 && zones + 1 - first <= bits.Length <= 8 * BITS_PER_MAP
    }

    ghost function State(): (fs: Fs)
      reads bits, blocks, inodes
      requires Valid()
    {
      FsState.Fs(first, zones, bits[..], blocks[..], inodes[..])
    }

    constructor (first: nat, zones: nat, bits: array<bool>, blocks: array<Block>, inodes: array<Inode>)
      ensures this.first == first && this.zones == zones
      ensures this.bits == bits && this.blocks == blocks && this.inodes == inodes
    {
      this.first, this.zones, this.bits, this.blocks, this.inodes := first, zones, bits, blocks, inodes;
    }

    /** The first clear bit of map i, or 8192. */
    method FindFirstZero(i: nat) returns (j: nat)
      requires Valid() && (i + 1) * BITS_PER_MAP <= bits.Length
      ensures j <= BITS_PER_MAP && (j < BITS_PER_MAP ==> !bits[i * BITS_PER_MAP + j])
      ensures forall k :: i * BITS_PER_MAP <= k < i * BITS_PER_MAP + j ==> bits[k]
    {
      j := 0;
      while j < BITS_PER_MAP && bits[i * BITS_PER_MAP + j]
        invariant j <= BITS_PER_MAP
        invariant forall k :: i * BITS_PER_MAP <= k < i * BITS_PER_MAP + j ==> bits[k]
      {
        j := j + 1;
      }
    }

    /** The first map with a clear bit and the bit's place in it; i is 8 when there is none. */
    method SearchMaps() returns (i: nat, j: nat)
      requires Valid()
      ensures i < 8 ==> j < BITS_PER_MAP && i * BITS_PER_MAP + j == FirstZero(bits[..], 0) < bits.Length
      ensures i >= 8 ==> FirstZero(bits[..], 0) == bits.Length
    {
      i, j := 0, BITS_PER_MAP;
      while i < 8
        invariant i <= 8
        invariant forall k :: 0 <= k < bits.Length && k < i * BITS_PER_MAP ==> bits[k]
      {
        if (i + 1) * BITS_PER_MAP <= bits.Length {
          j := FindFirstZero(i);
          if j < BITS_PER_MAP {
            FirstZeroIs(bits[..], 0, i * BITS_PER_MAP + j);
            return;
          }
        }
        i := i + 1;
      }
      FirstZeroIs(bits[..], 0, bits.Length);
    }

    method NewBlock() returns (zone: nat)
      requires Valid()
      modifies bits, blocks
      ensures Result(zone, State()) == FileModel.NewBlock(old(State()))
    {
      var i, j := SearchMaps();
      if i >= 8 {
        return 0;
      }
      bits[i * BITS_PER_MAP + j] := true;
      zone := i * BITS_PER_MAP + j + first - 1;
      if zone >= zones {
        return 0;
      }
      blocks[zone] := ZeroBlock();
    }

    method FreeBlock(z: nat)
      requires Valid() && MayFree(State(), z)
      modifies bits
      ensures State() == FileModel.FreeBlock(old(State()), z)
    {
      bits[z - (first - 1)] := false;
    }

    // ---------- _bmap ----------

    /** A zone for entry k of the inode, allocated when asked for. */
    method InodeZone(n: nat, k: nat, create: bool) returns (z: nat)
      requires Valid() && IsFile(State(), n) && k < 9
      modifies bits, blocks, inodes
      ensures !create ==> State() == old(State()) && z == inodes[n].zone[k]
      ensures create ==>
        Result(z, State()) ==
        Ensure(old(State()), if k < DIRECT then Direct(n, k) else if k == 7 then IndPtr(n) else DindPtr(n))
    {
      if create && inodes[n].zone[k] == 0 {
        z := NewBlock();
        if z != 0 {
          inodes[n] := inodes[n].(zone := inodes[n].zone[k := z]);
        }
        return;
      }
      return inodes[n].zone[k];
    }

    /** A zone for entry k of the indirect block h, allocated when asked for; s is that entry. */
    method EntryZone(h: nat, k: nat, create: bool, ghost s: Slot) returns (z: nat)
      requires Valid() && IsSlot(State(), s) && !InInode(s) && Home(State(), s) == h && h != 0 && Place(s) == k
      requires Inv(State())
      modifies bits, blocks
      ensures !create ==> State() == old(State()) && z == Entry(blocks[h], k)
      ensures create ==> Result(z, State()) == Ensure(old(State()), s)
    {
      HomeIsParent(State(), s);
      z := Entry(blocks[h], k);
      if create && z == 0 {
        ghost var fs := State();
        z := NewBlock();
        if z != 0 {
          NewZone(fs);
          UnnamedBlock(fs, State(), z);
          HomeIsParent(State(), s);
          blocks[h] := SetEntry(blocks[h], k, z);
        }
      }
    }

    /** _bmap: the zone of block b of file n, or 0; with `create` the missing zones are allocated. */
    method BlockMap(n: nat, b: nat, create: bool) returns (z: nat)
      requires Valid() && Inv(State()) && IsFile(State(), n) && b < MAX_BLOCKS
      modifies bits, blocks, inodes
      ensures !create ==> State() == old(State()) && z == Bmap(old(State()), n, b)
      ensures create ==> Result(z, State()) == FileModel.CreateBlock(old(State()), n, b)
    {
      hide Inv;
      ghost var fs := State();
      if b < DIRECT {
        z := InodeZone(n, b, create);
        return;
      }
      var k := b - DIRECT;
      if k < PER_BLOCK {
        var h := InodeZone(n, 7, create);
        if h == 0 {
          if create {
            EnsurePair(fs, IndPtr(n), Ind(n, k));
          }
          return 0;
        }
        Filled(fs, State(), create, IndPtr(n));
        z := EntryZone(h, k, create, Ind(n, k));
        if create {
          EnsurePair(fs, IndPtr(n), Ind(n, k));
        }
        return;
      }
      k := k - PER_BLOCK;
      z := DoubleMap(n, k, create);
    }

    /** The double-indirect part of _bmap, for the k-th block behind entry 8. */
    method DoubleMap(n: nat, k: nat, create: bool) returns (z: nat)
      requires Valid() && Inv(State()) && IsFile(State(), n) && k < PER_BLOCK * PER_BLOCK
      modifies bits, blocks, inodes
      ensures !create ==> State() == old(State())
                          && z == Zone(old(State()), Dind2(n, k / PER_BLOCK, k % PER_BLOCK))
      ensures create ==> Result(z, State()) ==
                         EnsureAll(old(State()), [DindPtr(n), Dind1(n, k / PER_BLOCK),
                                                  Dind2(n, k / PER_BLOCK, k % PER_BLOCK)])
    {
      ghost var fs := State();
      var h := InodeZone(n, 8, create);
      if create {
        EnsureTriple(fs, DindPtr(n), Dind1(n, k / PER_BLOCK), Dind2(n, k / PER_BLOCK, k % PER_BLOCK));
      }
      if h == 0 {
        return 0;
      }
      Filled(fs, State(), create, DindPtr(n));
      ghost var fs1 := State();
      var g := EntryZone(h, k / PER_BLOCK, create, Dind1(n, k / PER_BLOCK));
      if g == 0 {
        return 0;
      }
      Filled(fs1, State(), create, Dind1(n, k / PER_BLOCK));
      z := EntryZone(g, k % PER_BLOCK, create, Dind2(n, k / PER_BLOCK, k % PER_BLOCK));
    }

    // ---------- file_read and file_write ----------

    /** file_read: the bytes handed to the user, the result and the new file position. */
    method FileRead(n: nat, pos: nat, count: int) returns (buf: seq<Byte>, r: int, newPos: nat)
      requires Valid() && Inv(State()) && IsFile(State(), n) && (count > 0 ==> pos + count <= MAX_BYTES)
      modifies bits, blocks, inodes
      ensures State() == old(State())
      ensures count <= 0 ==> buf == [] && r == 0 && newPos == pos
      ensures count > 0 ==> buf == Read(old(State()), n, pos, count) && r == count && newPos == pos + count
    {
      buf, newPos := [], pos;
      var left := count;
      if left <= 0 {
        return buf, 0, newPos;
      }
      while left > 0
        invariant 0 <= left <= count && |buf| == count - left && State() == old(State()) && newPos == pos + |buf|
        invariant forall k: nat :: k < |buf| ==> buf[k] == ByteAt(State(), n, pos + k)
      {
        var chars: nat;
        buf, chars := ReadBlock(n, pos, buf, left);
        newPos := newPos + chars;
        left := left - chars;
      }
      r := if count - left != 0 then count - left else -1;
      ReadRefines(State(), n, pos, count);
    }

    /** One round of the loop of file_read: at most `left` bytes of the block behind those read so far. */
    method ReadBlock(n: nat, pos: nat, read: seq<Byte>, left: nat) returns (buf: seq<Byte>, chars: nat)
      requires Valid() && Inv(State()) && IsFile(State(), n) && 0 < left && pos + |read| + left <= MAX_BYTES
      requires forall k: nat :: k < |read| ==> read[k] == ByteAt(State(), n, pos + k)
      modifies bits, blocks, inodes
      ensures State() == old(State()) && 0 < chars <= left && |buf| == |read| + chars
      ensures forall k: nat :: k < |buf| ==> buf[k] == ByteAt(State(), n, pos + k)
    {
      var at := pos + |read|;
      var nr := BlockMap(n, at / BLOCK_SIZE, false);
      var o := at % BLOCK_SIZE;
      chars := Chunk(at, left);
      buf := read;
      for c := 0 to chars
        invariant State() == old(State()) && |buf| == |read| + c
        invariant forall k: nat :: k < |buf| ==> buf[k] == ByteAt(State(), n, pos + k)
      {
        SameBlock(at, at + c, chars);
        buf := buf + [if nr != 0 then blocks[nr][o + c] else 0];
      }
    }

    /** file_write at the file position, or at the end when appending; the number of bytes
        written, or -1 when there are none. */
    method FileWrite(n: nat, filePos: nat, append: bool, data: seq<Byte>) returns (r: int, newPos: nat)
      requires Valid() && Inv(State()) && IsFile(State(), n)
      requires (if append then inodes[n].size else filePos) + |data| <= MAX_BYTES
      modifies bits, blocks, inodes
      ensures var start := if append then old(inodes[n].size) else filePos;
              var w := Write(old(State()), n, start, data, 0);
              && State() == w.fs
              && r == (if w.count == 0 then -1 else w.count)
              && newPos == (if append then filePos else filePos + w.count)
    {
      var base := if append then inodes[n].size else filePos;
      ghost var fs := State();
      var i: nat := 0;
      while i < |data|
        invariant i <= |data| && Inv(State()) && IsFile(State(), n)
        invariant Write(fs, n, base, data, 0) == Write(State(), n, base, data, i)
        decreases |data| - i
      {
        WriteRound(State(), n, base, data, i);
        var j := WriteBlock(n, base, data, i);
        if j == i {
          break;
        }
        i := j;
      }
      newPos := if append then filePos else base + i;
      r := if i > 0 then i else -1;
    }

    /** One round of the loop of file_write, from byte i of `data` on. */
    method WriteBlock(n: nat, base: nat, data: seq<Byte>, i: nat) returns (j: nat)
      requires Valid() && Inv(State()) && IsFile(State(), n) && base + |data| <= MAX_BYTES && i < |data|
      modifies bits, blocks, inodes
      ensures Written(j, State()) == WriteChunk(old(State()), n, base, data, i)
    {
      var block := BlockMap(n, (base + i) / BLOCK_SIZE, true);
      if block == 0 {
        return i;
      }
      var c := Chunk(base + i, |data| - i);
      blocks[block] := Overlay(blocks[block], (base + i) % BLOCK_SIZE, data, i, c);
      if base + i + c > inodes[n].size {
        inodes[n] := inodes[n].(size := base + i + c);
      }
      return i + c;
    }

    // ---------- truncate ----------

    /** free_ind of the block that pointer slot p of fs names; `slots` were freed before. */
    method FreeInd(z: nat, ghost fs: Fs, ghost slots: set<Slot>, ghost p: Slot)
      requires Valid() && Inv(fs) && Cleared(fs, State(), slots) && IsPointer(p) && IsSlot(fs, p) && Untouched(slots, p)
      requires z == Zone(fs, p)
      modifies bits
      ensures State() == FileModel.FreeInd(old(State()), z)
    {
      if z == 0 {
        return;
      }
      ghost var f := State();
      for i := 0 to PER_BLOCK
        invariant State() == FreeEntries(f, z, i)
      {
        ghost var g := FreeChildren(fs, f, slots, p, i);
        FreeChild(fs, f, g, slots, p, i);
        var e := Entry(blocks[z], i);
        if e != 0 {
          FreeBlock(e);
        }
      }
      FreeBelow(fs, f, slots, p);
      FreeBlock(z);
    }

    method FreeDind(n: nat, z: nat, ghost fs: Fs, ghost slots: set<Slot>)
      requires Valid() && Inv(fs) && IsFile(fs, n) && Cleared(fs, State(), slots) && NoDind(slots, n)
      requires z == Zone(fs, DindPtr(n))
      modifies bits
      ensures State() == FileModel.FreeDind(old(State()), z)
    {
      if z == 0 {
        return;
      }
      ghost var f := State();
      for i := 0 to PER_BLOCK
        invariant State() == FreeInds(f, z, i)
      {
        ghost var g := FreeAllInds(fs, f, slots, n, i);
        FreeIndRound(fs, f, g, slots, n, i);
        var e := Entry(blocks[z], i);
        if e != 0 {
          FreeInd(e, fs, slots + DindBelow(n, i), Dind1(n, i));
        }
      }
      FreeDindAll(fs, f, slots, n);
      FreeBlock(z);
    }

    method Truncate(n: nat)
      requires Valid() && Inv(State()) && n < inodes.Length
      modifies bits, inodes
      ensures State() == FileModel.Truncate(old(State()), n)
    {
      hide Inv, Cleared;
      if !inodes[n].file {
        return;
      }
      ghost var fs := State();
      FreeDirectZones(n);
      FreeDirects(fs, n, DIRECT);
      ghost var f := State();
      FreeInd(inodes[n].zone[7], fs, Directs(n, DIRECT), IndPtr(n));
      FreeBelow(fs, f, Directs(n, DIRECT), IndPtr(n));
      FreeDind(n, inodes[n].zone[8], fs, Directs(n, DIRECT) + Below(IndPtr(n)));
      inodes[n] := inodes[n].(zone := inodes[n].zone[7 := 0]);
      inodes[n] := inodes[n].(zone := inodes[n].zone[8 := 0]);
      inodes[n] := inodes[n].(size := 0);
    }

    method FreeDirectZones(n: nat)
      requires Valid() && Inv(State()) && IsFile(State(), n)
      modifies bits, inodes
      ensures State() == FreeDirect(old(State()), n, DIRECT)
    {
      ghost var fs := State();
      for i := 0 to DIRECT
        invariant State() == FreeDirect(fs, n, i)
      {
        FreeDirects(fs, n, i);
        if inodes[n].zone[i] != 0 {
          FreeBlock(inodes[n].zone[i]);
          inodes[n] := inodes[n].(zone := inodes[n].zone[i := 0]);
        }
      }
    }
  }

  lemma EnsurePair(fs: Fs, a: Slot, b: Slot)
    requires IsSlot(fs, a) && IsSlot(fs, b)
    ensures IsSlot(Ensure(fs, a).fs, b)
    ensures EnsureAll(fs, [a, b]) == if Ensure(fs, a).zone == 0 then Ensure(fs, a) else Ensure(Ensure(fs, a).fs, b)
  {
    assert [a, b][1..] == [b];
    assert EnsureAll(Ensure(fs, a).fs, [b]) == Ensure(Ensure(fs, a).fs, b);
  }

  lemma EnsureTriple(fs: Fs, a: Slot, b: Slot, c: Slot)
    requires IsSlot(fs, a) && IsSlot(fs, b) && IsSlot(fs, c)
    ensures IsSlot(Ensure(fs, a).fs, b) && IsSlot(Ensure(Ensure(fs, a).fs, b).fs, c)
    ensures EnsureAll(fs, [a, b, c]) ==
              if Ensure(fs, a).zone == 0 then Ensure(fs, a)
              else if Ensure(Ensure(fs, a).fs, b).zone == 0 then Ensure(Ensure(fs, a).fs, b)
              else Ensure(Ensure(Ensure(fs, a).fs, b).fs, c)
  {
    assert [a, b, c][1..] == [b, c];
    EnsurePair(Ensure(fs, a).fs, b, c);
  }

  /** After its pointer slot was looked up or filled, the entries behind it can be. */
  lemma Filled(fs: Fs, fs': Fs, create: bool, p: Slot)
    requires Inv(fs) && CanFill(fs, p) && IsPointer(p)
    requires if create then fs' == Ensure(fs, p).fs && Ensure(fs, p).zone != 0 else fs' == fs && Zone(fs, p) != 0
    ensures Inv(fs') && Zone(fs', p) == (if create then Ensure(fs, p).zone else Zone(fs, p)) && SameFiles(fs, fs')
    ensures forall k: nat :: k < PER_BLOCK ==>
              IsSlot(fs', Child(p, k)) && Home(fs', Child(p, k)) == Zone(fs', p) && CanFill(fs', Child(p, k))
  {
    if create {
      EnsureSlot(fs, p);
    }
    forall k: nat | k < PER_BLOCK
      ensures IsSlot(fs', Child(p, k)) && Home(fs', Child(p, k)) == Zone(fs', p) && CanFill(fs', Child(p, k))
    {
      ChildZone(fs', p, k);
      HomeIsParent(fs', Child(p, k));
    }
  }
}
