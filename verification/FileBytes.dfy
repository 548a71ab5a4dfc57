/** Files as zero-filled arrays of bytes: what file_write and file_read do to them.
 */
module FileBytes {
  import opened FileModel
  import opened FileInvariant

  /** Byte pos of file n; a hole reads as zero. */
  function ByteAt(fs: Fs, n: nat, pos: nat): (b: Byte)
    requires IsFile(fs, n) && pos < MAX_BYTES
  {
    var z := Bmap(fs, n, pos / BLOCK_SIZE);
    if z == 0 then 0 else fs.blocks[z][pos % BLOCK_SIZE]
  }

  ghost predicate SameBytes(fs: Fs, fs': Fs, n: nat) {
    && IsFile(fs, n) && IsFile(fs', n)
    && fs'.inodes[n].size == fs.inodes[n].size
    && forall pos: nat :: pos < MAX_BYTES ==> ByteAt(fs', n, pos) == ByteAt(fs, n, pos)
  }

  // ---------- create_block ----------

  lemma ContentsTrans(fs: Fs, fs1: Fs, fs2: Fs)
    requires ContentsKept(fs, fs1) && ContentsKept(fs1, fs2)
    ensures ContentsKept(fs, fs2)
  {
    assert forall s :: IsSlot(fs1, s) <==> IsSlot(fs, s);
    forall s | IsSlot(fs, s) && IsData(s) && Zone(fs, s) == 0 && Zone(fs2, s) != 0
      ensures fs2.blocks[Zone(fs2, s)] == ZeroBlock()
    {
      if Zone(fs1, s) != 0 {
        assert fs1.blocks[Zone(fs1, s)] == ZeroBlock();
      }
    }
  }

  /** A chain of slots, each the home of the next. */
  ghost predicate IsPath(fs: Fs, p: seq<Slot>) {
    && p != [] && (forall i :: 0 <= i < |p| ==> IsSlot(fs, p[i]))
    && (forall i :: 1 <= i < |p| ==> !InInode(p[i]) && Parent(p[i]) == p[i - 1])
  }

  lemma {:induction false} EnsurePath(fs: Fs, p: seq<Slot>)
    requires Inv(fs) && IsPath(fs, p) && CanFill(fs, p[0])
    ensures var r := EnsureAll(fs, p);
            && Inv(r.fs) && ContentsKept(fs, r.fs)
            && (r.zone != 0 ==> Zone(r.fs, p[|p| - 1]) == r.zone)
    decreases |p|
  {
    EnsureSlot(fs, p[0]);
    var r := Ensure(fs, p[0]);
    if r.zone == 0 || |p| == 1 {
    } else {
      PathTail(fs, r.fs, p);
      EnsurePath(r.fs, p[1..]);
      ContentsTrans(fs, r.fs, EnsureAll(r.fs, p[1..]).fs);
    }
  }

  lemma PathTail(fs: Fs, fs': Fs, p: seq<Slot>)
    requires IsPath(fs, p) && |p| > 1 && SameFiles(fs, fs') && Zone(fs', p[0]) != 0
    ensures IsPath(fs', p[1..]) && CanFill(fs', p[1]) && p[1..][|p| - 2] == p[|p| - 1]
  {
    forall i | 0 <= i < |p| ensures IsSlot(fs', p[i]) {
      assert IsSlot(fs, p[i]);
    }
    HomeIsParent(fs', p[1]);
  }

  /** create_block finds or makes the zone of block b, and no file's bytes change. */
  lemma CreateKeeps(fs: Fs, n: nat, b: nat)
    requires Inv(fs) && IsFile(fs, n) && b < MAX_BLOCKS
    ensures var r := CreateBlock(fs, n, b);
            && Inv(r.fs) && ContentsKept(fs, r.fs)
            && (r.zone != 0 ==> Bmap(r.fs, n, b) == r.zone)
  {
    var p := Path(n, b);
    assert p[|p| - 1] == SlotOf(n, b);
    EnsurePath(fs, p);
  }

  lemma ContentsSameBytes(fs: Fs, fs': Fs, n: nat)
    requires ContentsKept(fs, fs') && IsFile(fs, n)
    ensures SameBytes(fs, fs', n)
  {
    forall pos: nat | pos < MAX_BYTES ensures ByteAt(fs', n, pos) == ByteAt(fs, n, pos) {
      assert IsSlot(fs, SlotOf(n, pos / BLOCK_SIZE));
    }
  }

  // ---------- file_write ----------

  lemma SlotOfInjective(n: nat, b: nat, n': nat, b': nat)
    requires b < MAX_BLOCKS && b' < MAX_BLOCKS && SlotOf(n, b) == SlotOf(n', b')
    ensures n == n' && b == b'
  {
  }

  /** fs' is fs with data[i..j] laid over file n from base + i on, and its size at least the end. */
  ghost predicate Wrote(fs: Fs, fs': Fs, n: nat, base: nat, data: seq<Byte>, i: nat, j: nat) {
    && IsFile(fs, n) && SameFiles(fs, fs') && i <= j <= |data|
    && (forall q: nat :: q < MAX_BYTES ==>
          ByteAt(fs', n, q) == if base + i <= q < base + j then data[q - base] else ByteAt(fs, n, q))
    && fs'.inodes[n].size == (if i < j && base + j > fs.inodes[n].size then base + j else fs.inodes[n].size)
    && (forall n' :: n' != n && IsFile(fs, n') ==> SameBytes(fs, fs', n'))
  }

  predicate ChunkFits(fs: Fs, n: nat, base: nat, data: seq<Byte>, i: nat, c: nat) {
    && IsFile(fs, n) && 0 < c && i + c <= |data| && base + |data| <= MAX_BYTES
    && (base + i) % BLOCK_SIZE + c <= BLOCK_SIZE
    && Bmap(fs, n, (base + i) / BLOCK_SIZE) != 0
  }

  function Put(fs: Fs, n: nat, base: nat, data: seq<Byte>, i: nat, c: nat): (r: Fs)
    requires ChunkFits(fs, n, base, data, i, c)
  {
    PutChunk(fs, n, Bmap(fs, n, (base + i) / BLOCK_SIZE), base + i, data, i, c)
  }

  lemma PutZones(fs: Fs, n: nat, base: nat, data: seq<Byte>, i: nat, c: nat)
    requires Inv(fs) && ChunkFits(fs, n, base, data, i, c)
    ensures Inv(Put(fs, n, base, data, i, c))
    ensures forall s :: IsSlot(fs, s) ==> Zone(Put(fs, n, base, data, i, c), s) == Zone(fs, s)
  {
    var b := (base + i) / BLOCK_SIZE;
    var z := Bmap(fs, n, b);
    var fs' := Put(fs, n, base, data, i, c);
    assert IsSlot(fs, SlotOf(n, b)) && Zone(fs, SlotOf(n, b)) == z;
    forall s | IsSlot(fs, s) ensures Zone(fs', s) == Zone(fs, s) {
      if !InInode(s) {
        DataNotHome(fs, SlotOf(n, b), s);
      }
      ZoneKept(fs, fs', s, z);
    }
    SameZonesInv(fs, fs');
  }

  /** The block of a data slot holds no slots. */
  lemma DataNotHome(fs: Fs, d: Slot, s: Slot)
    requires Injective(fs) && IsSlot(fs, d) && IsData(d) && Zone(fs, d) != 0 && IsSlot(fs, s) && !InInode(s)
    ensures Home(fs, s) != Zone(fs, d)
    ensures s.Dind2? ==> Home(fs, Parent(s)) != Zone(fs, d)
  {
    HomeIsParent(fs, s);
    if s.Dind2? {
      HomeIsParent(fs, Parent(s));
    }
  }

  lemma ZoneKept(fs: Fs, fs': Fs, s: Slot, z: nat)
    requires IsSlot(fs, s) && SameFiles(fs, fs')
    requires forall m: nat :: m < |fs.inodes| ==> fs'.inodes[m].zone == fs.inodes[m].zone
    requires forall y :: 0 <= y < ZONE_LIMIT && y != z ==> fs'.blocks[y] == fs.blocks[y]
    requires !InInode(s) ==> Home(fs, s) != z && (s.Dind2? ==> Home(fs, Parent(s)) != z)
    ensures Zone(fs', s) == Zone(fs, s)
  {
  }

  lemma SameZonesInv(fs: Fs, fs': Fs)
    requires Inv(fs) && SameFiles(fs, fs') && fs'.bits == fs.bits
    requires forall s :: IsSlot(fs, s) ==> Zone(fs', s) == Zone(fs, s)
    ensures Inv(fs')
  {
    assert forall s :: IsSlot(fs', s) <==> IsSlot(fs, s);
    forall y: nat | MayFree(fs', y) ensures Owned(fs', y) {
      assert MayFree(fs, y);
      var s :| IsSlot(fs, s) && Zone(fs, s) == y;
      assert IsSlot(fs', s) && Zone(fs', s) == y;
    }
  }

  /** Laying a chunk over the block lays it over the file. */
  lemma PutWrites(fs: Fs, n: nat, base: nat, data: seq<Byte>, i: nat, c: nat)
    requires Inv(fs) && ChunkFits(fs, n, base, data, i, c)
    ensures Inv(Put(fs, n, base, data, i, c)) && Wrote(fs, Put(fs, n, base, data, i, c), n, base, data, i, i + c)
  {
    var fs' := Put(fs, n, base, data, i, c);
    PutZones(fs, n, base, data, i, c);
    forall q: nat | q < MAX_BYTES
      ensures ByteAt(fs', n, q) == if base + i <= q < base + i + c then data[q - base] else ByteAt(fs, n, q)
    {
      PutByte(fs, fs', n, base, data, i, c, n, q);
    }
    forall n' | n' != n && IsFile(fs, n') ensures SameBytes(fs, fs', n') {
      forall q: nat | q < MAX_BYTES ensures ByteAt(fs', n', q) == ByteAt(fs, n', q) {
        PutByte(fs, fs', n, base, data, i, c, n', q);
      }
    }
  }

  /** No two blocks of files have the same zone. */
  lemma ZonesDiffer(fs: Fs, n: nat, b: nat, n': nat, b': nat)
    requires Injective(fs) && IsFile(fs, n) && IsFile(fs, n') && b < MAX_BLOCKS && b' < MAX_BLOCKS
    requires Bmap(fs, n, b) != 0 && Bmap(fs, n', b') == Bmap(fs, n, b)
    ensures n' == n && b' == b
  {
    assert IsSlot(fs, SlotOf(n, b)) && IsSlot(fs, SlotOf(n', b'));
    SlotOfInjective(n, b, n', b');
  }

  lemma SameMap(fs: Fs, fs': Fs, n: nat, b: nat)
    requires SameFiles(fs, fs') && IsFile(fs, n) && b < MAX_BLOCKS
    requires forall s :: IsSlot(fs, s) ==> Zone(fs', s) == Zone(fs, s)
    ensures Bmap(fs', n, b) == Bmap(fs, n, b)
  {
    assert IsSlot(fs, SlotOf(n, b));
  }

  lemma PutByte(fs: Fs, fs': Fs, n: nat, base: nat, data: seq<Byte>, i: nat, c: nat, n': nat, q: nat)
    requires Injective(fs) && ChunkFits(fs, n, base, data, i, c) && IsFile(fs, n') && q < MAX_BYTES
    requires fs' == Put(fs, n, base, data, i, c)
    requires forall s :: IsSlot(fs, s) ==> Zone(fs', s) == Zone(fs, s)
    ensures ByteAt(fs', n', q) == if n' == n && base + i <= q < base + i + c then data[q - base] else ByteAt(fs, n', q)
  {
    hide Injective, Bmap;
    var pos := base + i;
    var b, b' := pos / BLOCK_SIZE, q / BLOCK_SIZE;
    var z, z' := Bmap(fs, n, b), Bmap(fs, n', b');
    SameBlock(pos, q, c);
    SameMap(fs, fs', n', b');
    if z' == z {
      ZonesDiffer(fs, n, b, n', b');
      PutSame(fs, fs', n, base, data, i, c, q);
    } else {
      assert fs'.blocks[z'] == fs.blocks[z'];
    }
  }

  /** Within the block that is written. */
  lemma PutSame(fs: Fs, fs': Fs, n: nat, base: nat, data: seq<Byte>, i: nat, c: nat, q: nat)
    requires ChunkFits(fs, n, base, data, i, c) && fs' == Put(fs, n, base, data, i, c) && q < MAX_BYTES
    requires q / BLOCK_SIZE == (base + i) / BLOCK_SIZE && Bmap(fs', n, q / BLOCK_SIZE) == Bmap(fs, n, q / BLOCK_SIZE)
    ensures ByteAt(fs', n, q) == if base + i <= q < base + i + c then data[q - base] else ByteAt(fs, n, q)
  {
    SameBlock(base + i, q, c);
  }

  /** A chunk stays within one block. */
  lemma SameBlock(pos: nat, q: nat, c: nat)
    requires pos % BLOCK_SIZE + c <= BLOCK_SIZE
    ensures pos <= q < pos + c <==>
              q / BLOCK_SIZE == pos / BLOCK_SIZE && pos % BLOCK_SIZE <= q % BLOCK_SIZE < pos % BLOCK_SIZE + c
    ensures q / BLOCK_SIZE == pos / BLOCK_SIZE ==> q - pos == q % BLOCK_SIZE - pos % BLOCK_SIZE
  {
  }

  lemma WroteAfterSame(fs: Fs, fs1: Fs, fs2: Fs, n: nat, base: nat, data: seq<Byte>, i: nat, j: nat)
    requires ContentsKept(fs, fs1) && Wrote(fs1, fs2, n, base, data, i, j) && IsFile(fs, n)
    ensures Wrote(fs, fs2, n, base, data, i, j)
  {
    ContentsSameBytes(fs, fs1, n);
    forall n' | n' != n && IsFile(fs, n') ensures SameBytes(fs, fs2, n') {
      ContentsSameBytes(fs, fs1, n');
      assert SameBytes(fs1, fs2, n');
    }
  }

  lemma WroteTwice(fs: Fs, fs1: Fs, fs2: Fs, n: nat, base: nat, data: seq<Byte>, i: nat, j: nat, k: nat)
    requires i <= j <= k <= |data| && base + |data| <= MAX_BYTES
    requires Wrote(fs, fs1, n, base, data, i, j) && Wrote(fs1, fs2, n, base, data, j, k)
    ensures Wrote(fs, fs2, n, base, data, i, k)
  {
    forall n' | n' != n && IsFile(fs, n') ensures SameBytes(fs, fs2, n') {
      assert SameBytes(fs, fs1, n') && SameBytes(fs1, fs2, n');
    }
  }

  /** file_write: exactly the written interval of file n changes, the size becomes the larger of
      itself and the end, and no other file changes. */
  lemma {:induction false} WriteRefines(fs: Fs, n: nat, base: nat, data: seq<Byte>, i: nat)
    requires Inv(fs) && IsFile(fs, n) && base + |data| <= MAX_BYTES && i <= |data|
    ensures var w := Write(fs, n, base, data, i);
            Inv(w.fs) && Wrote(fs, w.fs, n, base, data, i, w.count)
    decreases |data| - i
  {
    if i == |data| {
      NothingWritten(fs, fs, n, base, data, i);
    } else {
      WriteRound(fs, n, base, data, i);
      var c := WriteChunk(fs, n, base, data, i);
      if c.count > i {
        WriteRefines(c.fs, n, base, data, c.count);
        var w := Write(c.fs, n, base, data, c.count);
        WroteTwice(fs, c.fs, w.fs, n, base, data, i, c.count, w.count);
      }
    }
  }

  lemma NothingWritten(fs: Fs, fs': Fs, n: nat, base: nat, data: seq<Byte>, i: nat)
    requires IsFile(fs, n) && ContentsKept(fs, fs') && i <= |data|
    ensures Wrote(fs, fs', n, base, data, i, i)
  {
    ContentsSameBytes(fs, fs', n);
    forall n' | n' != n && IsFile(fs, n') ensures SameBytes(fs, fs', n') {
      ContentsSameBytes(fs, fs', n');
    }
  }

  lemma WriteRound(fs: Fs, n: nat, base: nat, data: seq<Byte>, i: nat)
    requires Inv(fs) && IsFile(fs, n) && base + |data| <= MAX_BYTES && i < |data|
    ensures var c := WriteChunk(fs, n, base, data, i);
            Inv(c.fs) && Wrote(fs, c.fs, n, base, data, i, c.count)
  {
    var b := (base + i) / BLOCK_SIZE;
    CreateKeeps(fs, n, b);
    var r := CreateBlock(fs, n, b);
    if r.zone == 0 {
      NothingWritten(fs, r.fs, n, base, data, i);
    } else {
      var c := Chunk(base + i, |data| - i);
      PutWrites(r.fs, n, base, data, i, c);
      WroteAfterSame(fs, r.fs, Put(r.fs, n, base, data, i, c), n, base, data, i, i + c);
    }
  }

  // ---------- when a write stops short ----------

  /** Every data zone of the device is taken. */
  ghost predicate Full(fs: Fs) {
    forall z :: fs.first <= z < fs.zones ==> fs.bits[BitOf(fs, z)]
  }

  lemma NewBlockFull(fs: Fs)
    requires fs.bits[0]
    ensures NewBlock(fs).fs.bits[0] && (NewBlock(fs).zone == 0 ==> Full(NewBlock(fs).fs))
  {
    var j := FirstZero(fs.bits, 0);
    forall z | fs.first <= z < fs.zones && NewBlock(fs).zone == 0 ensures fs.bits[BitOf(fs, z)] {
      assert BitOf(fs, z) < j;
    }
  }

  lemma {:induction false} EnsureAllFull(fs: Fs, p: seq<Slot>)
    requires fs.bits[0] && p != [] && forall i :: 0 <= i < |p| ==> IsSlot(fs, p[i])
    ensures EnsureAll(fs, p).fs.bits[0] && (EnsureAll(fs, p).zone == 0 ==> Full(EnsureAll(fs, p).fs))
    decreases |p|
  {
    NewBlockFull(fs);
    var r := Ensure(fs, p[0]);
    assert r.fs.bits[0] && (r.zone == 0 ==> Full(r.fs));
    if r.zone == 0 || |p| == 1 {
    } else {
      assert forall i :: 0 <= i < |p[1..]| ==> IsSlot(r.fs, p[1..][i]);
      EnsureAllFull(r.fs, p[1..]);
    }
  }

  /** file_write leaves bytes unwritten only when no zone of the device is left. */
  lemma {:induction false} WriteStops(fs: Fs, n: nat, base: nat, data: seq<Byte>, i: nat)
    requires Inv(fs) && IsFile(fs, n) && base + |data| <= MAX_BYTES && i <= |data|
    ensures var w := Write(fs, n, base, data, i); w.count < |data| ==> Full(w.fs)
    decreases |data| - i
  {
    if i == |data| {
    } else {
      EnsureAllFull(fs, Path(n, (base + i) / BLOCK_SIZE));
      WriteRound(fs, n, base, data, i);
      var c := WriteChunk(fs, n, base, data, i);
      if c.count > i {
        WriteStops(c.fs, n, base, data, c.count);
      }
    }
  }

  // ---------- file_read ----------

  ghost predicate ReadsRight(fs: Fs, n: nat, pos: nat, count: nat, got: seq<Byte>) {
    && IsFile(fs, n) && pos + count <= MAX_BYTES && |got| == count
    && forall k: nat :: k < count ==> got[k] == ByteAt(fs, n, pos + k)
  }

  /** file_read returns the slice of the file, with holes as zeros. */
  lemma {:induction false} ReadRefines(fs: Fs, n: nat, pos: nat, count: nat)
    requires IsFile(fs, n) && pos + count <= MAX_BYTES
    ensures ReadsRight(fs, n, pos, count, Read(fs, n, pos, count))
    decreases count
  {
    if count == 0 {
    } else {
      var c := Chunk(pos, count);
      ReadRefines(fs, n, pos + c, count - c);
      ReadStep(fs, n, pos, count, c);
    }
  }

  /** One round: a chunk, and then the rest. */
  lemma ReadStep(fs: Fs, n: nat, pos: nat, count: nat, c: nat)
    requires IsFile(fs, n) && 0 < count && pos + count <= MAX_BYTES && c == Chunk(pos, count)
    requires ReadsRight(fs, n, pos + c, count - c, Read(fs, n, pos + c, count - c))
    ensures ReadsRight(fs, n, pos, count, Read(fs, n, pos, count))
  {
    ReadChunk(fs, n, pos, count);
    var got, rest := Read(fs, n, pos, count), Read(fs, n, pos + c, count - c);
    assert |got| == count && forall k: nat :: c <= k < count ==> got[k] == rest[k - c];
    forall k: nat | k < count ensures got[k] == ByteAt(fs, n, pos + k) {
      if k >= c {
        assert rest[k - c] == ByteAt(fs, n, pos + c + (k - c));
      }
    }
  }

  lemma ReadChunk(fs: Fs, n: nat, pos: nat, count: nat)
    requires IsFile(fs, n) && 0 < count && pos + count <= MAX_BYTES
    ensures var c := Chunk(pos, count);
            forall k: nat :: k < c ==> Read(fs, n, pos, count)[k] == ByteAt(fs, n, pos + k)
  {
    var c := Chunk(pos, count);
    forall k: nat | k < c ensures Read(fs, n, pos, count)[k] == ByteAt(fs, n, pos + k) {
      SameBlock(pos, pos + k, c);
    }
  }

  /** What was written is what is read back. */
  lemma WriteThenRead(fs: Fs, n: nat, base: nat, data: seq<Byte>)
    requires Inv(fs) && IsFile(fs, n) && base + |data| <= MAX_BYTES
    ensures var w := Write(fs, n, base, data, 0);
            Read(w.fs, n, base, w.count) == data[..w.count]
  {
    WriteRefines(fs, n, base, data, 0);
    var w := Write(fs, n, base, data, 0);
    ReadRefines(w.fs, n, base, w.count);
  }
}
