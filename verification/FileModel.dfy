/** Zones, inodes and files of one mounted device (fs/bitmap.c, fs/inode.c, fs/truncate.c,
    fs/file_dev.c), on the logical contents of its blocks.
 */
module FileModel {

  const BLOCK_SIZE: nat := 1024
  const DIRECT: nat := 7
  /** Zone numbers per indirect block. */
  const PER_BLOCK: nat := 512
  const MAX_BLOCKS: nat := 7 + 512 + 512 * 512
  const BITS_PER_MAP: nat := 8192
  /** Zone numbers are 16 bits wide. */
  const ZONE_LIMIT: nat := 65536

  newtype Byte = b: int | 0 <= b < 256
  type Block = b: seq<Byte> | |b| == 1024 witness seq(1024, _ => 0)

  function ZeroBlock(): (b: Block)
    ensures forall k :: 0 <= k < 1024 ==> b[k] == 0
  {
    seq(1024, _ => 0)
  }

  type Zones = z: seq<nat> | |z| == 9 && forall k :: 0 <= k < 9 ==> z[k] < ZONE_LIMIT
    witness [0, 0, 0, 0, 0, 0, 0, 0, 0]

  /** `file` says that the inode is a regular file or a directory, whose zones are block numbers. */
  datatype Inode = Inode(file: bool, zone: Zones, size: nat)

  /** `first` and `zones` are s_firstdatazone and s_nzones; `bits` are the zone maps in a row. */
  datatype FsState = Fs(first: nat, zones: nat, bits: seq<bool>, blocks: seq<Block>, inodes: seq<Inode>)

  predicate Sized(fs: FsState) {
    && 1 <= fs.first <= fs.zones < ZONE_LIMIT
    && |fs.blocks| == ZONE_LIMIT
    && |fs.bits| % BITS_PER_MAP == 0 && fs.zones + 1 - fs.first <= |fs.bits| <= 8 * BITS_PER_MAP
  }

  type Fs = fs: FsState | Sized(fs)
    witness FsState.Fs(1, 1, seq(BITS_PER_MAP, _ => true), seq(ZONE_LIMIT, _ => ZeroBlock()), [])

  // ---------- indirect blocks ----------

  /** The k-th 16-bit number of a block, low byte first. */
  function Entry(b: Block, k: nat): (v: nat)
    requires k < PER_BLOCK
    ensures v < ZONE_LIMIT
  {
    b[2 * k] as nat + 256 * (b[2 * k + 1] as nat)
  }

  function SetEntry(b: Block, k: nat, v: nat): (r: Block)
    requires k < PER_BLOCK && v < ZONE_LIMIT
    ensures forall k' :: 0 <= k' < PER_BLOCK ==> Entry(r, k') == if k' == k then v else Entry(b, k')
  {
    b[2 * k := (v % 256) as Byte][2 * k + 1 := (v / 256) as Byte]
  }

  lemma ZeroEntries()
    ensures forall k :: 0 <= k < PER_BLOCK ==> Entry(ZeroBlock(), k) == 0
  {
  }

  // ---------- the places that name a zone ----------

  datatype Slot =
    | Direct(n: nat, k: nat)
    | IndPtr(n: nat)
    | Ind(n: nat, k: nat)
    | DindPtr(n: nat)
    | Dind1(n: nat, k: nat)
    | Dind2(n: nat, k: nat, l: nat)

  predicate IsSlot(fs: Fs, s: Slot) {
    && s.n < |fs.inodes| && fs.inodes[s.n].file
    && (s.Direct? ==> s.k < DIRECT)
    && (s.Ind? || s.Dind1? || s.Dind2? ==> s.k < PER_BLOCK)
    && (s.Dind2? ==> s.l < PER_BLOCK)
  }

  function Follow(fs: Fs, z: nat, k: nat): (v: nat)
    requires z < ZONE_LIMIT && k < PER_BLOCK
    ensures v < ZONE_LIMIT
  {
    if z == 0 then 0 else Entry(fs.blocks[z], k)
  }

  /** The zone a slot names; 0 is none. */
  function Zone(fs: Fs, s: Slot): (z: nat)
    requires IsSlot(fs, s)
    ensures z < ZONE_LIMIT
  {
    match s
    case Direct(n, k) => fs.inodes[n].zone[k]
    case IndPtr(n) => fs.inodes[n].zone[7]
    case Ind(n, k) => Follow(fs, fs.inodes[n].zone[7], k)
    case DindPtr(n) => fs.inodes[n].zone[8]
    case Dind1(n, k) => Follow(fs, fs.inodes[n].zone[8], k)
    case Dind2(n, k, l) => Follow(fs, Follow(fs, fs.inodes[n].zone[8], k), l)
  }

  /** The slots that name file contents rather than more slots. */
  predicate IsData(s: Slot) {
    s.Direct? || s.Ind? || s.Dind2?
  }

  /** The slot behind block b of file n. */
  function SlotOf(n: nat, b: nat): (s: Slot)
    requires b < MAX_BLOCKS
    ensures s.n == n && IsData(s)
  {
    if b < DIRECT then Direct(n, b)
    else if b - DIRECT < PER_BLOCK then Ind(n, b - DIRECT)
    else Dind2(n, (b - DIRECT - PER_BLOCK) / PER_BLOCK, (b - DIRECT - PER_BLOCK) % PER_BLOCK)
  }

  predicate IsFile(fs: Fs, n: nat) {
    n < |fs.inodes| && fs.inodes[n].file
  }

  /** bmap. */
  function Bmap(fs: Fs, n: nat, b: nat): (z: nat)
    requires IsFile(fs, n) && b < MAX_BLOCKS
    ensures z < ZONE_LIMIT
  {
    Zone(fs, SlotOf(n, b))
  }

  // ---------- new_block and free_block ----------

  function FirstZero(bits: seq<bool>, i: nat): (j: nat)
    requires i <= |bits|
    ensures i <= j <= |bits| && (j < |bits| ==> !bits[j]) && forall k :: i <= k < j ==> bits[k]
    decreases |bits| - i
  {
    if i == |bits| || !bits[i] then i else FirstZero(bits, i + 1)
  }

  function BitOf(fs: Fs, z: nat): (b: int) {
    z + 1 - fs.first
  }

  function SetBit(fs: Fs, j: nat, v: bool): (r: Fs)
    requires j < |fs.bits|
  {
    fs.(bits := fs.bits[j := v])
  }

  function SetBlock(fs: Fs, z: nat, b: Block): (r: Fs)
    requires z < ZONE_LIMIT
  {
    fs.(blocks := fs.blocks[z := b])
  }

  datatype Result = Result(zone: nat, fs: Fs)

  predicate SameFiles(fs: Fs, fs': Fs) {
    && |fs'.inodes| == |fs.inodes| && fs'.first == fs.first && fs'.zones == fs.zones && |fs'.bits| == |fs.bits|
    && forall n: nat :: n < |fs.inodes| ==> fs'.inodes[n].file == fs.inodes[n].file
  }

  /** 0 is failure; a bit beyond the last zone is set all the same. */
  function NewBlock(fs: Fs): (r: Result)
    ensures r.zone < ZONE_LIMIT && SameFiles(fs, r.fs)
  {
    var j := FirstZero(fs.bits, 0);
    if j == |fs.bits| then Result(0, fs)
    else
      var z := j + fs.first - 1;
      if z >= fs.zones then Result(0, SetBit(fs, j, true))
      else Result(z, SetBlock(SetBit(fs, j, true), z, ZeroBlock()))
  }

  /** free_block panics outside the data zones and on a clear bit. */
  predicate MayFree(fs: Fs, z: nat) {
    fs.first <= z < fs.zones && fs.bits[BitOf(fs, z)]
  }

  function FreeBlock(fs: Fs, z: nat): (r: Fs) {
    if fs.first <= z < fs.zones then SetBit(fs, BitOf(fs, z), false) else fs
  }

  // ---------- _bmap with create ----------

  function SetInodeZone(fs: Fs, n: nat, k: nat, z: nat): (r: Fs)
    requires n < |fs.inodes| && k < 9 && z < ZONE_LIMIT
  {
    fs.(inodes := fs.inodes[n := fs.inodes[n].(zone := fs.inodes[n].zone[k := z])])
  }

  /** The zone of the block that holds slot s, 0 when s lies in the inode. */
  function Home(fs: Fs, s: Slot): (z: nat)
    requires IsSlot(fs, s)
    ensures z < ZONE_LIMIT
  {
    match s
    case Ind(n, _) => fs.inodes[n].zone[7]
    case Dind1(n, _) => fs.inodes[n].zone[8]
    case Dind2(n, k, _) => Follow(fs, fs.inodes[n].zone[8], k)
    case _ => 0
  }

  predicate InInode(s: Slot) {
    s.Direct? || s.IndPtr? || s.DindPtr?
  }

  /** Index of a slot in the block or inode that holds it. */
  function Place(s: Slot): (k: nat) {
    match s
    case Direct(_, k) => k
    case IndPtr(_) => 7
    case DindPtr(_) => 8
    case Ind(_, k) => k
    case Dind1(_, k) => k
    case Dind2(_, _, l) => l
  }

  function SetZone(fs: Fs, s: Slot, z: nat): (r: Fs)
    requires IsSlot(fs, s) && z < ZONE_LIMIT
    ensures SameFiles(fs, r)
  {
    if InInode(s) then SetInodeZone(fs, s.n, Place(s), z)
    else SetBlock(fs, Home(fs, s), SetEntry(fs.blocks[Home(fs, s)], Place(s), z))
  }

  /** Fill slot s with a new zone unless it has one. */
  function Ensure(fs: Fs, s: Slot): (r: Result)
    requires IsSlot(fs, s)
    ensures r.zone < ZONE_LIMIT && SameFiles(fs, r.fs)
  {
    if Zone(fs, s) != 0 then Result(Zone(fs, s), fs)
    else
      var r := NewBlock(fs);
      if r.zone == 0 then r else Result(r.zone, SetZone(r.fs, s, r.zone))
  }

  /** The slots that must be filled, outermost first, before block b of file n has a zone. */
  function Path(n: nat, b: nat): (p: seq<Slot>)
    requires b < MAX_BLOCKS
  {
    if b < DIRECT then [SlotOf(n, b)]
    else if b - DIRECT < PER_BLOCK then [IndPtr(n), SlotOf(n, b)]
    else [DindPtr(n), Dind1(n, (b - DIRECT - PER_BLOCK) / PER_BLOCK), SlotOf(n, b)]
  }

  function EnsureAll(fs: Fs, p: seq<Slot>): (r: Result)
    requires p != [] && forall i :: 0 <= i < |p| ==> IsSlot(fs, p[i])
    ensures r.zone < ZONE_LIMIT && SameFiles(fs, r.fs)
    decreases |p|
  {
    var r := Ensure(fs, p[0]);
    if r.zone == 0 || |p| == 1 then r
    else
      assert forall i :: 1 <= i < |p| ==> IsSlot(fs, p[i]);
      assert forall i :: 1 <= i < |p| ==> IsSlot(r.fs, p[i]);
      EnsureAll(r.fs, p[1..])
  }

  /** create_block. */
  function CreateBlock(fs: Fs, n: nat, b: nat): (r: Result)
    requires IsFile(fs, n) && b < MAX_BLOCKS
    ensures r.zone < ZONE_LIMIT && SameFiles(fs, r.fs)
  {
    EnsureAll(fs, Path(n, b))
  }

  // ---------- file_read and file_write ----------

  const MAX_BYTES: nat := MAX_BLOCKS * BLOCK_SIZE

  function Min(a: nat, b: nat): (m: nat) {
    if a < b then a else b
  }

  /** Bytes left in the block that position pos lies in, or `count` if fewer are wanted. */
  function Chunk(pos: nat, count: nat): (c: nat)
    ensures c <= count && pos % BLOCK_SIZE + c <= BLOCK_SIZE && (count > 0 ==> c > 0)
  {
    Min(BLOCK_SIZE - pos % BLOCK_SIZE, count)
  }

  /** Block b with data[i..i + c] laid over it from offset o on. */
  function Overlay(b: Block, o: nat, data: seq<Byte>, i: nat, c: nat): (r: Block)
    requires o + c <= BLOCK_SIZE && i + c <= |data|
    ensures forall k: nat :: k < BLOCK_SIZE ==> r[k] == if o <= k < o + c then data[i + k - o] else b[k]
  {
    seq(1024, k requires 0 <= k < 1024 => if o <= k < o + c then data[i + k - o] else b[k])
  }

  function SetSize(fs: Fs, n: nat, size: nat): (r: Fs)
    requires n < |fs.inodes|
  {
    fs.(inodes := fs.inodes[n := fs.inodes[n].(size := size)])
  }

  datatype Written = Written(count: nat, fs: Fs)

  /** data[i..i + c] goes to zone z, which holds the block at position pos. */
  function PutChunk(fs: Fs, n: nat, z: nat, pos: nat, data: seq<Byte>, i: nat, c: nat): (r: Fs)
    requires IsFile(fs, n) && z < ZONE_LIMIT && pos % BLOCK_SIZE + c <= BLOCK_SIZE && i + c <= |data|
    ensures SameFiles(fs, r)
  {
    var fs1 := SetBlock(fs, z, Overlay(fs.blocks[z], pos % BLOCK_SIZE, data, i, c));
    if pos + c > fs.inodes[n].size then SetSize(fs1, n, pos + c) else fs1
  }

  /** One round of the loop of file_write, with i bytes already written: as many more as fit into
      the block at base + i, or none when no zone can be had. */
  function WriteChunk(fs: Fs, n: nat, base: nat, data: seq<Byte>, i: nat): (r: Written)
    requires IsFile(fs, n) && base + |data| <= MAX_BYTES && i < |data|
    ensures i <= r.count <= |data| && SameFiles(fs, r.fs)
  {
    var r := CreateBlock(fs, n, (base + i) / BLOCK_SIZE);
    if r.zone == 0 then Written(i, r.fs)
    else
      var c := Chunk(base + i, |data| - i);
      Written(i + c, PutChunk(r.fs, n, r.zone, base + i, data, i, c))
  }

  /** file_write from byte i of `data` on; the count is where it stopped. */
  function Write(fs: Fs, n: nat, base: nat, data: seq<Byte>, i: nat): (r: Written)
    requires IsFile(fs, n) && base + |data| <= MAX_BYTES && i <= |data|
    ensures i <= r.count <= |data| && SameFiles(fs, r.fs)
    decreases |data| - i
  {
    if i == |data| then Written(i, fs)
    else
      var c := WriteChunk(fs, n, base, data, i);
      if c.count == i then c else Write(c.fs, n, base, data, c.count)
  }

  /** file_read: `count` bytes from pos on, holes as zeros. */
  function Read(fs: Fs, n: nat, pos: nat, count: nat): (r: seq<Byte>)
    requires IsFile(fs, n) && pos + count <= MAX_BYTES
    decreases count
  {
    if count == 0 then []
    else
      var z := Bmap(fs, n, pos / BLOCK_SIZE);
      var c := Chunk(pos, count);
      var o := pos % BLOCK_SIZE;
      (if z != 0 then fs.blocks[z][o..o + c] else ZeroBlock()[..c]) + Read(fs, n, pos + c, count - c)
  }

  // ---------- truncate ----------

  function FreeIfNamed(fs: Fs, z: nat): (r: Fs) {
    if z == 0 then fs else FreeBlock(fs, z)
  }

  /** Free what the first n entries of block z name. */
  function FreeEntries(fs: Fs, z: nat, n: nat): (r: Fs)
    requires z < ZONE_LIMIT && n <= PER_BLOCK
    ensures r.blocks == fs.blocks && r.inodes == fs.inodes && SameFiles(fs, r)
  {
    if n == 0 then fs else FreeIfNamed(FreeEntries(fs, z, n - 1), Entry(fs.blocks[z], n - 1))
  }

  /** free_ind. */
  function FreeInd(fs: Fs, z: nat): (r: Fs)
    requires z < ZONE_LIMIT
    ensures r.blocks == fs.blocks && r.inodes == fs.inodes && SameFiles(fs, r)
  {
    if z == 0 then fs else FreeBlock(FreeEntries(fs, z, PER_BLOCK), z)
  }

  function FreeInds(fs: Fs, z: nat, n: nat): (r: Fs)
    requires z < ZONE_LIMIT && n <= PER_BLOCK
    ensures r.blocks == fs.blocks && r.inodes == fs.inodes && SameFiles(fs, r)
  {
    if n == 0 then fs else FreeInd(FreeInds(fs, z, n - 1), Entry(fs.blocks[z], n - 1))
  }

  /** free_dind. */
  function FreeDind(fs: Fs, z: nat): (r: Fs)
    requires z < ZONE_LIMIT
    ensures r.blocks == fs.blocks && r.inodes == fs.inodes && SameFiles(fs, r)
  {
    if z == 0 then fs else FreeBlock(FreeInds(fs, z, PER_BLOCK), z)
  }

  /** The loop over the first k direct zones. */
  function FreeDirect(fs: Fs, n: nat, k: nat): (r: Fs)
    requires n < |fs.inodes| && k <= DIRECT
    ensures SameFiles(fs, r) && r.blocks == fs.blocks
    ensures forall j :: k <= j < 9 ==> r.inodes[n].zone[j] == fs.inodes[n].zone[j]
  {
    if k == 0 then fs
    else
      var r := FreeDirect(fs, n, k - 1);
      if fs.inodes[n].zone[k - 1] == 0 then r
      else SetInodeZone(FreeBlock(r, fs.inodes[n].zone[k - 1]), n, k - 1, 0)
  }

  function Truncate(fs: Fs, n: nat): (r: Fs)
    requires n < |fs.inodes|
  {
    if !fs.inodes[n].file then fs
    else
      var r := FreeDind(FreeInd(FreeDirect(fs, n, DIRECT), fs.inodes[n].zone[7]), fs.inodes[n].zone[8]);
      SetSize(SetInodeZone(SetInodeZone(r, n, 7, 0), n, 8, 0), n, 0)
  }
}
