/** truncate frees exactly the zones a file names, each of them once.
 */
module FileTruncate {
  import opened FileModel
  import opened FileInvariant
  import opened FileBytes

  ghost predicate AreSlots(fs: Fs, slots: set<Slot>) {
    forall s <- slots :: IsSlot(fs, s)
  }

  ghost predicate Named(fs: Fs, slots: set<Slot>, z: nat) {
    exists s :: s in slots && IsSlot(fs, s) && Zone(fs, s) == z
  }

  /** f is fs with the zones that `slots` name in fs marked free. */
  ghost predicate Cleared(fs: Fs, f: Fs, slots: set<Slot>) {
    && SameFiles(fs, f) && f.blocks == fs.blocks && AreSlots(fs, slots)
    && (forall j: nat :: j < |fs.bits| && !(1 <= j < fs.zones + 1 - fs.first) ==> f.bits[j] == fs.bits[j])
    && (forall z: nat :: fs.first <= z < fs.zones ==>
          (f.bits[BitOf(fs, z)] <==> fs.bits[BitOf(fs, z)] && !Named(fs, slots, z)))
  }

  lemma NamedMore(fs: Fs, slots: set<Slot>, s: Slot, z: nat)
    requires IsSlot(fs, s)
    ensures Named(fs, slots + {s}, z) <==> Named(fs, slots, z) || Zone(fs, s) == z
  {
    if Zone(fs, s) == z {
      assert s in slots + {s};
    }
    if Named(fs, slots, z) {
      var s' :| s' in slots && IsSlot(fs, s') && Zone(fs, s') == z;
      assert s' in slots + {s};
    }
  }

  /** The next slot is freed without a panic: its bit is still set. */
  lemma FreeSlot(fs: Fs, f: Fs, slots: set<Slot>, s: Slot)
    requires Inv(fs) && Cleared(fs, f, slots) && IsSlot(fs, s) && s !in slots
    ensures Zone(fs, s) != 0 ==> MayFree(f, Zone(fs, s))
    ensures Cleared(fs, FreeIfNamed(f, Zone(fs, s)), slots + {s})
  {
    var z := Zone(fs, s);
    if z != 0 {
      assert MayFree(fs, z);
      assert !Named(fs, slots, z);
    }
    var f' := FreeIfNamed(f, z);
    forall y: nat | fs.first <= y < fs.zones
      ensures f'.bits[BitOf(fs, y)] <==> fs.bits[BitOf(fs, y)] && !Named(fs, slots + {s}, y)
    {
      NamedMore(fs, slots, s, y);
    }
  }

  /** Slots without a zone add nothing. */
  lemma EmptySlots(fs: Fs, f: Fs, slots: set<Slot>, more: set<Slot>)
    requires Cleared(fs, f, slots) && AreSlots(fs, more) && forall s <- more :: Zone(fs, s) == 0
    ensures Cleared(fs, f, slots + more)
  {
    forall y: nat | fs.first <= y < fs.zones ensures Named(fs, slots + more, y) <==> Named(fs, slots, y) {
      if Named(fs, slots, y) {
        var s :| s in slots && IsSlot(fs, s) && Zone(fs, s) == y;
        assert s in slots + more;
      }
    }
  }

  // ---------- free_ind ----------

  predicate IsPointer(s: Slot) {
    s.IndPtr? || s.DindPtr? || s.Dind1?
  }

  /** The slots held by the block that pointer slot p names. */
  function Child(p: Slot, j: nat): (c: Slot)
    requires IsPointer(p)
    ensures !InInode(c) && Parent(c) == p && Place(c) == j
  {
    match p
    case IndPtr(n) => Ind(n, j)
    case DindPtr(n) => Dind1(n, j)
    case Dind1(n, k) => Dind2(n, k, j)
  }

  ghost function Children(p: Slot, k: nat): set<Slot>
    requires IsPointer(p)
  {
    set j: nat | j < k :: Child(p, j)
  }

  lemma ChildZone(fs: Fs, p: Slot, j: nat)
    requires IsPointer(p) && IsSlot(fs, p) && j < PER_BLOCK
    ensures IsSlot(fs, Child(p, j)) && Zone(fs, Child(p, j)) == Follow(fs, Zone(fs, p), j)
  {
    HomeIsParent(fs, Child(p, j));
  }

  lemma FreeChildren(fs: Fs, f: Fs, slots: set<Slot>, p: Slot, k: nat) returns (g: Fs)
    requires Inv(fs) && Cleared(fs, f, slots) && IsPointer(p) && IsSlot(fs, p) && Zone(fs, p) != 0 && k <= PER_BLOCK
    requires Untouched(slots, p)
    ensures g == FreeEntries(f, Zone(fs, p), k) && Cleared(fs, g, slots + Children(p, k))
  {
    g := f;
    assert slots + Children(p, 0) == slots;
    for j := 0 to k
      invariant g == FreeEntries(f, Zone(fs, p), j)
      invariant Cleared(fs, g, slots + Children(p, j))
    {
      FreeChild(fs, f, g, slots, p, j);
      g := FreeIfNamed(g, Entry(f.blocks[Zone(fs, p)], j));
    }
  }

  lemma FreeChild(fs: Fs, f: Fs, g: Fs, slots: set<Slot>, p: Slot, j: nat)
    requires Inv(fs) && IsPointer(p) && IsSlot(fs, p) && Zone(fs, p) != 0 && j < PER_BLOCK && Untouched(slots, p)
    requires f.blocks == fs.blocks && Cleared(fs, g, slots + Children(p, j))
    ensures var e := Entry(f.blocks[Zone(fs, p)], j);
            && (e != 0 ==> MayFree(g, e))
            && Cleared(fs, FreeIfNamed(g, e), slots + Children(p, j + 1))
  {
    ChildZone(fs, p, j);
    assert Child(p, j) !in Children(p, j);
    FreeSlot(fs, g, slots + Children(p, j), Child(p, j));
    ChildrenGrow(slots, p, j);
  }

  lemma ChildrenGrow(slots: set<Slot>, p: Slot, k: nat)
    requires IsPointer(p)
    ensures (slots + Children(p, k)) + {Child(p, k)} == slots + Children(p, k + 1)
  {
    assert Child(p, k) in Children(p, k + 1);
  }

  /** What free_ind may free below pointer p: its entries and its own block. */
  ghost function Below(p: Slot): set<Slot>
    requires IsPointer(p)
  {
    Children(p, PER_BLOCK) + {p}
  }

  ghost predicate Untouched(slots: set<Slot>, p: Slot)
    requires IsPointer(p)
  {
    p !in slots && forall j: nat :: j < PER_BLOCK ==> Child(p, j) !in slots
  }

  lemma FreeBelow(fs: Fs, f: Fs, slots: set<Slot>, p: Slot)
    requires Inv(fs) && Cleared(fs, f, slots) && IsPointer(p) && IsSlot(fs, p) && Untouched(slots, p)
    ensures Cleared(fs, FreeInd(f, Zone(fs, p)), slots + Below(p))
    ensures Zone(fs, p) != 0 ==> MayFree(FreeEntries(f, Zone(fs, p), PER_BLOCK), Zone(fs, p))
  {
    var z := Zone(fs, p);
    if z == 0 {
      forall s <- Below(p) ensures IsSlot(fs, s) && Zone(fs, s) == 0 {
        if s != p {
          var j: nat :| j < PER_BLOCK && s == Child(p, j);
          ChildZone(fs, p, j);
        }
      }
      EmptySlots(fs, f, slots, Below(p));
    } else {
      var g := FreeChildren(fs, f, slots, p, PER_BLOCK);
      FreeSlot(fs, g, slots + Children(p, PER_BLOCK), p);
      assert (slots + Children(p, PER_BLOCK)) + {p} == slots + Below(p);
    }
  }

  // ---------- free_dind ----------

  /** Everything below the first k entries of the double-indirect block of file n. */
  ghost function DindBelow(n: nat, k: nat): set<Slot> {
    if k == 0 then {} else DindBelow(n, k - 1) + Below(Dind1(n, k - 1))
  }

  lemma {:induction false} InDindBelow(n: nat, k: nat, s: Slot)
    ensures s in DindBelow(n, k) <==>
              s.n == n && ((s.Dind1? && s.k < k) || (s.Dind2? && s.k < k && s.l < PER_BLOCK))
  {
    if k == 0 {
    } else {
      InDindBelow(n, k - 1, s);
      if s.Dind2? && s.n == n && s.k == k - 1 && s.l < PER_BLOCK {
        assert s == Child(Dind1(n, k - 1), s.l);
      }
    }
  }

  /** The slots outside the double-indirect tree of file n. */
  ghost predicate NoDind(slots: set<Slot>, n: nat) {
    forall s <- slots :: !(s.n == n && (s.Dind1? || s.Dind2? || s.DindPtr?))
  }

  lemma FreeIndRound(fs: Fs, f: Fs, g: Fs, slots: set<Slot>, n: nat, k: nat)
    requires Inv(fs) && IsFile(fs, n) && Zone(fs, DindPtr(n)) != 0 && k < PER_BLOCK && NoDind(slots, n)
    requires f.blocks == fs.blocks && Cleared(fs, g, slots + DindBelow(n, k))
    ensures var e := Entry(f.blocks[Zone(fs, DindPtr(n))], k);
            && e == Zone(fs, Dind1(n, k))
            && Untouched(slots + DindBelow(n, k), Dind1(n, k))
            && Cleared(fs, FreeInd(g, e), slots + DindBelow(n, k + 1))
  {
    ChildZone(fs, DindPtr(n), k);
    var p := Dind1(n, k);
    forall s | s == p || (s.Dind2? && s.n == n && s.k == k) ensures s !in slots + DindBelow(n, k) {
      InDindBelow(n, k, s);
    }
    FreeBelow(fs, g, slots + DindBelow(n, k), p);
    assert (slots + DindBelow(n, k)) + Below(p) == slots + DindBelow(n, k + 1);
  }

  lemma FreeAllInds(fs: Fs, f: Fs, slots: set<Slot>, n: nat, k: nat) returns (g: Fs)
    requires Inv(fs) && IsFile(fs, n) && Zone(fs, DindPtr(n)) != 0 && k <= PER_BLOCK && NoDind(slots, n)
    requires Cleared(fs, f, slots)
    ensures g == FreeInds(f, Zone(fs, DindPtr(n)), k) && Cleared(fs, g, slots + DindBelow(n, k))
  {
    g := f;
    assert slots + DindBelow(n, 0) == slots;
    for j := 0 to k
      invariant g == FreeInds(f, Zone(fs, DindPtr(n)), j)
      invariant Cleared(fs, g, slots + DindBelow(n, j))
    {
      FreeIndRound(fs, f, g, slots, n, j);
      g := FreeInd(g, Entry(f.blocks[Zone(fs, DindPtr(n))], j));
    }
  }

  ghost function DindAll(n: nat): set<Slot> {
    DindBelow(n, PER_BLOCK) + {DindPtr(n)}
  }

  lemma FreeDindAll(fs: Fs, f: Fs, slots: set<Slot>, n: nat)
    requires Inv(fs) && IsFile(fs, n) && NoDind(slots, n) && Cleared(fs, f, slots)
    ensures Cleared(fs, FreeDind(f, Zone(fs, DindPtr(n))), slots + DindAll(n))
    ensures Zone(fs, DindPtr(n)) != 0 ==> MayFree(FreeInds(f, Zone(fs, DindPtr(n)), PER_BLOCK), Zone(fs, DindPtr(n)))
  {
    var p := DindPtr(n);
    InDindBelow(n, PER_BLOCK, p);
    if Zone(fs, p) == 0 {
      forall s <- DindAll(n) ensures IsSlot(fs, s) && Zone(fs, s) == 0 {
        InDindBelow(n, PER_BLOCK, s);
      }
      EmptySlots(fs, f, slots, DindAll(n));
    } else {
      var g := FreeAllInds(fs, f, slots, n, PER_BLOCK);
      FreeSlot(fs, g, slots + DindBelow(n, PER_BLOCK), p);
      assert (slots + DindBelow(n, PER_BLOCK)) + {p} == slots + DindAll(n);
    }
  }

  // ---------- truncate ----------

  ghost function Directs(n: nat, k: nat): set<Slot> {
    set j: nat | j < k :: Direct(n, j)
  }

  lemma {:induction false} FreeDirects(fs: Fs, n: nat, k: nat)
    requires Inv(fs) && IsFile(fs, n) && k <= DIRECT
    ensures Cleared(fs, FreeDirect(fs, n, k), Directs(n, k))
    ensures forall j :: 0 <= j < k ==> FreeDirect(fs, n, k).inodes[n].zone[j] == 0
    ensures forall m: nat :: m < |fs.inodes| && m != n ==> FreeDirect(fs, n, k).inodes[m] == fs.inodes[m]
    ensures k < DIRECT && fs.inodes[n].zone[k] != 0 ==> MayFree(FreeDirect(fs, n, k), fs.inodes[n].zone[k])
  {
    if k == 0 {
    } else {
      FreeDirects(fs, n, k - 1);
      FreeSlot(fs, FreeDirect(fs, n, k - 1), Directs(n, k - 1), Direct(n, k - 1));
      assert Directs(n, k - 1) + {Direct(n, k - 1)} == Directs(n, k);
    }
    if k < DIRECT {
      FreeSlot(fs, FreeDirect(fs, n, k), Directs(n, k), Direct(n, k));
    }
  }

  /** Every slot of file n. */
  ghost function AllOf(n: nat): set<Slot> {
    Directs(n, DIRECT) + Below(IndPtr(n)) + DindAll(n)
  }

  lemma InAllOf(fs: Fs, n: nat, s: Slot)
    requires IsFile(fs, n)
    ensures s in AllOf(n) <==> IsSlot(fs, s) && s.n == n
  {
    InDindBelow(n, PER_BLOCK, s);
    if s.Ind? && s.n == n && s.k < PER_BLOCK {
      assert s == Child(IndPtr(n), s.k);
    }
  }

  /** fs' is fs without the contents of file n. */
  ghost predicate Emptied(fs: Fs, fs': Fs, n: nat) {
    && IsFile(fs, n) && SameFiles(fs, fs') && fs'.inodes[n].size == 0
    && (forall s :: IsSlot(fs, s) ==> Zone(fs', s) == if s.n == n then 0 else Zone(fs, s))
    && (forall b: nat :: b < MAX_BLOCKS ==> Bmap(fs', n, b) == 0)
    && (forall z: nat ::
          MayFree(fs', z) <==> MayFree(fs, z) && !exists s :: IsSlot(fs, s) && s.n == n && Zone(fs, s) == z)
    && (forall n' :: n' != n && IsFile(fs, n') ==> SameBytes(fs, fs', n'))
  }

  lemma TruncateClears(fs: Fs, n: nat)
    requires Inv(fs) && IsFile(fs, n)
    ensures Cleared(fs, Truncate(fs, n), AllOf(n))
    ensures var fs' := Truncate(fs, n);
            && fs'.inodes[n].size == 0 && (forall j :: 0 <= j < 9 ==> fs'.inodes[n].zone[j] == 0)
            && (forall m: nat :: m < |fs.inodes| && m != n ==> fs'.inodes[m] == fs.inodes[m])
  {
    FreeDirects(fs, n, DIRECT);
    var f := FreeDirect(fs, n, DIRECT);
    FreeBelow(fs, f, Directs(n, DIRECT), IndPtr(n));
    var g := FreeInd(f, fs.inodes[n].zone[7]);
    FreeDindAll(fs, g, Directs(n, DIRECT) + Below(IndPtr(n)), n);
  }

  // ---------- truncate never frees a free zone ----------

  /** No free_block of the loop over the first k entries of block z panics. */
  ghost predicate EntriesSafe(f: Fs, z: nat, k: nat)
    requires z < ZONE_LIMIT && k <= PER_BLOCK
  {
    forall j: nat :: j < k && Entry(f.blocks[z], j) != 0 ==> MayFree(FreeEntries(f, z, j), Entry(f.blocks[z], j))
  }

  ghost predicate IndSafe(f: Fs, z: nat)
    requires z < ZONE_LIMIT
  {
    z != 0 ==> EntriesSafe(f, z, PER_BLOCK) && MayFree(FreeEntries(f, z, PER_BLOCK), z)
  }

  ghost predicate DindSafe(f: Fs, z: nat)
    requires z < ZONE_LIMIT
  {
    z != 0 ==>
      && (forall j: nat :: j < PER_BLOCK ==> IndSafe(FreeInds(f, z, j), Entry(f.blocks[z], j)))
      && MayFree(FreeInds(f, z, PER_BLOCK), z)
  }

  ghost predicate DirectSafe(fs: Fs, n: nat)
    requires n < |fs.inodes|
  {
    forall k: nat :: k < DIRECT && fs.inodes[n].zone[k] != 0 ==> MayFree(FreeDirect(fs, n, k), fs.inodes[n].zone[k])
  }

  /** Every free_block that truncate makes is of a zone in range whose bit is set at that moment. */
  ghost predicate TruncateSafe(fs: Fs, n: nat)
    requires n < |fs.inodes|
  {
    var f := FreeDirect(fs, n, DIRECT);
    && DirectSafe(fs, n) && IndSafe(f, fs.inodes[n].zone[7])
    && DindSafe(FreeInd(f, fs.inodes[n].zone[7]), fs.inodes[n].zone[8])
  }

  lemma FreeIndSafe(fs: Fs, f: Fs, slots: set<Slot>, p: Slot)
    requires Inv(fs) && Cleared(fs, f, slots) && IsPointer(p) && IsSlot(fs, p) && Untouched(slots, p)
    ensures IndSafe(f, Zone(fs, p))
  {
    var z := Zone(fs, p);
    if z != 0 {
      forall j: nat | j < PER_BLOCK && Entry(f.blocks[z], j) != 0
        ensures MayFree(FreeEntries(f, z, j), Entry(f.blocks[z], j))
      {
        var g := FreeChildren(fs, f, slots, p, j);
        FreeChild(fs, f, g, slots, p, j);
      }
      FreeBelow(fs, f, slots, p);
    }
  }

  lemma FreeDindSafe(fs: Fs, f: Fs, slots: set<Slot>, n: nat)
    requires Inv(fs) && IsFile(fs, n) && NoDind(slots, n) && Cleared(fs, f, slots)
    ensures DindSafe(f, Zone(fs, DindPtr(n)))
  {
    var z := Zone(fs, DindPtr(n));
    if z != 0 {
      forall j: nat | j < PER_BLOCK ensures IndSafe(FreeInds(f, z, j), Entry(f.blocks[z], j)) {
        var g := FreeAllInds(fs, f, slots, n, j);
        FreeIndRound(fs, f, g, slots, n, j);
        FreeIndSafe(fs, g, slots + DindBelow(n, j), Dind1(n, j));
      }
      FreeDindAll(fs, f, slots, n);
    }
  }

  /** On a consistent disk truncate never frees a zone that is out of range or already free. */
  lemma TruncateNeverPanics(fs: Fs, n: nat)
    requires Inv(fs) && IsFile(fs, n)
    ensures TruncateSafe(fs, n)
  {
    hide Inv, Cleared;
    forall k: nat | k < DIRECT && fs.inodes[n].zone[k] != 0
      ensures MayFree(FreeDirect(fs, n, k), fs.inodes[n].zone[k])
    {
      FreeDirects(fs, n, k);
    }
    FreeDirects(fs, n, DIRECT);
    var f := FreeDirect(fs, n, DIRECT);
    FreeIndSafe(fs, f, Directs(n, DIRECT), IndPtr(n));
    FreeBelow(fs, f, Directs(n, DIRECT), IndPtr(n));
    FreeDindSafe(fs, FreeInd(f, fs.inodes[n].zone[7]), Directs(n, DIRECT) + Below(IndPtr(n)), n);
  }

  lemma OwnersGone(fs: Fs, fs': Fs, n: nat)
    requires IsFile(fs, n) && SameFiles(fs, fs') && fs'.blocks == fs.blocks
    requires forall j :: 0 <= j < 9 ==> fs'.inodes[n].zone[j] == 0
    requires forall m: nat :: m < |fs.inodes| && m != n ==> fs'.inodes[m] == fs.inodes[m]
    ensures forall s :: IsSlot(fs, s) ==> Zone(fs', s) == if s.n == n then 0 else Zone(fs, s)
  {
  }

  lemma NamedByFile(fs: Fs, n: nat, z: nat)
    requires IsFile(fs, n)
    ensures Named(fs, AllOf(n), z) <==> exists s :: IsSlot(fs, s) && s.n == n && Zone(fs, s) == z
  {
    if Named(fs, AllOf(n), z) {
      var s :| s in AllOf(n) && IsSlot(fs, s) && Zone(fs, s) == z;
      InAllOf(fs, n, s);
    }
    if s :| IsSlot(fs, s) && s.n == n && Zone(fs, s) == z {
      InAllOf(fs, n, s);
      assert s in AllOf(n);
    }
  }

  lemma ZonesFreed(fs: Fs, fs': Fs, n: nat, z: nat)
    requires IsFile(fs, n) && Cleared(fs, fs', AllOf(n))
    ensures MayFree(fs', z) <==> MayFree(fs, z) && !exists s :: IsSlot(fs, s) && s.n == n && Zone(fs, s) == z
  {
    NamedByFile(fs, n, z);
  }

  lemma EmptiedInv(fs: Fs, fs': Fs, n: nat)
    requires Inv(fs) && Emptied(fs, fs', n) && fs'.bits[0] == fs.bits[0]
    ensures Inv(fs')
  {
    assert forall s :: IsSlot(fs', s) <==> IsSlot(fs, s);
    forall s | IsSlot(fs', s) && Zone(fs', s) != 0 ensures MayFree(fs', Zone(fs', s)) {
      assert IsSlot(fs, s) && Zone(fs', s) == Zone(fs, s) && s.n != n;
    }
    forall z: nat | MayFree(fs', z) ensures Owned(fs', z) {
      assert MayFree(fs, z);
      var s :| IsSlot(fs, s) && Zone(fs, s) == z;
      assert IsSlot(fs', s) && Zone(fs', s) == z;
    }
  }

  /** truncate frees exactly the zones reachable from the inode, and leaves an empty file and every
      other file as it was. */
  lemma TruncateTheorem(fs: Fs, n: nat)
    requires Inv(fs) && IsFile(fs, n)
    ensures Inv(Truncate(fs, n)) && Emptied(fs, Truncate(fs, n), n)
  {
    var fs' := Truncate(fs, n);
    TruncateClears(fs, n);
    OwnersGone(fs, fs', n);
    forall z: nat
      ensures MayFree(fs', z) <==> MayFree(fs, z) && !exists s :: IsSlot(fs, s) && s.n == n && Zone(fs, s) == z
    {
      ZonesFreed(fs, fs', n, z);
    }
    forall b: nat | b < MAX_BLOCKS ensures Bmap(fs', n, b) == 0 {
      assert IsSlot(fs, SlotOf(n, b));
    }
    forall n' | n' != n && IsFile(fs, n') ensures SameBytes(fs, fs', n') {
      OtherBytes(fs, fs', n, n');
    }
    EmptiedInv(fs, fs', n);
  }

  lemma OtherBytes(fs: Fs, fs': Fs, n: nat, n': nat)
    requires IsFile(fs, n) && IsFile(fs, n') && n' != n && SameFiles(fs, fs') && fs'.blocks == fs.blocks
    requires fs'.inodes[n'] == fs.inodes[n']
    ensures SameBytes(fs, fs', n')
  {
  }
}
