/** A consistent disk: every allocated data zone is named by exactly one slot, and filling a
    slot keeps it so without changing what any file contains.
 */
module FileInvariant {
  import opened FileModel

  ghost predicate Allocated(fs: Fs) {
    forall s :: IsSlot(fs, s) && Zone(fs, s) != 0 ==> MayFree(fs, Zone(fs, s))
  }

  ghost predicate Injective(fs: Fs) {
    forall s, s' :: IsSlot(fs, s) && IsSlot(fs, s') && Zone(fs, s) != 0 && Zone(fs, s) == Zone(fs, s') ==> s == s'
  }

  ghost predicate Owned(fs: Fs, z: nat) {
    exists s :: IsSlot(fs, s) && Zone(fs, s) == z
  }

  ghost predicate Conserved(fs: Fs) {
    forall z: nat :: MayFree(fs, z) ==> Owned(fs, z)
  }

  /** Bit 0 of the map stands for no zone and is always set. */
  ghost predicate Inv(fs: Fs) {
    Allocated(fs) && Injective(fs) && Conserved(fs) && |fs.bits| > 0 && fs.bits[0]
  }

  /** A fresh disk with n empty files: the map has bit 0 set and nothing else. */
  function Blank(first: nat, zones: nat, n: nat): (fs: Fs)
    requires 1 <= first <= zones < ZONE_LIMIT
  {
    FsState.Fs(first, zones, seq(8 * BITS_PER_MAP, k => k == 0), seq(ZONE_LIMIT, _ => ZeroBlock()),
               seq(n, _ => Inode(true, seq(9, _ => 0), 0)))
  }

  lemma BlankInv(first: nat, zones: nat, n: nat)
    requires 1 <= first <= zones < ZONE_LIMIT
    ensures Inv(Blank(first, zones, n))
  {
    var fs := Blank(first, zones, n);
    forall s | IsSlot(fs, s) ensures Zone(fs, s) == 0 {
    }
  }

  /** The pointer slot whose zone is the home of s. */
  function Parent(s: Slot): (p: Slot)
    requires !InInode(s)
  {
    match s
    case Ind(n, _) => IndPtr(n)
    case Dind1(n, _) => DindPtr(n)
    case Dind2(n, k, _) => Dind1(n, k)
  }

  lemma HomeIsParent(fs: Fs, s: Slot)
    requires IsSlot(fs, s) && !InInode(s)
    ensures IsSlot(fs, Parent(s)) && Home(fs, s) == Zone(fs, Parent(s))
    ensures Zone(fs, s) == Follow(fs, Home(fs, s), Place(s))
  {
  }

  /** Two slots with the same nonzero home are entries of one block. */
  lemma SameHome(fs: Fs, s: Slot, s': Slot)
    requires Injective(fs) && IsSlot(fs, s) && IsSlot(fs, s') && !InInode(s) && !InInode(s')
    requires Home(fs, s) != 0 && Home(fs, s) == Home(fs, s')
    ensures Parent(s) == Parent(s')
  {
    HomeIsParent(fs, s);
    HomeIsParent(fs, s');
  }

  // ---------- a new zone ----------

  /** new_block returns a zone that no slot names. */
  lemma NewZone(fs: Fs)
    requires Inv(fs) && NewBlock(fs).zone != 0
    ensures var z := NewBlock(fs).zone;
            && fs.first <= z < fs.zones && !fs.bits[BitOf(fs, z)]
            && NewBlock(fs).fs == SetBlock(SetBit(fs, BitOf(fs, z), true), z, ZeroBlock())
            && (forall s :: IsSlot(fs, s) ==> Zone(fs, s) != z)
  {
  }

  /** No slot reads block z, so changing it changes no slot. */
  lemma UnnamedBlock(fs: Fs, fs': Fs, z: nat)
    requires z != 0 && z < ZONE_LIMIT && (forall s :: IsSlot(fs, s) ==> Zone(fs, s) != z)
    requires SameFiles(fs, fs') && fs'.inodes == fs.inodes
    requires forall y :: 0 <= y < ZONE_LIMIT && y != z ==> fs'.blocks[y] == fs.blocks[y]
    ensures forall s :: IsSlot(fs, s) ==> Zone(fs', s) == Zone(fs, s)
  {
    forall s | IsSlot(fs, s) ensures Zone(fs', s) == Zone(fs, s) {
      match s
      case Direct(_, _) =>
      case IndPtr(_) =>
      case DindPtr(_) =>
      case Ind(n, _) => assert IsSlot(fs, IndPtr(n));
      case Dind1(n, _) => assert IsSlot(fs, DindPtr(n));
      case Dind2(n, k, _) => assert IsSlot(fs, DindPtr(n)) && IsSlot(fs, Dind1(n, k));
    }
  }

  // ---------- filling a slot ----------

  predicate CanFill(fs: Fs, s: Slot) {
    IsSlot(fs, s) && (InInode(s) || Home(fs, s) != 0)
  }

  /** Naming a zeroed, unnamed zone in an empty slot changes no other slot. */
  lemma FillSlot(fs: Fs, s: Slot, z: nat)
    requires Injective(fs) && CanFill(fs, s) && Zone(fs, s) == 0
    requires z != 0 && z < ZONE_LIMIT && fs.blocks[z] == ZeroBlock()
    requires forall s :: IsSlot(fs, s) ==> Zone(fs, s) != z
    ensures Zone(SetZone(fs, s, z), s) == z
    ensures forall s' :: IsSlot(fs, s') && s' != s ==> Zone(SetZone(fs, s, z), s') == Zone(fs, s')
  {
    if InInode(s) {
      FillInode(fs, s, z);
    } else {
      FillBlock(fs, s, z);
    }
  }

  lemma FillInode(fs: Fs, s: Slot, z: nat)
    requires IsSlot(fs, s) && InInode(s) && Zone(fs, s) == 0
    requires z != 0 && z < ZONE_LIMIT && fs.blocks[z] == ZeroBlock()
    ensures Zone(SetZone(fs, s, z), s) == z
    ensures forall s' :: IsSlot(fs, s') && s' != s ==> Zone(SetZone(fs, s, z), s') == Zone(fs, s')
  {
    ZeroEntries();
    var fs' := SetZone(fs, s, z);
    forall s' | IsSlot(fs, s') && s' != s ensures Zone(fs', s') == Zone(fs, s') {
      if s'.n == s.n {
        match s'
        case Ind(_, k) => assert s.IndPtr? ==> Zone(fs', s') == Entry(ZeroBlock(), k);
        case Dind1(_, k) => assert s.DindPtr? ==> Zone(fs', s') == Entry(ZeroBlock(), k);
        case Dind2(_, k, _) => assert s.DindPtr? ==> Follow(fs', z, k) == Entry(ZeroBlock(), k);
        case _ =>
      }
    }
  }

  lemma FillBlock(fs: Fs, s: Slot, z: nat)
    requires Injective(fs) && IsSlot(fs, s) && !InInode(s) && Home(fs, s) != 0 && Zone(fs, s) == 0
    requires z != 0 && z < ZONE_LIMIT && fs.blocks[z] == ZeroBlock()
    requires forall s :: IsSlot(fs, s) ==> Zone(fs, s) != z
    ensures Zone(SetZone(fs, s, z), s) == z
    ensures forall s' :: IsSlot(fs, s') && s' != s ==> Zone(SetZone(fs, s, z), s') == Zone(fs, s')
  {
    ZeroEntries();
    HomeIsParent(fs, s);
    var h := Home(fs, s);
    var fs' := SetZone(fs, s, z);
    assert h != z;
    BlockZones(fs, fs', s, z);
  }

  /** The entries of the home block after one of them was set. */
  lemma BlockZones(fs: Fs, fs': Fs, s: Slot, z: nat)
    requires Injective(fs) && IsSlot(fs, s) && !InInode(s) && Home(fs, s) != 0 && Zone(fs, s) == 0
    requires z != 0 && z < ZONE_LIMIT && fs.blocks[z] == ZeroBlock() && Home(fs, s) != z
    requires fs' == SetZone(fs, s, z)
    ensures Zone(fs', s) == z
    ensures forall s' :: IsSlot(fs, s') && s' != s ==> Zone(fs', s') == Zone(fs, s')
  {
    ZeroEntries();
    var h := Home(fs, s);
    assert forall y, k :: 0 <= y < ZONE_LIMIT && y != h && 0 <= k < PER_BLOCK ==> Follow(fs', y, k) == Follow(fs, y, k);
    assert forall k :: 0 <= k < PER_BLOCK ==> Follow(fs', h, k) == if k == Place(s) then z else Follow(fs, h, k);
    HomeKept(fs, fs', s, z, s);
    forall s' | IsSlot(fs, s') && s' != s ensures Zone(fs', s') == Zone(fs, s') {
      if !InInode(s') {
        HomeKept(fs, fs', s, z, s');
      }
    }
  }

  lemma HomeKept(fs: Fs, fs': Fs, s: Slot, z: nat, s': Slot)
    requires Injective(fs) && IsSlot(fs, s) && !InInode(s) && Home(fs, s) != 0 && Zone(fs, s) == 0
    requires z != 0 && z < ZONE_LIMIT && SameFiles(fs, fs') && fs'.inodes == fs.inodes && fs'.blocks[z] == ZeroBlock()
    requires forall y, k :: 0 <= y < ZONE_LIMIT && y != Home(fs, s) && 0 <= k < PER_BLOCK ==>
               Follow(fs', y, k) == Follow(fs, y, k)
    requires forall k :: 0 <= k < PER_BLOCK ==>
               Follow(fs', Home(fs, s), k) == if k == Place(s) then z else Follow(fs, Home(fs, s), k)
    requires IsSlot(fs, s') && !InInode(s')
    ensures s' != s ==> Zone(fs', s') == Zone(fs, s')
    ensures s' == s ==> Zone(fs', s') == z
  {
    ZeroEntries();
    HomeIsParent(fs, s);
    HomeIsParent(fs, s');
    HomeIsParent(fs', s');
    if Home(fs, s') == Home(fs, s) {
      SameHome(fs, s, s');
    }
    if s'.Dind2? {
      HomeIsParent(fs, Parent(s'));
      HomeIsParent(fs', Parent(s'));
      if Home(fs, Parent(s')) == Home(fs, s) {
        SameHome(fs, s, Parent(s'));
      }
    }
  }

  // ---------- create_block ----------

  /** fs' differs from fs by slot s having gained zone z, zeroed. */
  ghost predicate SlotFilled(fs: Fs, fs': Fs, s: Slot, z: nat) {
    && SameFiles(fs, fs') && IsSlot(fs, s) && Zone(fs', s) == z
    && (forall s' :: IsSlot(fs, s') && s' != s ==> Zone(fs', s') == Zone(fs, s'))
  }

  lemma SlotFilledInv(fs: Fs, fs': Fs, s: Slot, z: nat)
    requires Inv(fs) && SlotFilled(fs, fs', s, z) && Zone(fs, s) == 0
    requires fs.first <= z < fs.zones && fs'.bits == fs.bits[BitOf(fs, z) := true]
    requires forall s' :: IsSlot(fs, s') ==> Zone(fs, s') != z
    ensures Inv(fs')
  {
    assert forall s' :: IsSlot(fs', s') <==> IsSlot(fs, s');
    forall y: nat | MayFree(fs', y) ensures Owned(fs', y) {
      if y == z {
        assert IsSlot(fs', s) && Zone(fs', s) == z;
      } else {
        assert MayFree(fs, y);
        var s' :| IsSlot(fs, s') && Zone(fs, s') == y;
        assert IsSlot(fs', s') && Zone(fs', s') == y;
      }
    }
  }

  /** A bit beyond the last zone means nothing. */
  lemma LeakedBit(fs: Fs, j: nat)
    requires Inv(fs) && j < |fs.bits| && j + fs.first - 1 >= fs.zones
    ensures Inv(SetBit(fs, j, true)) && forall s :: IsSlot(fs, s) ==> Zone(SetBit(fs, j, true), s) == Zone(fs, s)
  {
    var fs' := SetBit(fs, j, true);
    assert forall s :: IsSlot(fs', s) <==> IsSlot(fs, s);
    assert forall s :: IsSlot(fs, s) ==> Zone(fs', s) == Zone(fs, s);
    forall y: nat | MayFree(fs', y) ensures Owned(fs', y) {
      assert MayFree(fs, y);
      var s' :| IsSlot(fs, s') && Zone(fs, s') == y;
      assert IsSlot(fs', s') && Zone(fs', s') == y;
    }
  }

  /** Slots that had a zone keep it and its contents; a data slot that gains one gains zeros. */
  ghost predicate ContentsKept(fs: Fs, fs': Fs) {
    && SameFiles(fs, fs')
    && (forall n: nat :: n < |fs.inodes| ==> fs'.inodes[n].size == fs.inodes[n].size)
    && (forall s :: IsSlot(fs, s) && Zone(fs, s) != 0 ==> Zone(fs', s) == Zone(fs, s))
    && (forall s :: IsSlot(fs, s) && IsData(s) && Zone(fs, s) != 0 ==>
          fs'.blocks[Zone(fs, s)] == fs.blocks[Zone(fs, s)])
    && (forall s :: IsSlot(fs, s) && IsData(s) && Zone(fs, s) == 0 && Zone(fs', s) != 0 ==>
          fs'.blocks[Zone(fs', s)] == ZeroBlock())
  }

  lemma EnsureSlot(fs: Fs, s: Slot)
    requires Inv(fs) && CanFill(fs, s)
    ensures var r := Ensure(fs, s);
            && Inv(r.fs) && ContentsKept(fs, r.fs) && SlotFilled(fs, r.fs, s, r.zone)
  {
    if Zone(fs, s) == 0 {
      if NewBlock(fs).zone == 0 {
        NoZone(fs);
      } else {
        NewZone(fs);
        EnsureNew(fs, s);
      }
    }
  }

  lemma NoZone(fs: Fs)
    requires Inv(fs) && NewBlock(fs).zone == 0
    ensures var fs' := NewBlock(fs).fs;
            && Inv(fs') && SameFiles(fs, fs') && fs'.blocks == fs.blocks && fs'.inodes == fs.inodes
            && forall s :: IsSlot(fs, s) ==> Zone(fs', s) == Zone(fs, s)
  {
    var j := FirstZero(fs.bits, 0);
    if j < |fs.bits| {
      LeakedBit(fs, j);
    }
  }

  lemma EnsureNew(fs: Fs, s: Slot)
    requires Inv(fs) && CanFill(fs, s) && Zone(fs, s) == 0 && NewBlock(fs).zone != 0
    ensures var z := NewBlock(fs).zone;
            var fs' := SetZone(NewBlock(fs).fs, s, z);
            Inv(fs') && ContentsKept(fs, fs') && SlotFilled(fs, fs', s, z)
  {
    NewZone(fs);
    var z, fs1 := NewBlock(fs).zone, NewBlock(fs).fs;
    UnnamedBlock(fs, fs1, z);
    SameZonesInjective(fs, fs1);
    assert CanFill(fs1, s) by {
      if !InInode(s) {
        HomeIsParent(fs, s);
        HomeIsParent(fs1, s);
      }
    }
    FillSlot(fs1, s, z);
    var fs' := SetZone(fs1, s, z);
    assert SlotFilled(fs, fs', s, z);
    SlotFilledInv(fs, fs', s, z);
    NewContents(fs, fs1, fs', s, z);
  }

  lemma SameZonesInjective(fs: Fs, fs': Fs)
    requires Injective(fs) && SameFiles(fs, fs') && forall s :: IsSlot(fs, s) ==> Zone(fs', s) == Zone(fs, s)
    ensures Injective(fs')
  {
    assert forall s :: IsSlot(fs', s) <==> IsSlot(fs, s);
  }

  lemma NewContents(fs: Fs, fs1: Fs, fs': Fs, s: Slot, z: nat)
    requires Injective(fs) && SlotFilled(fs, fs', s, z) && Zone(fs, s) == 0
    requires z != 0 && z < ZONE_LIMIT && forall s' :: IsSlot(fs, s') ==> Zone(fs, s') != z
    requires fs1.blocks == fs.blocks[z := ZeroBlock()] && fs1.inodes == fs.inodes && SameFiles(fs, fs1)
    requires forall s' :: IsSlot(fs, s') ==> Zone(fs1, s') == Zone(fs, s')
    requires CanFill(fs1, s) && fs' == SetZone(fs1, s, z)
    ensures ContentsKept(fs, fs')
  {
    if InInode(s) {
      assert fs'.blocks == fs1.blocks;
    } else {
      HomeIsParent(fs1, s);
      var h := Home(fs1, s);
      assert IsSlot(fs, Parent(s)) && Zone(fs, Parent(s)) == h && !IsData(Parent(s));
      assert forall s' :: IsSlot(fs, s') && IsData(s') && Zone(fs, s') != 0 ==> Zone(fs, s') != h;
    }
  }
}
