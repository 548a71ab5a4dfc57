/** Changing one page-table entry: what the walk looks like afterwards, and the ways of
    doing it that keep the invariant.
 */
module PagingLeaf {
  import opened PageEntry
  import opened PagingModel
  import opened PagingInvariant

  ghost predicate SameFrame(m: Memory, m': Memory) {
    m'.low == m.low && m'.high == m.high && m'.space == m.space
  }

  predicate IsLeaf(m: Memory, t: nat, i: nat, j: nat) {
    t in m.space && i < USER_ENTRIES && j < ENTRIES && Pde(m, t, i).present
  }

  /** The walk of m' is that of m with one entry replaced. */
  ghost predicate LeafChanged(m: Memory, m': Memory, t: nat, i: nat, j: nat, w: Word) {
    && SameFrame(m, m')
    && (forall t', i': nat :: t' in m.space && i' < ENTRIES ==> Pde(m', t', i') == Pde(m, t', i'))
    && (forall t', i': nat, j': nat :: t' in m.space && i' < USER_ENTRIES && j' < ENTRIES ==>
          Pte(m', t', i', j') == if t' == t && i' == i && j' == j then w else Pte(m, t', i', j'))
  }

  /** Storing through the walk changes one entry: tables are not shared. */
  lemma StoreLeaf(m: Memory, t: nat, i: nat, j: nat, w: Word)
    requires Shape(m) && Typed(m) && Exclusive(m) && IsLeaf(m, t, i, j)
    ensures Pde(m, t, i).frame < PAGING_PAGES
    ensures LeafChanged(m, Store(m, Pde(m, t, i).frame, j, w), t, i, j, w)
  {
    var f := Pde(m, t, i).frame;
    assert GoodPde(m, Pde(m, t, i));
    assert Holds(m, Table(t, i), f);
    var m' := Store(m, f, j, w);
    forall t', i': nat | t' in m.space && i' < ENTRIES ensures Pde(m', t', i') == Pde(m, t', i') {
      assert Holds(m, Dir(t'), m.space[t']);
    }
    forall t', i': nat, j': nat | t' in m.space && i' < USER_ENTRIES && j' < ENTRIES
      ensures Pte(m', t', i', j') == if t' == t && i' == i && j' == j then w else Pte(m, t', i', j')
    {
      assert Pde(m', t', i') == Pde(m, t', i');
      if Pde(m, t', i').present {
        assert Holds(m, Table(t', i'), Pde(m, t', i').frame);
      }
    }
  }

  lemma LeafHolders(m: Memory, m': Memory, t: nat, i: nat, j: nat, w: Word)
    requires LeafChanged(m, m', t, i, j, w) && IsLeaf(m, t, i, j)
    ensures forall s, f :: s != Leaf(t, i, j) && !s.Kern? ==> (Holds(m', s, f) <==> Holds(m, s, f))
    ensures forall f :: Holds(m', Leaf(t, i, j), f) <==> w.present && w.frame == f
  {
  }

  lemma LeafTyped(m: Memory, m': Memory, t: nat, i: nat, j: nat, w: Word)
    requires LeafChanged(m, m', t, i, j, w) && Typed(m) && GoodPte(m, w)
    ensures Typed(m')
  {
  }

  /** swapper_pg_dir and pg0 lie below managed memory. */
  ghost predicate SameReserved(m: Memory, m': Memory) {
    SameFrame(m, m') && forall f :: 0 <= f < m.low ==> m'.phys[f] == m.phys[f]
  }

  lemma SwapperKept(m: Memory, m': Memory)
    requires SameReserved(m, m') && Swapper(m)
    ensures Swapper(m')
  {
  }

  /** A leaf entry goes, and with it one reference to a managed page. */
  lemma DropLeaf(m: Memory, m': Memory, t: nat, i: nat, j: nat)
    requires Inv(m) && IsLeaf(m, t, i, j) && Pte(m, t, i, j).present && Managed(m, Pte(m, t, i, j).frame)
    requires LeafChanged(m, m', t, i, j, ZERO) && SameReserved(m, m') && m'.kernel == m.kernel
    requires m.count[Pte(m, t, i, j).frame] > 0
    requires m'.count == m.count[Pte(m, t, i, j).frame := m.count[Pte(m, t, i, j).frame] - 1]
    ensures Inv(m')
  {
    var f := Pte(m, t, i, j).frame;
    LeafHolders(m, m', t, i, j, ZERO);
    LeafTyped(m, m', t, i, j, ZERO);
    SwapperKept(m, m');
    DropLeafCounted(m, m', t, i, j);
    DropLeafGuarded(m, m', t, i, j);
  }

  lemma DropLeafCounted(m: Memory, m': Memory, t: nat, i: nat, j: nat)
    requires Shape(m) && Exclusive(m) && Counted(m) && IsLeaf(m, t, i, j)
    requires Pte(m, t, i, j).present && Managed(m, Pte(m, t, i, j).frame)
    requires LeafChanged(m, m', t, i, j, ZERO) && m'.kernel == m.kernel
    requires m.count[Pte(m, t, i, j).frame] > 0
    requires m'.count == m.count[Pte(m, t, i, j).frame := m.count[Pte(m, t, i, j).frame] - 1]
    ensures Shape(m') && Exclusive(m') && Counted(m')
  {
    var f := Pte(m, t, i, j).frame;
    LeafHolders(m, m', t, i, j, ZERO);
    LoseRef(m, m', Leaf(t, i, j), f);
  }

  lemma DropLeafGuarded(m: Memory, m': Memory, t: nat, i: nat, j: nat)
    requires Shape(m) && Typed(m) && Counted(m) && Guarded(m) && IsLeaf(m, t, i, j)
    requires Pte(m, t, i, j).present && Managed(m, Pte(m, t, i, j).frame)
    requires LeafChanged(m, m', t, i, j, ZERO)
    requires m.count[Pte(m, t, i, j).frame] > 0
    requires m'.count == m.count[Pte(m, t, i, j).frame := m.count[Pte(m, t, i, j).frame] - 1]
    ensures Guarded(m')
  {
    var f := Pte(m, t, i, j).frame;
    assert Holds(m, Leaf(t, i, j), f);
    forall t', i': nat, j': nat |
      t' in m'.space && i' < USER_ENTRIES && j' < ENTRIES && Pte(m', t', i', j').present && Pte(m', t', i', j').rw
      ensures Pte(m', t', i', j').frame < PAGING_PAGES && m'.count[Pte(m', t', i', j').frame] == 1
    {
      var g := Pte(m, t', i', j').frame;
      if g == f {
        assert Holds(m, Leaf(t', i', j'), f);
        SoleHolder(m, f, Leaf(t, i, j), Leaf(t', i', j'));
      }
    }
  }

  /** An empty entry is filled with a read-only reserved page, or a reserved entry is emptied. */
  lemma ReservedLeaf(m: Memory, m': Memory, t: nat, i: nat, j: nat, w: Word)
    requires Inv(m) && IsLeaf(m, t, i, j)
    requires Pte(m, t, i, j).present ==> !Managed(m, Pte(m, t, i, j).frame)
    requires w == ZERO || (w.present && !w.rw && w.frame < m.low)
    requires LeafChanged(m, m', t, i, j, w) && SameReserved(m, m') && m'.kernel == m.kernel && m'.count == m.count
    ensures Inv(m')
  {
    LeafTyped(m, m', t, i, j, w);
    SwapperKept(m, m');
    ReservedLeafCounted(m, m', t, i, j, w);
  }

  lemma ReservedLeafCounted(m: Memory, m': Memory, t: nat, i: nat, j: nat, w: Word)
    requires Shape(m) && Exclusive(m) && Counted(m) && IsLeaf(m, t, i, j)
    requires Pte(m, t, i, j).present ==> !Managed(m, Pte(m, t, i, j).frame)
    requires w.present ==> w.frame < m.low
    requires LeafChanged(m, m', t, i, j, w) && m'.kernel == m.kernel && m'.count == m.count
    ensures Shape(m') && Exclusive(m') && Counted(m')
  {
    LeafHolders(m, m', t, i, j, w);
    KeepRefs(m, m');
  }

  /** The entry maps nothing whose references are counted. */
  predicate Vacant(m: Memory, t: nat, i: nat, j: nat)
    requires t in m.space && i < USER_ENTRIES && j < ENTRIES
  {
    Pte(m, t, i, j).present ==> !Managed(m, Pte(m, t, i, j).frame)
  }

  /** A page the kernel holds goes into a vacant entry. */
  lemma AttachLeaf(m: Memory, m': Memory, t: nat, i: nat, j: nat, w: Word)
    requires Inv(m) && IsLeaf(m, t, i, j) && Vacant(m, t, i, j)
    requires w.present && w.frame in m.kernel
    requires LeafChanged(m, m', t, i, j, w) && SameReserved(m, m')
    requires m'.kernel == m.kernel - {w.frame} && m'.count == m.count
    ensures Inv(m')
  {
    assert Holds(m, Kern(w.frame), w.frame);
    ExclusiveCount(m, w.frame, Kern(w.frame));
    LeafTyped(m, m', t, i, j, w);
    SwapperKept(m, m');
    LeafHolders(m, m', t, i, j, w);
    AttachLeafCounted(m, m', t, i, j, w.frame);
  }

  lemma AttachLeafCounted(m: Memory, m': Memory, t: nat, i: nat, j: nat, f: nat)
    requires SameFrame(m, m') && m'.kernel == m.kernel - {f} && m'.count == m.count
    requires Moved(m, m', Kern(f), Leaf(t, i, j), f) && !Holds(m, Leaf(t, i, j), f)
    requires Shape(m) && Exclusive(m) && Counted(m) && f in m.kernel
    ensures Shape(m') && Exclusive(m') && Counted(m')
  {
    assert Holds(m, Kern(f), f);
    MoveRef(m, m', Kern(f), Leaf(t, i, j), f);
  }

  /** An empty entry comes to share a managed page that is mapped read-only at the same address. */
  lemma ShareLeaf(m: Memory, m': Memory, t: nat, i: nat, j: nat, w: Word, donor: nat)
    requires Inv(m) && IsLeaf(m, t, i, j) && !Pte(m, t, i, j).present
    requires w.present && !w.rw && Managed(m, w.frame)
    requires donor in m.space && Holds(m, Leaf(donor, i, j), w.frame) && !Pte(m, donor, i, j).rw
    requires LeafChanged(m, m', t, i, j, w) && SameReserved(m, m') && m'.kernel == m.kernel
    requires m'.count == m.count[w.frame := (m.count[w.frame] + 1) % 256]
    ensures Inv(m')
  {
    LeafTyped(m, m', t, i, j, w);
    SwapperKept(m, m');
    LeafHolders(m, m', t, i, j, w);
    ShareLeafCounted(m, m', t, i, j, w.frame, donor);
    ShareLeafGuarded(m, m', t, i, j, w, donor);
  }

  lemma DonorAddress(m: Memory, f: nat, donor: nat, t: nat, i: nat, j: nat)
    requires Exclusive(m) && Managed(m, f) && Holds(m, Leaf(donor, i, j), f)
    ensures forall s :: Holds(m, s, f) ==> SameAddress(s, Leaf(t, i, j))
  {
    forall s | Holds(m, s, f) ensures SameAddress(s, Leaf(donor, i, j)) {
    }
  }

  lemma ShareLeafCounted(m: Memory, m': Memory, t: nat, i: nat, j: nat, f: nat, donor: nat)
    requires SameFrame(m, m') && m'.kernel == m.kernel && Managed(m, f)
    requires Gained(m, m', Leaf(t, i, j), f) && !Holds(m, Leaf(t, i, j), f) && Holds(m, Leaf(donor, i, j), f)
    requires m'.count == m.count[f := (m.count[f] + 1) % 256]
    requires Shape(m) && Exclusive(m) && Counted(m)
    ensures Shape(m') && Exclusive(m') && Counted(m')
  {
    hide Exclusive, Counted;
    CountBound(m, f);
    assert (m.count[f] + 1) % 256 == m.count[f] + 1;
    assert Shape(m');
    DonorAddress(m, f, donor, t, i, j);
    GainRef(m, m', Leaf(t, i, j), f);
  }

  lemma ShareLeafGuarded(m: Memory, m': Memory, t: nat, i: nat, j: nat, w: Word, donor: nat)
    requires Shape(m) && Typed(m) && Counted(m) && Guarded(m) && IsLeaf(m, t, i, j)
    requires w.present && !w.rw && Managed(m, w.frame)
    requires Holds(m, Leaf(donor, i, j), w.frame) && !Pte(m, donor, i, j).rw
    requires LeafChanged(m, m', t, i, j, w)
    requires m'.count == m.count[w.frame := (m.count[w.frame] + 1) % 256]
    ensures Guarded(m')
  {
    var f := w.frame;
    forall t', i': nat, j': nat |
      t' in m'.space && i' < USER_ENTRIES && j' < ENTRIES && Pte(m', t', i', j').present && Pte(m', t', i', j').rw
      ensures Pte(m', t', i', j').frame < PAGING_PAGES && m'.count[Pte(m', t', i', j').frame] == 1
    {
      if Pte(m, t', i', j').frame == f {
        assert Holds(m, Leaf(t', i', j'), f);
        SoleHolder(m, f, Leaf(donor, i, j), Leaf(t', i', j'));
      }
    }
  }

  /** Only the flags of a present entry change; it may become writable when it is the only one. */
  lemma FlagLeaf(m: Memory, m': Memory, t: nat, i: nat, j: nat, w: Word)
    requires Inv(m) && IsLeaf(m, t, i, j) && Pte(m, t, i, j).present
    requires w.present && w.frame == Pte(m, t, i, j).frame
    requires w.rw ==> Managed(m, w.frame) && m.count[w.frame] == 1
    requires LeafChanged(m, m', t, i, j, w) && SameReserved(m, m') && m'.kernel == m.kernel && m'.count == m.count
    ensures Inv(m')
  {
    assert GoodPte(m, Pte(m, t, i, j));
    LeafTyped(m, m', t, i, j, w);
    SwapperKept(m, m');
    FlagLeafCounted(m, m', t, i, j, w);
  }

  lemma FlagLeafCounted(m: Memory, m': Memory, t: nat, i: nat, j: nat, w: Word)
    requires Shape(m) && Exclusive(m) && Counted(m) && IsLeaf(m, t, i, j) && Pte(m, t, i, j).present
    requires w.present && w.frame == Pte(m, t, i, j).frame
    requires LeafChanged(m, m', t, i, j, w) && m'.kernel == m.kernel && m'.count == m.count
    ensures Shape(m') && Exclusive(m') && Counted(m')
  {
    LeafHolders(m, m', t, i, j, w);
    KeepRefs(m, m');
  }
}
