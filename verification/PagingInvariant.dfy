/** The invariant of the page tables: who refers to which frame, and what the counts
    and write bits must then be.  Every reference is a named slot.
 */
module PagingInvariant {
  import opened Common
  import opened PageEntry
  import opened PagingModel

  /** The places that can refer to a managed frame: a task's cr3, a directory entry, a table
      entry, or the kernel itself. */
  datatype Slot = Dir(t: nat) | Table(t: nat, i: nat) | Leaf(t: nat, i: nat, j: nat) | Kern(f: nat)

  predicate Managed(m: Memory, f: nat) {
    m.low <= f < m.high
  }

  predicate Holds(m: Memory, s: Slot, f: nat) {
    match s
    case Dir(t) => t in m.space && m.space[t] == f
    case Table(t, i) => t in m.space && i < USER_ENTRIES && Pde(m, t, i).present && Pde(m, t, i).frame == f
    case Leaf(t, i, j) =>
      t in m.space && i < USER_ENTRIES && j < ENTRIES && Pte(m, t, i, j).present && Pte(m, t, i, j).frame == f
    case Kern(g) => g == f && f in m.kernel
  }

  ghost function Universe(): set<Slot> {
    (set t: nat | t < NR_TASKS :: Dir(t))
    + (set t: nat, i: nat | t < NR_TASKS && i < USER_ENTRIES :: Table(t, i))
    + (set t: nat, i: nat, j: nat | t < NR_TASKS && i < USER_ENTRIES && j < ENTRIES :: Leaf(t, i, j))
    + (set f: nat | f < PAGING_PAGES :: Kern(f))
  }

  /** Every reference to frame f. */
  ghost function Refs(m: Memory, f: nat): set<Slot> {
    set s | s in Universe() && Holds(m, s, f)
  }

  // ---------- the invariant ----------

  predicate Shape(m: Memory) {
    && (forall f :: 0 <= f < PAGING_PAGES ==> if Managed(m, f) then m.count[f] < USED else m.count[f] == USED)
    && (forall t <- m.space :: 1 <= t < NR_TASKS && Managed(m, m.space[t]))
    && (forall f <- m.kernel :: Managed(m, f))
  }

  predicate GoodPde(m: Memory, w: Word) {
    w == ZERO || (w.present && Managed(m, w.frame))
  }

  predicate KernelPde(m: Memory, w: Word) {
    w == ZERO || (w.present && w.frame < m.low)
  }

  /** A reserved page is never writable. */
  predicate GoodPte(m: Memory, w: Word) {
    w == ZERO || (w.present && w.frame < m.high && (w.rw ==> Managed(m, w.frame)))
  }

  ghost predicate Typed(m: Memory) {
    && (forall t, i: nat :: t in m.space && i < USER_ENTRIES ==> GoodPde(m, Pde(m, t, i)))
    && (forall t, i: nat :: t in m.space && USER_ENTRIES <= i < ENTRIES ==> KernelPde(m, Pde(m, t, i)))
    && (forall t, i: nat, j: nat :: t in m.space && i < USER_ENTRIES && j < ENTRIES ==> GoodPte(m, Pte(m, t, i, j)))
  }

  /** Only table entries at one and the same address may share a frame. */
  predicate SameAddress(s: Slot, s': Slot) {
    s.Leaf? && s'.Leaf? && s.i == s'.i && s.j == s'.j
  }

  ghost predicate Exclusive(m: Memory) {
    forall s, s', f :: Holds(m, s, f) && Holds(m, s', f) && Managed(m, f) ==> s == s' || SameAddress(s, s')
  }

  ghost predicate Counted(m: Memory) {
    forall f: nat :: Managed(m, f) ==> m.count[f] == |Refs(m, f)|
  }

  /** A writable entry is the only reference to its page. */
  ghost predicate Guarded(m: Memory) {
    forall t, i: nat, j: nat ::
      t in m.space && i < USER_ENTRIES && j < ENTRIES && Pte(m, t, i, j).present && Pte(m, t, i, j).rw
      ==> Pte(m, t, i, j).frame < PAGING_PAGES && m.count[Pte(m, t, i, j).frame] == 1
  }

  /** swapper_pg_dir and pg0 as boot/head.s leaves them: the first 4 MB, one to one. */
  predicate Swapper(m: Memory) {
    && m.phys[0][0].present && m.phys[0][0].frame == 1
    && (forall i :: 1 <= i < USER_ENTRIES ==> m.phys[0][i] == ZERO)
    && (forall i :: USER_ENTRIES <= i < ENTRIES ==> KernelPde(m, m.phys[0][i]))
    && (forall j :: 0 <= j < ENTRIES ==> m.phys[1][j].present && m.phys[1][j].frame == j)
  }

  ghost predicate Inv(m: Memory) {
    match m
    case Mem(_, _, _, _, _, _) =>
      Shape(m) && Typed(m) && Exclusive(m) && Counted(m) && Guarded(m) && Swapper(m)
  }

  // ---------- counting ----------

  lemma HoldsInUniverse(m: Memory, s: Slot, f: nat)
    requires Shape(m) && Holds(m, s, f)
    ensures s in Universe()
  {
  }

  ghost predicate SameHolders(m: Memory, m': Memory, f: nat) {
    forall s :: Holds(m', s, f) <==> Holds(m, s, f)
  }

  lemma CountSame(m: Memory, m': Memory, f: nat)
    requires SameHolders(m, m', f)
    ensures Refs(m', f) == Refs(m, f)
  {
  }

  lemma CountGain(m: Memory, m': Memory, s0: Slot, f: nat)
    requires Shape(m') && Holds(m', s0, f) && !Holds(m, s0, f)
    requires forall s :: s != s0 ==> (Holds(m', s, f) <==> Holds(m, s, f))
    ensures |Refs(m', f)| == |Refs(m, f)| + 1
  {
    HoldsInUniverse(m', s0, f);
    assert Refs(m', f) == Refs(m, f) + {s0};
  }

  lemma CountLoss(m: Memory, m': Memory, s0: Slot, f: nat)
    requires Shape(m) && Holds(m, s0, f) && !Holds(m', s0, f)
    requires forall s :: s != s0 ==> (Holds(m', s, f) <==> Holds(m, s, f))
    ensures |Refs(m', f)| == |Refs(m, f)| - 1
  {
    HoldsInUniverse(m, s0, f);
    assert Refs(m', f) == Refs(m, f) - {s0};
  }

  lemma CountMove(m: Memory, m': Memory, s0: Slot, s1: Slot, f: nat)
    requires Shape(m) && Shape(m') && s0 != s1
    requires Holds(m, s0, f) && !Holds(m', s0, f) && Holds(m', s1, f) && !Holds(m, s1, f)
    requires forall s :: s != s0 && s != s1 ==> (Holds(m', s, f) <==> Holds(m, s, f))
    ensures |Refs(m', f)| == |Refs(m, f)|
  {
    HoldsInUniverse(m, s0, f);
    HoldsInUniverse(m', s1, f);
    assert Refs(m', f) == (Refs(m, f) - {s0}) + {s1};
  }

  /** A frame with count 0 has no holder; a frame with count 1 has no second one. */
  lemma Unheld(m: Memory, f: nat, s: Slot)
    requires Shape(m) && Counted(m) && Managed(m, f) && m.count[f] == 0
    ensures !Holds(m, s, f)
  {
    if Holds(m, s, f) {
      Held(m, f, s);
    }
  }

  lemma Held(m: Memory, f: nat, s: Slot)
    requires Shape(m) && Counted(m) && Managed(m, f) && Holds(m, s, f)
    ensures m.count[f] >= 1
  {
    HoldsInUniverse(m, s, f);
    assert s in Refs(m, f);
  }

  lemma SoleHolder(m: Memory, f: nat, s: Slot, s': Slot)
    requires Shape(m) && Counted(m) && Managed(m, f) && m.count[f] == 1 && Holds(m, s, f) && Holds(m, s', f)
    ensures s == s'
  {
    HoldsInUniverse(m, s, f);
    HoldsInUniverse(m, s', f);
    if s != s' {
      assert {s, s'} <= Refs(m, f);
      SubsetSize({s, s'}, Refs(m, f));
    }
  }

  /** Directories, tables and kernel pages are never shared, so their count is 1. */
  lemma ExclusiveCount(m: Memory, f: nat, s: Slot)
    requires Shape(m) && Exclusive(m) && Counted(m) && Managed(m, f) && Holds(m, s, f) && !s.Leaf?
    ensures m.count[f] == 1
  {
    OneRef(m, f, s);
  }

  lemma OneRef(m: Memory, f: nat, s: Slot)
    requires Shape(m) && Exclusive(m) && Managed(m, f) && Holds(m, s, f) && !s.Leaf?
    ensures Refs(m, f) == {s}
  {
    HoldsInUniverse(m, s, f);
    forall s' | s' in Refs(m, f) ensures s' == s {
      assert Holds(m, s', f);
    }
  }

  /** A frame sits at one address in at most one table per task, so its count never nears USED. */
  lemma CountBound(m: Memory, f: nat)
    requires Shape(m) && Exclusive(m) && Counted(m) && Managed(m, f)
    ensures m.count[f] < NR_TASKS
  {
    if s :| s in Refs(m, f) {
      if !s.Leaf? {
        ExclusiveCount(m, f, s);
      } else {
        SharersAt(m, f, s);
      }
    }
  }

  lemma SharersAt(m: Memory, f: nat, s: Slot)
    requires Shape(m) && Exclusive(m) && Managed(m, f) && Holds(m, s, f) && s.Leaf?
    ensures |Refs(m, f)| < NR_TASKS
  {
    var at := set t: nat | t < NR_TASKS :: Leaf(t, s.i, s.j);
    var zero := Leaf(0, s.i, s.j);
    forall s' | s' in Refs(m, f) ensures s' in at - {zero} {
      assert Holds(m, s', f);
    }
    AtMostTasks(NR_TASKS, s.i, s.j);
    SubsetSize(Refs(m, f), at - {zero});
  }

  lemma {:induction false} AtMostTasks(n: nat, i: nat, j: nat)
    ensures |set t: nat | t < n :: Leaf(t, i, j)| == n
  {
    var all := set t: nat | t < n :: Leaf(t, i, j);
    if n == 0 {
      assert all == {};
    } else {
      AtMostTasks(n - 1, i, j);
      assert all == (set t: nat | t < n - 1 :: Leaf(t, i, j)) + {Leaf(n - 1, i, j)};
    }
  }

  // ---------- what one changed reference does to Exclusive and Counted ----------

  ghost predicate SameBounds(m: Memory, m': Memory) {
    m'.low == m.low && m'.high == m.high
  }

  /** How the references to managed frames differ between two states. */
  ghost predicate Kept(m: Memory, m': Memory) {
    forall s, f :: Managed(m, f) ==> (Holds(m', s, f) <==> Holds(m, s, f))
  }

  ghost predicate Lost(m: Memory, m': Memory, s0: Slot, f0: nat) {
    forall s, f :: Managed(m, f) ==> (Holds(m', s, f) <==> Holds(m, s, f) && !(s == s0 && f == f0))
  }

  ghost predicate Gained(m: Memory, m': Memory, s0: Slot, f0: nat) {
    forall s, f :: Managed(m, f) ==> (Holds(m', s, f) <==> Holds(m, s, f) || (s == s0 && f == f0))
  }

  ghost predicate Moved(m: Memory, m': Memory, s0: Slot, s1: Slot, f0: nat) {
    forall s, f :: Managed(m, f) ==>
      (Holds(m', s, f) <==> (Holds(m, s, f) && !(s == s0 && f == f0)) || (s == s1 && f == f0))
  }

  /** Nothing changes for managed frames. */
  lemma KeepRefs(m: Memory, m': Memory)
    requires SameBounds(m, m') && m'.count == m.count
    requires Kept(m, m')
    requires Exclusive(m) && Counted(m)
    ensures Exclusive(m') && Counted(m')
  {
    KeepExclusive(m, m');
    forall f: nat | Managed(m', f) ensures m'.count[f] == |Refs(m', f)| {
      CountSame(m, m', f);
    }
  }

  lemma KeepExclusive(m: Memory, m': Memory)
    requires SameBounds(m, m') && Kept(m, m') && Exclusive(m)
    ensures Exclusive(m')
  {
    forall s, s', f | Holds(m', s, f) && Holds(m', s', f) && Managed(m', f) ensures s == s' || SameAddress(s, s') {
      assert Holds(m, s, f) && Holds(m, s', f);
    }
  }

  /** Slot s0 stops referring to f0, and the count drops by one. */
  lemma LoseRef(m: Memory, m': Memory, s0: Slot, f0: nat)
    requires SameBounds(m, m') && Shape(m) && Managed(m, f0) && Holds(m, s0, f0)
    requires m.count[f0] > 0 && m'.count == m.count[f0 := m.count[f0] - 1]
    requires Lost(m, m', s0, f0)
    requires Exclusive(m) && Counted(m)
    ensures Exclusive(m') && Counted(m')
  {
    forall f: nat | Managed(m', f) ensures m'.count[f] == |Refs(m', f)| {
      if f == f0 {
        CountLoss(m, m', s0, f0);
      } else {
        CountSame(m, m', f);
      }
    }
  }

  /** Slot s0 comes to refer to f0, next to holders at the same address only. */
  lemma GainRef(m: Memory, m': Memory, s0: Slot, f0: nat)
    requires SameBounds(m, m') && Shape(m') && Managed(m, f0) && !Holds(m, s0, f0)
    requires m'.count == m.count[f0 := m.count[f0] + 1]
    requires Gained(m, m', s0, f0)
    requires forall s :: Holds(m, s, f0) ==> SameAddress(s, s0)
    requires Exclusive(m) && Counted(m)
    ensures Exclusive(m') && Counted(m')
  {
    GainExclusive(m, m', s0, f0);
    forall f: nat | Managed(m', f) ensures m'.count[f] == |Refs(m', f)| {
      if f == f0 {
        CountGain(m, m', s0, f0);
      } else {
        CountSame(m, m', f);
      }
    }
  }

  lemma GainExclusive(m: Memory, m': Memory, s0: Slot, f0: nat)
    requires Exclusive(m) && SameBounds(m, m')
    requires forall s, f :: Managed(m, f) && Holds(m', s, f) ==> Holds(m, s, f) || (s == s0 && f == f0)
    requires forall s :: Holds(m', s, f0) && s != s0 ==> SameAddress(s, s0)
    ensures Exclusive(m')
  {
    forall s, s', f | Holds(m', s, f) && Holds(m', s', f) && Managed(m', f)
      ensures s == s' || SameAddress(s, s')
    {
      if s != s0 && s' != s0 {
        assert Holds(m, s, f) && Holds(m, s', f);
      }
    }
  }

  /** The only reference to f0 moves from slot s0 to slot s1. */
  lemma MoveRef(m: Memory, m': Memory, s0: Slot, s1: Slot, f0: nat)
    requires SameBounds(m, m') && Shape(m) && Shape(m') && m'.count == m.count
    requires Managed(m, f0) && Holds(m, s0, f0) && !s0.Leaf? && !Holds(m, s1, f0) && s0 != s1
    requires Moved(m, m', s0, s1, f0)
    requires Exclusive(m) && Counted(m)
    ensures Exclusive(m') && Counted(m')
  {
    MoveExclusive(m, m', s0, s1, f0);
    forall f: nat | Managed(m', f) ensures m'.count[f] == |Refs(m', f)| {
      if f == f0 {
        CountMove(m, m', s0, s1, f0);
      } else {
        CountSame(m, m', f);
      }
    }
  }

  lemma MoveExclusive(m: Memory, m': Memory, s0: Slot, s1: Slot, f0: nat)
    requires SameBounds(m, m') && Managed(m, f0) && Holds(m, s0, f0) && !s0.Leaf?
    requires Moved(m, m', s0, s1, f0)
    requires Exclusive(m)
    ensures Exclusive(m')
  {
    forall s, s', f | Holds(m', s, f) && Holds(m', s', f) && Managed(m', f)
      ensures s == s' || SameAddress(s, s')
    {
      if f != f0 {
        assert Holds(m, s, f) && Holds(m, s', f);
      } else {
        assert s != s1 ==> Holds(m, s, f) && (s == s0 || SameAddress(s, s0));
        assert s' != s1 ==> Holds(m, s', f) && (s' == s0 || SameAddress(s', s0));
      }
    }
  }
}
