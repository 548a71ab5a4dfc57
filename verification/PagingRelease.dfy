/** free_one_table, clear_page_tables and free_page_tables: one task's references go, every
    other task keeps all of its own.
 */
module PagingRelease {
  import opened PageEntry
  import opened PagingModel
  import opened PagingInvariant
  import opened PagingLeaf
  import opened PagingFrames

  predicate SameTarget(w: Word, w': Word) {
    w.present == w'.present && (w.present ==> w.frame == w'.frame)
  }

  /** Task t keeps its pages and their contents; flags may differ. */
  ghost predicate PagesKept(m: Memory, m': Memory, t: nat) {
    forall i: nat, j: nat :: i < USER_ENTRIES && j < ENTRIES ==>
      && SameTarget(Pte(m, t, i, j), Pte(m', t, i, j))
      && (Pte(m, t, i, j).present && Pte(m, t, i, j).frame < PAGING_PAGES ==>
            m'.phys[Pte(m, t, i, j).frame] == m.phys[Pte(m, t, i, j).frame])
  }

  /** Task t keeps its directory, its tables and its pages. */
  ghost predicate Undisturbed(m: Memory, m': Memory, t: nat) {
    && t in m.space && t in m'.space && m'.space[t] == m.space[t]
    && (forall i: nat :: i < USER_ENTRIES ==> SameTarget(Pde(m, t, i), Pde(m', t, i)))
    && PagesKept(m, m', t)
  }

  ghost predicate OthersUndisturbed(m: Memory, m': Memory, t: nat) {
    forall t' :: t' in m.space && t' != t ==> Undisturbed(m, m', t')
  }

  ghost predicate AllUndisturbed(m: Memory, m': Memory) {
    forall t' :: t' in m.space ==> Undisturbed(m, m', t')
  }

  /** A task that keeps its pages reads the same words at the same addresses. */
  lemma KeptView(m: Memory, m': Memory, t: nat, i: nat, j: nat, k: nat)
    requires PagesKept(m, m', t) && i < USER_ENTRIES && j < ENTRIES && k < 1024
    ensures View(m', t, i, j, k) == View(m, t, i, j, k)
  {
    assert SameTarget(Pte(m, t, i, j), Pte(m', t, i, j));
  }

  lemma KeptTrans(m: Memory, m': Memory, m'': Memory, t: nat)
    requires PagesKept(m, m', t) && PagesKept(m', m'', t)
    ensures PagesKept(m, m'', t)
  {
    forall i: nat, j: nat | i < USER_ENTRIES && j < ENTRIES
      ensures SameTarget(Pte(m, t, i, j), Pte(m'', t, i, j))
      ensures Pte(m, t, i, j).present && Pte(m, t, i, j).frame < PAGING_PAGES ==>
                m''.phys[Pte(m, t, i, j).frame] == m.phys[Pte(m, t, i, j).frame]
    {
      assert SameTarget(Pte(m, t, i, j), Pte(m', t, i, j));
    }
  }

  lemma UndisturbedTrans(m: Memory, m': Memory, m'': Memory, t: nat)
    requires Undisturbed(m, m', t) && Undisturbed(m', m'', t)
    ensures Undisturbed(m, m'', t)
  {
    forall i: nat | i < USER_ENTRIES ensures SameTarget(Pde(m, t, i), Pde(m'', t, i)) {
      assert SameTarget(Pde(m, t, i), Pde(m', t, i));
    }
    KeptTrans(m, m', m'', t);
  }

  lemma OthersTrans(m: Memory, m': Memory, m'': Memory, t: nat)
    requires OthersUndisturbed(m, m', t) && OthersUndisturbed(m', m'', t)
    ensures OthersUndisturbed(m, m'', t)
  {
    forall t' | t' in m.space && t' != t ensures Undisturbed(m, m'', t') {
      assert Undisturbed(m, m', t');
      UndisturbedTrans(m, m', m'', t');
    }
  }

  lemma AllTrans(m: Memory, m': Memory, m'': Memory)
    requires AllUndisturbed(m, m') && AllUndisturbed(m', m'')
    ensures AllUndisturbed(m, m'')
  {
    forall t' | t' in m.space ensures Undisturbed(m, m'', t') {
      assert Undisturbed(m, m', t');
      UndisturbedTrans(m, m', m'', t');
    }
  }

  /** Changing a frame that no table entry maps keeps the contents everyone sees. */
  ghost predicate OnlyFrame(m: Memory, m': Memory, g: nat) {
    forall f :: 0 <= f < PAGING_PAGES && f != g ==> m'.phys[f] == m.phys[f]
  }

  lemma Unmapped(m: Memory, g: nat, s: Slot)
    requires Exclusive(m) && Managed(m, g) && Holds(m, s, g) && !s.Leaf?
    ensures forall t, i: nat, j: nat ::
              t in m.space && i < USER_ENTRIES && j < ENTRIES && Pte(m, t, i, j).present ==> Pte(m, t, i, j).frame != g
  {
    forall t, i: nat, j: nat | t in m.space && i < USER_ENTRIES && j < ENTRIES && Pte(m, t, i, j).present
      ensures Pte(m, t, i, j).frame != g
    {
      assert Holds(m, Leaf(t, i, j), Pte(m, t, i, j).frame);
    }
  }

  // ---------- free_one_table ----------

  /** The entries below n of table i of task t that map managed pages are gone, all others stay. */
  ghost predicate EntriesFreed(m: Memory, m': Memory, t: nat, i: nat, n: nat) {
    && SameFrame(m, m') && m'.kernel == m.kernel
    && (forall t', i': nat :: t' in m.space && i' < ENTRIES ==> Pde(m', t', i') == Pde(m, t', i'))
    && (forall t', i': nat, j: nat :: t' in m.space && i' < USER_ENTRIES && j < ENTRIES ==>
          Pte(m', t', i', j) ==
          if t' == t && i' == i && j < n && Pte(m, t', i', j).present && Managed(m, Pte(m, t', i', j).frame) then ZERO
          else Pte(m, t', i', j))
  }

  lemma FreeEntryStep(m: Memory, t: nat, i: nat, j: nat)
    requires Inv(m) && IsLeaf(m, t, i, j)
    ensures var f := Pde(m, t, i).frame;
            var w := Pte(m, t, i, j);
            var m' := FreeEntry(m, f, j);
            && f < PAGING_PAGES && w == m.phys[f][j] && w.frame < m.high
            && (w != ZERO && !Reserved(m, w.frame) ==> w.present && MayFree(Store(m, f, j, ZERO), w.frame))
            && Inv(m') && SameReserved(m, m') && m'.kernel == m.kernel && OnlyFrame(m, m', f)
            && LeafChanged(m, m', t, i, j, if w.present && Managed(m, w.frame) then ZERO else w)
  {
    var f := Pde(m, t, i).frame;
    assert GoodPde(m, Pde(m, t, i));
    var w := Pte(m, t, i, j);
    assert GoodPte(m, w);
    if w.present && Managed(m, w.frame) {
      FreeManaged(m, t, i, j);
    }
  }

  lemma FreeManaged(m: Memory, t: nat, i: nat, j: nat)
    requires Inv(m) && IsLeaf(m, t, i, j) && Pte(m, t, i, j).present && Managed(m, Pte(m, t, i, j).frame)
    ensures var f := Pde(m, t, i).frame;
            var w := Pte(m, t, i, j);
            && f < PAGING_PAGES && w == m.phys[f][j] && MayFree(Store(m, f, j, ZERO), w.frame)
            && var m' := FreeEntry(m, f, j);
               && Inv(m') && SameReserved(m, m') && m'.kernel == m.kernel && OnlyFrame(m, m', f)
               && LeafChanged(m, m', t, i, j, ZERO)
  {
    hide Counted, Guarded, Swapper;
    var f, w := Pde(m, t, i).frame, Pte(m, t, i, j);
    assert GoodPde(m, Pde(m, t, i)) && GoodPte(m, w);
    assert Holds(m, Leaf(t, i, j), w.frame);
    Held(m, w.frame, Leaf(t, i, j));
    StoreLeaf(m, t, i, j, ZERO);
    DropLeaf(m, FreeEntry(m, f, j), t, i, j);
  }

  /** What FreeEntries has achieved after n rounds. */
  ghost predicate EntriesDone(m: Memory, m': Memory, t: nat, i: nat, n: nat) {
    && t in m.space && i < USER_ENTRIES && n <= ENTRIES && Pde(m, t, i).present
    && Inv(m') && SameReserved(m, m') && OnlyFrame(m, m', Pde(m, t, i).frame)
    && EntriesFreed(m, m', t, i, n)
  }

  lemma {:induction false} FreeEntriesAll(m: Memory, t: nat, i: nat, n: nat)
    requires Inv(m) && t in m.space && i < USER_ENTRIES && Pde(m, t, i).present && n <= ENTRIES
    ensures Pde(m, t, i).frame < PAGING_PAGES
    ensures EntriesDone(m, FreeEntries(m, Pde(m, t, i).frame, n), t, i, n)
  {
    hide Shape, Exclusive, Counted, Guarded, Swapper;
    assert GoodPde(m, Pde(m, t, i));
    if n == 0 {
    } else {
      FreeEntriesAll(m, t, i, n - 1);
      FreeEntriesRound(m, FreeEntries(m, Pde(m, t, i).frame, n - 1), t, i, n - 1);
    }
  }

  lemma FreeEntriesRound(m: Memory, m1: Memory, t: nat, i: nat, j: nat)
    requires EntriesDone(m, m1, t, i, j) && j < ENTRIES && Pde(m, t, i).frame < PAGING_PAGES
    ensures EntriesDone(m, FreeEntry(m1, Pde(m, t, i).frame, j), t, i, j + 1)
  {
    FreeEntryStep(m1, t, i, j);
    EntriesFreedStep(m, m1, FreeEntry(m1, Pde(m, t, i).frame, j), t, i, j);
  }

  lemma EntriesFreedStep(m: Memory, m1: Memory, m2: Memory, t: nat, i: nat, j: nat)
    requires EntriesFreed(m, m1, t, i, j) && m2.kernel == m1.kernel && t in m.space && i < USER_ENTRIES && j < ENTRIES
    requires var w := Pte(m1, t, i, j);
             LeafChanged(m1, m2, t, i, j, if w.present && Managed(m1, w.frame) then ZERO else w)
    ensures EntriesFreed(m, m2, t, i, j + 1)
  {
  }

  /** Dropping one user table: its directory entry is empty afterwards and nothing else changed. */
  lemma FreeUserTable(m: Memory, t: nat, i: nat)
    requires Inv(m) && t in m.space && i < USER_ENTRIES
    ensures var m' := FreeOneTable(m, m.space[t], i);
            && Inv(m') && SameReserved(m, m') && m'.kernel == m.kernel
            && TableGone(m, m', t, i) && OthersUndisturbed(m, m', t)
  {
    hide Exclusive, Counted, Guarded, Swapper;
    var w := Pde(m, t, i);
    assert GoodPde(m, w);
    if w.present {
      FreeEntriesAll(m, t, i, ENTRIES);
      var m1 := FreeEntries(m, w.frame, ENTRIES);
      DropTable(m1, t, i);
      TableGoneAfter(m, m1, FreeOneTable(m, m.space[t], i), t, i);
      FreeTableUndisturbed(m, m1, t, i);
    } else {
      NothingGone(m, t, i);
    }
  }

  lemma TableGoneAfter(m: Memory, m1: Memory, m2: Memory, t: nat, i: nat)
    requires EntriesFreed(m, m1, t, i, ENTRIES) && TableGone(m1, m2, t, i) && SameFrame(m, m1) && SameFrame(m1, m2)
    ensures TableGone(m, m2, t, i)
  {
  }

  lemma NothingGone(m: Memory, t: nat, i: nat)
    requires t in m.space && i < USER_ENTRIES && Pde(m, t, i) == ZERO
    ensures TableGone(m, m, t, i) && OthersUndisturbed(m, m, t)
  {
  }

  lemma FreeTableUndisturbed(m: Memory, m1: Memory, t: nat, i: nat)
    requires Shape(m) && Typed(m) && Exclusive(m) && t in m.space && i < USER_ENTRIES && Pde(m, t, i).present
    requires EntriesFreed(m, m1, t, i, ENTRIES) && OnlyFrame(m, m1, Pde(m, t, i).frame)
    requires TableGone(m1, FreePage(Store(m1, m.space[t], i, ZERO), Pde(m, t, i).frame), t, i)
    ensures OthersUndisturbed(m, FreePage(Store(m1, m.space[t], i, ZERO), Pde(m, t, i).frame), t)
  {
    var f := Pde(m, t, i).frame;
    var m2 := FreePage(Store(m1, m.space[t], i, ZERO), f);
    assert GoodPde(m, Pde(m, t, i));
    assert Holds(m, Table(t, i), f) && Holds(m, Dir(t), m.space[t]);
    Unmapped(m, f, Table(t, i));
    Unmapped(m, m.space[t], Dir(t));
    forall t' | t' in m.space && t' != t ensures Undisturbed(m, m2, t') {
    }
  }

  // ---------- clear_page_tables and free_page_tables ----------

  /** After n rounds the first n user entries are empty and the rest are as before. */
  ghost predicate TablesFreed(m: Memory, m': Memory, t: nat, n: nat) {
    && SameFrame(m, m') && m'.kernel == m.kernel && t in m.space
    && (forall i: nat :: i < ENTRIES ==>
          Pde(m', t, i) == if i < n && i < USER_ENTRIES then ZERO else Pde(m, t, i))
  }

  ghost predicate TablesDone(m: Memory, m': Memory, t: nat, n: nat) {
    Inv(m') && SameReserved(m, m') && TablesFreed(m, m', t, n) && OthersUndisturbed(m, m', t)
  }

  lemma {:induction false} FreeTablesAll(m: Memory, t: nat, n: nat)
    requires Inv(m) && t in m.space && n <= ENTRIES
    ensures TablesDone(m, FreeTables(m, m.space[t], n), t, n)
  {
    hide Inv;
    if n == 0 {
      forall t' | t' in m.space && t' != t ensures Undisturbed(m, m, t') {
      }
    } else {
      FreeTablesAll(m, t, n - 1);
      FreeTablesRound(m, FreeTables(m, m.space[t], n - 1), t, n - 1);
    }
  }

  lemma FreeTablesRound(m: Memory, m1: Memory, t: nat, i: nat)
    requires TablesDone(m, m1, t, i) && i < ENTRIES
    ensures TablesDone(m, FreeOneTable(m1, m.space[t], i), t, i + 1)
  {
    FreeTableRound(m1, t, i);
    OthersTrans(m, m1, FreeOneTable(m1, m.space[t], i), t);
  }

  lemma FreeTableRound(m: Memory, t: nat, i: nat)
    requires Inv(m) && t in m.space && i < ENTRIES
    ensures var m' := FreeOneTable(m, m.space[t], i);
            && Inv(m') && SameReserved(m, m') && m'.kernel == m.kernel && OthersUndisturbed(m, m', t)
            && (forall i': nat :: i' < ENTRIES ==>
                  Pde(m', t, i') == if i' == i && i < USER_ENTRIES then ZERO else Pde(m, t, i'))
  {
    if i < USER_ENTRIES {
      FreeUserTable(m, t, i);
    } else {
      assert KernelPde(m, Pde(m, t, i));
      forall t' | t' in m.space && t' != t ensures Undisturbed(m, m, t') {
      }
    }
  }

  /** exec empties 0-3 GB of the current task and disturbs nobody else. */
  lemma ClearTask(m: Memory, t: nat)
    requires Inv(m) && t in m.space
    ensures var m' := ClearPageTables(m, t);
            && Inv(m') && SameReserved(m, m') && m'.kernel == m.kernel
            && EmptySpace(m', t) && OthersUndisturbed(m, m', t)
  {
    FreeTablesAll(m, t, USER_ENTRIES);
  }

  /** exit removes the task's whole space and disturbs nobody else. */
  lemma ExitTask(m: Memory, t: nat)
    requires Inv(m) && t in m.space
    ensures var m1 := FreeTables(m, m.space[t], ENTRIES);
            var m' := FreePageTables(m, t);
            && MayFree(LeaveSpace(m1, t), m.space[t])
            && Inv(m') && SameBounds(m, m') && m'.space == m.space - {t} && m'.kernel == m.kernel
            && (forall f :: 0 <= f < m.low ==> m'.phys[f] == m.phys[f])
            && OthersUndisturbed(m, m', t)
  {
    FreeTablesAll(m, t, ENTRIES);
    var m1 := FreeTables(m, m.space[t], ENTRIES);
    DropDir(m1, t);
    var m' := FreePageTables(m, t);
    forall t' | t' in m.space && t' != t ensures Undisturbed(m, m', t') {
      assert Undisturbed(m, m1, t');
      SpaceLeft(m1, m', t, t');
      UndisturbedTrans(m, m1, m', t');
    }
  }

  lemma SpaceLeft(m: Memory, m': Memory, t: nat, t': nat)
    requires m'.phys == m.phys && m'.space == m.space - {t} && t' in m.space && t' != t
    ensures Undisturbed(m, m', t')
  {
  }
}
