/** When memory runs out: fork and the page faults fail exactly when too few pages are free. */
module PagingLimits {
  import opened PageEntry
  import opened PagingModel
  import opened PagingInvariant
  import opened PagingLeaf
  import opened PagingFrames
  import opened PagingRelease
  import opened PagingFork
  import opened PagingFault

  /** The pages get_free_page can still give. */
  ghost function Spare(m: Memory): (s: set<nat>) {
    set f | m.low <= f < PAGING_PAGES && m.count[f] == 0
  }

  lemma TakeSpare(m: Memory)
    ensures GetFreePage(m).Got? <==> |Spare(m)| > 0
    ensures GetFreePage(m).Got? ==> |Spare(GetFreePage(m).mem)| == |Spare(m)| - 1
  {
    var f := FirstFree(m.count, m.low);
    if GetFreePage(m).Got? {
      assert f in Spare(m);
      assert Spare(GetFreePage(m).mem) == Spare(m) - {f};
    } else {
      assert Spare(m) == {};
    }
  }

  lemma SameSpare(m: Memory, m': Memory)
    requires m'.low == m.low && forall f :: m.low <= f < PAGING_PAGES ==> (m'.count[f] == 0 <==> m.count[f] == 0)
    ensures Spare(m') == Spare(m)
  {
  }

  lemma InUse(m: Memory, p: nat, i: nat, j: nat)
    requires Shape(m) && Exclusive(m) && Counted(m) && IsLeaf(m, p, i, j)
    requires Pte(m, p, i, j).present && Managed(m, Pte(m, p, i, j).frame)
    ensures 1 <= m.count[Pte(m, p, i, j).frame] < NR_TASKS
  {
    assert Holds(m, Leaf(p, i, j), Pte(m, p, i, j).frame);
    Held(m, Pte(m, p, i, j).frame, Leaf(p, i, j));
    CountBound(m, Pte(m, p, i, j).frame);
  }

  /** Copying an entry only counts up a page that is in use. */
  lemma CopyEntrySpare(m: Memory, p: nat, c: nat, i: nat, j: nat)
    requires Inv(m) && CanCopy(m, p, c, i, j)
    requires Pde(m, p, i).frame < PAGING_PAGES && Pde(m, c, i).frame < PAGING_PAGES
    ensures Spare(CopyEntry(m, Pde(m, p, i).frame, Pde(m, c, i).frame, j)) == Spare(m)
  {
    hide Shape, Typed, Exclusive, Counted, Guarded, Swapper;
    var w := Pte(m, p, i, j);
    EntryKind(m, p, i, j);
    if w.present && !Reserved(m, w.frame) && p in m.space {
      InUse(m, p, i, j);
    }
    SameSpare(m, CopyEntry(m, Pde(m, p, i).frame, Pde(m, c, i).frame, j));
  }

  /** A page that is not reserved is managed, and only tasks with a directory of their own map one. */
  lemma EntryKind(m: Memory, p: nat, i: nat, j: nat)
    requires Shape(m) && Typed(m) && Swapper(m) && i < USER_ENTRIES && j < ENTRIES && Pde(m, p, i).frame < PAGING_PAGES
    requires if p in m.space then IsLeaf(m, p, i, j) else p == 0 && i == 0 && j < FIRST_FORK_PAGES
    ensures var w := Pte(m, p, i, j);
            && w == m.phys[Pde(m, p, i).frame][j]
            && (w.present && !Reserved(m, w.frame) ==> p in m.space && Managed(m, w.frame))
  {
    if p in m.space {
      assert GoodPde(m, Pde(m, p, i)) && GoodPte(m, Pte(m, p, i, j));
    }
  }

  lemma {:induction false} CopyEntriesSpare(m: Memory, p: nat, c: nat, i: nat, n: nat, f: nat, g: nat)
    requires Inv(m) && CanCopyTable(m, p, c, i, n) && f == Pde(m, p, i).frame && g == Pde(m, c, i).frame
    ensures f < PAGING_PAGES && g < PAGING_PAGES && Spare(CopyEntries(m, f, g, n)) == Spare(m)
    decreases n
  {
    CopyStart(m, p, c, i, n);
    if n == 0 {
    } else {
      CopyEntriesSpare(m, p, c, i, n - 1, f, g);
      EntriesRound(m, p, c, i, n - 1, n, f, g);
    }
  }

  lemma EntriesRound(m: Memory, p: nat, c: nat, i: nat, j: nat, n: nat, f: nat, g: nat)
    requires Inv(m) && CanCopyTable(m, p, c, i, n) && f == Pde(m, p, i).frame && g == Pde(m, c, i).frame && j < n
    requires f < PAGING_PAGES && g < PAGING_PAGES
    ensures Spare(CopyEntry(CopyEntries(m, f, g, j), f, g, j)) == Spare(CopyEntries(m, f, g, j))
  {
    var m1 := CopyEntriesAll(m, p, c, i, j, f, g);
    RoundSpare(m, m1, p, c, i, j, n);
  }

  lemma RoundSpare(m: Memory, m1: Memory, p: nat, c: nat, i: nat, j: nat, n: nat)
    requires Swapper(m) && CanCopyTable(m, p, c, i, n) && CopyDone(m, m1, p, c, i, j) && j < n
    requires Pde(m, p, i).frame < PAGING_PAGES && Pde(m, c, i).frame < PAGING_PAGES
    ensures Spare(CopyEntry(m1, Pde(m, p, i).frame, Pde(m, c, i).frame, j)) == Spare(m1)
  {
    if p !in m.space {
      SameSource(m, m1, p, i, j);
    }
    assert SameTarget(Pte(m, c, i, j), Pte(m1, c, i, j));
    assert Pde(m1, c, i) == Pde(m, c, i) && Pde(m1, p, i) == Pde(m, p, i);
    CopyEntrySpare(m1, p, c, i, j);
  }

  // ---------- how many tables a fork needs ----------

  /** The parent's tables among the first n directory entries. */
  ghost function Tables(m: Memory, p: nat, n: nat): nat
    requires n <= ENTRIES
  {
    if n == 0 then 0 else Tables(m, p, n - 1) + (if n - 1 < USER_ENTRIES && Pde(m, p, n - 1).present then 1 else 0)
  }

  lemma {:induction false} SameTables(m: Memory, m': Memory, p: nat, n: nat)
    requires n <= ENTRIES && forall i: nat :: i < USER_ENTRIES ==> (Pde(m', p, i).present <==> Pde(m, p, i).present)
    ensures Tables(m', p, n) == Tables(m, p, n)
  {
    if n == 0 {
    } else {
      SameTables(m, m', p, n - 1);
    }
  }

  lemma UserTableSpare(m: Memory, p: nat, c: nat, i: nat, pages: nat)
    requires Inv(m) && ForkPair(m, p, c, pages) && i < USER_ENTRIES && Pde(m, c, i) == ZERO
    requires Pde(m, p, i).present && Pde(m, p, i).frame < m.high && (p !in m.space ==> i == 0)
    requires GetFreePage(m).Got?
    ensures |Spare(CopyTable(m, Cr3(m, p), m.space[c], i, pages).mem)| == |Spare(m)| - 1
  {
    TakeSpare(m);
    GrowTable(m, c, i);
    var g := GetFreePage(m).page;
    var m1 := AttachTable(GetFreePage(m).mem, m.space[c], i, g);
    SourceKept(m, m1, p, i);
    CopyEntriesSpare(m1, p, c, i, pages, Pde(m, p, i).frame, g);
    SameSpare(GetFreePage(m).mem, m1);
  }

  /** One directory entry takes one page if the parent has a table there, and fails only for want
      of it. */
  lemma TableSpare(m: Memory, p: nat, c: nat, i: nat, pages: nat)
    requires Inv(m) && ForkPair(m, p, c, pages) && i < ENTRIES && Pde(m, c, i) == ZERO
    ensures var need := if i < USER_ENTRIES && Pde(m, p, i).present then 1 else 0;
            var r := CopyTable(m, Cr3(m, p), m.space[c], i, pages);
            (r.ok <==> need <= |Spare(m)|) && (r.ok ==> |Spare(r.mem)| == |Spare(m)| - need)
  {
    ParentEntry(m, p, i);
    TakeSpare(m);
    var w := Pde(m, p, i);
    var r := CopyTable(m, Cr3(m, p), m.space[c], i, pages);
    if w == ZERO {
    } else if i >= USER_ENTRIES {
      SameSpare(m, r.mem);
    } else if GetFreePage(m).Got? {
      UserTableSpare(m, p, c, i, pages);
    }
  }

  lemma {:induction false} TablesSpare(m: Memory, p: nat, c: nat, n: nat, pages: nat)
    requires Inv(m) && ForkPair(m, p, c, pages) && n <= ENTRIES
    requires forall i: nat :: i < ENTRIES ==> Pde(m, c, i) == ZERO
    ensures var r := CopyTables(m, Cr3(m, p), m.space[c], pages, n);
            && (r.ok <==> Tables(m, p, n) <= |Spare(m)|)
            && (r.ok ==> |Spare(r.mem)| == |Spare(m)| - Tables(m, p, n))
  {
    hide Inv;
    if n == 0 {
    } else {
      TablesSpare(m, p, c, n - 1, pages);
      if CopyTables(m, Cr3(m, p), m.space[c], pages, n - 1).ok {
        OneMoreTable(m, p, c, n - 1, pages);
      }
    }
  }

  lemma OneMoreTable(m: Memory, p: nat, c: nat, i: nat, pages: nat)
    requires Inv(m) && ForkPair(m, p, c, pages) && i < ENTRIES && forall i: nat :: i < ENTRIES ==> Pde(m, c, i) == ZERO
    requires CopyTables(m, Cr3(m, p), m.space[c], pages, i).ok
    ensures var need := if i < USER_ENTRIES && Pde(m, p, i).present then 1 else 0;
            var r := CopyTables(m, Cr3(m, p), m.space[c], pages, i);
            var r' := CopyTable(r.mem, Cr3(m, p), m.space[c], i, pages);
            (r'.ok <==> need <= |Spare(r.mem)|) && (r'.ok ==> |Spare(r'.mem)| == |Spare(r.mem)| - need)
  {
    CopyTablesAll(m, p, c, i, pages);
    TablesRound(m, CopyTables(m, Cr3(m, p), m.space[c], pages, i), p, c, i, pages);
  }

  lemma TablesRound(m: Memory, r: Outcome, p: nat, c: nat, i: nat, pages: nat)
    requires ForkPair(m, p, c, pages) && TablesCopied(m, r, p, c, i, pages) && i < ENTRIES && r.ok
    ensures var need := if i < USER_ENTRIES && Pde(m, p, i).present then 1 else 0;
            var r' := CopyTable(r.mem, Cr3(m, p), m.space[c], i, pages);
            (r'.ok <==> need <= |Spare(r.mem)|) && (r'.ok ==> |Spare(r'.mem)| == |Spare(r.mem)| - need)
  {
    ParentTable(m, r.mem, p, c, i);
    TableSpare(r.mem, p, c, i, pages);
  }

  /** The parent's directory is not changed by copying from it. */
  lemma ParentTable(m: Memory, m': Memory, p: nat, c: nat, i: nat)
    requires (p in m.space || p == 0) && p != c && i < ENTRIES && SameReserved(m, m') && OthersUndisturbed(m, m', c)
    ensures i < USER_ENTRIES ==> (Pde(m', p, i).present <==> Pde(m, p, i).present)
    ensures Cr3(m', p) == Cr3(m, p)
  {
    if p in m.space {
      assert Undisturbed(m, m', p);
      assert i < USER_ENTRIES ==> SameTarget(Pde(m, p, i), Pde(m', p, i));
    }
  }

  /** FORK FAILS EXACTLY WHEN MEMORY IS SHORT: it needs a page for the task, one for the directory
      and one for every table of the parent. */
  lemma ForkExact(m: Memory, p: nat, c: nat)
    requires Inv(m) && (p in m.space || p == 0) && c !in m.space && 1 <= c < NR_TASKS
    ensures Fork(m, p, c).ok <==> Tables(m, p, ENTRIES) + 2 <= |Spare(m)|
  {
    TakeSpare(m);
    if GetFreePage(m).Got? {
      var m1 := GetFreePage(m).mem;
      GetFree(m);
      SameTables(m, m1, p, ENTRIES);
      SpaceExact(m1, p, c);
    }
  }

  lemma SpaceExact(m: Memory, p: nat, c: nat)
    requires Inv(m) && (p in m.space || p == 0) && c !in m.space && 1 <= c < NR_TASKS
    ensures CopyPageTables(m, p, c).ok <==> Tables(m, p, ENTRIES) + 1 <= |Spare(m)|
  {
    TakeSpare(m);
    if GetFreePage(m).Got? {
      FreshSpace(m, c);
      GetFree(m);
      var m1 := AttachDir(GetFreePage(m).mem, c, GetFreePage(m).page);
      SameSpare(GetFreePage(m).mem, m1);
      ParentDirectory(m, m1, p, c);
      TablesSpare(m1, p, c, ENTRIES, PagesToCopy(p));
    }
  }

  lemma ParentDirectory(m: Memory, m1: Memory, p: nat, c: nat)
    requires NewSpace(m, m1, c) && (p in m.space || p == 0) && c != 0
    ensures Cr3(m1, p) == Cr3(m, p) && Tables(m1, p, ENTRIES) == Tables(m, p, ENTRIES)
  {
    forall i: nat | i < USER_ENTRIES ensures Pde(m1, p, i).present <==> Pde(m, p, i).present {
      if p in m.space {
        assert Undisturbed(m, m1, p);
        assert SameTarget(Pde(m, p, i), Pde(m1, p, i));
      }
    }
    SameTables(m, m1, p, ENTRIES);
  }

  /** A write fault kills its task exactly when the page is shared and no page is free. */
  lemma WriteFaultExact(m: Memory, t: nat, i: nat, j: nat)
    requires Inv(m) && IsLeaf(m, t, i, j) && Pte(m, t, i, j).present
    ensures WpFault(m, t, i, j).ok <==> m.count[Pte(m, t, i, j).frame] == 1 || |Spare(m)| > 0
  {
    TakeSpare(m);
    assert GoodPde(m, Pde(m, t, i)) && GoodPte(m, Pte(m, t, i, j));
    if GetFreePage(m).Got? {
      GetFree(m);
    }
  }

  /** A missing page is supplied exactly when a page is free for it, and one for its table if that
      is missing too. */
  lemma EmptyPageExact(m: Memory, t: nat, i: nat, j: nat)
    requires Inv(m) && Missing(m, t, i, j)
    ensures EmptyPage(m, t, i, j).ok <==> (if Pde(m, t, i).present then 1 else 2) <= |Spare(m)|
  {
    TakeSpare(m);
    if GetFreePage(m).Got? {
      var m1 := GetFreePage(m).mem;
      GetFree(m);
      TakeSpare(m1);
      EnsureTableReady(m1, t, i);
    }
  }
}
