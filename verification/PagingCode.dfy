/** mm/memory.c as it is written: loops over mem_map and over page-table words that are
    changed in place.  Every method leaves exactly the state the model function gives, and the
    panics of free_page are unreachable from states that satisfy the invariant.
 */
module PagingCode {
  import opened PageEntry
  import opened PagingModel
  import opened PagingInvariant
  import opened PagingLeaf
  import opened PagingFrames
  import opened PagingRelease
  import opened PagingFork
  import opened PagingFault
  import opened PagingRuns

  class MemoryManager {
    /** mem_map, and physical memory by frames. */
    const memMap: array<nat>
    const phys: array<Page>
    var lowMemory: nat
    var highMemory: nat
    /** tss.cr3 of every task that does not run on swapper_pg_dir. */
    var cr3: map<nat, Frame>
    /** Pages that the kernel holds in variables and structures of its own. */
    ghost var held: set<Frame>

    ghost predicate Valid()
      reads this
    {
      && memMap.Length == PAGING_PAGES && phys.Length == PAGING_PAGES
      && FIRST_FORK_PAGES <= lowMemory <= highMemory <= PAGING_PAGES
    }

    ghost function State(): (m: Memory)
      reads this, memMap, phys
      requires Valid()
    {
      Mem(lowMemory, highMemory, memMap[..], phys[..], cr3, held)
    }

    /** mem_init, given physical memory as boot/head.s left it. */
    constructor (memory: array<Page>, startMem: nat, endMem: nat)
      requires memory.Length == PAGING_PAGES && FIRST_FORK_PAGES <= startMem <= endMem <= PAGING_PAGES
      ensures Valid() && fresh(memMap) && phys == memory
      ensures cr3 == map[] && held == {} && lowMemory == startMem && highMemory == endMem
      ensures forall f :: 0 <= f < PAGING_PAGES ==> memMap[f] == if startMem <= f < endMem then 0 else USED
      ensures phys[..] == old(memory[..]) && (Swapper(State()) ==> Booted(State()))
    {
      lowMemory, highMemory := startMem, endMem;
      cr3, held := map[], {};
      phys := memory;
      var counts := new nat[PAGING_PAGES];
      for i := 0 to PAGING_PAGES
        invariant forall f :: 0 <= f < i ==> counts[f] == USED
      {
        counts[i] := USED;
      }
      var i, left := startMem, endMem - startMem;
      while left > 0
        invariant 0 <= left <= endMem - startMem && i == endMem - left
        invariant forall f :: 0 <= f < PAGING_PAGES ==> counts[f] == if startMem <= f < i then 0 else USED
      {
        counts[i] := 0;
        i, left := i + 1, left - 1;
      }
      memMap := counts;
    }

    /** The number of a free page, now zeroed and counted once; 0 when there is none. */
    method GetFreePage() returns (page: nat)
      requires Valid()
      modifies this`held, memMap, phys
      ensures Valid()
      ensures match PagingModel.GetFreePage(old(State()))
              case NoPage => page == 0 && State() == old(State())
              case Got(p, m) => page == p && p >= lowMemory && State() == m
    {
      page := 0;
      var i := lowMemory;
      while i < PAGING_PAGES
        invariant lowMemory <= i <= PAGING_PAGES
        invariant FirstFree(memMap[..], lowMemory) == FirstFree(memMap[..], i)
      {
        if memMap[i] >= USED || memMap[i] != 0 {
          i := i + 1;
          continue;
        }
        memMap[i] := 1;
        ZeroFrame(i);
        held := held + {i};
        return i;
      }
    }

    method ZeroFrame(f: Frame)
      requires Valid()
      modifies phys
      ensures phys[..] == old(phys[..])[f := ZeroPage()]
    {
      for j := 0 to 1024
        invariant forall g :: 0 <= g < PAGING_PAGES && g != f ==> phys[g] == old(phys[g])
        invariant forall k :: 0 <= k < j ==> phys[f][k] == ZERO
      {
        phys[f] := phys[f][j := ZERO];
      }
      assert phys[f] == ZeroPage();
    }

    method FreePage(page: nat)
      requires Valid() && MayFree(State(), page)
      modifies memMap
      ensures Valid() && State() == PagingModel.FreePage(old(State()), page)
    {
      if memMap[page] >= USED {
        return;
      }
      memMap[page] := memMap[page] - 1;
    }

    /** free_one_table on entry i of the directory of task t. */
    method FreeOneTable(d: Frame, i: nat, ghost t: nat)
      requires Valid() && Inv(State()) && t in cr3 && cr3[t] == d && i < ENTRIES
      modifies memMap, phys
      ensures Valid() && State() == PagingModel.FreeOneTable(old(State()), d, i)
    {
      ghost var m := State();
      var table := phys[d][i];
      if table == ZERO {
        return;
      }
      if table.frame >= highMemory || !table.present {
        return;
      }
      if memMap[table.frame] >= USED {
        return;
      }
      UserEntry(m, t, i);
      var j := 0;
      while j < ENTRIES
        invariant j <= ENTRIES && State() == FreeEntries(m, table.frame, j)
      {
        FreeEntriesSafe(m, t, i, j);
        var pg := phys[table.frame][j];
        if pg != ZERO && memMap[pg.frame] < USED {
          phys[table.frame] := phys[table.frame][j := ZERO];
          if pg.present {
            FreePage(pg.frame);
          }
        }
        j := j + 1;
      }
      TableSafe(m, t, i);
      phys[d] := phys[d][i := ZERO];
      FreePage(table.frame);
    }

    /** clear_page_tables: exec drops 0-3 GB.  Task 0 has no entry in cr3 and may not call it. */
    method ClearPageTables(t: nat)
      requires Valid() && Inv(State()) && t in cr3
      modifies memMap, phys
      ensures Valid() && State() == PagingModel.ClearPageTables(old(State()), t)
    {
      ghost var m := State();
      var d := cr3[t];
      for i := 0 to USER_ENTRIES
        invariant State() == FreeTables(m, d, i)
      {
        FreeTablesAll(m, t, i);
        FreeOneTable(d, i, t);
      }
    }

    /** free_page_tables: exit drops all tables and the directory, and the task runs on swapper_pg_dir. */
    method FreePageTables(t: nat)
      requires Valid() && Inv(State()) && t in cr3
      modifies this`cr3, memMap, phys
      ensures Valid() && State() == PagingModel.FreePageTables(old(State()), t)
    {
      ghost var m := State();
      var d := cr3[t];
      for i := 0 to ENTRIES
        invariant State() == FreeTables(m, d, i)
      {
        FreeTablesAll(m, t, i);
        FreeOneTable(d, i, t);
      }
      ExitTask(m, t);
      cr3 := cr3 - {t};
      FreePage(d);
    }

    /** The inner loop of copy_page_tables. */
    method CopyEntries(from: Frame, to: Frame, pages: nat)
      requires Valid() && pages <= ENTRIES
      requires from != to && MapsFrames(State(), from)
      modifies memMap, phys
      ensures Valid() && State() == PagingModel.CopyEntries(old(State()), from, to, pages)
    {
      ghost var m := State();
      for j := 0 to pages
        invariant State() == PagingModel.CopyEntries(m, from, to, j)
        invariant MapsFrames(State(), from)
      {
        var pg := phys[from][j];
        if pg == ZERO {
          continue;
        }
        if !pg.present {
          continue;
        }
        var ro: Word := pg.(rw := false);
        phys[to] := phys[to][j := ro];
        if memMap[pg.frame] >= USED {
          continue;
        }
        phys[from] := phys[from][j := ro];
        memMap[pg.frame] := (memMap[pg.frame] + 1) % 256;
      }
    }

    /** copy_page_tables, from the running task `current` to task t. */
    method CopyPageTables(current: nat, t: nat) returns (ok: bool)
      requires Valid() && Inv(State()) && (current in cr3 || current == 0) && t !in cr3 && 1 <= t < NR_TASKS
      modifies this, memMap, phys
      ensures Valid() && Outcome(ok, State()) == PagingModel.CopyPageTables(old(State()), current, t)
    {
      hide Inv;
      ghost var m := State();
      var from: Frame := if current in cr3 then cr3[current] else SWAPPER;
      var to := GetFreePage();
      if to == 0 {
        return false;
      }
      ForkReady(m, current, t);
      cr3, held := cr3[t := to], held - {to};
      ghost var m1 := State();
      var pages := if current == 0 then FIRST_FORK_PAGES else ENTRIES;
      ok := CopyTables(from, to, pages, current, t);
      if !ok {
        UndoReady(m1, State(), current, t, pages);
        FreePageTables(t);
      }
    }

    /** The outer loop of copy_page_tables, up to the first table that cannot be had. */
    method CopyTables(from: Frame, to: Frame, pages: nat, ghost p: nat, ghost c: nat) returns (ok: bool)
      requires Valid() && Inv(State()) && ForkPair(State(), p, c, pages)
      requires from == Cr3(State(), p) && cr3[c] == to
      requires forall i: nat :: i < ENTRIES ==> Pde(State(), c, i) == ZERO
      modifies this`held, memMap, phys
      ensures Valid() && Outcome(ok, State()) == PagingModel.CopyTables(old(State()), from, to, pages, ENTRIES)
    {
      ghost var m := State();
      ok := true;
      for i := 0 to ENTRIES
        invariant ok && Outcome(true, State()) == PagingModel.CopyTables(m, from, to, pages, i)
      {
        ok := CopyRound(from, to, i, pages, p, c, m);
        if !ok {
          CopyTablesFail(m, from, to, pages, i + 1);
          return;
        }
      }
    }

    method CopyRound(from: Frame, to: Frame, i: nat, pages: nat, ghost p: nat, ghost c: nat, ghost m: Memory)
      returns (ok: bool)
      requires Valid() && Inv(m) && ForkPair(m, p, c, pages) && i < ENTRIES
      requires from == Cr3(m, p) && m.space[c] == to && forall i: nat :: i < ENTRIES ==> Pde(m, c, i) == ZERO
      requires Outcome(true, State()) == PagingModel.CopyTables(m, from, to, pages, i)
      modifies this`held, memMap, phys
      ensures Valid() && Outcome(ok, State()) == PagingModel.CopyTables(m, from, to, pages, i + 1)
    {
      RoundReady(m, State(), p, c, i, pages);
      ok := CopyTable(from, to, i, pages, p, c);
    }

    /** One round of the outer loop of copy_page_tables. */
    method CopyTable(from: Frame, to: Frame, i: nat, pages: nat, ghost p: nat, ghost c: nat) returns (ok: bool)
      requires Valid() && Inv(State()) && i < ENTRIES && ForkPair(State(), p, c, pages)
      requires from == Cr3(State(), p) && cr3[c] == to && Pde(State(), c, i) == ZERO
      modifies this`held, memMap, phys
      ensures Valid() && Outcome(ok, State()) == PagingModel.CopyTable(old(State()), from, to, i, pages)
    {
      hide Inv;
      ghost var m := State();
      var w := phys[from][i];
      if w == ZERO {
        return true;
      }
      if w.frame >= highMemory || !w.present {
        return true;
      }
      if memMap[w.frame] >= USED && i >= USER_ENTRIES {
        phys[to] := phys[to][i := w];
        return true;
      }
      var table := GetFreePage();
      if table == 0 {
        return false;
      }
      phys[to] := phys[to][i := TableEntry(table)];
      held := held - {table};
      assert State() == AttachTable(PagingModel.GetFreePage(m).mem, to, i, table);
      ChildTable(m, p, c, i);
      CopyEntries(w.frame, table, pages);
      return true;
    }

    /** put_page: map a page the kernel holds at directory entry i, table entry j of task t. */
    method PutPage(t: nat, page: Frame, i: nat, j: nat) returns (ok: bool)
      requires Valid() && Inv(State()) && t in cr3 && i < USER_ENTRIES && j < ENTRIES
      requires page in held
      modifies this`held, memMap, phys
      ensures Valid() && Outcome(ok, State()) == PagingModel.PutPage(old(State()), t, page, i, j)
    {
      ok := EnsureTable(t, i);
      if !ok {
        return;
      }
      var table := phys[cr3[t]][i].frame;
      phys[table] := phys[table][j := MappedEntry(page)];
      held := held - {page};
    }

    /** The directory lookup that put_page and try_to_share share. */
    method EnsureTable(t: nat, i: nat) returns (ok: bool)
      requires Valid() && Inv(State()) && t in cr3 && i < USER_ENTRIES
      modifies this`held, memMap, phys
      ensures Valid() && Outcome(ok, State()) == PagingModel.EnsureTable(old(State()), t, i)
      ensures ok ==> phys[cr3[t]][i].frame < PAGING_PAGES
    {
      hide Inv;
      EnsureTableReady(State(), t, i);
      var d := cr3[t];
      if phys[d][i].present {
        return true;
      }
      var table := GetFreePage();
      if table == 0 {
        return false;
      }
      phys[d] := phys[d][i := TableEntry(table)];
      held := held - {table};
      return true;
    }

    /** un_wp_page on a present entry; false where the source calls oom(). */
    method UnWpPage(t: nat, i: nat, j: nat) returns (ok: bool)
      requires Valid() && Inv(State()) && IsLeaf(State(), t, i, j) && Pte(State(), t, i, j).present
      modifies this`held, memMap, phys
      ensures Valid() && Outcome(ok, State()) == WpFault(old(State()), t, i, j)
    {
      ghost var m := State();
      EntryFrames(m, t, i, j);
      var table := phys[cr3[t]][i].frame;
      var w := phys[table][j];
      var from := w.frame;
      if memMap[from] < USED && memMap[from] == 1 {
        var rw: Word := w.(rw := true);
        phys[table] := phys[table][j := rw];
        return true;
      }
      var to := GetFreePage();
      if to == 0 {
        return false;
      }
      FreshIsNew(m, t, i, j);
      ReplaceByCopy(table, j, to);
      return true;
    }

    /** The second half of un_wp_page: the entry gets the copy, the old page loses a reference. */
    method ReplaceByCopy(table: Frame, j: nat, to: Frame)
      requires Valid() && j < ENTRIES && phys[table][j].frame < PAGING_PAGES
      requires table != to && phys[table][j].frame != to
      modifies this`held, memMap, phys
      ensures Valid() && State() == CopyOnWrite(old(State()), table, j, to)
    {
      var from := phys[table][j].frame;
      if memMap[from] < USED {
        memMap[from] := (memMap[from] + 255) % 256;
      }
      phys[table] := phys[table][j := PrivateEntry(to)];
      CopyPage(from, to);
      held := held - {to};
    }

    method CopyPage(from: Frame, to: Frame)
      requires Valid()
      modifies phys
      ensures phys[..] == old(phys[..])[to := old(phys[from])]
    {
      for k := 0 to 1024
        invariant forall g :: 0 <= g < PAGING_PAGES && g != to ==> phys[g] == old(phys[g])
        invariant forall k' :: 0 <= k' < k ==> phys[to][k'] == old(phys[from])[k']
        invariant from == to ==> phys[to] == old(phys[to])
      {
        phys[to] := phys[to][k := phys[from][k]];
      }
      assert phys[to] == old(phys[from]);
    }

    method WriteVerify(t: nat, i: nat, j: nat) returns (ok: bool)
      requires Valid() && Inv(State()) && t in cr3 && i < USER_ENTRIES && j < ENTRIES
      modifies this`held, memMap, phys
      ensures Valid() && Outcome(ok, State()) == PagingModel.WriteVerify(old(State()), t, i, j)
    {
      var w := phys[cr3[t]][i];
      if !w.present {
        return true;
      }
      DirectoryFrame(State(), t, i);
      var pte := phys[w.frame][j];
      if pte.present && !pte.rw {
        ok := UnWpPage(t, i, j);
        return;
      }
      return true;
    }

    method GetEmptyPage(t: nat, i: nat, j: nat) returns (ok: bool)
      requires Valid() && Inv(State()) && Missing(State(), t, i, j)
      modifies this`held, memMap, phys
      ensures Valid() && Outcome(ok, State()) == EmptyPage(old(State()), t, i, j)
    {
      ghost var m := State();
      var page := GetFreePage();
      if page == 0 {
        return false;
      }
      TakePage(m, t, i, j);
      ok := PlaceOrFree(t, page, i, j);
    }

    /** put_page, and free_page with oom() when it fails. */
    method PlaceOrFree(t: nat, page: Frame, i: nat, j: nat) returns (ok: bool)
      requires Valid() && Inv(State()) && Missing(State(), t, i, j) && page in held
      modifies this`held, memMap, phys
      ensures Valid() && Outcome(ok, State()) == PlacePage(old(State()), t, page, i, j)
    {
      PutPageMaps(State(), t, page, i, j);
      ok := PutPage(t, page, i, j);
      if !ok {
        GiveBack(State(), page);
        FreePage(page);
        held := held - {page};
      }
    }

    /** try_to_share: true when task t now maps the clean page of task p. */
    method TryToShare(t: nat, p: nat, i: nat, j: nat) returns (ok: bool)
      requires Valid() && Inv(State()) && Missing(State(), t, i, j) && p in cr3 && p != t
      modifies this`held, memMap, phys
      ensures Valid() && Outcome(ok, State()) == PagingModel.TryToShare(old(State()), t, p, i, j)
    {
      hide Inv;
      ghost var m := State();
      var from := phys[cr3[p]][i];
      if !from.present || from.frame >= PAGING_PAGES {
        return false;
      }
      var w := phys[from.frame][j];
      if !w.present || w.dirty {
        return false;
      }
      if w.frame >= highMemory {
        return false;
      }
      if memMap[w.frame] >= USED {
        return false;
      }
      EnsureTableReady(m, t, i);
      ok := EnsureTable(t, i);
      if !ok {
        return;
      }
      DonorKept(m, State(), t, p, i, j);
      var to := phys[cr3[t]][i].frame;
      ProtectBoth(from.frame, to, j, w);
    }

    /** Both entries become read-only and the page gains a reference. */
    method ProtectBoth(from: Frame, to: Frame, j: nat, w: Word)
      requires Valid() && j < ENTRIES && phys[from][j] == w && w.frame < PAGING_PAGES
      modifies memMap, phys
      ensures Valid() && State() == ShareEntry(old(State()), from, to, j, w.(rw := false))
    {
      var ro: Word := w.(rw := false);
      phys[from] := phys[from][j := ro];
      phys[to] := phys[to][j := phys[from][j]];
      memMap[w.frame] := (memMap[w.frame] + 1) % 256;
    }

    /** share_page over the tasks that run the same executable. */
    method SharePage(t: nat, donors: seq<nat>, i: nat, j: nat) returns (ok: bool)
      requires Valid() && Inv(State()) && Missing(State(), t, i, j) && AreDonors(State(), donors, t)
      modifies this`held, memMap, phys
      ensures Valid() && Outcome(ok, State()) == PagingModel.SharePage(old(State()), t, donors, i, j)
    {
      ghost var m := State();
      for n := 0 to |donors|
        invariant Valid() && Inv(State()) && Missing(State(), t, i, j) && AreDonors(State(), donors, t)
        invariant PagingModel.SharePage(m, t, donors, i, j) == PagingModel.SharePage(State(), t, donors[n..], i, j)
      {
        ShareOne(State(), t, donors[n], i, j);
        ok := TryToShare(t, donors[n], i, j);
        if ok {
          return;
        }
        assert donors[n..][1..] == donors[n + 1..];
      }
      return false;
    }

    /** do_no_page at (i, j): zeros beyond the data, else shared or read from the executable. */
    method DoNoPage(t: nat, inFile: bool, donors: seq<nat>, image: Page, i: nat, j: nat) returns (ok: bool)
      requires Valid() && Inv(State()) && Missing(State(), t, i, j) && AreDonors(State(), donors, t)
      modifies this`held, memMap, phys
      ensures Valid() && Outcome(ok, State()) ==
                         if inFile then LoadPage(old(State()), t, donors, image, i, j)
                         else EmptyPage(old(State()), t, i, j)
    {
      if !inFile {
        ok := GetEmptyPage(t, i, j);
        return;
      }
      ShareAny(State(), t, donors, i, j);
      ok := SharePage(t, donors, i, j);
      if ok {
        return;
      }
      ok := ReadIn(t, image, i, j);
    }

    method ReadIn(t: nat, image: Page, i: nat, j: nat) returns (ok: bool)
      requires Valid() && Inv(State()) && Missing(State(), t, i, j)
      modifies this`held, memMap, phys
      ensures Valid() && Outcome(ok, State()) == PagingModel.ReadIn(old(State()), t, image, i, j)
    {
      hide Inv;
      ghost var m := State();
      var page := GetFreePage();
      if page == 0 {
        return false;
      }
      TakePage(m, t, i, j);
      FillHeld(State(), page, image);
      phys[page] := image;
      ok := PlaceOrFree(t, page, i, j);
    }
  }

  /** Every present entry of the table in frame f names a frame of physical memory. */
  predicate MapsFrames(m: Memory, f: Frame) {
    forall j: nat :: j < ENTRIES && m.phys[f][j].present ==> m.phys[f][j].frame < PAGING_PAGES
  }

  /** A managed directory entry is one of the user's. */
  lemma UserEntry(m: Memory, t: nat, i: nat)
    requires Inv(m) && t in m.space && i < ENTRIES && Pde(m, t, i) != ZERO && !Reserved(m, Pde(m, t, i).frame)
    ensures i < USER_ENTRIES
  {
    assert i >= USER_ENTRIES ==> KernelPde(m, Pde(m, t, i));
  }

  /** Inside the loop of free_one_table no free_page panics. */
  lemma FreeEntriesSafe(m: Memory, t: nat, i: nat, j: nat)
    requires Inv(m) && t in m.space && i < USER_ENTRIES && Pde(m, t, i).present && j < ENTRIES
    ensures Pde(m, t, i).frame < PAGING_PAGES
    ensures var f := Pde(m, t, i).frame;
            var m1 := FreeEntries(m, f, j);
            var w := m1.phys[f][j];
            w.frame < PAGING_PAGES
            && (w != ZERO && !Reserved(m1, w.frame) ==> w.present && MayFree(Store(m1, f, j, ZERO), w.frame))
  {
    FreeEntriesAll(m, t, i, j);
    FreeEntryStep(FreeEntries(m, Pde(m, t, i).frame, j), t, i, j);
  }

  /** Nor does the one that frees the table itself. */
  lemma TableSafe(m: Memory, t: nat, i: nat)
    requires Inv(m) && t in m.space && i < USER_ENTRIES && Pde(m, t, i).present
    ensures Pde(m, t, i).frame < PAGING_PAGES
    ensures MayFree(Store(FreeEntries(m, Pde(m, t, i).frame, ENTRIES), m.space[t], i, ZERO), Pde(m, t, i).frame)
  {
    FreeEntriesAll(m, t, i, ENTRIES);
    DropTable(FreeEntries(m, Pde(m, t, i).frame, ENTRIES), t, i);
  }

  lemma RoundReady(m: Memory, m1: Memory, p: nat, c: nat, i: nat, pages: nat)
    requires Inv(m) && ForkPair(m, p, c, pages) && i < ENTRIES
    requires forall i: nat :: i < ENTRIES ==> Pde(m, c, i) == ZERO
    requires Outcome(true, m1) == CopyTables(m, Cr3(m, p), m.space[c], pages, i)
    ensures Inv(m1) && Pde(m1, c, i) == ZERO && m1.space == m.space
  {
    CopyTablesAll(m, p, c, i, pages);
  }

  lemma ForkReady(m: Memory, p: nat, c: nat)
    requires Inv(m) && (p in m.space || p == 0) && c !in m.space && 1 <= c < NR_TASKS && GetFreePage(m).Got?
    ensures var m1 := AttachDir(GetFreePage(m).mem, c, GetFreePage(m).page);
            && Inv(m1) && ForkPair(m1, p, c, PagesToCopy(p)) && Cr3(m1, p) == Cr3(m, p)
            && forall i: nat :: i < ENTRIES ==> Pde(m1, c, i) == ZERO
  {
    FreshSpace(m, c);
  }

  lemma UndoReady(m: Memory, m1: Memory, p: nat, c: nat, pages: nat)
    requires Inv(m) && ForkPair(m, p, c, pages)
    requires forall i: nat :: i < ENTRIES ==> Pde(m, c, i) == ZERO
    requires Outcome(false, m1) == CopyTables(m, Cr3(m, p), m.space[c], pages, ENTRIES)
    ensures Inv(m1) && m1.space == m.space
  {
    CopyTablesAll(m, p, c, ENTRIES, pages);
  }

  /** Once a round fails, the rest of the loop is not run. */
  lemma {:induction false} CopyTablesFail(m: Memory, from: nat, to: nat, pages: nat, n: nat)
    requires from < PAGING_PAGES && to < PAGING_PAGES && pages <= ENTRIES && n <= ENTRIES
    requires !CopyTables(m, from, to, pages, n).ok
    ensures CopyTables(m, from, to, pages, ENTRIES) == CopyTables(m, from, to, pages, n)
    decreases ENTRIES - n
  {
    if n == ENTRIES {
    } else {
      CopyTablesFail(m, from, to, pages, n + 1);
    }
  }

  lemma ChildTable(m: Memory, p: nat, c: nat, i: nat)
    requires Inv(m) && c in m.space && p != c && (p in m.space || p == 0) && i < ENTRIES && Pde(m, c, i) == ZERO
    requires Pde(m, p, i) != ZERO && !(Reserved(m, Pde(m, p, i).frame) && i >= USER_ENTRIES) && GetFreePage(m).Got?
    ensures var f, g := Pde(m, p, i).frame, GetFreePage(m).page;
            var m' := AttachTable(GetFreePage(m).mem, m.space[c], i, g);
            f < PAGING_PAGES && f != g && MapsFrames(m', f)
  {
    ParentEntry(m, p, i);
    GrowTable(m, c, i);
    SourceBounded(m, AttachTable(GetFreePage(m).mem, m.space[c], i, GetFreePage(m).page), p, c, i);
  }

  /** The parent's table is not the child's new one, and it maps only frames that exist. */
  lemma SourceBounded(m: Memory, m': Memory, p: nat, c: nat, i: nat)
    requires Inv(m) && Inv(m') && i < USER_ENTRIES && p != c && c in m.space && (p in m.space || (p == 0 && i == 0))
    requires SameReserved(m, m') && Pde(m, p, i).present && Pde(m', c, i).present && TableAdded(m, m', c, i)
    ensures Pde(m', p, i) == Pde(m, p, i) && Pde(m, p, i).frame < PAGING_PAGES
    ensures Pde(m, p, i).frame != Pde(m', c, i).frame
    ensures MapsFrames(m', Pde(m, p, i).frame)
  {
    assert GoodPde(m', Pde(m', c, i));
    if p in m.space {
      TablesDiffer(m', p, c, i);
      forall j: nat | j < ENTRIES && m'.phys[Pde(m, p, i).frame][j].present
        ensures m'.phys[Pde(m, p, i).frame][j].frame < PAGING_PAGES
      {
        assert GoodPte(m', Pte(m', p, i, j));
      }
    }
  }

  lemma DirectoryFrame(m: Memory, t: nat, i: nat)
    requires Inv(m) && t in m.space && i < USER_ENTRIES && Pde(m, t, i).present
    ensures Pde(m, t, i).frame < PAGING_PAGES
  {
    assert GoodPde(m, Pde(m, t, i));
  }

  lemma EntryFrames(m: Memory, t: nat, i: nat, j: nat)
    requires Inv(m) && IsLeaf(m, t, i, j) && Pte(m, t, i, j).present
    ensures Pde(m, t, i).frame < PAGING_PAGES && Pte(m, t, i, j).frame < PAGING_PAGES
    ensures Pde(m, t, i).frame != Pte(m, t, i, j).frame
  {
    assert GoodPde(m, Pde(m, t, i)) && GoodPte(m, Pte(m, t, i, j));
    TableNotMapped(m, t, i, j);
  }

  /** The page just allocated is neither the table nor the page of the faulting entry. */
  lemma FreshIsNew(m: Memory, t: nat, i: nat, j: nat)
    requires Inv(m) && IsLeaf(m, t, i, j) && Pte(m, t, i, j).present && GetFreePage(m).Got?
    ensures GetFreePage(m).page != Pde(m, t, i).frame && GetFreePage(m).page != Pte(m, t, i, j).frame
  {
    GetFree(m);
    assert GoodPde(m, Pde(m, t, i));
    assert Holds(m, Table(t, i), Pde(m, t, i).frame) && Holds(m, Leaf(t, i, j), Pte(m, t, i, j).frame);
  }
}
