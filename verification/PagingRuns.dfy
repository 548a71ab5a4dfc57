/** Whole runs of the memory manager: every reachable state satisfies the invariant, and a
    task's memory changes only when that task itself acts.
 */
module PagingRuns {
  import opened Common
  import opened PageEntry
  import opened PagingModel
  import opened PagingInvariant
  import opened PagingLeaf
  import opened PagingFrames
  import opened PagingRelease
  import opened PagingFork
  import opened PagingFault

  /** What can happen between two task switches.  Running out of memory in a fault is the exit
      of the faulting task. */
  datatype Step =
    | ForkStep(p: nat, t: nat)
    | WriteStep(t: nat, i: nat, j: nat, k: nat, v: Word)
    | VerifyStep(t: nat, i: nat, j: nat)
    | EmptyStep(t: nat, i: nat, j: nat)
    | LoadStep(t: nat, donors: seq<nat>, image: Page, i: nat, j: nat)
    | ExecStep(t: nat)
    | ExitStep(t: nat)
    | KernelTakes
    | KernelFrees(f: Frame)
    | KernelFills(f: Frame, image: Page)
    | KernelMaps(t: nat, f: Frame, i: nat, j: nat)
    | KernelStores(t: nat, i: nat, j: nat, k: nat, v: Word)

  predicate Enabled(m: Memory, s: Step) {
    match s
    case ForkStep(p, c) => (p in m.space || p == 0) && c !in m.space && 1 <= c < NR_TASKS
    case WriteStep(t, i, j, k, _) => IsLeaf(m, t, i, j) && Pte(m, t, i, j).present && k < 1024
    case VerifyStep(t, i, j) => t in m.space && i < USER_ENTRIES && j < ENTRIES
    case EmptyStep(t, i, j) => Missing(m, t, i, j)
    case LoadStep(t, donors, _, i, j) => Missing(m, t, i, j) && AreDonors(m, donors, t)
    case ExecStep(t) => t in m.space
    case ExitStep(t) => t in m.space
    case KernelTakes => true
    case KernelFrees(f) => f in m.kernel
    case KernelFills(f, _) => f in m.kernel
    case KernelMaps(t, f, i, j) => Missing(m, t, i, j) && f in m.kernel
    // put_fs_byte for task t, some time after write_verify
    case KernelStores(t, i, j, k, _) =>
      IsLeaf(m, t, i, j) && Pte(m, t, i, j).present && Managed(m, Pte(m, t, i, j).frame) && k < 1024
  }

  function Next(m: Memory, s: Step): (m': Memory)
    requires Enabled(m, s)
  {
    match s
    case ForkStep(p, c) => Fork(m, p, c).mem
    case WriteStep(t, i, j, k, v) => OrExit(UserWrite(m, t, i, j, k, v), t)
    case VerifyStep(t, i, j) => OrExit(WriteVerify(m, t, i, j), t)
    case EmptyStep(t, i, j) => OrExit(EmptyPage(m, t, i, j), t)
    case LoadStep(t, donors, image, i, j) => OrExit(LoadPage(m, t, donors, image, i, j), t)
    case ExecStep(t) => ClearPageTables(m, t)
    case ExitStep(t) => FreePageTables(m, t)
    case KernelTakes => if GetFreePage(m).Got? then GetFreePage(m).mem else m
    case KernelFrees(f) => FreeHeld(m, f)
    case KernelFills(f, p) => SetPage(m, f, p)
    case KernelMaps(t, f, i, j) => PutPage(m, t, f, i, j).mem
    case KernelStores(t, i, j, k, v) => if HasTable(m, t, i) then UserStore(m, t, i, j, k, v) else m
  }

  /** The kernel stores only into pages that the task does not share. */
  predicate Private(m: Memory, s: Step)
    requires Enabled(m, s)
  {
    s.KernelStores? ==> m.count[Pte(m, s.t, s.i, s.j).frame] == 1
  }

  /** The task whose memory the step is about; the kernel's own steps have none. */
  function Actor(s: Step): Option<nat> {
    match s
    case KernelTakes => None
    case KernelFrees(_) => None
    case KernelFills(_, _) => None
    case _ => Some(s.t)
  }

  /** The state is sound, reserved memory is untouched, and every task but t is undisturbed. */
  ghost predicate Harmless(m: Memory, m': Memory, t: nat) {
    Inv(m') && ReservedKept(m, m') && OthersUndisturbed(m, m', t)
  }

  lemma LocalHarmless(m: Memory, m': Memory, t: nat, i: nat, j: nat)
    requires Inv(m') && SameReserved(m, m') && LocalTo(m, m', t, i, j)
    ensures Harmless(m, m', t)
  {
  }

  lemma ExitHarmless(m: Memory, m1: Memory, t: nat)
    requires Harmless(m, m1, t) && t in m1.space
    ensures Harmless(m, FreePageTables(m1, t), t)
  {
    ExitTask(m1, t);
    OthersTrans(m, m1, FreePageTables(m1, t), t);
  }

  lemma OrExitHarmless(m: Memory, r: Outcome, t: nat)
    requires Harmless(m, r.mem, t) && t in r.mem.space
    ensures Harmless(m, OrExit(r, t), t)
  {
    if !r.ok {
      ExitHarmless(m, r.mem, t);
    }
  }

  lemma SelfHarmless(m: Memory, t: nat)
    requires Inv(m)
    ensures Harmless(m, m, t)
  {
    forall t' | t' in m.space && t' != t ensures Undisturbed(m, m, t') {
    }
  }

  lemma WriteHarmless(m: Memory, t: nat, i: nat, j: nat, k: nat, v: Word)
    requires Inv(m) && IsLeaf(m, t, i, j) && Pte(m, t, i, j).present && k < 1024
    ensures Harmless(m, OrExit(UserWrite(m, t, i, j, k, v), t), t)
  {
    WriteIsolation(m, t, i, j, k, v);
    var r := UserWrite(m, t, i, j, k, v);
    if r.ok {
    } else {
      SelfHarmless(m, t);
      ExitHarmless(m, m, t);
    }
  }

  lemma VerifyHarmless(m: Memory, t: nat, i: nat, j: nat)
    requires Inv(m) && t in m.space && i < USER_ENTRIES && j < ENTRIES
    ensures Harmless(m, OrExit(WriteVerify(m, t, i, j), t), t)
  {
    SelfHarmless(m, t);
    if Pte(m, t, i, j).present && !Pte(m, t, i, j).rw {
      WriteFault(m, t, i, j);
      if WpFault(m, t, i, j).ok {
        LocalHarmless(m, WpFault(m, t, i, j).mem, t, i, j);
      } else {
        ExitHarmless(m, m, t);
      }
    }
  }

  lemma FillHarmless(m: Memory, r: Outcome, t: nat, i: nat, j: nat)
    requires Filled(m, r, t, i, j) && t in m.space
    ensures Harmless(m, OrExit(r, t), t)
  {
    LocalHarmless(m, r.mem, t, i, j);
    OrExitHarmless(m, r, t);
  }

  lemma AllHarmless(m: Memory, m': Memory, t: nat)
    requires Inv(m') && ReservedKept(m, m') && AllUndisturbed(m, m')
    ensures Harmless(m, m', t)
  {
  }

  lemma KernelHarmless(m: Memory, s: Step)
    requires Inv(m) && Enabled(m, s) && Actor(s).None?
    ensures Inv(Next(m, s)) && ReservedKept(m, Next(m, s)) && AllUndisturbed(m, Next(m, s))
  {
    match s
    case KernelTakes =>
      if GetFreePage(m).Got? {
        GetFree(m);
        FreshUndisturbed(m);
      } else {
        forall t | t in m.space ensures Undisturbed(m, m, t) {
        }
      }
    case KernelFrees(f) =>
      GiveBack(m, f);
      HeldUndisturbed(m, f);
    case KernelFills(f, p) =>
      FillHeld(m, f, p);
      assert Holds(m, Kern(f), f);
      Unmapped(m, f, Kern(f));
      PayloadUndisturbed(m, SetPage(m, f, p), f);
  }

  lemma MapsHarmless(m: Memory, t: nat, f: Frame, i: nat, j: nat)
    requires Inv(m) && Missing(m, t, i, j) && f in m.kernel
    ensures Harmless(m, PutPage(m, t, f, i, j).mem, t)
  {
    PutPageMaps(m, t, f, i, j);
    LocalHarmless(m, PutPage(m, t, f, i, j).mem, t, i, j);
  }

  lemma ForkHarmless(m: Memory, p: nat, c: nat)
    requires Inv(m) && (p in m.space || p == 0) && c !in m.space && 1 <= c < NR_TASKS
    ensures Harmless(m, Fork(m, p, c).mem, c)
  {
    ForkTheorem(m, p, c);
    AllHarmless(m, Fork(m, p, c).mem, c);
  }

  lemma ExecHarmless(m: Memory, t: nat)
    requires Inv(m) && t in m.space
    ensures Harmless(m, ClearPageTables(m, t), t)
  {
    ClearTask(m, t);
  }

  lemma LoadHarmless(m: Memory, t: nat, donors: seq<nat>, image: Page, i: nat, j: nat)
    requires Inv(m) && Missing(m, t, i, j) && AreDonors(m, donors, t)
    ensures Harmless(m, OrExit(LoadPage(m, t, donors, image, i, j), t), t)
  {
    LoadFills(m, t, donors, image, i, j);
    FillHarmless(m, LoadPage(m, t, donors, image, i, j), t, i, j);
  }

  lemma EmptyHarmless(m: Memory, t: nat, i: nat, j: nat)
    requires Inv(m) && Missing(m, t, i, j)
    ensures Harmless(m, OrExit(EmptyPage(m, t, i, j), t), t)
  {
    EmptyPageFills(m, t, i, j);
    FillHarmless(m, EmptyPage(m, t, i, j), t, i, j);
  }

  lemma ExitStepHarmless(m: Memory, t: nat)
    requires Inv(m) && t in m.space
    ensures Harmless(m, FreePageTables(m, t), t)
  {
    SelfHarmless(m, t);
    ExitHarmless(m, m, t);
  }

  lemma StoresHarmless(m: Memory, t: nat, i: nat, j: nat, k: nat, v: Word)
    requires Inv(m) && Enabled(m, KernelStores(t, i, j, k, v)) && Private(m, KernelStores(t, i, j, k, v))
    ensures Harmless(m, Next(m, KernelStores(t, i, j, k, v)), t)
  {
    StoreWord(m, t, i, j, k, v);
  }

  /** Every step keeps the invariant and reserved memory, a store of the kernel into a shared page
      included. */
  lemma StepKeeps(m: Memory, s: Step)
    requires Inv(m) && Enabled(m, s)
    ensures Inv(Next(m, s)) && ReservedKept(m, Next(m, s))
  {
    if s.KernelStores? {
      StoreAny(m, s.t, s.i, s.j, s.k, s.v);
    } else {
      StepHarmless(m, s, if Actor(s).Some? then Actor(s).value else 0);
    }
  }

  /** Every step disturbs at most its own task, if the kernel does not store into a shared page. */
  lemma StepHarmless(m: Memory, s: Step, t: nat)
    requires Inv(m) && Enabled(m, s) && Private(m, s) && (Actor(s).Some? ==> t == Actor(s).value)
    ensures Harmless(m, Next(m, s), t)
  {
    match s
    case ForkStep(p, c) => ForkHarmless(m, p, c);
    case WriteStep(_, i, j, k, v) => WriteHarmless(m, t, i, j, k, v);
    case VerifyStep(_, i, j) => VerifyHarmless(m, t, i, j);
    case EmptyStep(_, i, j) => EmptyHarmless(m, t, i, j);
    case LoadStep(_, donors, image, i, j) => LoadHarmless(m, t, donors, image, i, j);
    case ExecStep(_) => ExecHarmless(m, t);
    case ExitStep(_) => ExitStepHarmless(m, t);
    case KernelMaps(_, f, i, j) => MapsHarmless(m, t, f, i, j);
    case KernelStores(_, i, j, k, v) => StoresHarmless(m, t, i, j, k, v);
    case _ =>
      KernelHarmless(m, s);
      AllHarmless(m, Next(m, s), t);
  }

  // ---------- runs ----------

  /** The state after mem_init: every managed page free, nobody has a space yet. */
  ghost predicate Booted(m: Memory) {
    && m.space == map[] && m.kernel == {} && Swapper(m)
    && (forall f :: 0 <= f < PAGING_PAGES ==> m.count[f] == if Managed(m, f) then 0 else USED)
  }

  lemma BootInv(m: Memory)
    requires Booted(m)
    ensures Inv(m)
  {
    forall f: nat | Managed(m, f) ensures m.count[f] == |Refs(m, f)| {
      assert Refs(m, f) == {};
    }
  }

  /** Word i of frame f as setup_paging of boot/head.s leaves it: swapper_pg_dir with the first 4 MB at
      0 and 16 MB at 3 GB, and the four tables that map frames to themselves. */
  function HeadEntry(f: nat, i: nat): (w: Word)
    requires i < 1024
  {
    if f == 0 && i == 0 then Mapped(1)
    else if f == 0 && 768 <= i < 772 then Mapped(i - 767)
    else if 1 <= f <= 4 then Mapped((f - 1) * 1024 + i)
    else ZERO
  }

  function Mapped(frame: nat): (w: Word)
    requires frame < 4096
  {
    Word(frame, 0, false, false, 0, true, true, true)
  }

  function HeadPage(f: nat): (p: Page)
    ensures forall i :: 0 <= i < 1024 ==> p[i] == HeadEntry(f, i)
  {
    seq(1024, i requires 0 <= i < 1024 => HeadEntry(f, i))
  }

  function HeadMemory(): (phys: seq<Page>)
    ensures |phys| == PAGING_PAGES && forall f :: 0 <= f < PAGING_PAGES ==> phys[f] == HeadPage(f)
  {
    seq(PAGING_PAGES, f requires 0 <= f < PAGING_PAGES => HeadPage(f))
  }

  /** The machine as it comes up, with managed memory from `low` to `high`. */
  lemma HeadBoots(low: nat, high: nat) returns (m: Memory)
    requires FIRST_FORK_PAGES <= low <= high <= PAGING_PAGES
    ensures m.low == low && m.high == high && m.phys == HeadMemory() && Booted(m) && Inv(m)
  {
    m := Mem(low, high, seq(PAGING_PAGES, f => if low <= f < high then 0 else USED), HeadMemory(), map[], {});
    assert m.phys[0] == HeadPage(0) && m.phys[1] == HeadPage(1);
    BootInv(m);
  }

  /** A run: each step is taken in a state where it can be taken. */
  ghost predicate IsRun(m: Memory, steps: seq<Step>)
    decreases |steps|
  {
    steps == [] || (Enabled(m, steps[0]) && IsRun(Next(m, steps[0]), steps[1..]))
  }

  ghost function After(m: Memory, steps: seq<Step>): Memory
    requires IsRun(m, steps)
    decreases |steps|
  {
    if steps == [] then m else After(Next(m, steps[0]), steps[1..])
  }

  /** Every state that a run from boot reaches satisfies the invariant. */
  lemma {:induction false} ReachableInv(m: Memory, steps: seq<Step>)
    requires Inv(m) && IsRun(m, steps)
    ensures Inv(After(m, steps))
    decreases |steps|
  {
    if steps == [] {
    } else {
      StepKeeps(m, steps[0]);
      ReachableInv(Next(m, steps[0]), steps[1..]);
    }
  }

  predicate NeverActs(steps: seq<Step>, t: nat) {
    forall s <- steps :: Actor(s) != Some(t)
  }

  /** No store of the kernel in a run is into a page that is shared at that moment. */
  ghost predicate AllPrivate(m: Memory, steps: seq<Step>)
    requires IsRun(m, steps)
    decreases |steps|
  {
    steps == [] || (Private(m, steps[0]) && AllPrivate(Next(m, steps[0]), steps[1..]))
  }

  /** A task that does not act during a run reads exactly what it read before it, whatever the others
      do; of the kernel's own stores into their memory it is asked that the page is not shared. */
  lemma {:induction false} RunIsolation(m: Memory, steps: seq<Step>, t: nat)
    requires Inv(m) && IsRun(m, steps) && AllPrivate(m, steps) && t in m.space && NeverActs(steps, t)
    ensures Undisturbed(m, After(m, steps), t)
    ensures SameViews(m, After(m, steps), t)
    decreases |steps|
  {
    if steps == [] {
    } else {
      var a := if Actor(steps[0]).Some? then Actor(steps[0]).value else t + 1;
      StepHarmless(m, steps[0], a);
      var m1 := Next(m, steps[0]);
      assert Undisturbed(m, m1, t);
      RunIsolation(m1, steps[1..], t);
      UndisturbedTrans(m, m1, After(m1, steps[1..]), t);
      forall i: nat, j: nat, k: nat | i < USER_ENTRIES && j < ENTRIES && k < 1024
        ensures View(After(m, steps), t, i, j, k) == View(m, t, i, j, k)
      {
        KeptView(m, After(m, steps), t, i, j, k);
      }
    }
  }

  /** Tasks t and p have the same page at (i, j). */
  predicate Sharing(m: Memory, t: nat, p: nat, i: nat, j: nat) {
    && IsLeaf(m, t, i, j) && IsLeaf(m, p, i, j) && t != p
    && Pte(m, t, i, j).present && Pte(m, p, i, j).present && Pte(m, t, i, j).frame == Pte(m, p, i, j).frame
    && Managed(m, Pte(m, p, i, j).frame)
  }

  lemma CleanPageShared(m: Memory, t: nat, p: nat, i: nat, j: nat)
    requires Inv(m) && Missing(m, t, i, j) && Pde(m, t, i).present && IsLeaf(m, p, i, j) && p != t
    requires Pte(m, p, i, j).present && !Pte(m, p, i, j).dirty && Managed(m, Pte(m, p, i, j).frame)
    ensures var r := TryToShare(m, t, p, i, j);
            && r.ok && Inv(r.mem) && Sharing(r.mem, t, p, i, j)
            && forall k: nat :: k < 1024 ==> View(r.mem, t, i, j, k) == View(m, p, i, j, k)
  {
    ShareReady(m, t, p, i, j);
    var m' := TryToShare(m, t, p, i, j).mem;
    assert m' == ShareEntry(m, Pde(m, p, i).frame, Pde(m, t, i).frame, j, Pte(m, p, i, j).(rw := false));
    assert Undisturbed(m, m', p);
  }

  lemma SharedCount(m: Memory, t: nat, p: nat, i: nat, j: nat)
    requires Inv(m) && Sharing(m, t, p, i, j)
    ensures m.count[Pte(m, p, i, j).frame] != 1
  {
    var f := Pte(m, p, i, j).frame;
    assert Holds(m, Leaf(t, i, j), f) && Holds(m, Leaf(p, i, j), f);
    if m.count[f] == 1 {
      SoleHolder(m, f, Leaf(t, i, j), Leaf(p, i, j));
    }
  }

  lemma StoreSeen(m: Memory, t: nat, p: nat, i: nat, j: nat, k: nat, v: Word)
    requires Inv(m) && Sharing(m, t, p, i, j) && k < 1024
    ensures HasTable(m, p, i) && View(UserStore(m, p, i, j, k, v), t, i, j, k) == Some(v)
  {
    StoreAny(m, p, i, j, k, v);
  }

  lemma OneDonor(m: Memory, t: nat, p: nat, image: Page, i: nat, j: nat)
    requires i < ENTRIES && j < ENTRIES && TryToShare(m, t, p, i, j).ok
    ensures LoadPage(m, t, [p], image, i, j) == TryToShare(m, t, p, i, j)
  {
  }

  /** read verifies its buffer and sleeps; meanwhile a task with the same executable comes to share the
      page, which is still clean; and when the kernel stores what it has read, that task sees it. */
  lemma SharedMeanwhile(m: Memory, t: nat, p: nat, image: Page, i: nat, j: nat, k: nat, v: Word)
    requires Inv(m) && Missing(m, t, i, j) && Pde(m, t, i).present && IsLeaf(m, p, i, j) && p != t && k < 1024
    requires Pte(m, p, i, j).present && Pte(m, p, i, j).rw && !Pte(m, p, i, j).dirty
    ensures Enabled(m, VerifyStep(p, i, j)) && Next(m, VerifyStep(p, i, j)) == m
    ensures Enabled(m, LoadStep(t, [p], image, i, j))
    ensures var m1 := Next(m, LoadStep(t, [p], image, i, j));
            && View(m1, t, i, j, k) == View(m, p, i, j, k)
            && Enabled(m1, KernelStores(p, i, j, k, v)) && !Private(m1, KernelStores(p, i, j, k, v))
            && View(Next(m1, KernelStores(p, i, j, k, v)), t, i, j, k) == Some(v)
  {
    hide Shape, Typed, Exclusive, Counted, Guarded, Swapper;
    WritableCount(m, p, i, j);
    CleanPageShared(m, t, p, i, j);
    OneDonor(m, t, p, image, i, j);
    var m1 := TryToShare(m, t, p, i, j).mem;
    SharedCount(m1, t, p, i, j);
    StoreSeen(m1, t, p, i, j, k, v);
  }

  /** Nothing any other task does changes the first 640 KB, which is all task 0 can address. */
  lemma {:induction false} TaskZeroIsolation(m: Memory, steps: seq<Step>, j: nat, k: nat)
    requires Inv(m) && IsRun(m, steps) && j < FIRST_FORK_PAGES && k < 1024
    ensures View(After(m, steps), 0, 0, j, k) == View(m, 0, 0, j, k) == Some(m.phys[j][k])
    decreases |steps|
  {
    if steps == [] {
    } else {
      StepKeeps(m, steps[0]);
      TaskZeroIsolation(Next(m, steps[0]), steps[1..], j, k);
    }
  }

  /** In every reachable state a count is the exact number of references, it stays far below the
      USED bit, and what get_free_page hands out nobody refers to. */
  lemma ReachableCounts(m: Memory, steps: seq<Step>, f: nat)
    requires Booted(m) && IsRun(m, steps) && Managed(After(m, steps), f)
    ensures var m' := After(m, steps);
            && m'.count[f] == |Refs(m', f)| && m'.count[f] < NR_TASKS < USED
            && (GetFreePage(m').Got? ==> Refs(m', GetFreePage(m').page) == {})
  {
    BootInv(m);
    ReachableInv(m, steps);
    var m' := After(m, steps);
    CountBound(m', f);
    if GetFreePage(m').Got? {
      GetFree(m');
    }
  }
}
