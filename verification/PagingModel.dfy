/** What mm/memory.c computes, as functions on a value: physical memory, the page
    counts, and which directory each task runs on.
 */
module PagingModel {
  import opened Common
  import opened PageEntry

  const PAGING_PAGES: nat := 4096
  const NR_TASKS: nat := 64
  const ENTRIES: nat := 1024
  /** Directory entries below this one map 0-3 GB, the user's part. */
  const USER_ENTRIES: nat := 768
  const USED: nat := 0x80
  /** swapper_pg_dir, the directory of task 0, sits in frame 0. */
  const SWAPPER: nat := 0
  /** Task 0 hands only its first 640 KB to a child. */
  const FIRST_FORK_PAGES: nat := 160

  type Page = p: seq<Word> | |p| == 1024 witness seq(1024, _ => ZERO)

  function ZeroPage(): (p: Page)
    ensures forall j :: 0 <= j < 1024 ==> p[j] == ZERO
  {
    seq(1024, _ => ZERO)
  }

  type Frame = f: nat | f < PAGING_PAGES

  /** `low` and `high` are LOW_MEMORY and HIGH_MEMORY as frame numbers, `count` is mem_map.
      `space` gives cr3 for every task that owns a directory (task 0 and the exited tasks
      run on swapper_pg_dir and are not in it).  `kernel` names the pages the kernel itself
      holds: task pages, argument and pipe pages, and pages between get_free_page and use. */
  datatype Mem = Mem(low: nat, high: nat, count: seq<nat>, phys: seq<Page>,
                     space: map<nat, Frame>, kernel: set<Frame>)

  predicate Sized(m: Mem) {
    && |m.count| == PAGING_PAGES
    && |m.phys| == PAGING_PAGES
    && FIRST_FORK_PAGES <= m.low <= m.high <= PAGING_PAGES
  }

  type Memory = m: Mem | Sized(m)
    witness Mem(1024, 1024, seq(PAGING_PAGES, _ => 0), seq(PAGING_PAGES, _ => ZeroPage()), map[], {})

  predicate Reserved(m: Memory, f: nat) {
    f >= PAGING_PAGES || m.count[f] >= USED
  }

  function Store(m: Memory, f: nat, j: nat, w: Word): (r: Memory)
    requires f < PAGING_PAGES && j < ENTRIES
  {
    m.(phys := m.phys[f := m.phys[f][j := w]])
  }

  function SetCount(m: Memory, f: nat, c: nat): (r: Memory)
    requires f < PAGING_PAGES
  {
    m.(count := m.count[f := c])
  }

  function SetPage(m: Memory, f: nat, p: Page): (r: Memory)
    requires f < PAGING_PAGES
  {
    m.(phys := m.phys[f := p])
  }

  /** The kernel comes to hold frame f, or stops holding it. */
  function Hold(m: Memory, f: nat): (r: Memory)
    requires f < PAGING_PAGES
  {
    m.(kernel := m.kernel + {f})
  }

  function Unhold(m: Memory, f: nat): (r: Memory) {
    m.(kernel := m.kernel - {f})
  }

  /** What an allocation, and what a fallible operation, leaves behind. */
  datatype Alloc = NoPage | Got(page: nat, mem: Memory)
  datatype Outcome = Outcome(ok: bool, mem: Memory)

  // ---------- get_free_page and free_page ----------

  /** The first frame from i on whose count is 0, or PAGING_PAGES. */
  function FirstFree(count: seq<nat>, i: nat): (f: nat)
    requires i <= |count|
    ensures i <= f <= |count|
    ensures f < |count| ==> count[f] == 0
    ensures forall k :: i <= k < f ==> count[k] != 0
    decreases |count| - i
  {
    if i == |count| || count[i] == 0 then i else FirstFree(count, i + 1)
  }

  function GetFreePage(m: Memory): (r: Alloc)
    ensures r.Got? ==> r.page < PAGING_PAGES
  {
    var f := FirstFree(m.count, m.low);
    if f == PAGING_PAGES then NoPage else Got(f, Hold(SetPage(SetCount(m, f, 1), f, ZeroPage()), f))
  }

  /** free_page panics on a frame beyond memory and on a free frame. */
  predicate MayFree(m: Memory, f: nat) {
    f < m.high && (Reserved(m, f) || m.count[f] > 0)
  }

  function FreePage(m: Memory, f: nat): (r: Memory) {
    if Reserved(m, f) || m.count[f] == 0 then m else SetCount(m, f, m.count[f] - 1)
  }

  /** The kernel gives up a page it holds. */
  function FreeHeld(m: Memory, f: nat): (r: Memory) {
    Unhold(FreePage(m, f), f)
  }

  // ---------- the table walk ----------

  function Cr3(m: Memory, t: nat): (d: nat)
    ensures d < PAGING_PAGES
  {
    if t in m.space then m.space[t] else SWAPPER
  }

  function Pde(m: Memory, t: nat, i: nat): (w: Word)
    requires i < ENTRIES
  {
    m.phys[Cr3(m, t)][i]
  }

  predicate HasTable(m: Memory, t: nat, i: nat) {
    i < ENTRIES && Pde(m, t, i).present && Pde(m, t, i).frame < PAGING_PAGES
  }

  function Pte(m: Memory, t: nat, i: nat, j: nat): (w: Word)
    requires j < ENTRIES
  {
    if HasTable(m, t, i) then m.phys[Pde(m, t, i).frame][j] else ZERO
  }

  /** What task t reads at word k of page j of directory entry i; None is a page fault. */
  function View(m: Memory, t: nat, i: nat, j: nat, k: nat): (r: Option<Word>)
    requires j < ENTRIES && k < 1024
  {
    var w := Pte(m, t, i, j);
    if w.present && w.frame < PAGING_PAGES then Some(m.phys[w.frame][k]) else None
  }

  // ---------- free_one_table, clear_page_tables, free_page_tables ----------

  function FreeEntry(m: Memory, f: nat, j: nat): (r: Memory)
    requires f < PAGING_PAGES && j < ENTRIES
  {
    var w := m.phys[f][j];
    if w == ZERO || Reserved(m, w.frame) then m
    else if w.present then FreePage(Store(m, f, j, ZERO), w.frame)
    else Store(m, f, j, ZERO)
  }

  function FreeEntries(m: Memory, f: nat, n: nat): (r: Memory)
    requires f < PAGING_PAGES && n <= ENTRIES
  {
    if n == 0 then m else FreeEntry(FreeEntries(m, f, n - 1), f, n - 1)
  }

  function FreeOneTable(m: Memory, d: nat, i: nat): (r: Memory)
    requires d < PAGING_PAGES && i < ENTRIES
  {
    var w := m.phys[d][i];
    if w == ZERO || w.frame >= m.high || !w.present || Reserved(m, w.frame) then m
    else FreePage(Store(FreeEntries(m, w.frame, ENTRIES), d, i, ZERO), w.frame)
  }

  function FreeTables(m: Memory, d: nat, n: nat): (r: Memory)
    requires d < PAGING_PAGES && n <= ENTRIES
  {
    if n == 0 then m else FreeOneTable(FreeTables(m, d, n - 1), d, n - 1)
  }

  /** The page part of exec: drop 0-3 GB. */
  function ClearPageTables(m: Memory, t: nat): (r: Memory) {
    FreeTables(m, Cr3(m, t), USER_ENTRIES)
  }

  function LeaveSpace(m: Memory, t: nat): (r: Memory) {
    m.(space := m.space - {t})
  }

  /** The page part of exit: drop everything, then the directory. */
  function FreePageTables(m: Memory, t: nat): (r: Memory) {
    FreePage(LeaveSpace(FreeTables(m, Cr3(m, t), ENTRIES), t), Cr3(m, t))
  }

  // ---------- copy_page_tables and the page part of copy_process ----------

  function CopyEntry(m: Memory, from: nat, to: nat, j: nat): (r: Memory)
    requires from < PAGING_PAGES && to < PAGING_PAGES && j < ENTRIES
  {
    var w := m.phys[from][j];
    if !w.present then m
    else if Reserved(m, w.frame) then Store(m, to, j, w.(rw := false))
    else SetCount(Store(Store(m, to, j, w.(rw := false)), from, j, w.(rw := false)),
                  w.frame, (m.count[w.frame] + 1) % 256)
  }

  function CopyEntries(m: Memory, from: nat, to: nat, n: nat): (r: Memory)
    requires from < PAGING_PAGES && to < PAGING_PAGES && n <= ENTRIES
  {
    if n == 0 then m else CopyEntry(CopyEntries(m, from, to, n - 1), from, to, n - 1)
  }

  function AttachTable(m: Memory, d: nat, i: nat, f: nat): (r: Memory)
    requires d < PAGING_PAGES && i < ENTRIES && f < PAGING_PAGES
  {
    Unhold(Store(m, d, i, TableEntry(f)), f)
  }

  /** One round of the directory loop; not ok is the out-of-memory exit. */
  function CopyTable(m: Memory, from: nat, to: nat, i: nat, pages: nat): (r: Outcome)
    requires from < PAGING_PAGES && to < PAGING_PAGES && i < ENTRIES && pages <= ENTRIES
  {
    var w := m.phys[from][i];
    if w == ZERO || w.frame >= m.high || !w.present then Outcome(true, m)
    else if Reserved(m, w.frame) && i >= USER_ENTRIES then Outcome(true, Store(m, to, i, w))
    else match GetFreePage(m)
      case NoPage => Outcome(false, m)
      case Got(g, m') => Outcome(true, CopyEntries(AttachTable(m', to, i, g), w.frame, g, pages))
  }

  function CopyTables(m: Memory, from: nat, to: nat, pages: nat, n: nat): (r: Outcome)
    requires from < PAGING_PAGES && to < PAGING_PAGES && pages <= ENTRIES && n <= ENTRIES
  {
    if n == 0 then Outcome(true, m)
    else
      var r := CopyTables(m, from, to, pages, n - 1);
      if r.ok then CopyTable(r.mem, from, to, n - 1, pages) else r
  }

  function AttachDir(m: Memory, t: nat, f: nat): (r: Memory)
    requires f < PAGING_PAGES
  {
    Unhold(m.(space := m.space[t := f]), f)
  }

  function PagesToCopy(parent: nat): (n: nat)
    ensures n <= ENTRIES
  {
    if parent == 0 then FIRST_FORK_PAGES else ENTRIES
  }

  function CopyPageTables(m: Memory, parent: nat, child: nat): (r: Outcome) {
    match GetFreePage(m)
    case NoPage => Outcome(false, m)
    case Got(d, m') =>
      var r := CopyTables(AttachDir(m', child, d), Cr3(m, parent), d, PagesToCopy(parent), ENTRIES);
      if r.ok then r else Outcome(false, FreePageTables(r.mem, child))
  }

  /** copy_process: a page for the task structure, then the tables; the task page goes back on failure. */
  function Fork(m: Memory, parent: nat, child: nat): (r: Outcome) {
    match GetFreePage(m)
    case NoPage => Outcome(false, m)
    case Got(p, m') =>
      var r := CopyPageTables(m', parent, child);
      if r.ok then r else Outcome(false, FreeHeld(r.mem, p))
  }

  // ---------- put_page and the page faults ----------

  /** The table of task t for directory entry i, allocated when absent; not ok when memory is out. */
  function EnsureTable(m: Memory, t: nat, i: nat): (r: Outcome)
    requires i < ENTRIES
  {
    if Pde(m, t, i).present then Outcome(true, m)
    else match GetFreePage(m)
      case NoPage => Outcome(false, m)
      case Got(g, m') => Outcome(true, AttachTable(m', Cr3(m, t), i, g))
  }

  /** Map a page the kernel holds; not ok when no table could be had. */
  function PutPage(m: Memory, t: nat, page: nat, i: nat, j: nat): (r: Outcome)
    requires page < PAGING_PAGES && i < ENTRIES && j < ENTRIES
  {
    var r := EnsureTable(m, t, i);
    if !r.ok || Pde(r.mem, t, i).frame >= PAGING_PAGES then Outcome(false, r.mem)
    else Outcome(true, Unhold(Store(r.mem, Pde(r.mem, t, i).frame, j, MappedEntry(page)), page))
  }

  /** Entry j of the table in frame f gets a private copy, in frame g, of the page it maps. */
  function CopyOnWrite(m: Memory, f: nat, j: nat, g: nat): (r: Memory)
    requires f < PAGING_PAGES && j < ENTRIES && g < PAGING_PAGES && m.phys[f][j].frame < PAGING_PAGES
  {
    var g0 := m.phys[f][j].frame;
    var m1 := if Reserved(m, g0) then m else SetCount(m, g0, (m.count[g0] + 255) % 256);
    var m2 := Store(m1, f, j, PrivateEntry(g));
    Unhold(SetPage(m2, g, m2.phys[g0]), g)
  }

  /** un_wp_page on entry j of the table in frame f; not ok calls oom. */
  function UnWpPage(m: Memory, f: nat, j: nat): (r: Outcome)
    requires f < PAGING_PAGES && j < ENTRIES
  {
    var w := m.phys[f][j];
    if w.frame >= PAGING_PAGES then Outcome(false, m)
    else if m.count[w.frame] == 1 then Outcome(true, Store(m, f, j, w.(rw := true)))
    else match GetFreePage(m)
      case NoPage => Outcome(false, m)
      case Got(g, m') =>
        if m'.phys[f][j].frame >= PAGING_PAGES then Outcome(false, m')
        else Outcome(true, CopyOnWrite(m', f, j, g))
  }

  /** oom() is do_exit for the current task. */
  function OrExit(r: Outcome, t: nat): (m: Memory) {
    if r.ok then r.mem else FreePageTables(r.mem, t)
  }

  /** A write to a present, read-only page. */
  function WpFault(m: Memory, t: nat, i: nat, j: nat): (r: Outcome)
    requires i < ENTRIES && j < ENTRIES
  {
    if Pde(m, t, i).frame < PAGING_PAGES then UnWpPage(m, Pde(m, t, i).frame, j) else Outcome(false, m)
  }

  /** Like WpFault, but only for a present read-only entry. */
  function WriteVerify(m: Memory, t: nat, i: nat, j: nat): (r: Outcome)
    requires i < ENTRIES && j < ENTRIES
  {
    if Pte(m, t, i, j).present && !Pte(m, t, i, j).rw then WpFault(m, t, i, j) else Outcome(true, m)
  }

  /** Map a page the kernel has just taken, or give it back. */
  function PlacePage(m: Memory, t: nat, page: nat, i: nat, j: nat): (r: Outcome)
    requires page < PAGING_PAGES && i < ENTRIES && j < ENTRIES
  {
    var r := PutPage(m, t, page, i, j);
    if r.ok then r else Outcome(false, FreeHeld(r.mem, page))
  }

  /** get_empty_page. */
  function EmptyPage(m: Memory, t: nat, i: nat, j: nat): (r: Outcome)
    requires i < ENTRIES && j < ENTRIES
  {
    match GetFreePage(m)
    case NoPage => Outcome(false, m)
    case Got(p, m') => PlacePage(m', t, p, i, j)
  }

  /** Both entries become the read-only `w`, and its page gains a reference. */
  function ShareEntry(m: Memory, from: nat, to: nat, j: nat, w: Word): (r: Memory)
    requires from < PAGING_PAGES && to < PAGING_PAGES && j < ENTRIES && w.frame < PAGING_PAGES
  {
    SetCount(Store(Store(m, from, j, w), to, j, w), w.frame, (m.count[w.frame] + 1) % 256)
  }

  /** try_to_share: map task p's clean page at the same address, both read-only. */
  function TryToShare(m: Memory, t: nat, p: nat, i: nat, j: nat): (r: Outcome)
    requires i < ENTRIES && j < ENTRIES
  {
    var w := Pte(m, p, i, j);
    if !w.present || w.dirty || w.frame >= m.high || Reserved(m, w.frame) then Outcome(false, m)
    else
      var r := EnsureTable(m, t, i);
      if !r.ok || Pde(r.mem, t, i).frame >= PAGING_PAGES then Outcome(false, r.mem)
      else Outcome(true, ShareEntry(r.mem, Pde(m, p, i).frame, Pde(r.mem, t, i).frame, j, w.(rw := false)))
  }

  /** share_page over the candidate donors, in the order the task table is searched. */
  function SharePage(m: Memory, t: nat, donors: seq<nat>, i: nat, j: nat): (r: Outcome)
    requires i < ENTRIES && j < ENTRIES
  {
    if donors == [] then Outcome(false, m)
    else
      var r := TryToShare(m, t, donors[0], i, j);
      if r.ok then r else SharePage(r.mem, t, donors[1..], i, j)
  }

  /** Load `image`, the page read from disk, into a fresh page. */
  function ReadIn(m: Memory, t: nat, image: Page, i: nat, j: nat): (r: Outcome)
    requires i < ENTRIES && j < ENTRIES
  {
    match GetFreePage(m)
    case NoPage => Outcome(false, m)
    case Got(p, m') => PlacePage(SetPage(m', p, image), t, p, i, j)
  }

  /** do_no_page inside the executable: share, or read in. */
  function LoadPage(m: Memory, t: nat, donors: seq<nat>, image: Page, i: nat, j: nat): (r: Outcome)
    requires i < ENTRIES && j < ENTRIES
  {
    var r := SharePage(m, t, donors, i, j);
    if r.ok then r else ReadIn(r.mem, t, image, i, j)
  }

  /** The store a user program makes once the page is writable; the processor sets A and D. */
  function UserStore(m: Memory, t: nat, i: nat, j: nat, k: nat, v: Word): (r: Memory)
    requires i < ENTRIES && j < ENTRIES && k < 1024
    requires HasTable(m, t, i) && Pte(m, t, i, j).frame < PAGING_PAGES
  {
    var w := Pte(m, t, i, j);
    Store(Store(m, Pde(m, t, i).frame, j, w.(accessed := true, dirty := true)), w.frame, k, v)
  }

  /** A user program writes one word of a page that is present; not ok is out of memory. */
  function UserWrite(m: Memory, t: nat, i: nat, j: nat, k: nat, v: Word): (r: Outcome)
    requires i < ENTRIES && j < ENTRIES && k < 1024
  {
    var r := WriteVerify(m, t, i, j);
    if r.ok && HasTable(r.mem, t, i) && Pte(r.mem, t, i, j).frame < PAGING_PAGES
    then Outcome(true, UserStore(r.mem, t, i, j, k, v))
    else Outcome(false, r.mem)
  }
}
