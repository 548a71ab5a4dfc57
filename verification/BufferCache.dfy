/** The buffer cache as a protocol (fs/buffer.c with kernel/blk_drv/ll_rw_blk.c): tasks and the
    disk interrupt act in any order, one uninterrupted stretch of code at a time, and the cached
    blocks still behave like one plain store of blocks.
 */
module BufferCache {
  import opened Common
  import opened BufferIndex

  type Data = seq<int>

  datatype Command = READ | WRITE

  /** What a locked buffer waits for: a request slot, or the device.  `intact` says that the data
      have not been written to since the request was queued. */
  datatype Io = Idle | Pending(cmd: Command) | Queued(cmd: Command, intact: bool)

  datatype Buffer = Buffer(id: Id, count: nat, dirt: bool, uptodate: bool, data: Data, io: Io)

  /** A reference some task has to buffer b, taken for block id. */
  datatype Ref = Ref(b: nat, id: Id)

  datatype State = State(bufs: seq<Buffer>, disk: map<Id, Data>, refs: map<nat, Ref>)

  predicate Locked(b: Buffer) {
    b.io != Idle
  }

  function On(disk: map<Id, Data>, id: Id): Data {
    if id in disk then disk[id] else []
  }

  // ---------- steps ----------

  datatype Step =
    | Hit(r: nat, b: nat, id: Id)
    | Claim(r: nat, b: nat, id: Id)
    | Release(r: nat)
    | Lock(b: nat, cmd: Command)
    | Drop(b: nat)
    | Queue(b: nat)
    | Complete(b: nat, ok: bool, junk: Data)
    | Store(r: nat, data: Data, mark: bool)
    | Overwrite(r: nat, data: Data)
    | Forget(r: nat)

  /** r is a reference to a buffer of the table. */
  predicate Has(s: State, r: nat) {
    r in s.refs && s.refs[r].b < |s.bufs|
  }

  predicate Cached(s: State, id: Id) {
    exists b :: 0 <= b < |s.bufs| && s.bufs[b].id == id
  }

  /** When each stretch of code can be reached. */
  predicate Enabled(s: State, st: Step) {
    match st
    // find_buffer succeeded in get_hash_table
    case Hit(r, b, id) => r !in s.refs && b < |s.bufs| && s.bufs[b].id == id && id.dev != 0
    // the end of getblk: unused, clean, just waited for, and still no buffer of this kind
    case Claim(r, b, id) =>
      && r !in s.refs && b < |s.bufs| && id.dev != 0
      && s.bufs[b].count == 0 && !Locked(s.bufs[b]) && !s.bufs[b].dirt && !Cached(s, id)
    // brelse, and the bare decrement of breada
    case Release(r) => Has(s, r) && s.bufs[s.refs[r].b].count > 0
    // make_request once lock_buffer has the lock and the request is not needless
    case Lock(b, cmd) =>
      && b < |s.bufs| && s.bufs[b].id.dev != 0 && !Locked(s.bufs[b])
      && (if cmd == WRITE then s.bufs[b].dirt else !s.bufs[b].uptodate)
    // a read ahead that finds no free request
    case Drop(b) => b < |s.bufs| && s.bufs[b].io.Pending?
    // add_request
    case Queue(b) => b < |s.bufs| && s.bufs[b].io.Pending?
    // end_request, from the interrupt
    case Complete(b, ok, junk) => b < |s.bufs| && s.bufs[b].io.Queued?
    // a holder stores into b_data, with or without setting b_dirt
    case Store(r, data, mark) => Has(s, r)
    // new_block clears the block it was given
    case Overwrite(r, data) => Has(s, r) && s.bufs[s.refs[r].b].count == 1 && !Locked(s.bufs[s.refs[r].b])
    // free_block
    case Forget(r) => Has(s, r) && s.bufs[s.refs[r].b].count == 1 && !Locked(s.bufs[s.refs[r].b])
  }

  function Touched(io: Io): Io {
    if io.Queued? then io.(intact := false) else io
  }

  function Finish(s: State, b: nat, ok: bool, junk: Data): (t: State)
    requires b < |s.bufs| && s.bufs[b].io.Queued?
  {
    var bh := s.bufs[b];
    if bh.io.cmd == READ then
      s.(bufs := s.bufs[b := bh.(uptodate := ok, io := Idle, data := if ok then On(s.disk, bh.id) else junk)])
    else
      s.(bufs := s.bufs[b := bh.(uptodate := ok, io := Idle)],
         disk := s.disk[bh.id := if ok && bh.io.intact then bh.data else junk])
  }

  function Next(s: State, st: Step): (t: State)
    requires Enabled(s, st)
  {
    match st
    case Hit(r, b, id) =>
      s.(bufs := s.bufs[b := s.bufs[b].(count := s.bufs[b].count + 1)], refs := s.refs[r := Ref(b, id)])
    case Claim(r, b, id) =>
      s.(bufs := s.bufs[b := s.bufs[b].(id := id, count := 1, dirt := false, uptodate := false)],
         refs := s.refs[r := Ref(b, id)])
    case Release(r) =>
      var b := s.refs[r].b;
      s.(bufs := s.bufs[b := s.bufs[b].(count := s.bufs[b].count - 1)], refs := s.refs - {r})
    case Lock(b, cmd) => s.(bufs := s.bufs[b := s.bufs[b].(io := Pending(cmd))])
    case Drop(b) => s.(bufs := s.bufs[b := s.bufs[b].(io := Idle)])
    case Queue(b) =>
      s.(bufs := s.bufs[b := s.bufs[b].(dirt := false, io := Queued(s.bufs[b].io.cmd, true))])
    case Complete(b, ok, junk) => Finish(s, b, ok, junk)
    case Store(r, data, mark) =>
      var b := s.refs[r].b;
      s.(bufs := s.bufs[b := s.bufs[b].(data := data, dirt := mark || s.bufs[b].dirt, io := Touched(s.bufs[b].io))])
    case Overwrite(r, data) =>
      var b := s.refs[r].b;
      s.(bufs := s.bufs[b := s.bufs[b].(data := data, dirt := true, uptodate := true)])
    case Forget(r) =>
      var b := s.refs[r].b;
      s.(bufs := s.bufs[b := s.bufs[b].(dirt := false, uptodate := false, count := 0)], refs := s.refs - {r})
  }

  /** The buffer a step works on. */
  function Target(s: State, st: Step): (b: nat)
    requires Enabled(s, st)
    ensures b < |s.bufs|
  {
    match st
    case Hit(_, b, _) => b
    case Claim(_, b, _) => b
    case Lock(b, _) => b
    case Drop(b) => b
    case Queue(b) => b
    case Complete(b, _, _) => b
    case Release(r) => s.refs[r].b
    case Store(r, _, _) => s.refs[r].b
    case Overwrite(r, _) => s.refs[r].b
    case Forget(r) => s.refs[r].b
  }

  /** A step works on one buffer and at most on the disk copy of the block in it. */
  lemma StepLocal(s: State, st: Step)
    requires Enabled(s, st)
    ensures var s', b := Next(s, st), Target(s, st);
            && |s'.bufs| == |s.bufs| && (forall x :: 0 <= x < |s.bufs| && x != b ==> s'.bufs[x] == s.bufs[x])
            && (forall id :: id != s.bufs[b].id ==> On(s'.disk, id) == On(s.disk, id))
            && (st.Claim? || s'.bufs[b].id == s.bufs[b].id)
            && (!st.Complete? ==> s'.disk == s.disk)
  {
  }

  // ---------- the protocol: identities and counts ----------

  ghost function Users(s: State, b: nat): set<nat> {
    set r | r in s.refs && s.refs[r].b == b
  }

  ghost predicate Unique(s: State) {
    forall b, b' :: 0 <= b < b' < |s.bufs| && s.bufs[b].id.dev != 0 ==> s.bufs[b].id != s.bufs[b'].id
  }

  /** Every reference is to a buffer that still holds the block it was taken for. */
  ghost predicate Stable(s: State) {
    forall r :: r in s.refs ==> s.refs[r].b < |s.bufs| && s.bufs[s.refs[r].b].id == s.refs[r].id
  }

  ghost predicate Counted(s: State) {
    forall b: nat :: b < |s.bufs| ==> s.bufs[b].count == |Users(s, b)|
  }

  /** A buffer without a block has nothing to write and no input or output. */
  ghost predicate Blank(s: State) {
    forall b: nat :: b < |s.bufs| && s.bufs[b].id.dev == 0 ==>
      var bh := s.bufs[b]; bh.count == 0 && !bh.dirt && !bh.uptodate && bh.io == Idle
  }

  ghost predicate Inv(s: State) {
    Unique(s) && Stable(s) && Counted(s) && Blank(s)
  }

  lemma UsersGrow(s: State, s': State, r: nat, b: nat, id: Id)
    requires r !in s.refs && s'.refs == s.refs[r := Ref(b, id)]
    ensures Users(s', b) == Users(s, b) + {r} && |Users(s', b)| == |Users(s, b)| + 1
    ensures forall x: nat :: x != b ==> Users(s', x) == Users(s, x)
  {
    assert Users(s', b) == Users(s, b) + {r};
    forall x: nat | x != b ensures Users(s', x) == Users(s, x) {
    }
  }

  lemma UsersShrink(s: State, s': State, r: nat)
    requires r in s.refs && s'.refs == s.refs - {r}
    ensures var b := s.refs[r].b;
            |Users(s', b)| == |Users(s, b)| - 1 && forall x: nat :: x != b ==> Users(s', x) == Users(s, x)
  {
    var b := s.refs[r].b;
    assert Users(s, b) == Users(s', b) + {r};
    forall x: nat | x != b ensures Users(s', x) == Users(s, x) {
    }
  }

  lemma SameUsers(s: State, s': State)
    requires s'.refs == s.refs
    ensures forall x: nat :: Users(s', x) == Users(s, x)
  {
  }

  lemma UnusedUnreferenced(s: State, b: nat)
    requires Counted(s) && b < |s.bufs| && s.bufs[b].count == 0
    ensures forall r :: r in s.refs ==> s.refs[r].b != b
  {
    assert Users(s, b) == {};
    forall r | r in s.refs ensures s.refs[r].b != b {
      assert r !in Users(s, b);
    }
  }

  lemma OneUser(s: State, r: nat)
    requires Counted(s) && Has(s, r) && s.bufs[s.refs[r].b].count == 1
    ensures forall q :: q in s.refs && s.refs[q].b == s.refs[r].b ==> q == r
  {
    var us := Users(s, s.refs[r].b);
    forall q | q in s.refs && s.refs[q].b == s.refs[r].b ensures q == r {
      assert {r, q} <= us;
      assert q != r ==> |{r, q}| == 2;
      SubsetSize({r, q}, us);
    }
  }

  lemma StepUnique(s: State, st: Step)
    requires Unique(s) && Blank(s) && Enabled(s, st) && DeviceKnown(s, st)
    ensures Unique(Next(s, st)) && Blank(Next(s, st))
  {
    StepLocal(s, st);
    var s', b := Next(s, st), Target(s, st);
    if st.Claim? {
      assert s'.bufs[b].id == st.id && st.id.dev != 0;
      forall x | 0 <= x < |s.bufs| && x != b ensures s'.bufs[x].id != st.id {
        assert s.bufs[x].id != st.id;
      }
    }
  }

  lemma StepStable(s: State, st: Step)
    requires Stable(s) && Counted(s) && Enabled(s, st)
    ensures Stable(Next(s, st))
  {
    StepLocal(s, st);
    if st.Claim? {
      UnusedUnreferenced(s, st.b);
    }
    var s' := Next(s, st);
    forall q | q in s'.refs ensures s'.refs[q].b < |s'.bufs| && s'.bufs[s'.refs[q].b].id == s'.refs[q].id {
      assert q in s.refs || ((st.Hit? || st.Claim?) && q == st.r);
    }
  }

  lemma StepCounted(s: State, st: Step)
    requires Counted(s) && Enabled(s, st)
    ensures Counted(Next(s, st))
  {
    StepLocal(s, st);
    var s', b := Next(s, st), Target(s, st);
    assert s.bufs[b].count == |Users(s, b)|;
    match st {
      case Hit(r, _, id) => UsersGrow(s, s', r, b, id);
      case Claim(r, _, id) => UsersGrow(s, s', r, b, id);
      case Release(r) => UsersShrink(s, s', r);
      case Forget(r) => UsersShrink(s, s', r);
      case _ => SameUsers(s, s');
    }
    forall x: nat | x < |s'.bufs| ensures s'.bufs[x].count == |Users(s', x)| {
      assert s.bufs[x].count == |Users(s, x)|;
    }
  }

  /** Every step but a claim works on a buffer that has a device. */
  predicate DeviceKnown(s: State, st: Step)
    requires Enabled(s, st)
  {
    st.Claim? || s.bufs[Target(s, st)].id.dev != 0
  }

  lemma DeviceOf(s: State, st: Step)
    requires Inv(s) && Enabled(s, st)
    ensures DeviceKnown(s, st)
  {
    if st.Store? || st.Overwrite? || st.Forget? || st.Release? {
      ReferencesHold(s, st.r);
    }
  }

  /** Whatever happens, no block is cached twice, references stay good and counts are exact. */
  lemma StepInv(s: State, st: Step)
    requires Inv(s) && Enabled(s, st)
    ensures Inv(Next(s, st))
  {
    DeviceOf(s, st);
    StepUnique(s, st);
    StepStable(s, st);
    StepCounted(s, st);
  }

  /** The count is positive whenever a reference is dropped: brelse never panics, and the
      re-check of get_hash_table never fails. */
  lemma ReferencesHold(s: State, r: nat)
    requires Inv(s) && r in s.refs
    ensures Has(s, r) && s.bufs[s.refs[r].b].count > 0 && s.bufs[s.refs[r].b].id == s.refs[r].id
    ensures Enabled(s, Release(r))
  {
    var b := s.refs[r].b;
    assert r in Users(s, b);
    assert s.bufs[b].count == |Users(s, b)|;
  }

  /** No two requests under way are for the same block: the keys of a request queue are distinct. */
  lemma RequestsDistinct(s: State, b: nat, b': nat)
    requires Inv(s) && b < |s.bufs| && b' < |s.bufs| && b != b' && Locked(s.bufs[b]) && Locked(s.bufs[b'])
    ensures s.bufs[b].id.dev != 0 && s.bufs[b].id != s.bufs[b'].id
  {
    assert s.bufs[b].id.dev != 0 && s.bufs[b'].id.dev != 0;
  }

  // ---------- coherence: the cache as one store of blocks ----------

  ghost predicate CoherentAt(s: State, b: nat)
    requires b < |s.bufs|
  {
    var bh := s.bufs[b];
    && (bh.dirt ==> bh.uptodate)
    && (bh.uptodate && !bh.dirt && !(bh.io.Queued? && bh.io.cmd == WRITE) ==> bh.data == On(s.disk, bh.id))
    && (bh.io.Pending? || bh.io.Queued? ==> (bh.uptodate <==> bh.io.cmd == WRITE))
    && (bh.io == Pending(WRITE) ==> bh.dirt)
    && (bh.io.Queued? && !bh.io.intact && bh.io.cmd == WRITE ==> bh.dirt)
  }

  /** The cache is right about block id, whatever it holds of other blocks. */
  ghost predicate Coherent(s: State, id: Id) {
    Inv(s) && forall b: nat :: b < |s.bufs| && s.bufs[b].id == id ==> CoherentAt(s, b)
  }

  ghost predicate Valid(s: State, b: nat, id: Id) {
    b < |s.bufs| && s.bufs[b].id == id && s.bufs[b].uptodate
  }

  /** What block id contains, as the users of the cache see it. */
  ghost function Contents(s: State, id: Id): Data {
    if exists b: nat :: Valid(s, b, id) then var b: nat :| Valid(s, b, id); s.bufs[b].data else On(s.disk, id)
  }

  lemma ContentsOf(s: State, b: nat)
    requires Unique(s) && b < |s.bufs| && s.bufs[b].id.dev != 0
    ensures Contents(s, s.bufs[b].id) == if s.bufs[b].uptodate then s.bufs[b].data else On(s.disk, s.bufs[b].id)
  {
    var id := s.bufs[b].id;
    if exists x: nat :: Valid(s, x, id) {
      var x: nat :| Valid(s, x, id);
      assert x == b;
    } else if s.bufs[b].uptodate {
      assert Valid(s, b, id);
    }
  }

  lemma ContentsOnDisk(s: State, id: Id)
    requires !Cached(s, id)
    ensures Contents(s, id) == On(s.disk, id)
  {
    forall b: nat ensures !Valid(s, b, id) {
    }
  }

  /** The stores that last: to a buffer that is up to date and will be marked or is marked. */
  predicate Lasting(s: State, st: Step)
    requires Enabled(s, st)
  {
    match st
    case Store(r, data, mark) => s.bufs[s.refs[r].b].uptodate && (mark || s.bufs[s.refs[r].b].dirt)
    case Complete(b, ok, junk) => s.bufs[b].io.cmd == WRITE ==> ok
    case _ => true
  }

  /** What a step does to the plain store: only stores, new blocks and freed blocks matter. */
  ghost function Ideal(s: State, st: Step, id: Id): Data
    requires Enabled(s, st)
  {
    match st
    case Store(r, data, mark) => if id == s.bufs[s.refs[r].b].id then data else Contents(s, id)
    case Overwrite(r, data) => if id == s.bufs[s.refs[r].b].id then data else Contents(s, id)
    case Forget(r) => if id == s.bufs[s.refs[r].b].id then On(s.disk, id) else Contents(s, id)
    case _ => Contents(s, id)
  }

  /** The step does not spoil block id: it lasts, or works on a buffer of another block. */
  predicate Sound(s: State, st: Step, id: Id)
    requires Enabled(s, st)
  {
    s.bufs[Target(s, st)].id == id ==> Lasting(s, st)
  }

  lemma StepCoherent(s: State, st: Step, id: Id)
    requires Coherent(s, id) && Enabled(s, st) && Sound(s, st, id) && id.dev != 0
    ensures Coherent(Next(s, st), id)
  {
    StepInv(s, st);
    StepLocal(s, st);
    var s', b := Next(s, st), Target(s, st);
    assert st.Store? || st.Overwrite? || st.Forget? || st.Release? ==> st.r in s.refs;
    forall x: nat | x < |s'.bufs| && s'.bufs[x].id == id ensures CoherentAt(s', x) {
      if x != b {
        assert CoherentAt(s, x);
        assert s.bufs[x].id != s.bufs[b].id;
      } else if !st.Claim? {
        assert CoherentAt(s, b);
      }
    }
  }

  /** THE CACHE REFINES A PLAIN STORE.  Lookups, recycling, reads, writes, their completion in any
      order: none changes what any block contains; a lasting store changes exactly its block.  What
      becomes of other blocks does not matter. */
  lemma StepRefines(s: State, st: Step, id: Id)
    requires Coherent(s, id) && Enabled(s, st) && Sound(s, st, id) && id.dev != 0
    ensures Coherent(Next(s, st), id)
    ensures Contents(Next(s, st), id) == Ideal(s, st, id)
  {
    StepCoherent(s, st, id);
    StepLocal(s, st);
    DeviceOf(s, st);
    var s', b := Next(s, st), Target(s, st);
    if id == s'.bufs[b].id {
      ContentsOf(s', b);
      if st.Claim? {
        ContentsOnDisk(s, id);
      } else {
        assert CoherentAt(s, b);
        ContentsOf(s, b);
      }
    } else if id == s.bufs[b].id {
      assert CoherentAt(s, b);
      ContentsOf(s, b);
      NoLonger(s, s', b);
      ContentsOnDisk(s', id);
    } else {
      ContentsElsewhere(s, s', b, id);
    }
  }

  lemma NoLonger(s: State, s': State, b: nat)
    requires Unique(s) && b < |s.bufs| == |s'.bufs| && s.bufs[b].id.dev != 0 && s'.bufs[b].id != s.bufs[b].id
    requires forall x :: 0 <= x < |s.bufs| && x != b ==> s'.bufs[x] == s.bufs[x]
    ensures !Cached(s', s.bufs[b].id)
  {
  }

  lemma ContentsElsewhere(s: State, s': State, b: nat, id: Id)
    requires Unique(s) && Unique(s') && b < |s.bufs| == |s'.bufs| && id.dev != 0
    requires forall x :: 0 <= x < |s.bufs| && x != b ==> s'.bufs[x] == s.bufs[x]
    requires id != s.bufs[b].id && id != s'.bufs[b].id && On(s.disk, id) == On(s'.disk, id)
    ensures Contents(s', id) == Contents(s, id)
  {
    if x :| 0 <= x < |s.bufs| && s.bufs[x].id == id {
      ContentsOf(s, x);
      ContentsOf(s', x);
    } else {
      ContentsOnDisk(s, id);
      forall y | 0 <= y < |s'.bufs| ensures s'.bufs[y].id != id {
        assert y != b ==> s'.bufs[y] == s.bufs[y];
      }
      ContentsOnDisk(s', id);
    }
  }

  /** bread returns an up-to-date buffer: it holds the contents of the block it was asked for, and
      stays up to date as long as the caller keeps the reference. */
  lemma HeldBlock(s: State, r: nat, st: Step)
    requires r in s.refs && Coherent(s, s.refs[r].id) && s.bufs[ReferencedBy(s, r)].uptodate
    requires Enabled(s, st) && Sound(s, st, s.refs[r].id) && st != Release(r) && st != Forget(r)
    ensures s.bufs[ReferencedBy(s, r)].data == Contents(s, s.refs[r].id)
    ensures var s' := Next(s, st); r in s'.refs && s'.refs[r] == s.refs[r] && s'.bufs[s.refs[r].b].uptodate
  {
    ReferencesHold(s, r);
    var b := s.refs[r].b;
    assert s.bufs[b].id.dev != 0;
    ContentsOf(s, b);
    assert CoherentAt(s, b);
    if st.Forget? && s.refs[st.r].b == b {
      OneUser(s, st.r);
    }
  }

  ghost function ReferencedBy(s: State, r: nat): (b: nat)
    requires Inv(s) && r in s.refs
    ensures b < |s.bufs|
  {
    s.refs[r].b
  }

  // ---------- whole runs ----------

  ghost predicate IsRun(states: seq<State>, steps: seq<Step>) {
    && |states| == |steps| + 1
    && forall i :: 0 <= i < |steps| ==> Enabled(states[i], steps[i]) && states[i + 1] == Next(states[i], steps[i])
  }

  /** Contents of block id after the first n steps of a run, kept by hand. */
  ghost function Ledger(states: seq<State>, steps: seq<Step>, id: Id, n: nat): Data
    requires IsRun(states, steps) && n <= |steps|
  {
    if n == 0 then Contents(states[0], id)
    else
      match steps[n - 1]
      case Store(r, data, mark) =>
        if states[n - 1].bufs[states[n - 1].refs[r].b].id == id then data else Ledger(states, steps, id, n - 1)
      case Overwrite(r, data) =>
        if states[n - 1].bufs[states[n - 1].refs[r].b].id == id then data else Ledger(states, steps, id, n - 1)
      case Forget(r) =>
        if states[n - 1].bufs[states[n - 1].refs[r].b].id == id then On(states[n - 1].disk, id)
        else Ledger(states, steps, id, n - 1)
      case _ => Ledger(states, steps, id, n - 1)
  }

  lemma {:induction false} RunInv(states: seq<State>, steps: seq<Step>, n: nat)
    requires IsRun(states, steps) && n <= |steps| && Inv(states[0])
    ensures Inv(states[n])
  {
    if n == 0 {
    } else {
      RunInv(states, steps, n - 1);
      StepInv(states[n - 1], steps[n - 1]);
    }
  }

  /** Reading through the cache gives the last lasting store to the block, over every run. */
  lemma {:induction false} RunRefines(states: seq<State>, steps: seq<Step>, id: Id, n: nat)
    requires IsRun(states, steps) && n <= |steps| && Coherent(states[0], id) && id.dev != 0
    requires forall i :: 0 <= i < n ==> Sound(states[i], steps[i], id)
    ensures Coherent(states[n], id) && Contents(states[n], id) == Ledger(states, steps, id, n)
  {
    if n == 0 {
    } else {
      RunRefines(states, steps, id, n - 1);
      StepRefines(states[n - 1], steps[n - 1], id);
    }
  }

  function Initial(n: nat, disk: map<Id, Data>): State {
    State(seq(n, _ => Buffer(Id(0, 0), 0, false, false, [], Idle)), disk, map[])
  }

  /** The table buffer_init sets up is coherent, whatever is on the disks. */
  lemma InitCoherent(n: nat, disk: map<Id, Data>, id: Id)
    requires id.dev != 0
    ensures Coherent(Initial(n, disk), id)
  {
    var s := Initial(n, disk);
    forall b: nat | b < n ensures s.bufs[b].count == |Users(s, b)| {
      assert Users(s, b) == {};
    }
  }

  // ---------- stores that do not last ----------

  /** A step that stores nothing into block id, and a device that does not fail on it. */
  predicate Quiet(s: State, st: Step, id: Id)
    requires Enabled(s, st)
  {
    s.bufs[Target(s, st)].id == id ==> Lasting(s, st) && !st.Store? && !st.Overwrite? && !st.Forget?
  }

  ghost predicate IsQuiet(states: seq<State>, steps: seq<Step>, id: Id)
    requires IsRun(states, steps)
  {
    forall i :: 0 <= i < |steps| ==> Quiet(states[i], steps[i], id)
  }

  ghost predicate RunsFromTo(states: seq<State>, steps: seq<Step>, id: Id, s: State, t: State) {
    IsRun(states, steps) && IsQuiet(states, steps, id) && states[0] == s && states[|steps|] == t
  }

  /** Some run leads from s to t without a further store into block id. */
  ghost predicate Leads(s: State, t: State, id: Id) {
    exists states, steps :: RunsFromTo(states, steps, id, s, t)
  }

  /** Block id reads as `data` for good: after every run without a further store into it. */
  ghost predicate Survives(s: State, id: Id, data: Data) {
    forall t :: Leads(s, t, id) ==> Contents(t, id) == data
  }

  lemma LeadsNowhere(s: State, id: Id)
    ensures Leads(s, s, id)
  {
    assert RunsFromTo([s], [], id, s, s);
  }

  lemma LeadsOn(s: State, t: State, id: Id, st: Step)
    requires Leads(s, t, id) && Enabled(t, st) && Quiet(t, st, id)
    ensures Leads(s, Next(t, st), id)
  {
    var states, steps :| RunsFromTo(states, steps, id, s, t);
    var states', steps' := states + [Next(t, st)], steps + [st];
    forall i | 0 <= i < |steps'|
      ensures Enabled(states'[i], steps'[i]) && states'[i + 1] == Next(states'[i], steps'[i])
      ensures Quiet(states'[i], steps'[i], id)
    {
      if i < |steps| {
        assert states'[i] == states[i] && states'[i + 1] == states[i + 1] && steps'[i] == steps[i];
      } else {
        assert states'[i] == t && steps'[i] == st;
      }
    }
    assert RunsFromTo(states', steps', id, s, Next(t, st));
  }

  lemma {:induction false} QuietRun(states: seq<State>, steps: seq<Step>, id: Id, n: nat)
    requires IsRun(states, steps) && IsQuiet(states, steps, id) && n <= |steps|
    requires Coherent(states[0], id) && id.dev != 0
    ensures Coherent(states[n], id) && Contents(states[n], id) == Contents(states[0], id)
  {
    if n == 0 {
    } else {
      QuietRun(states, steps, id, n - 1);
      assert Quiet(states[n - 1], steps[n - 1], id);
      StepRefines(states[n - 1], steps[n - 1], id);
    }
  }

  lemma LastingSurvives(s: State, r: nat, data: Data, mark: bool)
    requires Has(s, r) && Coherent(s, s.refs[r].id) && Lasting(s, Store(r, data, mark))
    ensures Survives(Next(s, Store(r, data, mark)), s.refs[r].id, data)
  {
    var id, s' := s.refs[r].id, Next(s, Store(r, data, mark));
    ReferencesHold(s, r);
    StepRefines(s, Store(r, data, mark), id);
    forall t | Leads(s', t, id) ensures Contents(t, id) == data {
      var states, steps :| RunsFromTo(states, steps, id, s', t);
      QuietRun(states, steps, id, |steps|);
    }
  }

  lemma ReleaseOne(s: State, t: State, id: Id, b: nat, r: nat) returns (u: State)
    requires Leads(s, t, id) && Inv(t) && b < |t.bufs| && r in Users(t, b)
    ensures Leads(s, u, id) && Inv(u) && u.disk == t.disk && u.refs == t.refs - {r}
    ensures u.bufs == t.bufs[b := t.bufs[b].(count := t.bufs[b].count - 1)]
  {
    ReferencesHold(t, r);
    u := Next(t, Release(r));
    StepInv(t, Release(r));
    LeadsOn(s, t, id, Release(r));
  }

  lemma UsersLeft(t: State, u: State, b: nat, r: nat)
    requires r in Users(t, b) && u.refs == t.refs - {r}
    ensures Users(t, b) == Users(u, b) + {r} && r !in Users(u, b)
    ensures u.refs - Users(u, b) == t.refs - Users(t, b)
  {
    assert Users(t, b) == Users(u, b) + {r};
  }

  /** All holders of buffer b can let go of it. */
  lemma {:induction false} ReleaseAll(s: State, t: State, id: Id, b: nat) returns (t': State)
    requires Leads(s, t, id) && Inv(t) && b < |t.bufs|
    ensures Leads(s, t', id) && Inv(t') && t'.disk == t.disk && t'.refs == t.refs - Users(t, b)
    ensures t'.bufs == t.bufs[b := t.bufs[b].(count := 0)]
    decreases |Users(t, b)|
  {
    assert t.bufs[b].count == |Users(t, b)|;
    if Users(t, b) == {} {
      t' := t;
    } else {
      var r :| r in Users(t, b);
      var u := ReleaseOne(s, t, id, b, r);
      UsersLeft(t, u, b, r);
      t' := ReleaseAll(s, u, id, b);
    }
  }

  lemma {:induction false} SpareBlock(bufs: seq<Buffer>) returns (id: Id)
    ensures id.dev != 0 && forall b :: 0 <= b < |bufs| ==> bufs[b].id.block < id.block
  {
    if bufs == [] {
      id := Id(1, 0);
    } else {
      var n := |bufs| - 1;
      var rest := SpareBlock(bufs[..n]);
      id := Id(1, if bufs[n].id.block < rest.block then rest.block else bufs[n].id.block + 1);
      forall b | 0 <= b < |bufs| ensures bufs[b].id.block < id.block {
        assert b < n ==> bufs[..n][b] == bufs[b];
      }
    }
  }

  /** A clean buffer at rest can be recycled: then its block is what the disk has. */
  lemma Recycled(s: State, t: State, r: nat, b: nat) returns (t': State)
    requires Inv(t) && b < |t.bufs| && Leads(s, t, t.bufs[b].id)
    requires t.bufs[b].id.dev != 0 && !t.bufs[b].dirt && t.bufs[b].io == Idle && r in Users(t, b)
    ensures Leads(s, t', t.bufs[b].id) && Contents(t', t.bufs[b].id) == On(t.disk, t.bufs[b].id)
  {
    var id := t.bufs[b].id;
    var u := ReleaseAll(s, t, id, b);
    var other := SpareBlock(u.bufs);
    t' := Next(u, Claim(r, b, other));
    LeadsOn(s, u, id, Claim(r, b, other));
    NoLonger(u, t', b);
    ContentsOnDisk(t', id);
  }

  /** A store into a buffer that is not up to date is undone by the read that makes it so. */
  lemma UnreadLost(s: State, t: State, b: nat) returns (t': State)
    requires Inv(t) && b < |t.bufs| && t.bufs[b].id.dev != 0 && Leads(s, t, t.bufs[b].id)
    requires !t.bufs[b].uptodate && (t.bufs[b].io == Idle || t.bufs[b].io.cmd == READ)
    ensures Leads(s, t', t.bufs[b].id) && Contents(t', t.bufs[b].id) == On(t.disk, t.bufs[b].id)
    ensures b < |t'.bufs| && t'.bufs[b].id == t.bufs[b].id && t'.bufs[b].uptodate
    ensures t'.bufs[b].data == On(t.disk, t.bufs[b].id)
    decreases if t.bufs[b].io == Idle then 2 else if t.bufs[b].io.Pending? then 1 else 0
  {
    var st := match t.bufs[b].io
      case Idle => Lock(b, READ)
      case Pending(_) => Queue(b)
      case Queued(_, _) => Complete(b, true, []);
    StepInv(t, st);
    LeadsOn(s, t, t.bufs[b].id, st);
    if st.Complete? {
      t' := Next(t, st);
      ContentsOf(t', b);
    } else {
      t' := UnreadLost(s, Next(t, st), b);
    }
  }

  /** A store that leaves its buffer clean is undone once the buffer is recycled.  A write under way
      may have sent the old bytes before the store. */
  lemma UnmarkedLost(s: State, t: State, r: nat, b: nat, was: Data) returns (t': State)
    requires Inv(t) && b < |t.bufs| && t.bufs[b].id.dev != 0 && Leads(s, t, t.bufs[b].id)
    requires !t.bufs[b].dirt && r in Users(t, b)
    requires (t.bufs[b].io == Idle && On(t.disk, t.bufs[b].id) == was) || t.bufs[b].io == Queued(WRITE, false)
    ensures Leads(s, t', t.bufs[b].id) && Contents(t', t.bufs[b].id) == was
  {
    if t.bufs[b].io == Idle {
      t' := Recycled(s, t, r, b);
    } else {
      var st := Complete(b, true, was);
      StepInv(t, st);
      LeadsOn(s, t, t.bufs[b].id, st);
      t' := Recycled(s, Next(t, st), r, b);
    }
  }

  lemma StoreLost(s: State, r: nat, data: Data, mark: bool) returns (t: State)
    requires Has(s, r) && Coherent(s, s.refs[r].id) && !Lasting(s, Store(r, data, mark))
    ensures Leads(Next(s, Store(r, data, mark)), t, s.refs[r].id)
    ensures Contents(t, s.refs[r].id) == Contents(s, s.refs[r].id)
  {
    var id, b, s' := s.refs[r].id, s.refs[r].b, Next(s, Store(r, data, mark));
    ReferencesHold(s, r);
    StepInv(s, Store(r, data, mark));
    LeadsNowhere(s', id);
    assert CoherentAt(s, b);
    ContentsOf(s, b);
    if !s.bufs[b].uptodate {
      t := UnreadLost(s', s', b);
    } else {
      t := UnmarkedLost(s', s', r, b, s.bufs[b].data);
    }
  }

  /** A STORE LASTS EXACTLY WHEN IT IS MARKED.  A store that changes its block is read back after
      every later run, however the buffer is written, dropped and read again, if and only if its
      buffer is up to date and is, or is being, marked dirty. */
  lemma StoreExact(s: State, r: nat, data: Data, mark: bool)
    requires Has(s, r) && Coherent(s, s.refs[r].id) && data != Contents(s, s.refs[r].id)
    ensures var st := Store(r, data, mark);
            Survives(Next(s, st), s.refs[r].id, data) <==> Lasting(s, st)
  {
    if Lasting(s, Store(r, data, mark)) {
      LastingSurvives(s, r, data, mark);
    } else {
      var t := StoreLost(s, r, data, mark);
    }
  }

  /** block_write of a whole block takes its buffer from getblk without reading it and marks it
      dirty only.  The next bread of the block then undoes the store. */
  lemma WholeBlockLost(s: State, r: nat, data: Data, junk: Data)
    requires Has(s, r) && Coherent(s, s.refs[r].id) && !s.bufs[s.refs[r].b].uptodate && !Locked(s.bufs[s.refs[r].b])
    ensures var b := s.refs[r].b;
            var stored := Next(s, Store(r, data, true));
            && Enabled(stored, Lock(b, READ)) && Enabled(Next(stored, Lock(b, READ)), Queue(b))
            && var queued := Next(Next(stored, Lock(b, READ)), Queue(b));
               && Enabled(queued, Complete(b, true, junk))
               && var done := Next(queued, Complete(b, true, junk));
                  && done.bufs[b].uptodate && !done.bufs[b].dirt && done.bufs[b].data == Contents(s, s.refs[r].id)
  {
    ReferencesHold(s, r);
    ContentsOf(s, s.refs[r].b);
  }

  /** file_write marks the buffer before it copies from the user, and the copy can sleep on a page
      fault.  Bytes stored after a sync has queued the buffer are lost when it is recycled. */
  lemma LateBytesLost(s: State, r: nat, data: Data, other: Id)
    requires Has(s, r) && Coherent(s, s.refs[r].id) && other.dev != 0 && !Cached(s, other)
    requires var bh := s.bufs[s.refs[r].b]; bh.uptodate && !bh.dirt && bh.io == Idle && bh.count == 1
    ensures var b := s.refs[r].b;
            var late := Next(s, Store(r, data, false));
            && Enabled(late, Release(r)) && Enabled(Next(late, Release(r)), Claim(r, b, other))
            && Contents(Next(Next(late, Release(r)), Claim(r, b, other)), s.refs[r].id) == Contents(s, s.refs[r].id)
  {
    ReferencesHold(s, r);
    var b := s.refs[r].b;
    var late := Next(s, Store(r, data, false));
    var free := Next(late, Release(r));
    forall x | 0 <= x < |free.bufs| ensures free.bufs[x].id != other {
      assert free.bufs[x].id == s.bufs[x].id;
    }
    var done := Next(free, Claim(r, b, other));
    assert CoherentAt(s, b);
    ContentsOf(s, b);
    NoLonger(s, done, b);
    ContentsOnDisk(done, s.refs[r].id);
  }
}
