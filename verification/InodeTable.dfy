/** The in-core inode table (fs/inode.c with new_inode and free_inode of fs/bitmap.c) as a protocol:
    tasks act in any order between the points where they sleep.
 */
module InodeTable {
  import opened BufferIndex

  /** The part of an inode that is kept on disk. */
  datatype Attr = Attr(nlinks: nat, rest: seq<int>)

  const ZERO := Attr(0, [])

  /** A table slot; dev is 0 in a slot without an inode.  `Id.block` is the inode number. */
  datatype Slot = Slot(id: Id, count: nat, dirt: bool, lock: bool, filled: bool, attr: Attr)

  const NONE := Id(0, 0)
  const BLANK := Slot(NONE, 0, false, false, false, ZERO)

  /** What a task holds a slot for: an empty one it has just been given, one end of a pipe, or an
      inode. */
  datatype Use = Empty | PipeEnd | Inode(id: Id)

  datatype Ref = Ref(k: nat, use: Use)

  /** A task inside write_inode that waits for the block of inode id, and then writes from slot k.
      `live` says that the slot has not been freed since. */
  datatype Writer = Writer(k: nat, id: Id, live: bool)

  /** `used` is the inode bitmap, `disk` the inodes as written back. */
  datatype State = State(slots: seq<Slot>, disk: map<Id, Attr>, used: set<Id>, refs: map<nat, Ref>,
                         writers: map<nat, Writer>)

  function On(disk: map<Id, Attr>, id: Id): Attr {
    if id in disk then disk[id] else ZERO
  }

  /** Inode numbers begin with 1. */
  predicate Real(id: Id) {
    id.dev != 0 && id.block > 0
  }

  // ---------- where write_inode writes ----------

  const INODES_PER_BLOCK: nat := 32

  /** The table block an inode is in, counted from the first. */
  function TableBlock(number: nat): nat {
    if number == 0 then 0xffff_ffff / INODES_PER_BLOCK else (number - 1) / INODES_PER_BLOCK
  }

  /** Its place in that block; the subtraction of 1 is unsigned. */
  function TableIndex(number: nat): nat {
    if number == 0 then 0xffff_ffff % INODES_PER_BLOCK else (number - 1) % INODES_PER_BLOCK
  }

  /** The block is that of the inode the writer began with, the index that of the one the slot holds
      when the block has been read. */
  function WrittenId(s: State, w: nat): Id
    requires w in s.writers && s.writers[w].k < |s.slots|
  {
    var id := s.writers[w].id;
    Id(id.dev, TableBlock(id.block) * INODES_PER_BLOCK + TableIndex(s.slots[s.writers[w].k].id.block) + 1)
  }

  // ---------- steps ----------

  datatype Step =
    | Claim(r: nat, k: nat)
    | Hit(r: nat, k: nat, id: Id)
    | Name(r: nat, id: Id)
    | Fill(k: nat)
    | New(r: nat, id: Id)
    | MakePipe(r: nat, r': nat)
    | Dup(r: nat, r': nat)
    | Change(r: nat, attr: Attr)
    | WriteLock(w: nat, k: nat)
    | WriteDone(w: nat)
    | Put(r: nat)
    | Free(r: nat)

  predicate Has(s: State, r: nat) {
    r in s.refs && s.refs[r].k < |s.slots|
  }

  predicate InCore(s: State, id: Id) {
    exists k :: 0 <= k < |s.slots| && s.slots[k].id == id
  }

  /** When each stretch of code can be reached. */
  predicate Enabled(s: State, st: Step) {
    match st
    // the end of get_empty_inode
    case Claim(r, k) =>
      r !in s.refs && k < |s.slots| && s.slots[k].count == 0 && !s.slots[k].lock && !s.slots[k].dirt
    // iget finds the inode, also one that nobody uses any more, and has waited for it
    case Hit(r, k, id) => r !in s.refs && k < |s.slots| && s.slots[k].id == id && id.dev != 0 && !s.slots[k].lock
    // iget has scanned the whole table in vain and uses its empty slot; read_inode locks it
    case Name(r, id) => Has(s, r) && s.refs[r].use == Empty && Real(id) && !InCore(s, id)
    // the end of read_inode
    case Fill(k) => k < |s.slots| && !s.slots[k].filled && s.slots[k].id.dev != 0
    // new_inode takes a number whose bit is clear
    case New(r, id) => Has(s, r) && s.refs[r].use == Empty && Real(id) && id !in s.used
    // get_pipe_inode, and the counting up by a task that already has the inode
    case MakePipe(r, r') => Has(s, r) && s.refs[r].use == Empty && r' !in s.refs
    case Dup(r, r') => Has(s, r) && s.refs[r].use != Empty && r' !in s.refs
    case Change(r, attr) => Has(s, r) && s.slots[s.refs[r].k].filled && s.slots[s.refs[r].k].id.dev != 0
    // write_inode up to bread, and from there
    case WriteLock(w, k) =>
      w !in s.writers && k < |s.slots| && !s.slots[k].lock && s.slots[k].dirt && s.slots[k].id.dev != 0
    case WriteDone(w) => w in s.writers && s.writers[w].k < |s.slots|
    // the decrement in iput
    case Put(r) =>
      && Has(s, r) && !s.slots[s.refs[r].k].lock && s.slots[s.refs[r].k].count > 0
      && (s.slots[s.refs[r].k].id.dev != 0 && s.slots[s.refs[r].k].count == 1 ==>
            !s.slots[s.refs[r].k].dirt && s.slots[s.refs[r].k].attr.nlinks != 0)
    // free_inode, which panics when somebody else has come to use the inode and does not look at
    // the lock; iput has waited for read_inode to end
    case Free(r) =>
      && Has(s, r) && s.slots[s.refs[r].k].count == 1 && s.slots[s.refs[r].k].id.dev != 0
      && s.slots[s.refs[r].k].filled && s.slots[s.refs[r].k].attr.nlinks == 0
  }

  function Target(s: State, st: Step): (k: nat)
    requires Enabled(s, st)
    ensures k < |s.slots|
  {
    match st
    case Claim(_, k) => k
    case Hit(_, k, _) => k
    case Fill(k) => k
    case WriteLock(_, k) => k
    case WriteDone(w) => s.writers[w].k
    case Name(r, _) => s.refs[r].k
    case New(r, _) => s.refs[r].k
    case MakePipe(r, _) => s.refs[r].k
    case Dup(r, _) => s.refs[r].k
    case Change(r, _) => s.refs[r].k
    case Put(r) => s.refs[r].k
    case Free(r) => s.refs[r].k
  }

  /** What becomes of the slot. */
  function Slotted(s: State, st: Step): Slot
    requires Enabled(s, st)
  {
    var i := s.slots[Target(s, st)];
    match st
    case Claim(_, _) => BLANK.(count := 1)
    case Hit(_, _, _) => i.(count := i.count + 1)
    case Name(_, id) => i.(id := id, lock := true)
    case Fill(_) => i.(attr := On(s.disk, i.id), filled := true, lock := false)
    case New(_, id) => i.(id := id, filled := true, dirt := true, attr := Attr(1, []))
    case MakePipe(_, _) => i.(count := 2)
    case Dup(_, _) => i.(count := i.count + 1)
    case Change(_, attr) => i.(attr := attr, dirt := true)
    case WriteLock(_, _) => i.(lock := true)
    case WriteDone(_) => i.(dirt := false, lock := false)
    case Put(_) => i.(count := i.count - 1)
    case Free(_) => BLANK
  }

  /** The writers after slot k has been freed. */
  function Overtaken(writers: map<nat, Writer>, k: nat): map<nat, Writer> {
    map w | w in writers :: if writers[w].k == k then writers[w].(live := false) else writers[w]
  }

  function Next(s: State, st: Step): State
    requires Enabled(s, st)
  {
    var k := Target(s, st);
    var slots := s.slots[k := Slotted(s, st)];
    match st
    case Claim(r, _) => s.(slots := slots, refs := s.refs[r := Ref(k, Empty)])
    case Hit(r, _, id) => s.(slots := slots, refs := s.refs[r := Ref(k, Inode(id))])
    case Name(r, id) => s.(slots := slots, refs := s.refs[r := Ref(k, Inode(id))])
    case New(r, id) => s.(slots := slots, refs := s.refs[r := Ref(k, Inode(id))], used := s.used + {id})
    case MakePipe(r, r') => s.(slots := slots, refs := s.refs[r := Ref(k, PipeEnd)][r' := Ref(k, PipeEnd)])
    case Dup(r, r') => s.(slots := slots, refs := s.refs[r' := s.refs[r]])
    case WriteLock(w, _) => s.(slots := slots, writers := s.writers[w := Writer(k, s.slots[k].id, true)])
    case WriteDone(w) =>
      s.(slots := slots, disk := s.disk[WrittenId(s, w) := s.slots[k].attr], writers := s.writers - {w})
    case Put(r) => s.(slots := slots, refs := s.refs - {r})
    case Free(r) =>
      s.(slots := slots, refs := s.refs - {r}, used := s.used - {s.slots[k].id}, writers := Overtaken(s.writers, k))
    case _ => s.(slots := slots)
  }

  // ---------- identities and counts ----------

  ghost predicate Unique(s: State) {
    forall k, k' :: 0 <= k < k' < |s.slots| && s.slots[k].id.dev != 0 ==> s.slots[k].id != s.slots[k'].id
  }

  /** A slot without an inode is blank but for its count. */
  ghost predicate Clear(s: State) {
    forall k :: 0 <= k < |s.slots| ==>
      if s.slots[k].id.dev != 0 then Real(s.slots[k].id)
      else s.slots[k].id == NONE && !s.slots[k].dirt && !s.slots[k].filled && !s.slots[k].lock
  }

  /** A slot held for an inode holds that inode; an empty slot is held by one task alone. */
  ghost predicate StableAt(s: State, r: nat)
    requires r in s.refs
  {
    && Has(s, r)
    && match s.refs[r].use
       case Empty => s.slots[s.refs[r].k].id == NONE && s.slots[s.refs[r].k].count == 1
       case PipeEnd => s.slots[s.refs[r].k].id == NONE
       case Inode(id) => s.slots[s.refs[r].k].id == id && id.dev != 0
  }

  ghost predicate Stable(s: State) {
    forall r :: r in s.refs ==> StableAt(s, r)
  }

  ghost function Users(s: State, k: nat): set<nat> {
    set r | r in s.refs && s.refs[r].k == k
  }

  ghost predicate Counted(s: State) {
    forall k: nat :: k < |s.slots| ==> s.slots[k].count == |Users(s, k)|
  }

  /** What every step keeps. */
  ghost predicate Held(s: State) {
    Clear(s) && Stable(s) && Counted(s)
  }

  ghost predicate Inv(s: State) {
    Unique(s) && Held(s)
  }

  lemma StepLocal(s: State, st: Step)
    requires Enabled(s, st)
    ensures var s', k := Next(s, st), Target(s, st);
            && |s'.slots| == |s.slots| && s'.slots[k] == Slotted(s, st)
            && (forall x :: 0 <= x < |s.slots| && x != k ==> s'.slots[x] == s.slots[x])
            && (!st.WriteDone? ==> s'.disk == s.disk)
  {
  }

  lemma Unused(s: State, k: nat)
    requires Counted(s) && k < |s.slots| && s.slots[k].count == 0
    ensures forall r :: r in s.refs ==> s.refs[r].k != k
  {
    forall r | r in s.refs ensures s.refs[r].k != k {
      assert r !in Users(s, k);
    }
  }

  lemma Alone(s: State, r: nat)
    requires Counted(s) && Has(s, r) && s.slots[s.refs[r].k].count == 1
    ensures Users(s, s.refs[r].k) == {r}
    ensures forall q :: q in s.refs && q != r ==> s.refs[q].k != s.refs[r].k
  {
    var us := Users(s, s.refs[r].k);
    assert r in us && |us - {r}| == 0;
    forall q | q in s.refs && q != r ensures s.refs[q].k != s.refs[r].k {
      assert q !in us - {r};
    }
  }

  lemma StepClear(s: State, st: Step)
    requires Clear(s) && Stable(s) && Enabled(s, st)
    ensures Clear(Next(s, st))
  {
    StepLocal(s, st);
    assert st.Name? || st.New? || st.MakePipe? ==> StableAt(s, st.r);
  }

  lemma StepStable(s: State, st: Step)
    requires Clear(s) && Stable(s) && Counted(s) && Enabled(s, st)
    ensures Stable(Next(s, st))
  {
    StepLocal(s, st);
    var s', k := Next(s, st), Target(s, st);
    if st.Claim? {
      Unused(s, k);
    } else if st.Name? || st.New? || st.MakePipe? || st.Free? {
      assert StableAt(s, st.r);
      Alone(s, st.r);
    }
    forall q | q in s'.refs ensures StableAt(s', q) {
      if q in s.refs {
        assert StableAt(s, q);
        if s.refs[q].k == k && s.refs[q].use == Empty {
          Alone(s, q);
        }
      }
    }
  }

  lemma UsersGrow(s: State, s': State, r: nat, k: nat)
    requires r !in s.refs && r in s'.refs && s'.refs[r].k == k
    requires forall q :: q != r ==> (q in s'.refs <==> q in s.refs) && (q in s.refs ==> s'.refs[q].k == s.refs[q].k)
    ensures |Users(s', k)| == |Users(s, k)| + 1 && forall x: nat :: x != k ==> Users(s', x) == Users(s, x)
  {
    assert Users(s', k) == Users(s, k) + {r};
    forall x: nat | x != k ensures Users(s', x) == Users(s, x) {
    }
  }

  lemma UsersShrink(s: State, s': State, r: nat)
    requires r in s.refs && s'.refs == s.refs - {r}
    ensures var k := s.refs[r].k;
            |Users(s', k)| == |Users(s, k)| - 1 && forall x: nat :: x != k ==> Users(s', x) == Users(s, x)
  {
    var k := s.refs[r].k;
    assert Users(s, k) == Users(s', k) + {r};
    forall x: nat | x != k ensures Users(s', x) == Users(s, x) {
    }
  }

  lemma UsersSame(s: State, s': State)
    requires s.refs.Keys == s'.refs.Keys && forall q :: q in s.refs ==> s'.refs[q].k == s.refs[q].k
    ensures forall x: nat :: Users(s', x) == Users(s, x)
  {
    forall x: nat ensures Users(s', x) == Users(s, x) {
      assert forall q :: q in s.refs <==> q in s'.refs;
    }
  }

  lemma StepCounted(s: State, st: Step)
    requires Stable(s) && Counted(s) && Enabled(s, st)
    ensures Counted(Next(s, st))
  {
    StepLocal(s, st);
    var s', k := Next(s, st), Target(s, st);
    assert s.slots[k].count == |Users(s, k)|;
    match st {
      case Claim(r, _) => UsersGrow(s, s', r, k);
      case Hit(r, _, _) => UsersGrow(s, s', r, k);
      case Dup(_, r') => UsersGrow(s, s', r', k);
      case MakePipe(r, r') =>
        assert StableAt(s, r);
        UsersGrow(s, s', r', k);
      case Put(r) => UsersShrink(s, s', r);
      case Free(r) => UsersShrink(s, s', r);
      case _ => UsersSame(s, s');
    }
    forall x: nat | x < |s'.slots| ensures s'.slots[x].count == |Users(s', x)| {
      assert s.slots[x].count == |Users(s, x)|;
    }
  }

  /** Whatever happens, in whatever order, a slot in use keeps its inode and counts are exact. */
  lemma StepHeld(s: State, st: Step)
    requires Held(s) && Enabled(s, st)
    ensures Held(Next(s, st))
  {
    StepClear(s, st);
    StepStable(s, st);
    StepCounted(s, st);
  }

  /** No inode comes to be in two slots, but for one case: new_inode does not search the table, and
      it makes a second copy if and only if the number it takes is in the table already. */
  lemma StepUnique(s: State, st: Step)
    requires Inv(s) && Enabled(s, st)
    ensures Unique(Next(s, st)) <==> (st.New? ==> !InCore(s, st.id))
  {
    StepLocal(s, st);
    var s', k := Next(s, st), Target(s, st);
    if st.Name? || st.New? {
      assert StableAt(s, st.r);
      if st.New? && InCore(s, st.id) {
        var x :| 0 <= x < |s.slots| && s.slots[x].id == st.id;
        assert s'.slots[x].id == s'.slots[k].id && x != k;
      } else {
        forall x | 0 <= x < |s.slots| && x != k ensures s'.slots[x].id != st.id {
          assert s.slots[x].id != st.id;
        }
      }
    }
  }

  /** new_inode takes no number that is in the table. */
  predicate Proper(s: State, st: Step) {
    st.New? ==> !InCore(s, st.id)
  }

  lemma StepInv(s: State, st: Step)
    requires Inv(s) && Enabled(s, st) && Proper(s, st)
    ensures Inv(Next(s, st))
  {
    StepHeld(s, st);
    StepUnique(s, st);
  }

  /** Only inodes that exist are in the table. */
  ghost predicate AllUsed(s: State) {
    forall k :: 0 <= k < |s.slots| && s.slots[k].id.dev != 0 ==> s.slots[k].id in s.used
  }

  /** While the table holds only inodes that exist, new_inode cannot go wrong; and it holds only such
      inodes until iget is asked for one that does not. */
  lemma UsedIsProper(s: State, st: Step)
    requires Inv(s) && AllUsed(s) && Enabled(s, st)
    ensures Proper(s, st)
    ensures AllUsed(Next(s, st)) <==> (st.Name? ==> st.id in s.used)
  {
    StepLocal(s, st);
    var s', k := Next(s, st), Target(s, st);
    if st.Name? || st.New? {
      assert StableAt(s, st.r);
      assert s'.slots[k].id == st.id;
    }
    if st.Free? {
      forall x | 0 <= x < |s.slots| && x != k && s.slots[x].id.dev != 0 ensures s.slots[x].id != s.slots[k].id {
      }
    }
  }

  /** A directory entry was read, its inode has been freed meanwhile, and iget brings it back: the
      next new_inode can take the same number.  From any two free slots. */
  lemma FreedInodeTwice(s: State, r: nat, r': nat, k: nat, k': nat, id: Id)
    requires Inv(s) && r !in s.refs && r' !in s.refs && r != r' && k != k' && Real(id) && id !in s.used
    requires !InCore(s, id)
    requires Enabled(s, Claim(r, k)) && Enabled(s, Claim(r', k'))
    ensures var s1 := Next(s, Claim(r, k));
            && Enabled(s1, Name(r, id))
            && var s2 := Next(s1, Name(r, id));
               && Enabled(s2, Claim(r', k'))
               && var s3 := Next(s2, Claim(r', k'));
                  Enabled(s3, New(r', id)) && !Unique(Next(s3, New(r', id)))
  {
    var s1 := Next(s, Claim(r, k));
    forall x | 0 <= x < |s1.slots| ensures s1.slots[x].id != id {
    }
    var s2 := Next(s1, Name(r, id));
    var s3 := Next(s2, Claim(r', k'));
    var s4 := Next(s3, New(r', id));
    assert s4.slots[k].id == s4.slots[k'].id == id;
  }

  /** iput of a held inode never finds a free one. */
  lemma HeldIsCounted(s: State, r: nat)
    requires Inv(s) && r in s.refs
    ensures Has(s, r) && s.slots[s.refs[r].k].count > 0
  {
    assert StableAt(s, r);
    assert r in Users(s, s.refs[r].k);
    assert s.slots[s.refs[r].k].count == |Users(s, s.refs[r].k)|;
  }

  // ---------- the table as one store of inodes ----------

  ghost predicate CoherentAt(s: State, k: nat)
    requires k < |s.slots|
  {
    var i := s.slots[k];
    && (i.filled && !i.dirt ==> i.attr == On(s.disk, i.id))
    && (!i.filled ==> !i.dirt && (i.id.dev != 0 ==> i.lock))
  }

  /** A writer whose slot was not freed still has it locked, with the inode it began with. */
  ghost predicate WriterAt(s: State, w: nat)
    requires w in s.writers
  {
    var x := s.writers[w];
    x.live ==> x.k < |s.slots| && s.slots[x.k].id == x.id && s.slots[x.k].filled && s.slots[x.k].lock
  }

  ghost predicate Writers(s: State) {
    && (forall w :: w in s.writers ==> WriterAt(s, w))
    && forall w, w' :: w in s.writers && w' in s.writers && s.writers[w].live && s.writers[w'].live ==>
         (s.writers[w].k == s.writers[w'].k ==> w == w')
  }

  ghost predicate Coherent(s: State) {
    Inv(s) && Writers(s) && forall k: nat :: k < |s.slots| ==> CoherentAt(s, k)
  }

  ghost predicate Filled(s: State, k: nat, id: Id) {
    k < |s.slots| && s.slots[k].id == id && s.slots[k].filled
  }

  /** The inode as its users see it. */
  ghost function Contents(s: State, id: Id): Attr {
    if exists k: nat :: Filled(s, k, id) then var k: nat :| Filled(s, k, id); s.slots[k].attr else On(s.disk, id)
  }

  lemma ContentsOf(s: State, k: nat)
    requires Unique(s) && k < |s.slots| && s.slots[k].id.dev != 0
    ensures Contents(s, s.slots[k].id) == if s.slots[k].filled then s.slots[k].attr else On(s.disk, s.slots[k].id)
  {
    var id := s.slots[k].id;
    if exists x: nat :: Filled(s, x, id) {
      var x: nat :| Filled(s, x, id);
      assert x == k;
    } else if s.slots[k].filled {
      assert Filled(s, k, id);
    }
  }

  lemma ContentsOnDisk(s: State, id: Id)
    requires !InCore(s, id)
    ensures Contents(s, id) == On(s.disk, id)
  {
    forall k: nat ensures !Filled(s, k, id) {
    }
  }

  /** write_inode ends on the slot it began with. */
  predicate Timely(s: State, st: Step) {
    st.WriteDone? && st.w in s.writers ==> s.writers[st.w].live
  }

  ghost function Ideal(s: State, st: Step, id: Id): Attr
    requires Enabled(s, st)
  {
    var k := Target(s, st);
    match st
    case New(_, other) => if id == other then Attr(1, []) else Contents(s, id)
    case Change(_, attr) => if id == s.slots[k].id then attr else Contents(s, id)
    case Free(_) => if id == s.slots[k].id then On(s.disk, id) else Contents(s, id)
    case _ => Contents(s, id)
  }

  lemma WritesOwn(s: State, w: nat)
    requires Coherent(s) && w in s.writers && s.writers[w].live
    ensures s.writers[w].k < |s.slots| && WrittenId(s, w) == s.writers[w].id == s.slots[s.writers[w].k].id
  {
    assert WriterAt(s, w);
    var n := s.writers[w].id.block;
    assert Real(s.slots[s.writers[w].k].id);
    assert n - 1 == (n - 1) / INODES_PER_BLOCK * INODES_PER_BLOCK + (n - 1) % INODES_PER_BLOCK;
  }

  lemma StepWriters(s: State, st: Step)
    requires Coherent(s) && Enabled(s, st) && Timely(s, st)
    ensures Writers(Next(s, st))
  {
    StepLocal(s, st);
    var s', k := Next(s, st), Target(s, st);
    assert CoherentAt(s, k);
    assert st.Name? || st.New? || st.MakePipe? ==> StableAt(s, st.r);
    forall w | w in s'.writers ensures WriterAt(s', w) {
      if w in s.writers {
        assert WriterAt(s, w);
      }
    }
    if st.WriteLock? {
      forall w | w in s.writers && s.writers[w].live ensures s.writers[w].k != k {
        assert WriterAt(s, w);
      }
    }
  }

  lemma StepCoherent(s: State, st: Step)
    requires Coherent(s) && Enabled(s, st) && Proper(s, st) && Timely(s, st)
    ensures Coherent(Next(s, st))
  {
    StepInv(s, st);
    StepLocal(s, st);
    StepWriters(s, st);
    var s', k := Next(s, st), Target(s, st);
    if st.WriteDone? {
      WritesOwn(s, st.w);
      assert WriterAt(s, st.w);
    }
    assert CoherentAt(s, k);
    assert st.Name? || st.New? || st.MakePipe? ==> StableAt(s, st.r);
    assert CoherentAt(s', k);
    forall x: nat | x < |s'.slots| ensures CoherentAt(s', x) {
      if x != k {
        assert CoherentAt(s, x);
        assert s.slots[x].id.dev != 0 ==> s.slots[x].id != s.slots[k].id;
      }
    }
  }

  /** THE TABLE REFINES A PLAIN STORE OF INODES.  Finding, claiming, reading, writing back and
      releasing change no inode; iget gives the attributes last set. */
  lemma StepRefines(s: State, st: Step, id: Id)
    requires Coherent(s) && Enabled(s, st) && Proper(s, st) && Timely(s, st) && id.dev != 0
    ensures Coherent(Next(s, st)) && Contents(Next(s, st), id) == Ideal(s, st, id)
  {
    StepCoherent(s, st);
    StepLocal(s, st);
    var s', k := Next(s, st), Target(s, st);
    if st.WriteDone? {
      WritesOwn(s, st.w);
      assert WriterAt(s, st.w);
    }
    assert CoherentAt(s, k);
    if id == s'.slots[k].id {
      ContentsOf(s', k);
      if id == s.slots[k].id {
        ContentsOf(s, k);
      } else {
        ContentsOnDisk(s, id);
      }
    } else if id == s.slots[k].id {
      ContentsOf(s, k);
      assert !InCore(s', id) by {
        forall x | 0 <= x < |s'.slots| ensures s'.slots[x].id != id {
        }
      }
      ContentsOnDisk(s', id);
    } else {
      ContentsElsewhere(s, s', k, id);
    }
  }

  lemma ContentsElsewhere(s: State, s': State, k: nat, id: Id)
    requires Unique(s) && Unique(s') && k < |s.slots| == |s'.slots| && id.dev != 0
    requires forall x :: 0 <= x < |s.slots| && x != k ==> s'.slots[x] == s.slots[x]
    requires id != s.slots[k].id && id != s'.slots[k].id && On(s.disk, id) == On(s'.disk, id)
    ensures Contents(s', id) == Contents(s, id)
  {
    if x :| 0 <= x < |s.slots| && s.slots[x].id == id {
      ContentsOf(s, x);
      ContentsOf(s', x);
    } else {
      ContentsOnDisk(s, id);
      forall y | 0 <= y < |s'.slots| ensures s'.slots[y].id != id {
        assert y != k ==> s'.slots[y] == s.slots[y];
      }
      ContentsOnDisk(s', id);
    }
  }

  // ---------- an inode freed while it is written ----------

  /** write_inode touches no inode on disk but the one it began with, if and only if the slot has an
      inode with the same place in its block, or what it stores was there already. */
  lemma WriteDoneExact(s: State, w: nat)
    requires Enabled(s, WriteDone(w)) && Real(s.writers[w].id)
    ensures var i := s.slots[s.writers[w].k];
            (forall id :: id != s.writers[w].id ==> On(Next(s, WriteDone(w)).disk, id) == On(s.disk, id)) <==>
            || TableIndex(i.id.block) == TableIndex(s.writers[w].id.block)
            || On(s.disk, WrittenId(s, w)) == i.attr
  {
    var x, i := s.writers[w], s.slots[s.writers[w].k];
    var s' := Next(s, WriteDone(w));
    var at := WrittenId(s, w);
    SamePlace(x.id.block, TableIndex(i.id.block));
    assert at == x.id <==> TableIndex(i.id.block) == TableIndex(x.id.block);
    assert On(s'.disk, at) == i.attr;
  }

  lemma SamePlace(n: nat, index: nat)
    requires n > 0
    ensures TableBlock(n) * INODES_PER_BLOCK + index + 1 == n <==> index == TableIndex(n)
  {
    assert n - 1 == (n - 1) / INODES_PER_BLOCK * INODES_PER_BLOCK + (n - 1) % INODES_PER_BLOCK;
  }

  /** The last inode of the same block. */
  function LastOfBlock(id: Id): Id {
    Id(id.dev, TableBlock(id.block) * INODES_PER_BLOCK + INODES_PER_BLOCK)
  }

  /** truncate sleeps in iput, a sync locks the inode and sleeps, the inode is freed, and the sync
      goes on: it wipes the last inode of the block.  That is harmless if and only if the freed inode
      was that one itself or the last one is blank on disk. */
  lemma FreedWhileWritten(s: State, w: nat, k: nat, r: nat)
    requires Coherent(s) && Enabled(s, WriteLock(w, k)) && Has(s, r) && s.refs[r].k == k
    requires s.slots[k].count == 1 && s.slots[k].attr.nlinks == 0
    ensures var id := s.slots[k].id;
            var s1 := Next(s, WriteLock(w, k));
            && Enabled(s1, Free(r))
            && var s2 := Next(s1, Free(r));
               && Enabled(s2, WriteDone(w)) && !Timely(s2, WriteDone(w))
               && var s3 := Next(s2, WriteDone(w));
                  && On(s3.disk, LastOfBlock(id)) == ZERO
                  && ((forall other :: other != id ==> On(s3.disk, other) == On(s.disk, other)) <==>
                      id.block % INODES_PER_BLOCK == 0 || On(s.disk, LastOfBlock(id)) == ZERO)
  {
    assert CoherentAt(s, k);
    var id := s.slots[k].id;
    var s1 := Next(s, WriteLock(w, k));
    var s2 := Next(s1, Free(r));
    assert Real(id);
    assert s2.slots[k].id == NONE && s2.slots[k].attr == ZERO;
    WriteDoneExact(s2, w);
    assert WrittenId(s2, w) == LastOfBlock(id);
    LastPlace(id.block);
  }

  lemma LastPlace(n: nat)
    requires n > 0
    ensures TableIndex(n) == TableIndex(0) <==> n % INODES_PER_BLOCK == 0
  {
  }

  // ---------- whole runs ----------

  ghost predicate IsRun(states: seq<State>, steps: seq<Step>) {
    && |states| == |steps| + 1
    && forall i :: 0 <= i < |steps| ==> Enabled(states[i], steps[i]) && states[i + 1] == Next(states[i], steps[i])
  }

  /** Over every run, with no exception, a slot in use keeps its inode and counts are exact. */
  lemma {:induction false} RunHeld(states: seq<State>, steps: seq<Step>, n: nat)
    requires IsRun(states, steps) && n <= |steps| && Held(states[0])
    ensures Held(states[n])
  {
    if n == 0 {
    } else {
      RunHeld(states, steps, n - 1);
      StepHeld(states[n - 1], steps[n - 1]);
    }
  }

  /** Over every run in which iget is asked only for inodes that exist, no inode is in two slots. */
  lemma {:induction false} RunUnique(states: seq<State>, steps: seq<Step>, n: nat)
    requires IsRun(states, steps) && n <= |steps| && Inv(states[0]) && AllUsed(states[0])
    requires forall i :: 0 <= i < n && steps[i].Name? ==> steps[i].id in states[i].used
    ensures Inv(states[n]) && AllUsed(states[n])
  {
    if n == 0 {
    } else {
      RunUnique(states, steps, n - 1);
      UsedIsProper(states[n - 1], steps[n - 1]);
      StepInv(states[n - 1], steps[n - 1]);
    }
  }

  /** What inode id should be after the first n steps of a run, kept by hand: the last change of it, a
      new inode, or what is on disk of one that was freed. */
  ghost function Ledger(states: seq<State>, steps: seq<Step>, id: Id, n: nat): Attr
    requires IsRun(states, steps) && n <= |steps|
  {
    if n == 0 then Contents(states[0], id)
    else
      var s, st := states[n - 1], steps[n - 1];
      match st
      case New(_, other) => if id == other then Attr(1, []) else Ledger(states, steps, id, n - 1)
      case Change(_, attr) => if id == s.slots[Target(s, st)].id then attr else Ledger(states, steps, id, n - 1)
      case Free(_) => if id == s.slots[Target(s, st)].id then On(s.disk, id) else Ledger(states, steps, id, n - 1)
      case _ => Ledger(states, steps, id, n - 1)
  }

  /** Over every run in which no number is taken that is in the table and no inode is freed while it
      is written, the table is coherent, and every inode is the last change of it. */
  lemma {:induction false} RunRefines(states: seq<State>, steps: seq<Step>, id: Id, n: nat)
    requires IsRun(states, steps) && n <= |steps| && Coherent(states[0]) && id.dev != 0
    requires forall i :: 0 <= i < n ==> Proper(states[i], steps[i]) && Timely(states[i], steps[i])
    ensures Coherent(states[n]) && Contents(states[n], id) == Ledger(states, steps, id, n)
  {
    if n == 0 {
    } else {
      RunRefines(states, steps, id, n - 1);
      StepRefines(states[n - 1], steps[n - 1], id);
    }
  }

  /** A reference to an inode is good for as long as it is kept, over every run. */
  lemma {:induction false} HeldInodeStays(states: seq<State>, steps: seq<Step>, r: nat, n: nat)
    requires IsRun(states, steps) && n <= |steps| && Held(states[0]) && r in states[0].refs
    requires states[0].refs[r].use.Inode?
    requires forall i :: 0 <= i < n ==> steps[i] != Put(r) && steps[i] != Free(r)
    ensures r in states[n].refs && states[n].refs[r] == states[0].refs[r]
    ensures var k := states[0].refs[r].k;
            k < |states[n].slots| && states[n].slots[k].id == states[0].refs[r].use.id
  {
    if n == 0 {
      assert StableAt(states[0], r);
    } else {
      HeldInodeStays(states, steps, r, n - 1);
      RunHeld(states, steps, n - 1);
      RunHeld(states, steps, n);
      assert StableAt(states[n - 1], r);
      assert StableAt(states[n], r);
    }
  }

  /** What a filled slot shows is the inode. */
  lemma SlotShowsInode(s: State, k: nat)
    requires Coherent(s) && k < |s.slots| && s.slots[k].filled
    ensures s.slots[k].attr == Contents(s, s.slots[k].id)
  {
    assert s.slots[k].id.dev != 0;
    ContentsOf(s, k);
  }

  lemma BootTable(n: nat, disk: map<Id, Attr>, used: set<Id>)
    ensures var s := State(seq(n, _ => BLANK), disk, used, map[], map[]); Coherent(s) && AllUsed(s)
  {
    var s := State(seq(n, _ => BLANK), disk, used, map[], map[]);
    forall k: nat | k < n ensures s.slots[k].count == |Users(s, k)| {
      assert Users(s, k) == {};
    }
  }

  // ---------- the search of get_empty_inode ----------

  const NR_INODE: nat := 32

  class EmptySearch {
    const count: array<nat>
    const dirt: array<bool>
    const lock: array<bool>
    /** last_inode. */
    var cursor: nat

    ghost predicate Valid()
      reads this
    {
      count.Length == dirt.Length == lock.Length == NR_INODE && cursor < NR_INODE
    }

    constructor ()
      ensures Valid() && fresh(count) && fresh(dirt) && fresh(lock)
      ensures forall k :: 0 <= k < NR_INODE ==> count[k] == 0 && !dirt[k] && !lock[k]
    {
      count := new nat[NR_INODE](_ => 0);
      dirt, lock := new bool[NR_INODE](_ => false), new bool[NR_INODE](_ => false);
      cursor := 0;
    }

    predicate Good(k: nat)
      reads count, dirt, lock
      requires k < count.Length && k < dirt.Length && k < lock.Length
    {
      count[k] == 0 && !dirt[k] && !lock[k]
    }

    /** The slot i places after the cursor, going round. */
    static function Around(cursor: nat, i: nat): nat
      requires cursor < NR_INODE && i <= NR_INODE
    {
      if cursor + i < NR_INODE then cursor + i else cursor + i - NR_INODE
    }

    /** One turn round the table: a clean unlocked unused slot if there is one, else any unused
        slot, else none. */
    method FindEmpty() returns (k: int)
      requires Valid()
      modifies this`cursor
      ensures Valid() && -1 <= k < NR_INODE
      ensures k == -1 <==> forall x :: 0 <= x < NR_INODE ==> count[x] != 0
      ensures k >= 0 ==> count[k] == 0 && (Good(k) || forall x: nat :: x < NR_INODE ==> !Good(x))
      ensures k >= 0 && Good(k) ==> cursor == k
    {
      k := -1;
      var i := 0;
      while i < NR_INODE
        invariant Valid() && i <= NR_INODE && -1 <= k < NR_INODE
        invariant cursor == Around(old(cursor), i)
        invariant k == -1 ==> forall x: nat :: 1 <= x <= i ==> count[Around(old(cursor), x)] != 0
        invariant k >= 0 ==> count[k] == 0
        invariant forall x: nat :: 1 <= x <= i ==> !Good(Around(old(cursor), x))
      {
        cursor := cursor + 1;
        if cursor >= NR_INODE {
          cursor := 0;
        }
        i := i + 1;
        if count[cursor] == 0 {
          k := cursor;
          if Good(cursor) {
            return;
          }
        }
      }
      forall x: nat | x < NR_INODE ensures !Good(x) && (k == -1 ==> count[x] != 0) {
        var y: nat := if x > old(cursor) then x - old(cursor) else x + NR_INODE - old(cursor);
        assert Around(old(cursor), y) == x;
      }
    }
  }
}
