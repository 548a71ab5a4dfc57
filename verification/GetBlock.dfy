/** getblk and brelse of fs/buffer.c, stretch by stretch: what runs between two sleeps is one step of
    the buffer cache protocol, or none.
 */
module GetBlock {
  import opened Common
  import opened Lists
  import opened BufferIndex
  import opened BufferCode
  import opened BufferCache

  /** The fields of the table are those of the protocol's state. */
  ghost predicate Shows(t: BufferTable, s: State)
    reads t.ids, t.count, t.dirt, t.lock, t.uptodate
  {
    && |s.bufs| == t.ids.Length == t.count.Length == t.dirt.Length == t.lock.Length == t.uptodate.Length
    && forall b: nat :: b < |s.bufs| ==>
         && s.bufs[b].id == t.ids[b] && s.bufs[b].count == t.count[b] && s.bufs[b].dirt == t.dirt[b]
         && Locked(s.bufs[b]) == t.lock[b] && s.bufs[b].uptodate == t.uptodate[b]
  }

  /** Where getblk is: at `repeat`, back from waiting for a buffer it wants to recycle, back from
      waiting for the buffer it has looked up, or done. */
  datatype Point = Repeat | Victim(b: nat) | Found(b: nat) | Got(b: nat)

  /** What a task in getblk knows when it runs again: wait_on_buffer returns with the lock open. */
  ghost predicate Ready(s: State, at: Point, id: Id, r: nat) {
    match at
    case Repeat => r !in s.refs
    case Victim(b) => r !in s.refs && b < |s.bufs| && !Locked(s.bufs[b])
    case Found(b) => r in s.refs && s.refs[r] == Ref(b, id) && b < |s.bufs| && !Locked(s.bufs[b])
    case Got(b) => r in s.refs && s.refs[r] == Ref(b, id)
  }

  /** A step of somebody else leaves the reference of this task alone. */
  ghost predicate ByOthers(st: Step, r: nat) {
    (st.Hit? || st.Claim? || st.Release? || st.Store? || st.Overwrite? || st.Forget?) ==> st.r != r
  }

  /** While it sleeps a task keeps the reference it has, or goes on having none. */
  lemma SleepKeeps(s: State, st: Step, r: nat)
    requires Enabled(s, st) && ByOthers(st, r)
    ensures r in Next(s, st).refs <==> r in s.refs
    ensures r in s.refs ==> Next(s, st).refs[r] == s.refs[r]
  {
  }

  method BufferInit(n: nat, ghost disk: map<Id, Data>) returns (t: BufferTable)
    requires n > 0
    ensures t.Valid() && Shows(t, Initial(n, disk)) && Inv(Initial(n, disk))
  {
    InitCoherent(n, disk, Id(1, 0));
    t := new BufferTable(n);
    assert t.ids[..] == t.cache.ids;
    forall b: nat | b < n ensures t.ids[b] == Id(0, 0) {
      assert t.ids[..][b] == t.cache.ids[b];
    }
  }

  lemma FindShows(t: BufferTable, s: State, id: Id)
    requires t.Valid() && Shows(t, s) && Inv(s) && id.dev != 0
    ensures Find(t.cache, id).None? <==> !Cached(s, id)
    ensures Find(t.cache, id).Some? ==> var b := Find(t.cache, id).value; b < |s.bufs| && s.bufs[b].id == id
  {
    FindIsScan(t.cache, id);
    if Find(t.cache, id).None? {
      forall b: nat | b < |s.bufs| ensures s.bufs[b].id != id {
        assert t.cache.ids[b] == t.ids[b];
      }
    } else {
      var b := Find(t.cache, id).value;
      assert s.bufs[b].id == t.cache.ids[b];
    }
  }

  /** A buffer is given its new block: recycling on the pointers is the step Claim. */
  method TakeOver(t: BufferTable, b: nat, id: Id, ghost s: State, ghost r: nat) returns (ghost s': State)
    requires t.Valid() && Shows(t, s) && Enabled(s, Claim(r, b, id))
    modifies t`freeList, t`cache, t.ids, t.next, t.prev, t.nextFree, t.prevFree, t.hashTable
    modifies t.count, t.dirt, t.uptodate
    ensures t.Valid() && s' == Next(s, Claim(r, b, id)) && Shows(t, s')
  {
    hide Ok;
    s' := Next(s, Claim(r, b, id));
    t.count[b] := 1;
    t.dirt[b] := false;
    t.uptodate[b] := false;
    t.Recycle(b, id);
  }

  /** At `repeat`: look the block up, or else choose a buffer to recycle. */
  method Look(t: BufferTable, id: Id, ghost s: State, ghost r: nat) returns (at': Point, ghost s': State)
    requires t.Valid() && Shows(t, s) && Inv(s) && id.dev != 0 && r !in s.refs
    modifies t.count
    ensures t.Valid() && Shows(t, s') && Did(s, s', Repeat, at', id, r)
  {
    s' := s;
    FindShows(t, s, id);
    var h := t.FindBuffer(id);
    if h != NIL {
      at', s' := Found(h), Next(s, Hit(r, h, id));
      t.count[h] := t.count[h] + 1;
    } else {
      var v := t.ChooseVictim();
      at' := if v == NIL then Repeat else Victim(v);
    }
  }

  /** Back from waiting for a victim: everything is tested again. */
  method Recheck(t: BufferTable, b: nat, id: Id, ghost s: State, ghost r: nat) returns (at': Point, ghost s': State)
    requires t.Valid() && Shows(t, s) && Inv(s) && id.dev != 0 && Ready(s, Victim(b), id, r)
    modifies t`freeList, t`cache, t.ids, t.next, t.prev, t.nextFree, t.prevFree, t.hashTable
    modifies t.count, t.dirt, t.uptodate
    ensures t.Valid() && Shows(t, s') && Did(s, s', Victim(b), at', id, r)
  {
    s' := s;
    if t.count[b] != 0 {
      at' := Repeat;
    } else if t.dirt[b] {
      at' := Victim(b);
    } else {
      FindShows(t, s, id);
      var h := t.FindBuffer(id);
      if h != NIL {
        at' := Repeat;
      } else {
        at' := Got(b);
        s' := TakeOver(t, b, id, s, r);
      }
    }
  }

  /** Back from waiting for the buffer that was looked up: it still holds the block. */
  method Confirm(t: BufferTable, b: nat, id: Id, ghost s: State, ghost r: nat) returns (at': Point)
    requires t.Valid() && Shows(t, s) && Inv(s) && id.dev != 0 && Ready(s, Found(b), id, r)
    ensures at' == Got(b)
  {
    ReferencesHold(s, r);
    at' := Got(b);
    if t.ids[b] != id {
      assert false;
    }
  }

  /** What one stretch of getblk may do: a lookup hits, a victim that is unused, unlocked and clean is
      claimed for a block nobody has cached, and otherwise nothing changes.  The re-check of a
      looked-up buffer succeeds. */
  ghost predicate Did(s: State, s': State, at: Point, at': Point, id: Id, r: nat) {
    match (at, at')
    case (Repeat, Found(b)) => Enabled(s, Hit(r, b, id)) && s' == Next(s, Hit(r, b, id))
    case (Repeat, Victim(b)) => s' == s && b < |s.bufs| && s.bufs[b].count == 0 && !Cached(s, id)
    case (Repeat, Repeat) => s' == s && !Cached(s, id) && forall b: nat :: b < |s.bufs| ==> s.bufs[b].count != 0
    case (Victim(b), Got(c)) => c == b && Enabled(s, Claim(r, b, id)) && s' == Next(s, Claim(r, b, id))
    case (Victim(b), Victim(c)) => c == b < |s.bufs| && s' == s && s.bufs[b].count == 0 && s.bufs[b].dirt
    case (Victim(b), Repeat) => s' == s && b < |s.bufs| && (s.bufs[b].count != 0 || Cached(s, id))
    case (Found(b), Got(c)) => c == b && s' == s
    case _ => false
  }

  /** getblk from one sleep to the next is a step of the protocol or leaves everything as it was. */
  method Stretch(t: BufferTable, at: Point, id: Id, ghost s: State, ghost r: nat)
    returns (at': Point, ghost s': State)
    requires t.Valid() && Shows(t, s) && Inv(s) && id.dev != 0 && Ready(s, at, id, r) && !at.Got?
    modifies t`freeList, t`cache, t.ids, t.next, t.prev, t.nextFree, t.prevFree, t.hashTable
    modifies t.count, t.dirt, t.uptodate
    ensures t.Valid() && Shows(t, s') && Inv(s') && Did(s, s', at, at', id, r)
    ensures at'.Got? ==> Ready(s', at', id, r) && at'.b < |s'.bufs| && s'.bufs[at'.b].id == id
  {
    match at {
      case Repeat => at', s' := Look(t, id, s, r);
      case Victim(b) => at', s' := Recheck(t, b, id, s, r);
      case Found(b) =>
        at' := Confirm(t, b, id, s, r);
        s' := s;
    }
    DidInv(s, s', at, at', id, r);
  }

  lemma DidInv(s: State, s': State, at: Point, at': Point, id: Id, r: nat)
    requires Inv(s) && Ready(s, at, id, r) && Did(s, s', at, at', id, r)
    ensures Inv(s') && (at'.Got? ==> Ready(s', at', id, r) && at'.b < |s'.bufs| && s'.bufs[at'.b].id == id)
  {
    match (at, at')
    case (Repeat, Found(b)) => StepInv(s, Hit(r, b, id));
    case (Victim(b), Got(_)) => StepInv(s, Claim(r, b, id));
    case (Found(_), Got(_)) => ReferencesHold(s, r);
    case _ =>
  }

  /** brelse, back from waiting for the buffer: the step Release, and never the panic. */
  method Brelse(t: BufferTable, b: nat, ghost s: State, ghost r: nat) returns (ghost s': State)
    requires t.Valid() && Shows(t, s) && Inv(s) && r in s.refs && s.refs[r].b == b
    modifies t.count
    ensures Enabled(s, Release(r)) && s' == Next(s, Release(r)) && t.Valid() && Shows(t, s') && Inv(s')
  {
    ReferencesHold(s, r);
    StepInv(s, Release(r));
    s' := Next(s, Release(r));
    t.count[b] := t.count[b] - 1;
  }

  // ---------- a whole call ----------

  /** What a task in getblk has: no reference yet, or one to the buffer it has found. */
  ghost predicate Has(s: State, at: Point, id: Id, r: nat) {
    if at.Repeat? || at.Victim? then r !in s.refs else r in s.refs && s.refs[r] == Ref(at.b, id)
  }

  /** Somebody else takes a step, or the task itself goes from one sleep to the next. */
  ghost predicate CallStep(s: State, at: Point, s': State, at': Point, id: Id, r: nat) {
    || (at' == at && exists st :: Enabled(s, st) && ByOthers(st, r) && s' == Next(s, st))
    || (!at.Got? && Ready(s, at, id, r) && Did(s, s', at, at', id, r))
  }

  ghost predicate IsCall(states: seq<State>, points: seq<Point>, id: Id, r: nat) {
    && |states| == |points| > 0 && Inv(states[0]) && points[0] == Repeat && r !in states[0].refs
    && forall n: nat :: n + 1 < |states| ==> CallStep(states[n], points[n], states[n + 1], points[n + 1], id, r)
  }

  lemma CallStepKeeps(s: State, at: Point, s': State, at': Point, id: Id, r: nat)
    requires Inv(s) && Has(s, at, id, r) && CallStep(s, at, s', at', id, r)
    ensures Inv(s') && Has(s', at', id, r)
  {
    if !at.Got? && Ready(s, at, id, r) && Did(s, s', at, at', id, r) {
      DidInv(s, s', at, at', id, r);
    } else {
      var st :| Enabled(s, st) && ByOthers(st, r) && s' == Next(s, st);
      StepInv(s, st);
      SleepKeeps(s, st, r);
    }
  }

  lemma {:induction false} CallKeeps(states: seq<State>, points: seq<Point>, id: Id, r: nat, n: nat)
    requires IsCall(states, points, id, r) && n < |states|
    ensures Inv(states[n]) && Has(states[n], points[n], id, r)
  {
    if n == 0 {
    } else {
      CallKeeps(states, points, id, r, n - 1);
      CallStepKeeps(states[n - 1], points[n - 1], states[n], points[n], id, r);
    }
  }

  /** GETBLK RETURNS THE BUFFER OF THE BLOCK.  However its stretches interleave with what everybody
      else does, from its return on the task holds a buffer that has the block, no other buffer has
      it, and this stays so until the task lets go. */
  lemma CallReturns(states: seq<State>, points: seq<Point>, id: Id, r: nat, n: nat)
    requires IsCall(states, points, id, r) && n < |states| && points[n].Got? && id.dev != 0
    ensures var s, b := states[n], points[n].b;
            && r in s.refs && s.refs[r] == Ref(b, id) && b < |s.bufs| && s.bufs[b].id == id && s.bufs[b].count > 0
            && forall b' :: 0 <= b' < |s.bufs| && s.bufs[b'].id == id ==> b' == b
    ensures forall n': nat :: n <= n' < |states| ==> points[n'] == points[n]
  {
    CallKeeps(states, points, id, r, n);
    ReferencesHold(states[n], r);
    StaysGot(states, points, id, r, n);
  }

  lemma StaysGot(states: seq<State>, points: seq<Point>, id: Id, r: nat, n: nat)
    requires IsCall(states, points, id, r) && n < |states| && points[n].Got?
    ensures forall n': nat :: n <= n' < |states| ==> points[n'] == points[n]
  {
    for m := n to |states| - 1
      invariant forall n': nat :: n <= n' <= m ==> points[n'] == points[n]
    {
      assert CallStep(states[m], points[m], states[m + 1], points[m + 1], id, r);
    }
  }
}
