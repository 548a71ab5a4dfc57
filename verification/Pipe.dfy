/** Pipes (fs/pipe.c): a ring of one page between readers and writers that sleep on one queue. */
module Pipe {
  import opened WaitQueue
  import FileModel

  type Byte = FileModel.Byte

  const PAGE_SIZE: nat := 4096

  function PipeSize(head: nat, tail: nat): (n: nat)
    ensures n < PAGE_SIZE
  {
    (head as int - tail as int) % PAGE_SIZE
  }

  /** The bytes between tail and head, oldest first. */
  function Contents(page: seq<Byte>, head: nat, tail: nat): (s: seq<Byte>)
    requires |page| == PAGE_SIZE
    ensures |s| == PipeSize(head, tail)
  {
    seq(PipeSize(head, tail), k requires 0 <= k < PipeSize(head, tail) => page[(tail + k) % PAGE_SIZE])
  }

  function Min(a: int, b: int): int {
    if a < b then a else b
  }

  /** How many bytes one reader or writer moves before it has to look again. */
  function Chunk(at: nat, count: int, room: nat): int {
    Min(Min(PAGE_SIZE - at, count), room)
  }

  lemma TakeChunk(page: seq<Byte>, head: nat, tail: nat, n: nat)
    requires |page| == PAGE_SIZE && head < PAGE_SIZE && tail < PAGE_SIZE
    requires n <= PipeSize(head, tail) && tail + n <= PAGE_SIZE
    ensures page[tail..tail + n] == Contents(page, head, tail)[..n]
    ensures Contents(page, head, (tail + n) % PAGE_SIZE) == Contents(page, head, tail)[n..]
  {
    var tail' := (tail + n) % PAGE_SIZE;
    assert PipeSize(head, tail') == PipeSize(head, tail) - n;
    var s, s' := Contents(page, head, tail), Contents(page, head, tail');
    forall k | 0 <= k < |s'| ensures s'[k] == s[n + k] {
      assert (tail' + k) % PAGE_SIZE == (tail + (n + k)) % PAGE_SIZE;
    }
  }

  lemma GiveChunk(page: seq<Byte>, page': seq<Byte>, head: nat, tail: nat, data: seq<Byte>)
    requires |page| == |page'| == PAGE_SIZE && head < PAGE_SIZE && tail < PAGE_SIZE
    requires head + |data| <= PAGE_SIZE && |data| <= PAGE_SIZE - 1 - PipeSize(head, tail)
    requires page' == page[..head] + data + page[head + |data|..]
    ensures Contents(page', (head + |data|) % PAGE_SIZE, tail) == Contents(page, head, tail) + data
  {
    var head' := (head + |data|) % PAGE_SIZE;
    var n := PipeSize(head, tail);
    assert PipeSize(head', tail) == n + |data|;
    var s := Contents(page', head', tail);
    forall k | 0 <= k < n + |data| ensures s[k] == (Contents(page, head, tail) + data)[k] {
      if k < n {
        assert (tail + k) % PAGE_SIZE == if tail + k < PAGE_SIZE then tail + k else tail + k - PAGE_SIZE;
      } else {
        assert (tail + k) % PAGE_SIZE == head + (k - n);
      }
    }
  }

  class Ring {
    const page: array<Byte>
    var head: nat
    var tail: nat

    ghost predicate Valid()
      reads this
    {
      page.Length == PAGE_SIZE && head < PAGE_SIZE && tail < PAGE_SIZE
    }

    ghost function Bytes(): (s: seq<Byte>)
      reads this, page
      requires Valid()
    {
      Contents(page[..], head, tail)
    }

    constructor ()
      ensures Valid() && fresh(page) && Bytes() == []
    {
      page := new Byte[PAGE_SIZE](_ => 0);
      head, tail := 0, 0;
    }

    /** read_pipe from one look at an empty pipe to the next, or to its end. */
    method Read(count: int) returns (out: seq<Byte>)
      requires Valid()
      modifies this`tail
      ensures Valid() && out + Bytes() == old(Bytes())
      ensures |out| == Moves(old(Bytes()), Reader(count))
    {
      hide PipeSize;
      out := [];
      var left := count;
      while left > 0 && PipeSize(head, tail) != 0
        invariant Valid() && out + Bytes() == old(Bytes())
        invariant if count <= 0 then left == count && out == [] else left == count - |out| >= 0
        decreases left
      {
        var chars := Chunk(tail, left, PipeSize(head, tail));
        var size := tail;
        TakeChunk(page[..], head, tail, chars);
        left := left - chars;
        tail := (tail + chars) % PAGE_SIZE;
        out := out + page[size..size + chars];
      }
    }

    /** write_pipe from one look at a full pipe to the next, or to its end. */
    method Write(data: seq<Byte>) returns (written: nat)
      requires Valid()
      modifies this`head, page
      ensures Valid() && written <= |data| && Bytes() == old(Bytes()) + data[..written]
      ensures written == Moves(old(Bytes()), Writer(data))
    {
      hide PipeSize;
      written := 0;
      while written < |data| && PAGE_SIZE - 1 - PipeSize(head, tail) != 0
        invariant Valid() && written <= |data| && Bytes() == old(Bytes()) + data[..written]
        decreases |data| - written
      {
        var chars := Chunk(head, |data| - written, PAGE_SIZE - 1 - PipeSize(head, tail));
        ghost var before := page[..];
        var size := head;
        CopyIn(size, data[written..written + chars]);
        GiveChunk(before, page[..], head, tail, data[written..written + chars]);
        head := (head + chars) % PAGE_SIZE;
        assert data[..written] + data[written..written + chars] == data[..written + chars];
        written := written + chars;
      }
    }

    method CopyIn(at: nat, data: seq<Byte>)
      requires page.Length == PAGE_SIZE && at + |data| <= PAGE_SIZE
      modifies page
      ensures page[..] == old(page[..])[..at] + data + old(page[..])[at + |data|..]
    {
      for k := 0 to |data|
        invariant page[..at + k] == old(page[..])[..at] + data[..k]
        invariant page[at + k..] == old(page[..])[at + k..]
      {
        page[at + k] := data[k];
      }
    }
  }

  // ---------- readers and writers taking turns ----------

  datatype Role = Reader(left: int) | Writer(rest: seq<Byte>)

  /** `roles` are the calls in progress of tasks inside sleep_on; `input` and `output` are all the
      bytes written and read so far.  The pipe's queue is queue 0. */
  datatype State = State(bytes: seq<Byte>, ws: Waits, roles: map<nat, Role>, input: seq<Byte>, output: seq<Byte>)

  /** A step is a stretch of code between two points where a task gives up the processor: the start
      of a call, or the return of sleep_on, up to the next sleep or the end of the call.
      `partner` says whether the other end is open.  Close is the wake_up of iput. */
  datatype Event = Call(t: nat, role: Role, partner: bool) | Again(t: nat, partner: bool) | Close

  /** The bytes a stretch moves. */
  function Moves(bytes: seq<Byte>, role: Role): nat {
    match role
    case Reader(left) => if left <= 0 then 0 else Min(left, |bytes|)
    case Writer(rest) => if |bytes| < PAGE_SIZE then Min(|rest|, PAGE_SIZE - 1 - |bytes|) else 0
  }

  function Remaining(role: Role, n: nat): Role
    requires role.Writer? ==> n <= |role.rest|
  {
    match role
    case Reader(left) => Reader(left - n)
    case Writer(rest) => Writer(rest[n..])
  }

  predicate Finished(role: Role) {
    match role
    case Reader(left) => left <= 0
    case Writer(rest) => rest == []
  }

  ghost predicate Inv(s: State) {
    && WaitQueue.Inv(s.ws) && |s.ws.queues| == 1
    && s.input == s.output + s.bytes && |s.bytes| <= PAGE_SIZE - 1
    && (forall t: nat :: Found(s.ws, t) ==> t in s.roles)
    && (forall k: nat :: k < |s.ws.queues[0]| ==> s.ws.queues[0][k] in s.roles && Stuck(s, s.roles[s.ws.queues[0][k]]))
  }

  /** Nothing for this call to do now. */
  predicate Stuck(s: State, role: Role) {
    match role
    case Reader(_) => s.bytes == []
    case Writer(_) => |s.bytes| == PAGE_SIZE - 1
  }

  ghost predicate Enabled(s: State, e: Event) {
    match e
    case Call(t, _, _) => !Found(s.ws, t)
    case Again(t, _) => t in s.ws.behind && t in s.roles
    case Close => true
  }

  function Move(s: State, role: Role): State {
    var n := Moves(s.bytes, role);
    match role
    case Reader(_) => if n <= |s.bytes| then s.(bytes := s.bytes[n..], output := s.output + s.bytes[..n]) else s
    case Writer(rest) => if n <= |rest| then s.(bytes := s.bytes + rest[..n], input := s.input + rest[..n]) else s
  }

  /** The stretch of task t, which is awake: every way out of it passes a wake_up. */
  ghost function Stretch(s: State, t: nat, role: Role, partner: bool): State
    requires WaitQueue.Inv(s.ws) && |s.ws.queues| == 1 && !Found(s.ws, t)
  {
    FoundAfter(s.ws, Wake(0), t);
    var moved := Move(s, role);
    var woken := WaitQueue.Next(s.ws, Wake(0));
    var rest := Remaining(role, Moves(s.bytes, role));
    if Finished(rest) || !partner then moved.(ws := woken, roles := s.roles - {t})
    else moved.(ws := WaitQueue.Next(woken, Sleep(t, 0)), roles := s.roles[t := rest])
  }

  lemma ReturnedIsAwake(ws: Waits, t: nat)
    requires WaitQueue.Inv(ws) && t in ws.behind
    ensures WaitQueue.Inv(WaitQueue.Next(ws, Return(t))) && !Found(WaitQueue.Next(ws, Return(t)), t)
  {
    StepInv(ws, Return(t));
    var ws' := WaitQueue.Next(ws, Return(t));
    forall p | IsPlace(ws', p) ensures At(ws', p) != t {
      BeforeSame(ws, Return(t), p);
    }
  }

  ghost function Next(s: State, e: Event): State
    requires Inv(s) && Enabled(s, e)
  {
    match e
    case Call(t, role, partner) => Stretch(s, t, role, partner)
    case Again(t, partner) =>
      ReturnedIsAwake(s.ws, t);
      Stretch(s.(ws := WaitQueue.Next(s.ws, Return(t))), t, s.roles[t], partner)
    case Close => s.(ws := WaitQueue.Next(s.ws, Wake(0)))
  }

  /** No byte is lost, doubled or reordered, and the ring is never overfilled. */
  lemma MoveKeepsOrder(s: State, role: Role)
    requires s.input == s.output + s.bytes && |s.bytes| <= PAGE_SIZE - 1
    ensures var s' := Move(s, role); s'.input == s'.output + s'.bytes && |s'.bytes| <= PAGE_SIZE - 1
    ensures var rest := Remaining(role, Moves(s.bytes, role)); !Finished(rest) ==> Stuck(Move(s, role), rest)
  {
    var n := Moves(s.bytes, role);
    match role
    case Reader(_) =>
      assert s.bytes == s.bytes[..n] + s.bytes[n..];
      assert s.output + s.bytes[..n] + s.bytes[n..] == s.output + (s.bytes[..n] + s.bytes[n..]);
    case Writer(rest) =>
      assert s.output + s.bytes + rest[..n] == s.output + (s.bytes + rest[..n]);
  }

  /** Whoever sleeps in the queue after a stretch is the task itself. */
  lemma StretchWaits(s: State, t: nat, role: Role, partner: bool)
    requires WaitQueue.Inv(s.ws) && |s.ws.queues| == 1 && !Found(s.ws, t)
    requires forall x: nat :: Found(s.ws, x) ==> x in s.roles
    ensures var s' := Stretch(s, t, role, partner);
            && WaitQueue.Inv(s'.ws) && |s'.ws.queues| == 1
            && (forall x: nat :: Found(s'.ws, x) ==> x in s'.roles)
            && (s'.ws.queues[0] == [] ||
                (s'.ws.queues[0] == [t] && s'.roles == s.roles[t := Remaining(role, Moves(s.bytes, role))]
                 && !Finished(s'.roles[t])))
  {
    var s' := Stretch(s, t, role, partner);
    var woken := WaitQueue.Next(s.ws, Wake(0));
    StepInv(s.ws, Wake(0));
    FoundAfter(s.ws, Wake(0), t);
    var sleeps := !Finished(Remaining(role, Moves(s.bytes, role))) && partner;
    if sleeps {
      StepInv(woken, Sleep(t, 0));
    }
    forall x: nat | Found(s'.ws, x) ensures x in s'.roles {
      if x != t {
        if sleeps {
          FoundAfter(woken, Sleep(t, 0), x);
        }
        FoundAfter(s.ws, Wake(0), x);
      }
    }
  }

  lemma StretchInv(s: State, t: nat, role: Role, partner: bool)
    requires WaitQueue.Inv(s.ws) && |s.ws.queues| == 1 && !Found(s.ws, t)
    requires s.input == s.output + s.bytes && |s.bytes| <= PAGE_SIZE - 1
    requires forall x: nat :: Found(s.ws, x) ==> x in s.roles
    ensures Inv(Stretch(s, t, role, partner))
  {
    MoveKeepsOrder(s, role);
    StretchWaits(s, t, role, partner);
  }

  lemma EventInv(s: State, e: Event)
    requires Inv(s) && Enabled(s, e)
    ensures Inv(Next(s, e))
  {
    match e
    case Call(t, role, partner) => StretchInv(s, t, role, partner);
    case Again(t, partner) =>
      ReturnedIsAwake(s.ws, t);
      var s1 := s.(ws := WaitQueue.Next(s.ws, Return(t)));
      forall x: nat | Found(s1.ws, x) ensures x in s1.roles {
        if x != t {
          FoundAfter(s.ws, Return(t), x);
        }
      }
      StretchInv(s1, t, s.roles[t], partner);
    case Close =>
      StepInv(s.ws, Wake(0));
      forall x: nat | Found(Next(s, e).ws, x) ensures x in s.roles {
        FoundAfter(s.ws, Wake(0), x);
      }
  }

  // ---------- whole runs ----------

  lemma EmptyPipe()
    ensures Inv(State([], Waits([[]], map[]), map[], [], []))
  {
  }

  /** From the empty pipe each event leads to the next state.  Events are defined on states that satisfy
      Inv, which RunOrder shows of every state in turn. */
  ghost predicate IsRun(states: seq<State>, events: seq<Event>) {
    && |states| == |events| + 1 && states[0] == State([], Waits([[]], map[]), map[], [], [])
    && forall i :: 0 <= i < |events| && Inv(states[i]) ==>
         Enabled(states[i], events[i]) && states[i + 1] == Next(states[i], events[i])
  }

  /** For any interleaving of readers and writers the bytes read are a prefix of the bytes
      written, and at most 4095 are under way. */
  lemma {:induction false} RunOrder(states: seq<State>, events: seq<Event>, n: nat)
    requires IsRun(states, events) && n <= |events|
    ensures Inv(states[n])
    ensures states[n].output <= states[n].input && |states[n].input| - |states[n].output| <= 4095
  {
    if n == 0 {
      EmptyPipe();
    } else {
      RunOrder(states, events, n - 1);
      EventInv(states[n - 1], events[n - 1]);
    }
  }

  /** No missed wake-up: a task that is asleep although it could go on hangs on a woken one. */
  lemma NoMissedWakeup(states: seq<State>, events: seq<Event>, n: nat, p: Place)
    requires IsRun(states, events) && n <= |events| && IsPlace(states[n].ws, p) && !p.Woken?
    ensures var s := states[n];
            var t := At(s.ws, p);
            t in s.roles && (!Stuck(s, s.roles[t]) ==> p.Behind? && p.w in s.ws.behind)
  {
    RunOrder(states, events, n);
    assert Found(states[n].ws, At(states[n].ws, p));
  }
}
