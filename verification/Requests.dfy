/** The request queue of one device under the buffer cache: its keys are distinct, so it always is at
    most two sweeps.
 */
module Requests {
  import opened BufferIndex
  import opened Lists
  import C = BufferCache
  import E = Elevator

  /** The device numbers a driver serves have its number in their high byte. */
  function Major(dev: nat): nat {
    dev / 256
  }

  /** The request for a buffer: two sectors to a block. */
  function Key(b: C.Buffer): E.Req
    requires b.io != C.Idle
  {
    E.Req(if b.io.cmd == C.READ then 0 else 1, b.id.dev, 2 * b.id.block)
  }

  /** Buffer b has a request in the queue of the driver. */
  predicate InQueue(s: C.State, major: nat, b: nat) {
    b < |s.bufs| && s.bufs[b].io.Queued? && Major(s.bufs[b].id.dev) == major
  }

  ghost function Keys(s: C.State, major: nat): set<E.Req> {
    set b: nat | b < |s.bufs| && InQueue(s, major, b) :: Key(s.bufs[b])
  }

  ghost predicate Once(q: seq<E.Req>) {
    forall i, j :: 0 <= i < j < |q| ==> q[i] != q[j]
  }

  /** The queue holds one request for every buffer that waits for the device, and nothing else. */
  ghost predicate Matches(s: C.State, q: seq<E.Req>, major: nat) {
    Once(q) && forall x :: x in q <==> x in Keys(s, major)
  }

  /** Whether the step adds a request to the queue, or takes one off it. */
  predicate Enters(s: C.State, st: C.Step, major: nat)
    requires C.Enabled(s, st)
  {
    st.Queue? && Major(s.bufs[st.b].id.dev) == major
  }

  predicate Leaves(s: C.State, st: C.Step, major: nat)
    requires C.Enabled(s, st)
  {
    st.Complete? && Major(s.bufs[st.b].id.dev) == major
  }

  /** The device works on the head of the queue. */
  predicate Enabled(s: C.State, q: seq<E.Req>, st: C.Step, major: nat) {
    C.Enabled(s, st) && (Leaves(s, st, major) ==> q != [] && q[0] == Key(s.bufs[st.b]))
  }

  function Next(s: C.State, q: seq<E.Req>, st: C.Step, major: nat): seq<E.Req>
    requires Enabled(s, q, st, major)
  {
    if Enters(s, st, major) then E.Add(q, Key(s.bufs[st.b]))
    else if Leaves(s, st, major) then q[1..]
    else q
  }

  /** A buffer that is about to be queued has a key of its own. */
  lemma NewKey(s: C.State, major: nat, b: nat)
    requires C.Inv(s) && b < |s.bufs| && s.bufs[b].io.Pending?
    ensures Key(s.bufs[b]) !in Keys(s, major)
  {
    if b': nat :| b' < |s.bufs| && InQueue(s, major, b') && Key(s.bufs[b']) == Key(s.bufs[b]) {
      C.RequestsDistinct(s, b, b');
    }
  }

  lemma EnterKeys(s: C.State, st: C.Step, major: nat)
    requires C.Enabled(s, st) && Enters(s, st, major)
    ensures Keys(C.Next(s, st), major) == Keys(s, major) + {Key(s.bufs[st.b])}
  {
    var s', k := C.Next(s, st), Key(s.bufs[st.b]);
    assert InQueue(s', major, st.b) && Key(s'.bufs[st.b]) == k;
    forall x ensures x in Keys(s', major) <==> x in Keys(s, major) + {k} {
      if b: nat :| b < |s.bufs| && InQueue(s, major, b) && Key(s.bufs[b]) == x {
        assert InQueue(s', major, b) && Key(s'.bufs[b]) == x;
      }
      if b: nat :| b < |s.bufs| && InQueue(s', major, b) && Key(s'.bufs[b]) == x {
        assert b != st.b ==> InQueue(s, major, b) && Key(s.bufs[b]) == x;
      }
    }
  }

  lemma LeaveKeys(s: C.State, st: C.Step, major: nat)
    requires C.Inv(s) && C.Enabled(s, st) && Leaves(s, st, major)
    ensures Keys(C.Next(s, st), major) == Keys(s, major) - {Key(s.bufs[st.b])}
  {
    hide C.Inv;
    var s', k := C.Next(s, st), Key(s.bufs[st.b]);
    forall x ensures x in Keys(s', major) <==> x in Keys(s, major) - {k} {
      if b: nat :| b < |s.bufs| && InQueue(s, major, b) && Key(s.bufs[b]) == x && x != k {
        assert InQueue(s', major, b) && Key(s'.bufs[b]) == x;
      }
      if b: nat :| b < |s.bufs| && InQueue(s', major, b) && Key(s'.bufs[b]) == x {
        assert b != st.b && InQueue(s, major, b) && Key(s.bufs[b]) == x;
        C.RequestsDistinct(s, b, st.b);
      }
    }
  }

  lemma OtherKeys(s: C.State, st: C.Step, major: nat)
    requires C.Enabled(s, st) && !Enters(s, st, major) && !Leaves(s, st, major)
    ensures Keys(C.Next(s, st), major) == Keys(s, major)
  {
    var s' := C.Next(s, st);
    C.StepLocal(s, st);
    forall x ensures x in Keys(s', major) <==> x in Keys(s, major) {
      if b: nat :| b < |s.bufs| && InQueue(s, major, b) && Key(s.bufs[b]) == x {
        assert InQueue(s', major, b) && Key(s'.bufs[b]) == x;
      }
      if b: nat :| b < |s.bufs| && InQueue(s', major, b) && Key(s'.bufs[b]) == x {
        assert InQueue(s, major, b) && Key(s.bufs[b]) == x;
      }
    }
  }

  lemma AddOnce(q: seq<E.Req>, k: E.Req)
    requires k !in q && Once(q)
    ensures Once(E.Add(q, k)) && forall x :: x in E.Add(q, k) <==> x in q || x == k
  {
    if q != [] {
      InsertOnce(q, E.Place(q, k, 0), k);
      InsertMembers(q, E.Place(q, k, 0), k);
    }
  }

  lemma InsertOnce(q: seq<E.Req>, p: nat, k: E.Req)
    requires p < |q| && k !in q && Once(q)
    ensures Once(InsertAfter(q, p, k))
  {
    var t := InsertAfter(q, p, k);
    forall i, j | 0 <= i < j < |t| ensures t[i] != t[j] {
      assert i == p + 1 || t[i] == q[if i <= p then i else i - 1];
      assert j == p + 1 || t[j] == q[if j <= p then j else j - 1];
    }
  }

  lemma InsertMembers(q: seq<E.Req>, p: nat, k: E.Req)
    requires p < |q|
    ensures forall x :: x in InsertAfter(q, p, k) <==> x in q || x == k
  {
    var t := InsertAfter(q, p, k);
    forall x ensures x in t <==> x in q || x == k {
      if i :| 0 <= i < |q| && q[i] == x {
        assert t[if i <= p then i else i + 1] == x;
      }
      assert t[p + 1] == k;
    }
  }

  lemma DoneOnce(q: seq<E.Req>)
    requires q != [] && Once(q)
    ensures Once(q[1..]) && forall x :: x in q[1..] <==> x in q && x != q[0]
  {
    assert q == [q[0]] + q[1..];
  }

  lemma StepMatches(s: C.State, q: seq<E.Req>, st: C.Step, major: nat)
    requires C.Inv(s) && Matches(s, q, major) && Enabled(s, q, st, major) && E.Turns(q) <= 1
    ensures C.Inv(C.Next(s, st)) && Matches(C.Next(s, st), Next(s, q, st, major), major)
    ensures E.Turns(Next(s, q, st, major)) <= 1
  {
    C.StepInv(s, st);
    if Enters(s, st, major) {
      NewKey(s, major, st.b);
      EnterKeys(s, st, major);
      AddOnce(q, Key(s.bufs[st.b]));
      E.AddKeepsSweeps(q, Key(s.bufs[st.b]));
    } else if Leaves(s, st, major) {
      LeaveKeys(s, st, major);
      DoneOnce(q);
      E.DoneKeepsSweeps(q);
    } else {
      OtherKeys(s, st, major);
    }
  }

  ghost predicate IsStep(states: seq<C.State>, queues: seq<seq<E.Req>>, steps: seq<C.Step>, major: nat, i: nat)
    requires i < |steps| && |states| == |queues| == |steps| + 1
  {
    && Enabled(states[i], queues[i], steps[i], major)
    && states[i + 1] == C.Next(states[i], steps[i]) && queues[i + 1] == Next(states[i], queues[i], steps[i], major)
  }

  /** A run of the buffer cache together with the queue of one driver. */
  ghost predicate IsRun(states: seq<C.State>, queues: seq<seq<E.Req>>, steps: seq<C.Step>, major: nat) {
    && |states| == |queues| == |steps| + 1
    && forall i: nat :: i < |steps| ==> IsStep(states, queues, steps, major, i)
  }

  /** THE CACHE KEEPS THE ELEVATOR'S PROMISE.  Over every run of the buffer cache the queue of each
      driver holds one request for every buffer that waits for it, and is at most two sweeps. */
  lemma {:induction false} RunTwoSweeps(states: seq<C.State>, queues: seq<seq<E.Req>>, steps: seq<C.Step>, major: nat,
                                        n: nat)
    requires IsRun(states, queues, steps, major) && n <= |steps|
    requires C.Inv(states[0]) && Matches(states[0], queues[0], major) && E.Turns(queues[0]) <= 1
    ensures C.Inv(states[n]) && Matches(states[n], queues[n], major) && E.Turns(queues[n]) <= 1
  {
    if n == 0 {
    } else {
      RunTwoSweeps(states, queues, steps, major, n - 1);
      assert IsStep(states, queues, steps, major, n - 1);
      StepMatches(states[n - 1], queues[n - 1], steps[n - 1], major);
    }
  }
}
