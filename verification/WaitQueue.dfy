/** sleep_on and wake_up (kernel/sched.c).  A queue is one pointer to the task that slept last;
    each sleeper keeps the pointer it found in its own stack frame.  wake_up wakes only the last
    sleeper and empties the queue; every sleeper, once it runs, wakes the one it found.
 */
module WaitQueue {
  import opened Lists

  /** The sleepers of each queue in the order in which they fell asleep, and, for each task that is
      woken but has not run yet, the sleepers that hang on it. */
  datatype Waits = Waits(queues: seq<seq<nat>>, behind: map<nat, seq<nat>>)

  /** Where a task inside sleep_on can be found. */
  datatype Place = InQueue(q: nat, k: nat) | Behind(w: nat, k: nat) | Woken(w: nat)

  predicate IsPlace(ws: Waits, p: Place) {
    match p
    case InQueue(q, k) => q < |ws.queues| && k < |ws.queues[q]|
    case Behind(w, k) => w in ws.behind && k < |ws.behind[w]|
    case Woken(w) => w in ws.behind
  }

  function At(ws: Waits, p: Place): nat
    requires IsPlace(ws, p)
  {
    match p
    case InQueue(q, k) => ws.queues[q][k]
    case Behind(w, k) => ws.behind[w][k]
    case Woken(w) => w
  }

  /** No task is in two places. */
  ghost predicate Inv(ws: Waits) {
    forall p, p' :: IsPlace(ws, p) && IsPlace(ws, p') && At(ws, p) == At(ws, p') ==> p == p'
  }

  ghost predicate Awake(ws: Waits, t: nat) {
    forall p :: IsPlace(ws, p) ==> At(ws, p) != t
  }

  // ---------- steps ----------

  datatype Step = Sleep(t: nat, q: nat) | Wake(q: nat) | Return(t: nat)

  ghost predicate Enabled(ws: Waits, st: Step) {
    match st
    case Sleep(t, q) => q < |ws.queues| && Awake(ws, t)
    case Wake(q) => q < |ws.queues|
    case Return(t) => t in ws.behind
  }

  /** The last of `sleepers` is woken; the others hang on it. */
  function Release(behind: map<nat, seq<nat>>, sleepers: seq<nat>): map<nat, seq<nat>> {
    if sleepers == [] then behind
    else behind[sleepers[|sleepers| - 1] := sleepers[..|sleepers| - 1]]
  }

  ghost function Next(ws: Waits, st: Step): Waits
    requires Enabled(ws, st)
  {
    match st
    case Sleep(t, q) => ws.(queues := ws.queues[q := ws.queues[q] + [t]])
    case Wake(q) => Waits(ws.queues[q := []], Release(ws.behind, ws.queues[q]))
    case Return(t) => ws.(behind := Release(ws.behind - {t}, ws.behind[t]))
  }

  // ---------- where a step puts each task ----------

  /** The place, before the step, of the task that is at place p after it. */
  ghost function Before(ws: Waits, st: Step, p: Place): Place
    requires Enabled(ws, st)
  {
    match st
    case Sleep(t, q) => p
    case Wake(q) =>
      var n := |ws.queues[q]|;
      if n == 0 then p
      else if p == Woken(ws.queues[q][n - 1]) then InQueue(q, n - 1)
      else if p.Behind? && p.w == ws.queues[q][n - 1] then InQueue(q, p.k)
      else p
    case Return(t) =>
      var n := |ws.behind[t]|;
      if n == 0 then p
      else if p == Woken(ws.behind[t][n - 1]) then Behind(t, n - 1)
      else if p.Behind? && p.w == ws.behind[t][n - 1] then Behind(t, p.k)
      else p
  }

  /** A waking or a return moves tasks but loses and doubles none. */
  lemma BeforeSame(ws: Waits, st: Step, p: Place)
    requires Inv(ws) && Enabled(ws, st) && !st.Sleep? && IsPlace(Next(ws, st), p)
    ensures IsPlace(ws, Before(ws, st, p)) && At(ws, Before(ws, st, p)) == At(Next(ws, st), p)
    ensures st.Return? ==> At(Next(ws, st), p) != st.t
  {
    if st.Return? {
      var b := Before(ws, st, p);
      assert IsPlace(ws, Woken(st.t));
      assert At(ws, b) == st.t ==> b == Woken(st.t);
    }
  }

  /** Different places come from different places. */
  lemma BeforeInjective(ws: Waits, st: Step, p: Place, p': Place)
    requires Inv(ws) && Enabled(ws, st) && !st.Sleep? && IsPlace(Next(ws, st), p) && IsPlace(Next(ws, st), p')
    requires Before(ws, st, p) == Before(ws, st, p')
    ensures p == p'
  {
    if st.Wake? {
      assert forall k: nat :: k < |ws.queues[st.q]| ==> IsPlace(ws, InQueue(st.q, k));
    } else {
      assert forall k: nat :: k < |ws.behind[st.t]| ==> IsPlace(ws, Behind(st.t, k));
    }
  }

  lemma StepInv(ws: Waits, st: Step)
    requires Inv(ws) && Enabled(ws, st)
    ensures Inv(Next(ws, st))
  {
    var ws' := Next(ws, st);
    forall p, p' | IsPlace(ws', p) && IsPlace(ws', p') && At(ws', p) == At(ws', p') ensures p == p' {
      if st.Sleep? {
        var last := InQueue(st.q, |ws.queues[st.q]|);
        assert p != last ==> IsPlace(ws, p) && At(ws, p) == At(ws', p);
        assert p' != last ==> IsPlace(ws, p') && At(ws, p') == At(ws', p');
      } else {
        BeforeSame(ws, st, p);
        BeforeSame(ws, st, p');
        BeforeInjective(ws, st, p, p');
      }
    }
  }

  /** The place, after the step, of the task that is at place p before it. */
  ghost function Then(ws: Waits, st: Step, p: Place): Place
    requires Enabled(ws, st) && IsPlace(ws, p)
  {
    if st.Wake? && p.InQueue? && p.q == st.q then Hung(ws.queues[st.q], p.k)
    else if st.Return? && p.Behind? && p.w == st.t then Hung(ws.behind[st.t], p.k)
    else p
  }

  function Hung(sleepers: seq<nat>, k: nat): Place
    requires k < |sleepers|
  {
    if k == |sleepers| - 1 then Woken(sleepers[k]) else Behind(sleepers[|sleepers| - 1], k)
  }

  /** No sleeper is lost: only a task that returns from sleep_on leaves its place for good. */
  lemma ThenSame(ws: Waits, st: Step, p: Place)
    requires Inv(ws) && Enabled(ws, st) && IsPlace(ws, p) && st != Return(At(ws, p))
    ensures IsPlace(Next(ws, st), Then(ws, st, p)) && At(Next(ws, st), Then(ws, st, p)) == At(ws, p)
  {
    match st
    case Sleep(t, q) =>
    case Wake(q) =>
      var n := |ws.queues[q]|;
      if n > 0 {
        assert IsPlace(ws, InQueue(q, n - 1));
        assert p.Behind? || p.Woken? ==> IsPlace(ws, Woken(p.w));
      }
    case Return(t) =>
      var n := |ws.behind[t]|;
      if n > 0 {
        assert IsPlace(ws, Behind(t, n - 1));
        assert p.Behind? || p.Woken? ==> IsPlace(ws, Woken(p.w));
      }
  }

  // ---------- from a wake-up to the return of every sleeper ----------

  /** Sleepers that no longer wait for a wake_up, only for woken tasks to run. */
  predicate Released(p: Place) {
    !p.InQueue?
  }

  /** How many woken tasks have to run, one after the other, before this one may. */
  function Rank(ws: Waits, p: Place): nat
    requires IsPlace(ws, p) && Released(p)
  {
    match p
    case Behind(w, k) => |ws.behind[w]| - k
    case Woken(_) => 0
  }

  /** A wake_up releases the whole queue. */
  lemma WakeReleases(ws: Waits, q: nat, k: nat)
    requires Inv(ws) && q < |ws.queues| && k < |ws.queues[q]|
    ensures var p := Then(ws, Wake(q), InQueue(q, k));
            && IsPlace(Next(ws, Wake(q)), p) && At(Next(ws, Wake(q)), p) == ws.queues[q][k]
            && Released(p) && Rank(Next(ws, Wake(q)), p) == |ws.queues[q]| - 1 - k
  {
    ThenSame(ws, Wake(q), InQueue(q, k));
  }

  /** A released sleeper stays released, and comes one nearer whenever the task it hangs on runs. */
  lemma RankStep(ws: Waits, st: Step, p: Place)
    requires Inv(ws) && Enabled(ws, st) && IsPlace(ws, p) && Released(p) && st != Return(At(ws, p))
    ensures var p' := Then(ws, st, p);
            && IsPlace(Next(ws, st), p') && Released(p')
            && Rank(Next(ws, st), p') == Rank(ws, p) - (if p.Behind? && st == Return(p.w) then 1 else 0)
  {
    ThenSame(ws, st, p);
    if p.Behind? {
      assert IsPlace(ws, Woken(p.w));
      if st.Wake? && ws.queues[st.q] != [] {
        assert IsPlace(ws, InQueue(st.q, |ws.queues[st.q]| - 1));
      }
      if st.Return? && ws.behind[st.t] != [] {
        assert IsPlace(ws, Behind(st.t, |ws.behind[st.t]| - 1));
      }
    }
  }

  ghost predicate IsRun(states: seq<Waits>, steps: seq<Step>) {
    && |states| == |steps| + 1
    && forall i :: 0 <= i < |steps| ==> Enabled(states[i], steps[i]) && states[i + 1] == Next(states[i], steps[i])
  }

  lemma {:induction false} RunInv(states: seq<Waits>, steps: seq<Step>, n: nat)
    requires IsRun(states, steps) && n <= |steps| && Inv(states[0])
    ensures Inv(states[n])
  {
    if n == 0 {
    } else {
      RunInv(states, steps, n - 1);
      StepInv(states[n - 1], steps[n - 1]);
    }
  }

  ghost predicate ReturnedBy(steps: seq<Step>, t: nat, n: nat)
    requires n <= |steps|
  {
    exists i :: 0 <= i < n && steps[i] == Return(t)
  }

  /** NO SLEEPER IS LOST.  After a wake_up on its queue, a sleeper has returned from sleep_on or is
      woken or hangs on a woken task, however other tasks sleep, wake and run. */
  lemma {:induction false} WakeReachesAll(states: seq<Waits>, steps: seq<Step>, q: nat, k: nat, n: nat)
    returns (p: Place)
    requires IsRun(states, steps) && 0 < n <= |steps| && Inv(states[0])
    requires steps[0] == Wake(q) && k < |states[0].queues[q]|
    ensures var t := states[0].queues[q][k];
            ReturnedBy(steps, t, n) || (IsPlace(states[n], p) && At(states[n], p) == t && Released(p))
    ensures states[n].behind == map[] ==> ReturnedBy(steps, states[0].queues[q][k], n)
  {
    var t := states[0].queues[q][k];
    if n == 1 {
      WakeReleases(states[0], q, k);
      p := Then(states[0], Wake(q), InQueue(q, k));
    } else {
      p := WakeReachesAll(states, steps, q, k, n - 1);
      RunInv(states, steps, n - 1);
      if !ReturnedBy(steps, t, n - 1) && steps[n - 1] != Return(t) {
        ThenSame(states[n - 1], steps[n - 1], p);
        RankStep(states[n - 1], steps[n - 1], p);
        p := Then(states[n - 1], steps[n - 1], p);
      }
    }
  }

  // ---------- the pointers ----------

  function Last(s: seq<nat>): int {
    if s == [] then NIL else s[|s| - 1]
  }

  /** The pointer a sleeper keeps: the one who slept before it. */
  function Saved(ws: Waits, p: Place): int
    requires IsPlace(ws, p)
  {
    match p
    case InQueue(q, k) => if k > 0 then ws.queues[q][k - 1] else NIL
    case Behind(w, k) => if k > 0 then ws.behind[w][k - 1] else NIL
    case Woken(w) => Last(ws.behind[w])
  }

  /** The queue pointers, and for each task: whether it is inside sleep_on, the pointer in its
      frame, and whether its state is TASK_RUNNING. */
  datatype Frames = Frames(head: seq<int>, inside: seq<bool>, tmp: seq<int>, running: seq<bool>)

  ghost predicate Recorded(ws: Waits, f: Frames, p: Place)
    requires IsPlace(ws, p)
  {
    var t := At(ws, p);
    && t < |f.inside| && t < |f.tmp| && t < |f.running|
    && f.inside[t] && f.tmp[t] == Saved(ws, p) && f.running[t] == p.Woken?
  }

  ghost predicate Found(ws: Waits, t: nat) {
    exists p :: IsPlace(ws, p) && At(ws, p) == t
  }

  /** The pointers and states spell out the places. */
  ghost predicate Matches(ws: Waits, f: Frames) {
    && Inv(ws) && |ws.queues| == |f.head| && |f.inside| == |f.tmp| == |f.running|
    && (forall q :: 0 <= q < |f.head| ==> f.head[q] == Last(ws.queues[q]))
    && (forall p :: IsPlace(ws, p) ==> Recorded(ws, f, p))
    && (forall t: nat :: t < |f.inside| ==> (f.inside[t] <==> Found(ws, t)) && (!f.inside[t] ==> f.running[t]))
  }

  lemma SleepMatches(ws: Waits, f: Frames, t: nat, q: nat)
    requires Matches(ws, f) && q < |f.head| && t < |f.inside| && !f.inside[t]
    ensures Enabled(ws, Sleep(t, q))
    ensures Matches(Next(ws, Sleep(t, q)),
                    Frames(f.head[q := t], f.inside[t := true], f.tmp[t := f.head[q]], f.running[t := false]))
  {
    assert !Found(ws, t);
    var st := Sleep(t, q);
    var ws' := Next(ws, st);
    var f' := Frames(f.head[q := t], f.inside[t := true], f.tmp[t := f.head[q]], f.running[t := false]);
    StepInv(ws, st);
    var last := InQueue(q, |ws.queues[q]|);
    assert IsPlace(ws', last) && At(ws', last) == t;
    forall p | IsPlace(ws', p) ensures Recorded(ws', f', p) {
      if p != last {
        assert IsPlace(ws, p) && At(ws, p) == At(ws', p) && Recorded(ws, f, p);
      }
    }
    forall x: nat | x < |f.inside| ensures f'.inside[x] <==> Found(ws', x) {
      if x != t {
        FoundAfter(ws, st, x);
      }
    }
  }

  /** Falling asleep, waking and returning change who is inside sleep_on only for the task itself. */
  lemma FoundAfter(ws: Waits, st: Step, x: nat)
    requires Inv(ws) && Enabled(ws, st) && (st.Sleep? ==> x != st.t) && (st.Return? ==> x != st.t)
    ensures Found(ws, x) <==> Found(Next(ws, st), x)
  {
    var ws' := Next(ws, st);
    if p :| IsPlace(ws, p) && At(ws, p) == x {
      ThenSame(ws, st, p);
    }
    if p :| IsPlace(ws', p) && At(ws', p) == x {
      if st.Sleep? {
        assert IsPlace(ws, p) && At(ws, p) == x;
      } else {
        BeforeSame(ws, st, p);
      }
    }
  }

  function WakeTask(running: seq<bool>, t: int): seq<bool> {
    if 0 <= t < |running| then running[t := true] else running
  }

  lemma WakeMatches(ws: Waits, f: Frames, q: nat)
    requires Matches(ws, f) && q < |f.head|
    ensures NIL <= f.head[q] < |f.running|
    ensures Matches(Next(ws, Wake(q)), f.(head := f.head[q := NIL], running := WakeTask(f.running, f.head[q])))
  {
    var st := Wake(q);
    var ws', f' := Next(ws, st), f.(head := f.head[q := NIL], running := WakeTask(f.running, f.head[q]));
    StepInv(ws, st);
    var n := |ws.queues[q]|;
    assert n > 0 ==> IsPlace(ws, InQueue(q, n - 1)) && Recorded(ws, f, InQueue(q, n - 1));
    forall p | IsPlace(ws', p) ensures Recorded(ws', f', p) {
      BeforeSame(ws, st, p);
      assert Recorded(ws, f, Before(ws, st, p));
    }
    forall x: nat | x < |f.inside| ensures f'.inside[x] <==> Found(ws', x) {
      FoundAfter(ws, st, x);
    }
  }

  lemma ReturnMatches(ws: Waits, f: Frames, t: nat)
    requires Matches(ws, f) && t < |f.inside| && f.inside[t] && f.running[t]
    ensures Enabled(ws, Return(t)) && NIL <= f.tmp[t] < |f.running|
    ensures Matches(Next(ws, Return(t)), f.(inside := f.inside[t := false], running := WakeTask(f.running, f.tmp[t])))
  {
    var p :| IsPlace(ws, p) && At(ws, p) == t;
    assert Recorded(ws, f, p);
    var st := Return(t);
    var ws', f' := Next(ws, st), f.(inside := f.inside[t := false], running := WakeTask(f.running, f.tmp[t]));
    StepInv(ws, st);
    var n := |ws.behind[t]|;
    assert n > 0 ==> IsPlace(ws, Behind(t, n - 1)) && Recorded(ws, f, Behind(t, n - 1));
    forall p | IsPlace(ws', p) ensures Recorded(ws', f', p) && At(ws', p) != t {
      BeforeSame(ws, st, p);
      assert Recorded(ws, f, Before(ws, st, p));
    }
    forall x: nat | x < |f.inside| ensures f'.inside[x] <==> Found(ws', x) {
      if x != t {
        FoundAfter(ws, st, x);
      }
    }
  }

  class WaitQueues {
    const head: array<int>
    const inside: array<bool>
    const tmp: array<int>
    const running: array<bool>
    ghost var ws: Waits

    ghost function Now(): Frames
      reads head, inside, tmp, running
    {
      Frames(head[..], inside[..], tmp[..], running[..])
    }

    ghost predicate Valid()
      reads this, head, inside, tmp, running
    {
      inside != running && tmp != head && Matches(ws, Now())
    }

    constructor (tasks: nat, queues: nat)
      ensures Valid() && fresh(head) && fresh(inside) && fresh(tmp) && fresh(running)
      ensures ws == Waits(seq(queues, _ => []), map[])
    {
      head := new int[queues](_ => NIL);
      inside, running := new bool[tasks](_ => false), new bool[tasks](_ => true);
      tmp := new int[tasks](_ => NIL);
      ws := Waits(seq(queues, _ => []), map[]);
    }

    /** sleep_on up to the call of schedule. */
    method SleepOn(q: nat, current: nat)
      requires Valid() && q < head.Length && current < inside.Length && !inside[current]
      modifies this`ws, head, inside, tmp, running
      ensures Valid() && ws == Next(old(ws), Sleep(current, q)) && inside[current] && !running[current]
    {
      SleepMatches(ws, Now(), current, q);
      tmp[current] := head[q];
      head[q] := current;
      inside[current] := true;
      running[current] := false;
      assert head[..] == old(head[..])[q := current] && tmp[..] == old(tmp[..])[current := old(head[q])];
      assert inside[..] == old(inside[..])[current := true] && running[..] == old(running[..])[current := false];
      ws := Next(ws, Sleep(current, q));
    }

    /** sleep_on from the return of schedule. */
    method Resume(current: nat)
      requires Valid() && current < inside.Length && inside[current] && running[current]
      modifies this`ws, inside, running
      ensures Valid() && ws == Next(old(ws), Return(current)) && !inside[current] && running[current]
    {
      ReturnMatches(ws, Now(), current);
      if tmp[current] != NIL {
        running[tmp[current]] := true;
      }
      inside[current] := false;
      assert inside[..] == old(inside[..])[current := false];
      assert running[..] == WakeTask(old(running[..]), tmp[current]);
      ws := Next(ws, Return(current));
    }

    method WakeUp(q: nat)
      requires Valid() && q < head.Length
      modifies this`ws, head, running
      ensures Valid() && ws == Next(old(ws), Wake(q)) && head[q] == NIL
    {
      WakeMatches(ws, Now(), q);
      if head[q] != NIL {
        running[head[q]] := true;
        head[q] := NIL;
      }
      assert head[..] == old(head[..])[q := NIL];
      assert running[..] == WakeTask(old(running[..]), old(head[q]));
      ws := Next(ws, Wake(q));
    }
  }
}
