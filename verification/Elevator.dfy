/** The block request queue (kernel/blk_drv/ll_rw_blk.c, blk.h): the order in which add_request
    and end_request serve a device.
 */
module Elevator {
  import opened Lists

  /** READ is 0 and WRITE is 1. */
  datatype Req = Req(cmd: nat, dev: int, sector: nat)

  /** IN_ORDER. */
  predicate InOrder(a: Req, b: Req) {
    || a.cmd < b.cmd
    || (a.cmd == b.cmd && (a.dev < b.dev || (a.dev == b.dev && a.sector < b.sector)))
  }

  /** The test of add_request: r may go between q[k] and q[k + 1]. */
  predicate Fits(q: seq<Req>, r: Req, k: nat)
    requires k + 1 < |q|
  {
    (InOrder(q[k], r) || !InOrder(q[k], q[k + 1])) && InOrder(r, q[k + 1])
  }

  /** Where add_request stops: the request goes in after this place of a non-empty queue. */
  function Place(q: seq<Req>, r: Req, i: nat): (p: nat)
    requires i < |q|
    ensures i <= p < |q|
    ensures p + 1 < |q| ==> Fits(q, r, p)
    ensures forall k: nat :: i <= k < p ==> !Fits(q, r, k)
    decreases |q| - i
  {
    if i + 1 == |q| || Fits(q, r, i) then i
    else Place(q, r, i + 1)
  }

  function Add(q: seq<Req>, r: Req): (t: seq<Req>) {
    if q == [] then [r] else InsertAfter(q, Place(q, r, 0), r)
  }

  /** The number of places where the order is broken: one less than the number of ascending runs. */
  function Turns(q: seq<Req>): (n: nat) {
    if |q| < 2 then 0
    else Turns(q[..|q| - 1]) + (if InOrder(q[|q| - 2], q[|q| - 1]) then 0 else 1)
  }

  lemma {:induction false} TurnsSplit(a: seq<Req>, b: seq<Req>)
    requires a != [] && b != []
    ensures Turns(a + b) == Turns(a) + Turns(b) + (if InOrder(a[|a| - 1], b[0]) then 0 else 1)
    decreases |b|
  {
    var b0 := b[..|b| - 1];
    assert (a + b)[..|a + b| - 1] == a + b0;
    if |b| == 1 {
      assert a + b0 == a;
    } else {
      TurnsSplit(a, b0);
    }
  }

  /** A request put between two others breaks the order no more than it was broken. */
  lemma InsertTurns(a: seq<Req>, r: Req, b: seq<Req>)
    requires a != [] && b != []
    requires (InOrder(a[|a| - 1], r) || !InOrder(a[|a| - 1], b[0])) && InOrder(r, b[0])
    ensures Turns(a + [r] + b) == Turns(a + b)
  {
    TurnsSplit(a, b);
    TurnsSplit(a, [r]);
    TurnsSplit(a + [r], b);
  }

  /** Once past a turn, a request that is not placed is above everything passed but its equals. */
  lemma {:induction false} Above(q: seq<Req>, r: Req, j: nat, i: nat)
    requires j < i < |q| && !InOrder(q[j], q[j + 1])
    requires forall k: nat :: k < i ==> !Fits(q, r, k)
    requires forall k :: j < k <= i ==> q[k] != r
    ensures InOrder(q[i], r)
    decreases i
  {
    assert !Fits(q, r, i - 1);
    if i == j + 1 {
    } else {
      Above(q, r, j, i - 1);
    }
  }

  lemma {:induction false} SomeTurn(q: seq<Req>) returns (j: nat)
    requires Turns(q) > 0
    ensures j + 1 < |q| && !InOrder(q[j], q[j + 1])
    decreases |q|
  {
    if InOrder(q[|q| - 2], q[|q| - 1]) {
      j := SomeTurn(q[..|q| - 1]);
    } else {
      j := |q| - 2;
    }
  }

  /** Past the only turn of a queue the order is kept. */
  lemma {:induction false} Ascends(q: seq<Req>, j: nat, i: nat, k: nat)
    requires Turns(q) <= 1 && j + 1 < |q| && !InOrder(q[j], q[j + 1]) && j < i < k < |q|
    ensures InOrder(q[i], q[k])
    decreases k
  {
    var a, b := q[..k], q[k..];
    assert q == a + b;
    TurnsSplit(a, b);
    assert a == q[..j + 1] + q[j + 1..k];
    TurnsSplit(q[..j + 1], q[j + 1..k]);
    if k == i + 1 {
    } else {
      Ascends(q, j, i, k - 1);
    }
  }

  /** The order turns at j, and i comes after it. */
  predicate Behind(q: seq<Req>, j: nat, i: nat) {
    j < i < |q| && !InOrder(q[j], q[j + 1])
  }

  /** The request goes to the end, behind a request of the second sweep with the same key. */
  ghost predicate Repeats(q: seq<Req>, r: Req) {
    && q != [] && Place(q, r, 0) == |q| - 1
    && exists j: nat, i: nat :: Behind(q, j, i) && q[i] == r
  }

  lemma AddTurns(q: seq<Req>, r: Req)
    requires q != [] && Turns(q) <= 1
    ensures Turns(Add(q, r)) <= 1 <==> !Repeats(q, r)
  {
    var p := Place(q, r, 0);
    var a, b := q[..p + 1], q[p + 1..];
    assert q == a + b && Add(q, r) == a + [r] + b;
    if b != [] {
      InsertTurns(a, r, b);
    } else {
      TurnsSplit(q, [r]);
      assert Add(q, r) == q + [r];
      EndTurns(q, r);
    }
  }

  lemma TurnCounts(q: seq<Req>, j: nat)
    requires j + 1 < |q| && !InOrder(q[j], q[j + 1])
    ensures Turns(q) >= 1
  {
    assert q == q[..j + 1] + q[j + 1..];
    TurnsSplit(q[..j + 1], q[j + 1..]);
  }

  lemma NotAbove(q: seq<Req>, j: nat, i: nat)
    requires Turns(q) <= 1 && j < i < |q| && !InOrder(q[j], q[j + 1])
    ensures !InOrder(q[|q| - 1], q[i])
  {
    if i < |q| - 1 {
      Ascends(q, j, i, |q| - 1);
    }
  }

  lemma EndTurns(q: seq<Req>, r: Req)
    requires q != [] && Turns(q) <= 1 && Place(q, r, 0) == |q| - 1
    ensures Turns(q) + (if InOrder(q[|q| - 1], r) then 0 else 1) <= 1 <==> !Repeats(q, r)
  {
    if Repeats(q, r) {
      var j: nat, i: nat :| Behind(q, j, i) && q[i] == r;
      TurnCounts(q, j);
      NotAbove(q, j, i);
    } else if Turns(q) > 0 {
      var j := SomeTurn(q);
      forall k | j < k < |q| ensures q[k] != r {
        assert Behind(q, j, k);
      }
      Above(q, r, j, |q| - 1);
    }
  }

  /** THE ELEVATOR KEEPS TWO SWEEPS: a new request leaves at most two ascending runs unless it
      repeats a key of the second sweep and finds no place in the first; the request in service
      stays at the head. */
  lemma AddKeepsSweeps(q: seq<Req>, r: Req)
    requires Turns(q) <= 1
    ensures Turns(Add(q, r)) <= 1 <==> !Repeats(q, r)
    ensures r !in q ==> !Repeats(q, r)
    ensures q != [] ==> Add(q, r)[0] == q[0]
    ensures multiset(Add(q, r)) == multiset(q) + multiset{r}
  {
    if q != [] {
      AddTurns(q, r);
      AddContents(q, Place(q, r, 0), r);
    }
  }

  lemma AddContents(q: seq<Req>, p: nat, r: Req)
    requires p < |q|
    ensures multiset(InsertAfter(q, p, r)) == multiset(q) + multiset{r}
  {
    assert q == q[..p + 1] + q[p + 1..];
  }

  lemma PrefixTurns(q: seq<Req>, n: nat)
    requires n <= |q|
    ensures Turns(q[..n]) <= Turns(q)
  {
    if 0 < n < |q| {
      TurnsSplit(q[..n], q[n..]);
      assert q == q[..n] + q[n..];
    } else {
      assert n == |q| ==> q[..n] == q;
    }
  }

  /** Sectors 5, 2 and 3 are waiting, in two runs; a second request for sector 2 makes three. */
  lemma EqualKeysBreakSweeps(cmd: nat, dev: int)
    ensures var a, b, c := Req(cmd, dev, 5), Req(cmd, dev, 2), Req(cmd, dev, 3);
            Turns([a, b, c]) == 1 && Add([a, b, c], b) == [a, b, c, b] && Turns([a, b, c, b]) == 2
  {
    var a, b, c := Req(cmd, dev, 5), Req(cmd, dev, 2), Req(cmd, dev, 3);
    var q := [a, b, c];
    assert !Fits(q, b, 0) && !Fits(q, b, 1);
    assert Place(q, b, 0) == 2;
    assert [a, b][..1] == [a];
    assert Turns([a, b]) == 1;
    assert q[..2] == [a, b];
    assert [a, b, c, b][..3] == q;
  }

  lemma DoneKeepsSweeps(q: seq<Req>)
    requires q != [] && Turns(q) <= 1
    ensures Turns(q[1..]) <= 1
  {
    if |q| > 1 {
      TurnsSplit(q[..1], q[1..]);
      assert q == q[..1] + q[1..];
    }
  }

  // ---------- runs ----------

  datatype Step = Arrive(r: Req) | Done

  predicate Enabled(q: seq<Req>, st: Step) {
    st.Done? ==> q != []
  }

  function Next(q: seq<Req>, st: Step): seq<Req>
    requires Enabled(q, st)
  {
    match st
    case Arrive(r) => Add(q, r)
    case Done => q[1..]
  }

  ghost predicate IsStep(qs: seq<seq<Req>>, steps: seq<Step>, i: nat)
    requires i < |steps| && |qs| == |steps| + 1
  {
    Enabled(qs[i], steps[i]) && qs[i + 1] == Next(qs[i], steps[i])
  }

  ghost predicate IsRun(qs: seq<seq<Req>>, steps: seq<Step>) {
    |qs| == |steps| + 1 && forall i: nat :: i < |steps| ==> IsStep(qs, steps, i)
  }

  ghost function Arrived(steps: seq<Step>, n: nat): multiset<Req>
    requires n <= |steps|
  {
    if n == 0 then multiset{}
    else Arrived(steps, n - 1) + (if steps[n - 1].Arrive? then multiset{steps[n - 1].r} else multiset{})
  }

  ghost function Served(qs: seq<seq<Req>>, steps: seq<Step>, n: nat): multiset<Req>
    requires IsRun(qs, steps) && n <= |steps|
  {
    if n == 0 then multiset{}
    else
      assert IsStep(qs, steps, n - 1);
      Served(qs, steps, n - 1) + (if steps[n - 1].Done? then multiset{qs[n - 1][0]} else multiset{})
  }

  ghost predicate Breaks(q: seq<Req>, st: Step) {
    st.Arrive? && Repeats(q, st.r)
  }

  lemma StepKeepsSweeps(q: seq<Req>, st: Step)
    requires Turns(q) <= 1 && Enabled(q, st)
    ensures Turns(Next(q, st)) <= 1 <==> !Breaks(q, st)
  {
    match st
    case Arrive(r) => AddKeepsSweeps(q, r);
    case Done => DoneKeepsSweeps(q);
  }

  /** Up to step n the queue was never more than two sweeps. */
  ghost predicate TwoSweeps(qs: seq<seq<Req>>, n: nat)
    requires n < |qs|
  {
    forall k :: 0 <= k <= n ==> Turns(qs[k]) <= 1
  }

  /** Over every run the queue stays at most two sweeps if and only if no arrival repeats a key of the
      second sweep at the end; the keys of the buffer cache never repeat. */
  lemma {:induction false} RunKeepsSweeps(qs: seq<seq<Req>>, steps: seq<Step>, n: nat)
    requires IsRun(qs, steps) && n <= |steps| && Turns(qs[0]) <= 1
    ensures TwoSweeps(qs, n) <==> forall k :: 0 <= k < n ==> !Breaks(qs[k], steps[k])
  {
    if n == 0 {
    } else {
      RunKeepsSweeps(qs, steps, n - 1);
      assert IsStep(qs, steps, n - 1);
      assert TwoSweeps(qs, n) <==> TwoSweeps(qs, n - 1) && Turns(qs[n]) <= 1;
      if TwoSweeps(qs, n - 1) {
        StepKeepsSweeps(qs[n - 1], steps[n - 1]);
      }
    }
  }

  lemma StepServes(q: seq<Req>, st: Step)
    requires Enabled(q, st)
    ensures multiset(Next(q, st)) + (if st.Done? then multiset{q[0]} else multiset{})
         == multiset(q) + (if st.Arrive? then multiset{st.r} else multiset{})
  {
    match st
    case Arrive(r) =>
      if q != [] {
        AddContents(q, Place(q, r, 0), r);
      }
    case Done => assert q == [q[0]] + q[1..];
  }

  /** Over every run no request is lost and none is served twice. */
  lemma {:induction false} RunServes(qs: seq<seq<Req>>, steps: seq<Step>, n: nat)
    requires IsRun(qs, steps) && n <= |steps|
    ensures multiset(qs[n]) + Served(qs, steps, n) == multiset(qs[0]) + Arrived(steps, n)
  {
    if n == 0 {
    } else {
      RunServes(qs, steps, n - 1);
      assert IsStep(qs, steps, n - 1);
      StepServes(qs[n - 1], steps[n - 1]);
      Balance(multiset(qs[n]), if steps[n - 1].Done? then multiset{qs[n - 1][0]} else multiset{},
              multiset(qs[n - 1]), if steps[n - 1].Arrive? then multiset{steps[n - 1].r} else multiset{},
              Served(qs, steps, n - 1), multiset(qs[0]), Arrived(steps, n - 1));
    }
  }

  lemma Balance(q': multiset<Req>, gone: multiset<Req>, q: multiset<Req>, came: multiset<Req>,
                served: multiset<Req>, q0: multiset<Req>, arrived: multiset<Req>)
    requires q' + gone == q + came && q + served == q0 + arrived
    ensures q' + (served + gone) == q0 + (arrived + came)
  {
    assert q' + (served + gone) == (q' + gone) + served;
    assert q0 + (arrived + came) == (q0 + arrived) + came;
    assert (q + came) + served == (q + served) + came;
  }

  // ---------- how long a request waits ----------

  /** Where the request first at place p stands after a step; -1 once it has been served. */
  function Moved(q: seq<Req>, p: int, st: Step): (p': int)
    requires p < |q|
  {
    if p < 0 then -1
    else
      match st
      case Arrive(r) => if Place(q, r, 0) < p then p + 1 else p
      case Done => p - 1
  }

  ghost function Where(qs: seq<seq<Req>>, steps: seq<Step>, p: nat, n: nat): (w: int)
    requires IsRun(qs, steps) && n <= |steps| && p < |qs[0]|
    ensures w < |qs[n]|
  {
    if n == 0 then p
    else
      assert IsStep(qs, steps, n - 1);
      Moved(qs[n - 1], Where(qs, steps, p, n - 1), steps[n - 1])
  }

  /** What has been served so far, up to and including the request first at place p. */
  ghost function Passed(qs: seq<seq<Req>>, steps: seq<Step>, p: nat, n: nat): seq<Req>
    requires IsRun(qs, steps) && n <= |steps| && p < |qs[0]|
  {
    if n == 0 then []
    else
      assert IsStep(qs, steps, n - 1);
      if steps[n - 1].Done? && Where(qs, steps, p, n - 1) >= 0 then
        Passed(qs, steps, p, n - 1) + [qs[n - 1][0]]
      else Passed(qs, steps, p, n - 1)
  }

  lemma ArriveTurns(log: seq<Req>, q: seq<Req>, p: nat, r: Req)
    requires p < |q|
    ensures var p' := if Place(q, r, 0) < p then p + 1 else p;
            Turns(log + Add(q, r)[..p' + 1]) == Turns(log + q[..p + 1])
  {
    var i := Place(q, r, 0);
    var q' := Add(q, r);
    if i < p {
      var a, b := log + q[..i + 1], q[i + 1..p + 1];
      assert log + q[..p + 1] == a + b && log + q'[..p + 2] == a + [r] + b;
      assert Fits(q, r, i);
      InsertTurns(a, r, b);
    } else {
      assert q'[..p + 1] == q[..p + 1];
    }
  }

  /** Request x, now at place w of q or already served, is reached within two sweeps. */
  ghost predicate Reached(x: Req, q: seq<Req>, w: int, log: seq<Req>) {
    && w < |q|
    && if w >= 0 then q[w] == x && Turns(log + q[..w + 1]) <= 1
       else log != [] && log[|log| - 1] == x && Turns(log) <= 1
  }

  /** NO REQUEST IS PASSED OVER TWICE.  Whatever arrives meanwhile, everything served up to a
      waiting request, itself included, is in at most two ascending sweeps. */
  lemma {:induction false} ServedWithinTwoSweeps(qs: seq<seq<Req>>, steps: seq<Step>, p: nat, n: nat)
    requires IsRun(qs, steps) && n <= |steps| && Turns(qs[0]) <= 1 && p < |qs[0]|
    ensures Reached(qs[0][p], qs[n], Where(qs, steps, p, n), Passed(qs, steps, p, n))
  {
    if n == 0 {
      PrefixTurns(qs[0], p + 1);
      assert [] + qs[0][..p + 1] == qs[0][..p + 1];
    } else {
      ServedWithinTwoSweeps(qs, steps, p, n - 1);
      assert IsStep(qs, steps, n - 1);
      WaitRound(qs[0][p], qs[n - 1], Where(qs, steps, p, n - 1), Passed(qs, steps, p, n - 1), steps[n - 1]);
    }
  }

  lemma WaitRound(x: Req, q: seq<Req>, w: int, log: seq<Req>, st: Step)
    requires Enabled(q, st) && Reached(x, q, w, log)
    ensures Reached(x, Next(q, st), Moved(q, w, st), if st.Done? && w >= 0 then log + [q[0]] else log)
  {
    if w >= 0 {
      match st
      case Arrive(r) => ArriveRound(x, q, w, log, r);
      case Done => ServeRound(x, q, w, log);
    }
  }

  lemma ArriveRound(x: Req, q: seq<Req>, w: nat, log: seq<Req>, r: Req)
    requires Reached(x, q, w, log)
    ensures Reached(x, Add(q, r), if Place(q, r, 0) < w then w + 1 else w, log)
  {
    ArriveTurns(log, q, w, r);
  }

  lemma ServeRound(x: Req, q: seq<Req>, w: nat, log: seq<Req>)
    requires Reached(x, q, w, log)
    ensures Reached(x, q[1..], w - 1, log + [q[0]])
  {
    if w > 0 {
      assert log + q[..w + 1] == log + [q[0]] + q[1..][..w];
    } else {
      assert q[..1] == [q[0]];
    }
  }
}
