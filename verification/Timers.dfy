/** Kernel timers (kernel/sched.c): add_timer and the timer part of do_timer.  Each entry of the
    list is meant to hold the time by which it comes after the entry before it.
 */
module Timers {
  import opened Lists

  datatype Timer = Timer(jiffies: int, fn: nat)

  type List = seq<Timer>

  /** add_timer with a positive time: the new entry moves back past every entry that is nearer. */
  function Insert(list: List, t: Timer): List
    decreases |list|
  {
    if list == [] || list[0].jiffies >= t.jiffies then [t] + list
    else [list[0]] + Insert(list[1..], t.(jiffies := t.jiffies - list[0].jiffies))
  }

  /** The entries that go off once the head has been counted down. */
  function Expired(list: List): nat
    decreases |list|
  {
    if list == [] || list[0].jiffies > 0 then 0 else 1 + Expired(list[1..])
  }

  /** The functions of the entries that go off, in order. */
  function Expiring(list: List): seq<nat>
    decreases |list|
  {
    if list == [] || list[0].jiffies > 0 then [] else [list[0].fn] + Expiring(list[1..])
  }

  function CountDown(list: List): List {
    if list == [] then [] else list[0 := list[0].(jiffies := list[0].jiffies - 1)]
  }

  ghost predicate Positive(list: List) {
    forall i :: 0 <= i < |list| ==> list[i].jiffies >= 1
  }

  /** The number of ticks before entry i goes off. */
  function Due(list: List, i: int): int
    requires i < |list|
    decreases if i < 0 then 0 else i + 1
  {
    if i < 0 then 0 else Due(list, i - 1) + list[i].jiffies
  }

  lemma {:induction false} DueAscends(list: List, i: int, j: int)
    requires Positive(list) && -1 <= i <= j < |list|
    ensures Due(list, i) + (j - i) <= Due(list, j)
    decreases j
  {
    if i == j {
    } else {
      DueAscends(list, i, j - 1);
    }
  }

  lemma {:induction false} DueTail(list: List, i: int)
    requires list != [] && 0 <= i < |list|
    ensures Due(list[1..], i - 1) == Due(list, i) - list[0].jiffies
    decreases i
  {
    if i == 0 {
      assert Due(list, 0) == Due(list, -1) + list[0].jiffies;
    } else {
      DueTail(list, i - 1);
      assert list[1..][i - 1] == list[i];
    }
  }

  lemma {:induction false} DueSame(a: List, b: List, i: int)
    requires i < |a| && i < |b| && forall k :: 0 <= k <= i ==> a[k].jiffies == b[k].jiffies
    ensures Due(a, i) == Due(b, i)
    decreases if i < 0 then 0 else i + 1
  {
    if i < 0 {
    } else {
      DueSame(a, b, i - 1);
    }
  }

  // ---------- adding a timer ----------

  /** The place add_timer finds: behind exactly the entries that are due before the new one. */
  function Place(list: List, j: int, i: nat): (k: nat)
    requires i <= |list|
    ensures i <= k <= |list|
    decreases |list| - i
  {
    if i == |list| || Due(list, i) >= j then i else Place(list, j, i + 1)
  }

  lemma {:induction false} PlaceSplits(list: List, j: int, i: nat)
    requires Positive(list) && i <= |list|
    ensures var k := Place(list, j, i);
            && (forall x :: i <= x < k ==> Due(list, x) < j)
            && (forall x :: k <= x < |list| ==> Due(list, x) >= j)
    decreases |list| - i
  {
    if i < |list| && Due(list, i) < j {
      PlaceSplits(list, j, i + 1);
    } else {
      forall x | i <= x < |list| ensures Due(list, x) >= j {
        DueAscends(list, i, x);
      }
    }
  }

  /** The list after the new entry is put at place k with what is left of its time. */
  function Inserted(list: List, t: Timer, k: nat): List
    requires k <= |list|
  {
    list[..k] + [t.(jiffies := t.jiffies - Due(list, k - 1))] + list[k..]
  }

  lemma InsertedBehind(list: List, t: Timer, k: nat)
    requires 0 < k <= |list| && Due(list[1..], k - 2) == Due(list, k - 1) - list[0].jiffies
    ensures [list[0]] + Inserted(list[1..], t.(jiffies := t.jiffies - list[0].jiffies), k - 1) == Inserted(list, t, k)
  {
    assert list[..k] == [list[0]] + list[1..][..k - 1];
    assert list[k..] == list[1..][k - 1..];
  }

  lemma {:induction false} InsertIs(list: List, t: Timer, k: nat)
    requires k <= |list| && (forall x :: 0 <= x < k ==> Due(list, x) < t.jiffies)
    requires k < |list| ==> Due(list, k) >= t.jiffies
    ensures Insert(list, t) == Inserted(list, t, k)
    decreases |list|
  {
    if k == 0 {
      assert list != [] ==> Due(list, 0) == Due(list, -1) + list[0].jiffies;
    } else {
      assert Due(list, 0) == Due(list, -1) + list[0].jiffies;
      var rest, t' := list[1..], t.(jiffies := t.jiffies - list[0].jiffies);
      forall x | 0 <= x < k - 1 ensures Due(rest, x) < t'.jiffies {
        DueTail(list, x + 1);
      }
      if k < |list| {
        DueTail(list, k);
      }
      InsertIs(rest, t', k - 1);
      if k > 1 {
        DueTail(list, k - 1);
      }
      InsertedBehind(list, t, k);
    }
  }

  /** The entry at index i of the list is the entry at index i' of the list with the new one. */
  function Past(k: nat, i: nat): nat {
    if i < k then i else i + 1
  }

  lemma InsertShape(list: List, t: Timer)
    requires Positive(list) && t.jiffies >= 1
    ensures var k := Place(list, t.jiffies, 0);
            var list' := Insert(list, t);
            && |list'| == |list| + 1 && list'[k] == t.(jiffies := t.jiffies - Due(list, k - 1)) && list'[k].jiffies >= 1
            && forall i: nat :: i < |list| ==> list'[Past(k, i)] == list[i]
  {
    var k := Place(list, t.jiffies, 0);
    PlaceSplits(list, t.jiffies, 0);
    InsertIs(list, t, k);
    assert k > 0 ==> Due(list, k - 1) < t.jiffies;
  }

  lemma InsertPositive(list: List, t: Timer)
    requires Positive(list) && t.jiffies >= 1
    ensures Positive(Insert(list, t))
  {
    InsertShape(list, t);
    var k := Place(list, t.jiffies, 0);
    var list' := Insert(list, t);
    forall i | 0 <= i < |list'| ensures list'[i].jiffies >= 1 {
      if i != k {
        assert list'[Past(k, if i < k then i else i - 1)] == list[if i < k then i else i - 1];
      }
    }
  }

  /** A new timer is due after exactly its time.  Entries due before it are left alone; every other
      entry is put off by what was left of the new one. */
  lemma InsertDue(list: List, t: Timer, i: nat)
    requires Positive(list) && t.jiffies >= 1 && i < |list|
    ensures var k := Place(list, t.jiffies, 0);
            var list' := Insert(list, t);
            && |list'| == |list| + 1 && list'[Past(k, i)] == list[i] && (k <= i <==> t.jiffies <= Due(list, i))
            && Due(list', Past(k, i)) == Due(list, i) + (if k <= i then list'[k].jiffies else 0)
  {
    hide Insert, Place;
    var k := Place(list, t.jiffies, 0);
    var list' := Insert(list, t);
    InsertShape(list, t);
    PlaceSplits(list, t.jiffies, 0);
    assert forall x: nat :: x < k ==> list'[Past(k, x)] == list[x];
    if i < k {
      DueSame(list', list, i);
    } else {
      DueSame(list', list, k - 1);
      assert forall x: nat :: k <= x < |list| ==> list'[Past(k, x)] == list[x];
      PutOff(list, list', k, i);
    }
  }

  lemma NewDue(list: List, t: Timer)
    requires Positive(list) && t.jiffies >= 1
    ensures var k := Place(list, t.jiffies, 0);
            var list' := Insert(list, t);
            k < |list'| && list'[k].fn == t.fn && Due(list', k) == t.jiffies
  {
    var k := Place(list, t.jiffies, 0);
    var list' := Insert(list, t);
    InsertShape(list, t);
    assert forall x: nat :: x < k ==> list'[Past(k, x)] == list[x];
    var before: int := k as int - 1;
    DueSame(list', list, before);
  }

  lemma {:induction false} PutOff(list: List, list': List, k: nat, i: nat)
    requires k <= i < |list| && |list'| == |list| + 1 && Due(list', k - 1) == Due(list, k - 1)
    requires forall x :: k <= x < |list| ==> list'[x + 1] == list[x]
    ensures Due(list', i + 1) == Due(list, i) + list'[k].jiffies
    decreases i
  {
    if i == k {
    } else {
      PutOff(list, list', k, i - 1);
    }
  }

  // ---------- a tick ----------

  /** Exactly the head goes off, and only when it is due. */
  lemma OneExpires(list: List)
    requires Positive(list)
    ensures Expired(CountDown(list)) == if list != [] && list[0].jiffies == 1 then 1 else 0
    ensures Expiring(CountDown(list)) == if list != [] && list[0].jiffies == 1 then [list[0].fn] else []
  {
    if |list| > 1 {
      assert CountDown(list)[1..][0] == list[1];
    }
  }

  /** The list after a tick: the head goes off, alone, exactly when it is due. */
  function Ticked(list: List): List {
    var down := CountDown(list);
    if Expired(down) <= |down| then down[Expired(down)..] else []
  }

  /** A tick brings every entry one nearer, and the head goes off, alone, exactly when it is due. */
  lemma TickDue(list: List, i: nat)
    requires Positive(list) && i < |list|
    ensures var n := if list[0].jiffies == 1 then 1 else 0;
            && |Ticked(list)| == |list| - n
            && (n <= i ==> Ticked(list)[i - n].fn == list[i].fn && Due(Ticked(list), i - n) == Due(list, i) - 1)
  {
    OneExpires(list);
    var down := CountDown(list);
    Shifted(list, down, i);
    if list[0].jiffies == 1 {
      assert Ticked(list) == down[1..];
      DueTail(down, i);
    } else {
      assert Ticked(list) == down;
    }
  }

  lemma TickPositive(list: List)
    requires Positive(list)
    ensures Positive(Ticked(list))
  {
    OneExpires(list);
  }

  lemma {:induction false} Shifted(list: List, down: List, i: nat)
    requires i < |list| == |down| && down[0].jiffies == list[0].jiffies - 1
    requires forall k :: 1 <= k < |list| ==> down[k] == list[k]
    ensures Due(down, i) == Due(list, i) - 1
    decreases i
  {
    if i > 0 {
      Shifted(list, down, i - 1);
    } else {
      assert Due(down, 0) == Due(down, -1) + down[0].jiffies && Due(list, 0) == Due(list, -1) + list[0].jiffies;
    }
  }

  // ---------- whole runs ----------

  /** A timer is asked for, or the clock ticks. */
  datatype Step = Add(t: Timer) | Tick

  function Next(list: List, st: Step): List {
    match st
    case Add(t) => if t.jiffies <= 0 then list else Insert(list, t)
    case Tick => Ticked(list)
  }

  /** The functions a step calls: that of a timer without time at once, and on a tick those expired. */
  function Calls(list: List, st: Step): seq<nat> {
    match st
    case Add(t) => if t.jiffies <= 0 then [t.fn] else []
    case Tick => Expiring(CountDown(list))
  }

  ghost predicate IsStep(lists: seq<List>, steps: seq<Step>, i: nat)
    requires i < |steps| && |lists| == |steps| + 1
  {
    lists[i + 1] == Next(lists[i], steps[i])
  }

  ghost predicate IsRun(lists: seq<List>, steps: seq<Step>) {
    |lists| == |steps| + 1 && Positive(lists[0]) && forall i: nat :: i < |steps| ==> IsStep(lists, steps, i)
  }

  lemma StepPositive(list: List, st: Step)
    requires Positive(list)
    ensures Positive(Next(list, st))
  {
    match st
    case Add(t) =>
      if t.jiffies >= 1 {
        InsertPositive(list, t);
      }
    case Tick => TickPositive(list);
  }

  // ---------- every function is called, and called once ----------

  /** The functions a list waits to call. */
  ghost function Waiting(list: List): multiset<nat>
    decreases |list|
  {
    if list == [] then multiset{} else multiset{list[0].fn} + Waiting(list[1..])
  }

  lemma WaitingFront(t: Timer, list: List)
    ensures Waiting([t] + list) == multiset{t.fn} + Waiting(list)
  {
    assert ([t] + list)[1..] == list;
  }

  lemma {:induction false} InsertWaits(list: List, t: Timer)
    ensures Waiting(Insert(list, t)) == Waiting(list) + multiset{t.fn}
    decreases |list|
  {
    hide Waiting;
    if list == [] || list[0].jiffies >= t.jiffies {
      WaitingFront(t, list);
    } else {
      var t' := t.(jiffies := t.jiffies - list[0].jiffies);
      InsertWaits(list[1..], t');
      WaitingFront(list[0], Insert(list[1..], t'));
      assert list == [list[0]] + list[1..];
      WaitingFront(list[0], list[1..]);
      Reorder(multiset{list[0].fn}, Waiting(list[1..]), multiset{t.fn});
    }
  }

  lemma Reorder(a: multiset<nat>, b: multiset<nat>, c: multiset<nat>)
    ensures a + (b + c) == (a + b) + c
  {
  }

  lemma TickWaits(list: List)
    requires Positive(list)
    ensures multiset(Calls(list, Tick)) + Waiting(Ticked(list)) == Waiting(list)
  {
    OneExpires(list);
    if list != [] {
      var down := CountDown(list);
      assert down[1..] == list[1..];
      if list[0].jiffies == 1 {
        assert Calls(list, Tick) == [list[0].fn];
        assert Ticked(list) == list[1..];
      } else {
        assert Calls(list, Tick) == [];
        assert Ticked(list) == down;
      }
    }
  }

  function Wanted(st: Step): multiset<nat> {
    if st.Add? then multiset{st.t.fn} else multiset{}
  }

  /** A step moves functions from those waiting to those called, and adds what is asked for. */
  lemma StepLedger(list: List, st: Step)
    requires Positive(list)
    ensures multiset(Calls(list, st)) + Waiting(Next(list, st)) == Waiting(list) + Wanted(st)
  {
    match st
    case Add(t) =>
      if t.jiffies >= 1 {
        InsertWaits(list, t);
      }
    case Tick => TickWaits(list);
  }

  ghost function Called(lists: seq<List>, steps: seq<Step>, n: nat): multiset<nat>
    requires IsRun(lists, steps) && n <= |steps|
  {
    if n == 0 then multiset{} else Called(lists, steps, n - 1) + multiset(Calls(lists[n - 1], steps[n - 1]))
  }

  ghost function Asked(steps: seq<Step>, n: nat): multiset<nat>
    requires n <= |steps|
  {
    if n == 0 then multiset{} else Asked(steps, n - 1) + Wanted(steps[n - 1])
  }

  /** Over every run the functions called and those still waiting are exactly those that were waiting
      at first and those asked for: none is lost and none is called twice. */
  lemma {:induction false} RunLedger(lists: seq<List>, steps: seq<Step>, n: nat)
    requires IsRun(lists, steps) && n <= |steps|
    ensures Called(lists, steps, n) + Waiting(lists[n]) == Waiting(lists[0]) + Asked(steps, n)
  {
    hide Next, Calls, Waiting, Wanted;
    if n == 0 {
    } else {
      RunLedger(lists, steps, n - 1);
      RunPositive(lists, steps, n - 1);
      assert IsStep(lists, steps, n - 1);
      Balance(Called(lists, steps, n - 1), lists[n - 1], steps[n - 1], Waiting(lists[0]), Asked(steps, n - 1));
    }
  }

  lemma Balance(called: multiset<nat>, list: List, st: Step, first: multiset<nat>, asked: multiset<nat>)
    requires Positive(list) && called + Waiting(list) == first + asked
    ensures (called + multiset(Calls(list, st))) + Waiting(Next(list, st)) == first + (asked + Wanted(st))
  {
    StepLedger(list, st);
    Regroup(called, multiset(Calls(list, st)), Waiting(list), Waiting(Next(list, st)), first, asked, Wanted(st));
  }

  lemma Regroup(called: multiset<nat>, now: multiset<nat>, list: multiset<nat>, list': multiset<nat>,
                first: multiset<nat>, asked: multiset<nat>, more: multiset<nat>)
    requires called + list == first + asked && now + list' == list + more
    ensures (called + now) + list' == first + (asked + more)
  {
    assert (called + now) + list' == called + (now + list');
    assert called + (list + more) == (called + list) + more;
    assert first + (asked + more) == (first + asked) + more;
  }

  // ---------- when one function is called ----------

  lemma {:induction false} RunPositive(lists: seq<List>, steps: seq<Step>, n: nat)
    requires IsRun(lists, steps) && n <= |steps|
    ensures Positive(lists[n])
  {
    if n == 0 {
    } else {
      RunPositive(lists, steps, n - 1);
      assert IsStep(lists, steps, n - 1);
      StepPositive(lists[n - 1], steps[n - 1]);
    }
  }

  /** What has become of one timer: its place (-1 once it has gone off), the ticks counted while it
      was waiting, and by how much it has been put off. */
  datatype Fate = Fate(place: int, ticks: nat, delay: int)

  function Follow(list: List, f: Fate, st: Step): Fate
    requires f.place < |list|
  {
    if f.place < 0 then f
    else
      match st
      case Add(t) =>
        var k := Place(list, t.jiffies, 0);
        if t.jiffies < 1 || k > f.place then f
        else f.(place := f.place + 1, delay := f.delay + t.jiffies - Due(list, k - 1))
      case Tick => f.(place := if list[0].jiffies == 1 then f.place - 1 else f.place, ticks := f.ticks + 1)
  }

  /** A timer with time j is at its place, or has gone off, right on the ticks counted. */
  ghost predicate OnSchedule(list: List, f: Fate, j: int, fn: nat) {
    && -1 <= f.place < |list| && f.delay >= 0
    && (if f.place >= 0 then list[f.place].fn == fn && Due(list, f.place) + f.ticks == j + f.delay
        else f.ticks == j + f.delay)
  }

  lemma FollowAdd(list: List, f: Fate, t: Timer, j: int, fn: nat)
    requires Positive(list) && t.jiffies >= 1 && OnSchedule(list, f, j, fn) && f.place >= 0
    ensures var f' := Follow(list, f, Add(t));
            && OnSchedule(Insert(list, t), f', j, fn) && f'.delay >= f.delay
            && (f'.delay > f.delay <==> t.jiffies <= Due(list, f.place))
  {
    InsertShape(list, t);
    InsertDue(list, t, f.place);
  }

  lemma FollowTick(list: List, f: Fate, j: int, fn: nat)
    requires Positive(list) && OnSchedule(list, f, j, fn) && f.place >= 0
    ensures OnSchedule(Ticked(list), Follow(list, f, Tick), j, fn) && Follow(list, f, Tick).delay == f.delay
  {
    TickDue(list, f.place);
    if f.place == 0 {
      assert Due(list, 0) == Due(list, -1) + list[0].jiffies;
    }
  }

  lemma FollowStep(list: List, f: Fate, st: Step, j: int, fn: nat)
    requires Positive(list) && OnSchedule(list, f, j, fn)
    ensures OnSchedule(Next(list, st), Follow(list, f, st), j, fn)
    ensures Follow(list, f, st).delay >= f.delay
    ensures Follow(list, f, st).delay > f.delay <==> f.place >= 0 && st.Add? && 1 <= st.t.jiffies <= Due(list, f.place)
  {
    if f.place >= 0 {
      match st
      case Add(t) =>
        if t.jiffies >= 1 {
          FollowAdd(list, f, t, j, fn);
        }
      case Tick => FollowTick(list, f, j, fn);
    }
  }

  ghost function FateAt(lists: seq<List>, steps: seq<Step>, f: Fate, n: nat): (r: Fate)
    requires IsRun(lists, steps) && n <= |steps| && f.place < |lists[0]|
    ensures r.place < |lists[n]|
  {
    if n == 0 then f
    else
      var r := FateAt(lists, steps, f, n - 1);
      var r' := Follow(lists[n - 1], r, steps[n - 1]);
      if r'.place < |lists[n]| then r' else r'.(place := -1)
  }

  /** A timer that is due in j ticks, as a new one is, is always where it should be: j ticks, and
      whatever it was put off by, from going off. */
  lemma {:induction false} RunOnSchedule(lists: seq<List>, steps: seq<Step>, p: nat, n: nat)
    requires IsRun(lists, steps) && n <= |steps| && p < |lists[0]|
    ensures OnSchedule(lists[n], FateAt(lists, steps, Fate(p, 0, 0), n), Due(lists[0], p), lists[0][p].fn)
  {
    if n == 0 {
    } else {
      RunOnSchedule(lists, steps, p, n - 1);
      RunPositive(lists, steps, n - 1);
      assert IsStep(lists, steps, n - 1);
      var f := FateAt(lists, steps, Fate(p, 0, 0), n - 1);
      FollowStep(lists[n - 1], f, steps[n - 1], Due(lists[0], p), lists[0][p].fn);
    }
  }

  ghost function Ticks(steps: seq<Step>, n: nat): nat
    requires n <= |steps|
  {
    if n == 0 then 0 else Ticks(steps, n - 1) + (if steps[n - 1].Tick? then 1 else 0)
  }

  /** The ticks counted for a timer are all the ticks there were, until it goes off. */
  lemma {:induction false} TicksCounted(lists: seq<List>, steps: seq<Step>, p: nat, n: nat)
    requires IsRun(lists, steps) && n <= |steps| && p < |lists[0]|
    ensures var f := FateAt(lists, steps, Fate(p, 0, 0), n);
            f.ticks <= Ticks(steps, n) && (f.place >= 0 ==> f.ticks == Ticks(steps, n))
  {
    if n == 0 {
    } else {
      TicksCounted(lists, steps, p, n - 1);
      RunOnSchedule(lists, steps, p, n - 1);
      RunOnSchedule(lists, steps, p, n);
      RunPositive(lists, steps, n - 1);
      assert IsStep(lists, steps, n - 1);
      var f := FateAt(lists, steps, Fate(p, 0, 0), n - 1);
      FollowStep(lists[n - 1], f, steps[n - 1], Due(lists[0], p), lists[0][p].fn);
    }
  }

  /** EVERY TIMER GOES OFF, ONCE AND NEVER EARLY: a timer due in j ticks has gone off if and only if
      there have been j ticks and as many more as it was put off by. */
  lemma GoneIff(lists: seq<List>, steps: seq<Step>, p: nat, n: nat)
    requires IsRun(lists, steps) && n <= |steps| && p < |lists[0]|
    ensures var f := FateAt(lists, steps, Fate(p, 0, 0), n);
            f.place < 0 <==> Ticks(steps, n) >= Due(lists[0], p) + f.delay
  {
    RunOnSchedule(lists, steps, p, n);
    TicksCounted(lists, steps, p, n);
    RunPositive(lists, steps, n);
    var f := FateAt(lists, steps, Fate(p, 0, 0), n);
    if f.place >= 0 {
      DueAscends(lists[n], -1, f.place);
    }
  }

  /** The step on which it goes is a tick, and that tick calls its function and no other. */
  lemma GoneByCall(lists: seq<List>, steps: seq<Step>, p: nat, n: nat)
    requires IsRun(lists, steps) && n < |steps| && p < |lists[0]|
    requires FateAt(lists, steps, Fate(p, 0, 0), n).place >= 0 > FateAt(lists, steps, Fate(p, 0, 0), n + 1).place
    ensures steps[n] == Tick && Calls(lists[n], steps[n]) == [lists[0][p].fn]
  {
    RunOnSchedule(lists, steps, p, n);
    RunPositive(lists, steps, n);
    var f := FateAt(lists, steps, Fate(p, 0, 0), n);
    assert IsStep(lists, steps, n);
    FollowStep(lists[n], f, steps[n], Due(lists[0], p), lists[0][p].fn);
    OneExpires(lists[n]);
  }

  /** No timer is asked for that would go off before, or with, the one followed. */
  ghost predicate Undisturbed(lists: seq<List>, steps: seq<Step>, p: nat, n: nat)
    requires IsRun(lists, steps) && n <= |steps| && p < |lists[0]|
  {
    forall i :: 0 <= i < n && steps[i].Add? && FateAt(lists, steps, Fate(p, 0, 0), i).place >= 0 ==>
      !(1 <= steps[i].t.jiffies <= Due(lists[i], FateAt(lists, steps, Fate(p, 0, 0), i).place))
  }

  /** A timer is on time if and only if no timer that is due no later is added while it waits. */
  lemma {:induction false} OnTimeIff(lists: seq<List>, steps: seq<Step>, p: nat, n: nat)
    requires IsRun(lists, steps) && n <= |steps| && p < |lists[0]|
    ensures FateAt(lists, steps, Fate(p, 0, 0), n).delay == 0 <==> Undisturbed(lists, steps, p, n)
  {
    if n == 0 {
    } else {
      OnTimeIff(lists, steps, p, n - 1);
      RunOnSchedule(lists, steps, p, n - 1);
      RunPositive(lists, steps, n - 1);
      assert IsStep(lists, steps, n - 1);
      var f := FateAt(lists, steps, Fate(p, 0, 0), n - 1);
      FollowStep(lists[n - 1], f, steps[n - 1], Due(lists[0], p), lists[0][p].fn);
    }
  }

  /** Two timers of five ticks asked for at once: the second goes off after five ticks, the first
      only after ten. */
  lemma EqualTimersLate(fn: nat, fn': nat)
    ensures Insert([Timer(5, fn)], Timer(5, fn')) == [Timer(5, fn'), Timer(5, fn)]
    ensures Due([Timer(5, fn'), Timer(5, fn)], 1) == 10
  {
    var list := [Timer(5, fn'), Timer(5, fn)];
    assert Due(list, 0) == Due(list, -1) + 5;
  }

  // ---------- the code ----------

  const TIME_REQUESTS: nat := 64
  const NULL: nat := 0

  /** The entries of the list that goes through the given slots. */
  ghost function Values(slots: seq<nat>, jiffies: seq<int>, fn: seq<nat>): (v: List)
    requires |jiffies| == |fn| && forall k :: 0 <= k < |slots| ==> slots[k] < |fn|
  {
    seq(|slots|, k requires 0 <= k < |slots| => Timer(jiffies[slots[k]], fn[slots[k]]))
  }

  /** Two neighbours change places. */
  lemma ExchangedValues(slots: seq<nat>, j: seq<int>, f: seq<nat>, i: nat)
    requires |j| == |f| && NoDup(slots) && (forall k :: 0 <= k < |slots| ==> slots[k] < |f|) && i + 1 < |slots|
    ensures var p, n, v := slots[i], slots[i + 1], Values(slots, j, f);
            Values(slots, j[p := j[n]][n := j[p] - j[n]], f[p := f[n]][n := f[p]])
            == v[i := v[i + 1]][i + 1 := v[i].(jiffies := v[i].jiffies - v[i + 1].jiffies)]
  {
  }

  class TimerTable {
    /** The fields of timer_list; a slot without a function is free. */
    const jiffies: array<int>
    const fn: array<nat>
    const next: array<int>
    var nextTimer: int
    ghost var slots: seq<nat>

    ghost predicate Linked()
      reads this, next
    {
      && jiffies.Length == fn.Length == next.Length == TIME_REQUESTS && jiffies != next
      && NoDup(slots) && (forall k :: 0 <= k < |slots| ==> slots[k] < TIME_REQUESTS)
      && Links(slots, next[..], nextTimer)
    }

    ghost predicate Valid()
      reads this, fn, next
    {
      Linked() && forall s: nat :: s < TIME_REQUESTS ==> (fn[s] != NULL <==> s in slots)
    }

    ghost function List(): List
      reads this, jiffies, fn, next
      requires Linked()
    {
      Values(slots, jiffies[..], fn[..])
    }

    constructor ()
      ensures Valid() && List() == [] && fresh(jiffies) && fresh(fn) && fresh(next)
    {
      jiffies, next := new int[TIME_REQUESTS](_ => 0), new int[TIME_REQUESTS](_ => NIL);
      fn := new nat[TIME_REQUESTS](_ => NULL);
      nextTimer, slots := NIL, [];
    }

    /** add_timer: the functions it calls itself, and the list it leaves.  A full table would be a
        panic. */
    method AddTimer(time: int, f: nat) returns (called: seq<nat>)
      requires Valid() && (time >= 1 && f != NULL ==> exists s :: 0 <= s < TIME_REQUESTS && fn[s] == NULL)
      modifies this`nextTimer, this`slots, jiffies, fn, next
      ensures Valid()
      ensures f == NULL ==> called == [] && List() == old(List())
      ensures var st := Add(Timer(time, f));
              f != NULL ==> called == Calls(old(List()), st) && List() == Next(old(List()), st)
    {
      called := [];
      if f == NULL {
        return;
      }
      if time <= 0 {
        called := [f];
      } else {
        Queue(time, f);
      }
    }

    method Queue(time: int, f: nat)
      requires Valid() && time >= 1 && f != NULL && exists s :: 0 <= s < TIME_REQUESTS && fn[s] == NULL
      modifies this`nextTimer, this`slots, jiffies, fn, next
      ensures Valid() && List() == Insert(old(List()), Timer(time, f))
    {
      var p := FreeSlot();
      ghost var was, v := slots, List();
      assert p !in was;
      fn[p], jiffies[p] := f, time;
      next[p] := nextTimer;
      nextTimer := p;
      slots := [p] + slots;
      LinkFirst(was, old(next[..]), old(nextTimer), p);
      assert next[..] == old(next[..])[p := old(nextTimer)];
      assert List() == [Timer(time, f)] + v;
      Settle();
    }

    method FreeSlot() returns (p: nat)
      requires fn.Length == TIME_REQUESTS && exists s :: 0 <= s < TIME_REQUESTS && fn[s] == NULL
      ensures p < TIME_REQUESTS && fn[p] == NULL
    {
      p := 0;
      while fn[p] != NULL
        invariant p < TIME_REQUESTS && forall s :: 0 <= s < p ==> fn[s] != NULL
        decreases TIME_REQUESTS - p
      {
        p := p + 1;
      }
    }

    /** The loop of add_timer: the contents of the first entry move back along the list. */
    method Settle()
      requires Valid() && slots != []
      modifies jiffies, fn
      ensures Valid() && List() == Insert(old(List())[1..], old(List())[0])
    {
      var p: nat := nextTimer;
      ghost var i: nat := 0;
      ghost var goal := Insert(List()[1..], List()[0]);
      assert LinkAt(slots, next[..], 0);
      while next[p] != NIL && jiffies[next[p]] < jiffies[p]
        invariant Valid() && i < |slots| && p == slots[i] && LinkAt(slots, next[..], i)
        invariant Settling(goal, List(), i)
        decreases |slots| - i
      {
        var n: nat := next[p];
        ghost var v := List();
        assert LinkAt(slots, next[..], i + 1);
        Exchange(p, n, i);
        Swapped(v, List(), i);
        p := n;
        i := i + 1;
      }
      Settled(goal, List(), i);
    }

    method Exchange(p: nat, n: nat, ghost i: nat)
      requires Valid() && i + 1 < |slots| && p == slots[i] && n == slots[i + 1]
      modifies jiffies, fn
      ensures Valid()
      ensures var v := old(List());
              List() == v[i := v[i + 1]][i + 1 := v[i].(jiffies := v[i].jiffies - v[i + 1].jiffies)]
    {
      hide Values;
      ghost var j, f := jiffies[..], fn[..];
      assert p != n;
      jiffies[p] := jiffies[p] - jiffies[n];
      fn[p], fn[n] := fn[n], fn[p];
      jiffies[p], jiffies[n] := jiffies[n], jiffies[p];
      assert jiffies[..] == j[p := j[n]][n := j[p] - j[n]] && fn[..] == f[p := f[n]][n := f[p]];
      ExchangedValues(slots, j, f, i);
    }

    /** The timer part of do_timer: the functions that are called, in order. */
    method DoTimer() returns (fired: seq<nat>)
      requires Valid()
      modifies this`nextTimer, this`slots, jiffies, fn
      ensures Valid() && List() == Next(old(List()), Tick) && fired == Calls(old(List()), Tick)
    {
      fired := [];
      if nextTimer == NIL {
        return;
      }
      ghost var down := CountDown(List());
      jiffies[nextTimer] := jiffies[nextTimer] - 1;
      assert List() == down;
      FireNone(down);
      while nextTimer != NIL && jiffies[nextTimer] <= 0
        invariant Valid() && Firing(down, fired, List())
        decreases |slots|
      {
        FireHead(down, fired, List());
        var f := PopTimer();
        fired := fired + [f];
      }
      Fired(down, fired, List());
    }

    method PopTimer() returns (f: nat)
      requires Valid() && slots != []
      modifies this`nextTimer, this`slots, fn
      ensures Valid() && List() == old(List())[1..] && f == old(List())[0].fn && |slots| == |old(slots)| - 1
    {
      var p := nextTimer;
      UnlinkFirst(slots, next[..], nextTimer);
      f := fn[p];
      fn[p] := NULL;
      nextTimer := next[p];
      assert forall s: nat :: s in slots[1..] <==> s in slots && s != p by {
        assert slots == [slots[0]] + slots[1..];
      }
      slots := slots[1..];
      assert List() == old(List())[1..];
    }
  }

  /** Part way through the entries that go off: those called and those left. */
  ghost predicate Firing(down: List, fired: seq<nat>, list: List) {
    && |fired| <= |down| && list == down[|fired|..]
    && Expired(down) == |fired| + Expired(list) && Expiring(down) == fired + Expiring(list)
  }

  lemma FireNone(down: List)
    ensures Firing(down, [], down)
  {
    assert down[0..] == down && [] + Expiring(down) == Expiring(down);
  }

  lemma FireHead(down: List, fired: seq<nat>, list: List)
    requires Firing(down, fired, list) && list != [] && list[0].jiffies <= 0
    ensures Firing(down, fired + [list[0].fn], list[1..])
  {
    assert list[1..] == down[|fired| + 1..];
    assert fired + ([list[0].fn] + Expiring(list[1..])) == fired + [list[0].fn] + Expiring(list[1..]);
  }

  lemma Fired(down: List, fired: seq<nat>, list: List)
    requires Firing(down, fired, list) && (list == [] || list[0].jiffies > 0)
    ensures Expired(down) == |fired| && Expiring(down) == fired && list == down[Expired(down)..]
  {
    assert fired + [] == fired;
  }

  /** What is left of an insertion whose new entry is at index i. */
  ghost predicate Settling(goal: List, v: List, i: nat) {
    i < |v| && goal == v[..i] + Insert(v[i + 1..], v[i])
  }

  lemma Settled(goal: List, v: List, i: nat)
    requires Settling(goal, v, i) && (i + 1 < |v| ==> v[i + 1].jiffies >= v[i].jiffies)
    ensures goal == v
  {
    assert v == v[..i] + ([v[i]] + v[i + 1..]);
  }

  /** One exchange of contents is one step of the insertion. */
  lemma Swapped(v: List, v': List, i: nat)
    requires i + 1 < |v| == |v'| && v[i + 1].jiffies < v[i].jiffies
    requires v' == v[i := v[i + 1]][i + 1 := v[i].(jiffies := v[i].jiffies - v[i + 1].jiffies)]
    ensures forall goal :: Settling(goal, v, i) ==> Settling(goal, v', i + 1)
  {
    assert v[i + 1..][1..] == v'[i + 2..];
    assert v'[..i + 1] == v[..i] + [v[i + 1]];
  }
}
