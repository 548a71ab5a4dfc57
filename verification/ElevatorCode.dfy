/** The request table of ll_rw_blk.c: thirty-two slots linked into one queue per block device. */
module ElevatorCode {
  import opened Lists
  import opened Elevator

  const NR_REQUEST: nat := 32
  const NR_BLK_DEV: nat := 7
  const READ: nat := 0
  const WRITE: nat := 1

  // ---------- the table ----------

  /** The requests of a queue, in order. */
  ghost function KeysOf(reqs: seq<Req>, q: seq<nat>): (ks: seq<Req>)
    requires forall k :: 0 <= k < |q| ==> q[k] < |reqs|
  {
    seq(|q|, k requires 0 <= k < |q| => reqs[q[k]])
  }

  /** Slots in use are exactly those in a queue, and writes hold only the low two thirds. */
  ghost predicate Slots(reqs: seq<Req>, owner: seq<int>) {
    && |reqs| == |owner| == NR_REQUEST
    && forall s :: 0 <= s < NR_REQUEST ==>
         && (if reqs[s].dev >= 0 then 0 <= owner[s] < NR_BLK_DEV else owner[s] == NIL)
         && (reqs[s].dev >= 0 && reqs[s].cmd == WRITE ==> s < NR_REQUEST * 2 / 3)
  }

  class RequestTable {
    /** Command, device and sector of each slot; the device is -1 in a free one. */
    const reqs: array<Req>
    const next: array<int>
    /** blk_dev[].current_request. */
    const current: array<int>
    ghost var queues: seq<seq<nat>>
    /** The device whose queue each slot is in. */
    ghost var owner: seq<int>

    ghost predicate Linked()
      reads this, next, current
    {
      && reqs.Length == next.Length == NR_REQUEST && current.Length == NR_BLK_DEV && next != current
      && |queues| == NR_BLK_DEV && |owner| == NR_REQUEST
      && Table(queues, owner) && AllLinks(queues, next[..], current[..])
    }

    ghost predicate Valid()
      reads this, reqs, next, current
    {
      Linked() && Slots(reqs[..], owner)
    }

    ghost function Keys(m: nat): (ks: seq<Req>)
      reads this, reqs, next, current
      requires Linked() && m < NR_BLK_DEV
    {
      KeysOf(reqs[..], queues[m])
    }

    constructor ()
      ensures Valid() && fresh(reqs) && fresh(next) && fresh(current)
      ensures queues == seq(NR_BLK_DEV, _ => [])
    {
      reqs, next := new Req[NR_REQUEST](_ => Req(0, -1, 0)), new int[NR_REQUEST](_ => NIL);
      current := new int[NR_BLK_DEV](_ => NIL);
      queues, owner := seq(NR_BLK_DEV, _ => []), seq(NR_REQUEST, _ => NIL);
    }

    /** The slot search of make_request: the highest free slot below the limit for the command. */
    method FindSlot(rw: nat) returns (s: int)
      requires reqs.Length == NR_REQUEST
      ensures var limit := if rw == READ then NR_REQUEST else NR_REQUEST * 2 / 3;
              && NIL <= s < limit && (s != NIL ==> reqs[s].dev < 0) && forall k :: s < k < limit ==> reqs[k].dev >= 0
    {
      s := (if rw == READ then NR_REQUEST else NR_REQUEST * 2 / 3) - 1;
      while s >= 0 && reqs[s].dev >= 0
        invariant NIL <= s < if rw == READ then NR_REQUEST else NR_REQUEST * 2 / 3
        invariant forall k :: s < k < (if rw == READ then NR_REQUEST else NR_REQUEST * 2 / 3) ==> reqs[k].dev >= 0
      {
        s := s - 1;
      }
    }

    /** The search of add_request along a queue that is not empty. */
    method FindPlace(m: nat, s: nat) returns (tmp: nat)
      requires Linked() && m < NR_BLK_DEV && s < NR_REQUEST && queues[m] != []
      ensures tmp == queues[m][Place(Keys(m), reqs[s], 0)]
    {
      ghost var q, ks := queues[m], Keys(m);
      assert Links(q, next[..], current[m]) && LinkAt(q, next[..], 0);
      tmp := current[m];
      ghost var i: nat := 0;
      while next[tmp] != NIL
        invariant i < |q| && tmp == q[i] && LinkAt(q, next[..], i)
        invariant Place(ks, reqs[s], 0) == Place(ks, reqs[s], i)
        decreases |q| - i
      {
        var r, n := reqs[s], next[tmp];
        assert ks[i] == reqs[tmp] && ks[i + 1] == reqs[n];
        assert Fits(ks, r, i) == ((InOrder(reqs[tmp], r) || !InOrder(reqs[tmp], reqs[n])) && InOrder(r, reqs[n]));
        if (InOrder(reqs[tmp], r) || !InOrder(reqs[tmp], reqs[n])) && InOrder(r, reqs[n]) {
          return;
        }
        assert LinkAt(q, next[..], i + 1);
        tmp := n;
        i := i + 1;
      }
    }

    /** add_request: link slot s, which is filled and in no queue, into the queue of device m. */
    method AddRequest(m: nat, s: nat)
      requires Linked() && m < NR_BLK_DEV && s < NR_REQUEST && owner[s] == NIL
      modifies this`queues, this`owner, next, current
      ensures Linked() && owner == old(owner)[s := m]
      ensures queues == old(queues)[m := if old(queues[m]) == [] then [s]
                                         else InsertAfter(old(queues[m]), Place(old(Keys(m)), reqs[s], 0), s)]
    {
      assert Links(queues[m], next[..], current[m]);
      if current[m] == NIL {
        PutFirst(m, s);
      } else {
        var tmp := FindPlace(m, s);
        PutAfter(m, Place(Keys(m), reqs[s], 0), tmp, s);
      }
    }

    method PutFirst(m: nat, s: nat)
      requires Linked() && m < NR_BLK_DEV && s < NR_REQUEST && owner[s] == NIL && queues[m] == []
      modifies this`queues, this`owner, next, current
      ensures Linked() && owner == old(owner)[s := m] && queues == old(queues)[m := [s]]
    {
      PushFront(queues, owner, next[..], current[..], m, s);
      assert Links(queues[m], next[..], current[m]) && [s] + [] == [s];
      next[s] := NIL;
      current[m] := s;
      queues, owner := queues[m := [s]], owner[s := m];
      assert next[..] == old(next[..])[s := NIL] && current[..] == old(current[..])[m := s];
    }

    method PutAfter(m: nat, ghost p: nat, tmp: nat, s: nat)
      requires Linked() && m < NR_BLK_DEV && s < NR_REQUEST && owner[s] == NIL
      requires p < |queues[m]| && tmp == queues[m][p]
      modifies this`queues, this`owner, next
      ensures Linked() && owner == old(owner)[s := m] && queues == old(queues)[m := InsertAfter(old(queues[m]), p, s)]
    {
      Lists.PutAfter(queues, owner, next[..], current[..], m, p, s);
      assert tmp in queues[m] && s !in queues[m];
      next[s] := next[tmp];
      next[tmp] := s;
      queues, owner := queues[m := InsertAfter(queues[m], p, s)], owner[s := m];
      assert next[..] == old(next[..])[s := old(next[tmp])][tmp := s];
    }

    /** The end of make_request: take a slot, fill it and queue it, or find none. */
    method MakeRequest(m: nat, rw: nat, d: nat, block: nat) returns (ok: bool)
      requires Valid() && m < NR_BLK_DEV && (rw == READ || rw == WRITE)
      modifies this`queues, this`owner, reqs, next, current
      ensures Valid()
      ensures !ok ==> queues == old(queues) && reqs[..] == old(reqs[..])
      ensures !ok ==> forall k :: 0 <= k < (if rw == READ then NR_REQUEST else NR_REQUEST * 2 / 3) ==> reqs[k].dev >= 0
      ensures ok ==> forall x: nat :: x < NR_BLK_DEV ==>
        Keys(x) == if x == m then Add(old(Keys(m)), Req(rw, d, block * 2)) else old(Keys(x))
    {
      var s := FindSlot(rw);
      if s == NIL {
        return false;
      }
      ok := true;
      ghost var was, qs := reqs[..], queues;
      assert owner[s] == NIL;
      UnqueuedSlot(was, qs, owner, s, Req(rw, d, block * 2));
      reqs[s] := Req(rw, d, block * 2);
      assert reqs[..] == was[s := Req(rw, d, block * 2)];
      AddRequest(m, s);
      forall x: nat | x < NR_BLK_DEV
        ensures Keys(x) == if x == m then Add(old(Keys(m)), Req(rw, d, block * 2)) else old(Keys(x))
      {
        if x == m && qs[m] != [] {
          KeysInsert(reqs[..], qs[m], Place(KeysOf(reqs[..], qs[m]), reqs[s], 0), s);
        }
      }
    }

    /** end_request: the head of the queue is done and its slot is free. */
    method EndRequest(m: nat)
      requires Valid() && m < NR_BLK_DEV && queues[m] != []
      modifies this`queues, this`owner, reqs, current
      ensures Valid()
      ensures forall x: nat :: x < NR_BLK_DEV ==> Keys(x) == if x == m then old(Keys(m))[1..] else old(Keys(x))
    {
      PopFront(queues, owner, next[..], current[..], m);
      ghost var was, qs := reqs[..], queues;
      var s := current[m];
      reqs[s] := reqs[s].(dev := -1);
      current[m] := next[s];
      queues, owner := queues[m := queues[m][1..]], owner[s := NIL];
      assert current[..] == old(current[..])[m := next[s]] && reqs[..] == was[s := was[s].(dev := -1)];
      UnqueuedSlot(was, queues, owner, s, reqs[s]);
    }
  }

  /** A slot outside every queue can be filled without changing any queue. */
  lemma UnqueuedSlot(reqs: seq<Req>, queues: seq<seq<nat>>, owner: seq<int>, s: nat, r: Req)
    requires Table(queues, owner) && |queues| == NR_BLK_DEV && |reqs| == |owner| == NR_REQUEST && s < NR_REQUEST
    requires owner[s] == NIL
    ensures forall x :: 0 <= x < NR_BLK_DEV ==> KeysOf(reqs[s := r], queues[x]) == KeysOf(reqs, queues[x])
  {
    forall x | 0 <= x < NR_BLK_DEV ensures KeysOf(reqs[s := r], queues[x]) == KeysOf(reqs, queues[x]) {
      assert s !in queues[x];
    }
  }

  lemma KeysInsert(reqs: seq<Req>, q: seq<nat>, p: nat, s: nat)
    requires (forall k :: 0 <= k < |q| ==> q[k] < |reqs|) && p < |q| && s < |reqs|
    ensures KeysOf(reqs, InsertAfter(q, p, s)) == InsertAfter(KeysOf(reqs, q), p, reqs[s])
  {
  }
}
