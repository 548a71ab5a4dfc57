/** Lists threaded through arrays of pointers. */
module Lists {

  /** The null pointer. */
  const NIL: int := -1

  predicate NoDup(s: seq<nat>) {
    forall i, j :: 0 <= i < j < |s| ==> s[i] != s[j]
  }

  predicate LinkAt(q: seq<nat>, next: seq<int>, k: nat)
    requires k < |q|
  {
    q[k] < |next| && next[q[k]] == if k + 1 < |q| then q[k + 1] else NIL
  }

  /** The singly linked list that starts at head and goes through q. */
  ghost predicate Links(q: seq<nat>, next: seq<int>, head: int) {
    && head == (if q == [] then NIL else q[0])
    && forall k: nat :: k < |q| ==> LinkAt(q, next, k)
  }

  function InsertAfter<T>(q: seq<T>, p: nat, r: T): (t: seq<T>)
    requires p < |q|
    ensures |t| == |q| + 1
    ensures forall k :: 0 <= k <= |q| ==> t[k] == if k <= p then q[k] else if k == p + 1 then r else q[k - 1]
  {
    q[..p + 1] + [r] + q[p + 1..]
  }

  function RemoveAt<T>(s: seq<T>, p: nat): (r: seq<T>)
    requires p < |s|
    ensures |r| == |s| - 1 && forall k :: 0 <= k < |r| ==> r[k] == if k < p then s[k] else s[k + 1]
  {
    s[..p] + s[p + 1..]
  }

  lemma RemoveAtMembers(s: seq<nat>, p: nat, x: nat)
    requires p < |s| && NoDup(s)
    ensures x in RemoveAt(s, p) <==> x in s && x != s[p]
    ensures NoDup(RemoveAt(s, p))
  {
    var r := RemoveAt(s, p);
    if x in s && x != s[p] {
      var k :| 0 <= k < |s| && s[k] == x;
      assert r[if k < p then k else k - 1] == x;
    }
  }

  // ---------- one list ----------

  lemma LinkFirst(q: seq<nat>, next: seq<int>, head: int, s: nat)
    requires NoDup(q) && Links(q, next, head) && s < |next| && s !in q
    ensures Links([s] + q, next[s := head], s) && NoDup([s] + q)
  {
    var q', next' := [s] + q, next[s := head];
    forall k: nat | k < |q'| ensures LinkAt(q', next', k) {
      assert k > 0 ==> q'[k] == q[k - 1] && LinkAt(q, next, k - 1);
    }
  }

  lemma UnlinkFirst(q: seq<nat>, next: seq<int>, head: int)
    requires NoDup(q) && Links(q, next, head) && q != []
    ensures head == q[0] < |next| && Links(q[1..], next, next[q[0]]) && NoDup(q[1..]) && q[0] !in q[1..]
  {
    assert LinkAt(q, next, 0);
    var r := q[1..];
    forall k: nat | k < |r| ensures LinkAt(r, next, k) {
      assert LinkAt(q, next, k + 1);
    }
  }

  lemma LinkAfter(q: seq<nat>, next: seq<int>, head: int, p: nat, s: nat)
    requires NoDup(q) && Links(q, next, head) && p < |q| && s < |next| && s !in q
    ensures q[p] < |next|
    ensures Links(InsertAfter(q, p, s), next[s := next[q[p]]][q[p] := s], head)
  {
    assert LinkAt(q, next, p);
    var q', next' := InsertAfter(q, p, s), next[s := next[q[p]]][q[p] := s];
    forall k: nat | k < |q'| ensures LinkAt(q', next', k) {
      if k <= p {
        assert LinkAt(q, next, k);
      } else if k > p + 1 {
        assert LinkAt(q, next, k - 1);
      }
    }
  }

  lemma UnlinkAfter(q: seq<nat>, next: seq<int>, head: int, p: nat)
    requires NoDup(q) && Links(q, next, head) && p + 1 < |q|
    ensures q[p] < |next| && q[p + 1] < |next|
    ensures Links(RemoveAt(q, p + 1), next[q[p] := next[q[p + 1]]], head)
  {
    assert LinkAt(q, next, p) && LinkAt(q, next, p + 1);
    var q', next' := RemoveAt(q, p + 1), next[q[p] := next[q[p + 1]]];
    forall k: nat | k < |q'| ensures LinkAt(q', next', k) {
      assert LinkAt(q, next, if k <= p then k else k + 1);
    }
  }

  lemma OtherLinks(q: seq<nat>, next: seq<int>, head: int, i: nat, v: int)
    requires Links(q, next, head) && i < |next| && i !in q
    ensures Links(q, next[i := v], head)
  {
    var next' := next[i := v];
    forall k: nat | k < |q| ensures LinkAt(q, next', k) {
      assert LinkAt(q, next, k) && q[k] in q;
    }
  }

  lemma InsertNoDup(q: seq<nat>, p: nat, s: nat)
    requires NoDup(q) && p < |q| && s !in q
    ensures NoDup(InsertAfter(q, p, s))
    ensures forall x :: x in InsertAfter(q, p, s) <==> x in q || x == s
  {
    var t := InsertAfter(q, p, s);
    assert t[p + 1] == s;
    forall x | x in q ensures x in t {
      var k :| 0 <= k < |q| && q[k] == x;
      assert t[if k <= p then k else k + 1] == x;
    }
  }

  // ---------- several lists through one array ----------

  /** Each node is in at most the list that `owner` names. */
  ghost predicate Table(lists: seq<seq<nat>>, owner: seq<int>) {
    && (forall m :: 0 <= m < |lists| ==> NoDup(lists[m]))
    && (forall m, k :: 0 <= m < |lists| && 0 <= k < |lists[m]| ==> lists[m][k] < |owner|)
    && (forall m, s: nat :: 0 <= m < |lists| && s < |owner| ==> (s in lists[m] <==> owner[s] == m))
  }

  ghost predicate AllLinks(lists: seq<seq<nat>>, next: seq<int>, heads: seq<int>) {
    |lists| == |heads| && forall m :: 0 <= m < |lists| ==> Links(lists[m], next, heads[m])
  }

  lemma PushFront(lists: seq<seq<nat>>, owner: seq<int>, next: seq<int>, heads: seq<int>, m: nat, s: nat)
    requires Table(lists, owner) && AllLinks(lists, next, heads) && |next| == |owner|
    requires m < |lists| && s < |owner| && owner[s] == NIL
    ensures Table(lists[m := [s] + lists[m]], owner[s := m])
    ensures AllLinks(lists[m := [s] + lists[m]], next[s := heads[m]], heads[m := s])
  {
    var lists', next', heads' := lists[m := [s] + lists[m]], next[s := heads[m]], heads[m := s];
    forall x | 0 <= x < |lists| ensures NoDup(lists'[x]) && Links(lists'[x], next', heads'[x]) {
      assert s !in lists[x];
      if x == m {
        LinkFirst(lists[m], next, heads[m], s);
      } else {
        OtherLinks(lists[x], next, heads[x], s, heads[m]);
      }
    }
  }

  lemma PutAfter(lists: seq<seq<nat>>, owner: seq<int>, next: seq<int>, heads: seq<int>, m: nat, p: nat, s: nat)
    requires Table(lists, owner) && AllLinks(lists, next, heads) && |next| == |owner|
    requires m < |lists| && s < |owner| && owner[s] == NIL && p < |lists[m]|
    ensures Table(lists[m := InsertAfter(lists[m], p, s)], owner[s := m])
    ensures AllLinks(lists[m := InsertAfter(lists[m], p, s)], next[s := next[lists[m][p]]][lists[m][p] := s], heads)
  {
    var q := lists[m];
    var tmp := q[p];
    assert tmp in q && s !in q;
    InsertNoDup(q, p, s);
    assert owner[tmp] == m;
    var lists', next' := lists[m := InsertAfter(q, p, s)], next[s := next[tmp]][tmp := s];
    forall x | 0 <= x < |lists| ensures Links(lists'[x], next', heads[x]) {
      if x == m {
        LinkAfter(q, next, heads[m], p, s);
      } else {
        assert s !in lists[x] && tmp !in lists[x];
        OtherLinks(lists[x], next, heads[x], s, next[tmp]);
        OtherLinks(lists[x], next[s := next[tmp]], heads[x], tmp, s);
      }
    }
  }

  /** Node p of list m leaves it: who else is in which list. */
  lemma RemovedFrom(lists: seq<seq<nat>>, owner: seq<int>, m: nat, p: nat)
    requires Table(lists, owner) && m < |lists| && p < |lists[m]|
    ensures lists[m][p] < |owner| && owner[lists[m][p]] == m
    ensures Table(lists[m := RemoveAt(lists[m], p)], owner[lists[m][p] := NIL])
  {
    var s := lists[m][p];
    assert s in lists[m];
    var lists', owner' := lists[m := RemoveAt(lists[m], p)], owner[s := NIL];
    RemoveAtMembers(lists[m], p, s);
    forall x, t: nat | 0 <= x < |lists| && t < |owner| ensures t in lists'[x] <==> owner'[t] == x {
      assert t in lists[x] <==> owner[t] == x;
      RemoveAtMembers(lists[m], p, t);
    }
  }

  lemma PopFront(lists: seq<seq<nat>>, owner: seq<int>, next: seq<int>, heads: seq<int>, m: nat)
    requires Table(lists, owner) && AllLinks(lists, next, heads) && m < |lists| && lists[m] != []
    ensures var s := lists[m][0];
            && heads[m] == s < |owner| && s < |next| && owner[s] == m
            && Table(lists[m := lists[m][1..]], owner[s := NIL])
            && AllLinks(lists[m := lists[m][1..]], next, heads[m := next[s]])
  {
    RemovedFrom(lists, owner, m, 0);
    UnlinkFirst(lists[m], next, heads[m]);
    assert RemoveAt(lists[m], 0) == lists[m][1..];
  }

  lemma DropAfter(lists: seq<seq<nat>>, owner: seq<int>, next: seq<int>, heads: seq<int>, m: nat, p: nat)
    requires Table(lists, owner) && AllLinks(lists, next, heads) && m < |lists| && p + 1 < |lists[m]|
    ensures var prev, s := lists[m][p], lists[m][p + 1];
            && prev < |next| && s < |next| && s < |owner|
            && Table(lists[m := RemoveAt(lists[m], p + 1)], owner[s := NIL])
            && AllLinks(lists[m := RemoveAt(lists[m], p + 1)], next[prev := next[s]], heads)
  {
    RemovedFrom(lists, owner, m, p + 1);
    RemovedFrom(lists, owner, m, p);
    var prev, s := lists[m][p], lists[m][p + 1];
    UnlinkAfter(lists[m], next, heads[m], p);
    var lists', next' := lists[m := RemoveAt(lists[m], p + 1)], next[prev := next[s]];
    forall x | 0 <= x < |lists| ensures Links(lists'[x], next', heads[x]) {
      if x != m {
        assert prev !in lists[x];
        OtherLinks(lists[x], next, heads[x], prev, next[s]);
      }
    }
  }
}
