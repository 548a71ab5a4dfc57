/** malloc and free_s on their pointers (lib/malloc.c): free objects are linked through their own
    first words, bucket descriptors through their `next` fields.
 */
module MallocCode {
  import opened Lists
  import opened Malloc

  /** The list of spare descriptors, free_bucket_desc, comes after the chains of bucket_dir. */
  const SPARE: nat := 9

  /** The number of descriptors in a page. */
  const DESCS: nat := 256

  datatype Desc = Desc(page: nat, freeptr: nat, refcnt: nat, size: nat)

  /** The first words of objects, the descriptors with their links, and the heads of the lists. */
  datatype Memory = Memory(word: map<nat, nat>, descs: seq<Desc>, next: seq<int>, heads: seq<int>)

  /** Which descriptors are in which list, and which objects of each page are free. */
  datatype View = View(lists: seq<seq<nat>>, owner: seq<int>, free: seq<seq<nat>>)

  // ---------- free objects of one page ----------

  function Ptr(b: Bucket, j: nat): nat {
    if j < |b.free| then Addr(b, b.free[j]) else 0
  }

  predicate WordAt(word: map<nat, nat>, b: Bucket, j: nat)
    requires j < |b.free|
  {
    Ptr(b, j) in word && word[Ptr(b, j)] == Ptr(b, j + 1)
  }

  ghost predicate FreeLinked(word: map<nat, nat>, b: Bucket, freeptr: nat) {
    freeptr == Ptr(b, 0) && forall j: nat :: j < |b.free| ==> WordAt(word, b, j)
  }

  lemma TakeLinked(word: map<nat, nat>, b: Bucket, freeptr: nat)
    requires FreeLinked(word, b, freeptr) && b.free != []
    ensures freeptr in word && FreeLinked(word, Take(b), word[freeptr])
  {
    assert WordAt(word, b, 0);
    var t := Take(b);
    forall j: nat | j < |t.free| ensures WordAt(word, t, j) {
      assert WordAt(word, b, j + 1) && Ptr(t, j) == Ptr(b, j + 1) && Ptr(t, j + 1) == Ptr(b, j + 2);
    }
  }

  /** A store outside the free objects of a page leaves their links alone. */
  lemma OtherLinked(word: map<nat, nat>, b: Bucket, freeptr: nat, a: nat, v: nat)
    requires FreeLinked(word, b, freeptr) && forall j: nat :: j < |b.free| ==> Ptr(b, j) != a
    ensures FreeLinked(word[a := v], b, freeptr)
  {
    var word' := word[a := v];
    forall j: nat | j < |b.free| ensures WordAt(word', b, j) {
      assert WordAt(word, b, j);
    }
  }

  lemma GiveLinked(word: map<nat, nat>, b: Bucket, freeptr: nat, k: nat)
    requires FreeLinked(word, b, freeptr) && b.size > 0 && k !in b.free
    ensures FreeLinked(word[Addr(b, k) := freeptr], b.(free := [k] + b.free), Addr(b, k))
  {
    var b', word' := b.(free := [k] + b.free), word[Addr(b, k) := freeptr];
    forall j: nat | j < |b.free| ensures Ptr(b, j) != Addr(b, k) {
      if b.free[j] < k {
        SameSlot(b.size, b.free[j], k);
      } else {
        SameSlot(b.size, k, b.free[j]);
      }
    }
    forall j: nat | j < |b'.free| ensures WordAt(word', b', j) {
      assert Ptr(b', j + 1) == Ptr(b, j);
      assert j > 0 ==> WordAt(word, b, j - 1) && Ptr(b', j) == Ptr(b, j - 1);
    }
  }

  /** Free objects lie in their page. */
  lemma PtrInPage(b: Bucket, size: nat, j: nat)
    requires BucketShape(b, size) && size in SIZES && j < |b.free|
    ensures b.page <= Ptr(b, j) < b.page + PAGE_SIZE
  {
    var c :| 0 <= c < |SIZES| && SIZES[c] == size;
    SizesOk(c);
    InPage(b.page, b.free[j], size, Objects(size));
  }

  // ---------- all pages ----------

  ghost function BucketOf(m: Memory, v: View, d: nat): Bucket
    requires d < |m.descs| && d < |v.free|
  {
    Bucket(m.descs[d].page, m.descs[d].size, v.free[d])
  }

  ghost predicate Shape(m: Memory, v: View) {
    && |v.lists| == |m.heads| == |SIZES| + 1 && |m.descs| == |m.next| == |v.owner| == |v.free|
    && Table(v.lists, v.owner) && AllLinks(v.lists, m.next, m.heads)
    && forall d: nat :: d < |m.descs| ==> 0 <= v.owner[d] <= SPARE
  }

  predicate InUse(v: View, d: nat) {
    d < |v.owner| && 0 <= v.owner[d] < |SIZES|
  }

  /** A descriptor in a chain describes a page: size, links and count are right. */
  ghost predicate DescOk(m: Memory, v: View, d: nat)
    requires Shape(m, v) && InUse(v, d)
  {
    var b := BucketOf(m, v, d);
    && BucketShape(b, SIZES[v.owner[d]]) && FreeLinked(m.word, b, m.descs[d].freeptr)
    && m.descs[d].refcnt == Objects(b.size) - |b.free|
  }

  ghost predicate Linked(m: Memory, v: View) {
    && Shape(m, v) && (forall d: nat :: InUse(v, d) ==> DescOk(m, v, d))
    && forall d: nat, d': nat :: InUse(v, d) && InUse(v, d') && m.descs[d].page == m.descs[d'].page ==> d == d'
  }

  /** The chains of pages the pointers spell out. */
  ghost function Chain(m: Memory, v: View, list: seq<nat>): (r: seq<Bucket>)
    requires |m.descs| == |v.free| && forall i :: 0 <= i < |list| ==> list[i] < |m.descs|
    ensures |r| == |list| && forall i :: 0 <= i < |list| ==> r[i] == BucketOf(m, v, list[i])
  {
    seq(|list|, i requires 0 <= i < |list| => BucketOf(m, v, list[i]))
  }

  ghost function HeapOf(m: Memory, v: View): (h: Heap)
    requires Shape(m, v)
    ensures |h.chains| == |SIZES| && forall c :: 0 <= c < |SIZES| ==> h.chains[c] == Chain(m, v, v.lists[c])
  {
    Heap(seq(|SIZES|, c requires 0 <= c < |SIZES| => Chain(m, v, v.lists[c])))
  }

  /** Bucket i of chain c is described by d. */
  lemma DescAt(m: Memory, v: View, c: nat, i: nat)
    requires Shape(m, v) && c < |SIZES| && i < |v.lists[c]|
    ensures v.lists[c][i] < |m.descs| && InUse(v, v.lists[c][i]) && v.owner[v.lists[c][i]] == c
    ensures HeapOf(m, v).chains[c][i] == BucketOf(m, v, v.lists[c][i])
  {
    assert v.lists[c][i] in v.lists[c];
  }

  /** Stores into one page leave the free objects of another alone. */
  lemma OtherPage(m: Memory, v: View, d: nat, d': nat, a: nat, x: nat)
    requires Linked(m, v) && InUse(v, d) && InUse(v, d') && d != d'
    requires m.descs[d].page <= a < m.descs[d].page + PAGE_SIZE
    ensures FreeLinked(m.word[a := x], BucketOf(m, v, d'), m.descs[d'].freeptr)
  {
    assert DescOk(m, v, d) && DescOk(m, v, d');
    var b := BucketOf(m, v, d');
    PagesApart(m.descs[d].page, b.page);
    forall j: nat | j < |b.free| ensures Ptr(b, j) != a {
      PtrInPage(b, SIZES[v.owner[d']], j);
    }
    OtherLinked(m.word, b, m.descs[d'].freeptr, a, x);
  }

  /** One page changes: its descriptor, its free objects and one word in it. */
  lemma Changed(m: Memory, v: View, d: nat, c: nat, i: nat, desc: Desc, free: seq<nat>, a: nat, x: nat)
    requires Linked(m, v) && c < |SIZES| && i < |v.lists[c]| && v.lists[c][i] == d
    requires d < |m.descs| && desc.page == m.descs[d].page <= a < desc.page + PAGE_SIZE
    requires var b := Bucket(desc.page, desc.size, free);
             && BucketShape(b, SIZES[c]) && FreeLinked(m.word[a := x], b, desc.freeptr)
             && desc.refcnt == Objects(desc.size) - |free|
    ensures var m', v' := m.(word := m.word[a := x], descs := m.descs[d := desc]), v.(free := v.free[d := free]);
            && Linked(m', v')
            && var chains := HeapOf(m, v).chains;
               HeapOf(m', v') == Heap(chains[c := chains[c][i := Bucket(desc.page, desc.size, free)]])
  {
    var m', v' := m.(word := m.word[a := x], descs := m.descs[d := desc]), v.(free := v.free[d := free]);
    DescAt(m, v, c, i);
    forall y: nat | InUse(v', y) ensures DescOk(m', v', y) {
      assert DescOk(m, v, y);
      if y != d {
        OtherPage(m, v, d, y, a, x);
      }
    }
    var h, h' := HeapOf(m, v), HeapOf(m', v');
    forall x: nat | x < |SIZES|
      ensures h'.chains[x] == if x == c then h.chains[c][i := Bucket(desc.page, desc.size, free)] else h.chains[x]
    {
      forall y | 0 <= y < |v.lists[x]| && (x != c || y != i) ensures v.lists[x][y] != d {
        assert v.lists[x][y] in v.lists[x];
      }
    }
  }

  // ---------- descriptors change lists ----------

  /** Descriptor d moves, without its page being touched: chains that do not have it stay. */
  lemma ChainsSame(m: Memory, v: View, m': Memory, v': View, c: nat)
    requires Shape(m, v) && Shape(m', v') && c < |SIZES| && v'.lists[c] == v.lists[c]
    requires |m'.descs| >= |m.descs|
    requires forall d: nat :: d < |m.descs| && v.owner[d] == c ==> BucketOf(m', v', d) == BucketOf(m, v, d)
    ensures HeapOf(m', v').chains[c] == HeapOf(m, v).chains[c]
  {
    forall i | 0 <= i < |v.lists[c]| ensures BucketOf(m', v', v.lists[c][i]) == BucketOf(m, v, v.lists[c][i]) {
      DescAt(m, v, c, i);
    }
  }

  /** A page that is given back: its descriptor goes from its chain to the spare ones. */
  lemma Released(m: Memory, v: View, c: nat, i: nat, next: seq<int>, heads: seq<int>)
    requires Linked(m, v) && c < |SIZES| && i < |v.lists[c]| && |next| == |m.next|
    requires AllLinks(v.lists[c := RemoveAt(v.lists[c], i)], next, heads)
    requires Table(v.lists[c := RemoveAt(v.lists[c], i)], v.owner[v.lists[c][i] := NIL])
    ensures var d := v.lists[c][i];
            var m' := m.(next := next[d := heads[SPARE]], heads := heads[SPARE := d]);
            var v' := v.(lists := v.lists[c := RemoveAt(v.lists[c], i)][SPARE := [d] + v.lists[SPARE]],
                         owner := v.owner[d := SPARE]);
            && Linked(m', v') && HeapOf(m', v') == Without(HeapOf(m, v), c, i)
  {
    hide Table;
    DescAt(m, v, c, i);
    var d := v.lists[c][i];
    var lists := v.lists[c := RemoveAt(v.lists[c], i)];
    PushFront(lists, v.owner[d := NIL], next, heads, SPARE, d);
    var m' := m.(next := next[d := heads[SPARE]], heads := heads[SPARE := d]);
    var v' := v.(lists := lists[SPARE := [d] + lists[SPARE]], owner := v.owner[d := SPARE]);
    assert v.owner[d := NIL][d := SPARE] == v.owner[d := SPARE];
    forall y: nat | InUse(v', y) ensures DescOk(m', v', y) {
      assert DescOk(m, v, y);
    }
    var h, h' := HeapOf(m, v), HeapOf(m', v');
    assert h'.chains[c] == h.chains[c][..i] + h.chains[c][i + 1..];
    forall x: nat | x < |SIZES| && x != c ensures h'.chains[x] == h.chains[x] {
      ChainsSame(m, v, m', v', x);
    }
    assert h'.chains == Without(h, c, i).chains;
  }

  /** The words outside a page are as they were. */
  ghost predicate OnlyPage(word: map<nat, nat>, word': map<nat, nat>, page: nat) {
    forall a :: a in word && !(page <= a < page + PAGE_SIZE) ==> a in word' && word'[a] == word[a]
  }

  lemma OnlyPageLinked(word: map<nat, nat>, word': map<nat, nat>, page: nat, b: Bucket, size: nat, freeptr: nat)
    requires OnlyPage(word, word', page) && BucketShape(b, size) && size in SIZES && FreeLinked(word, b, freeptr)
    requires page % PAGE_SIZE == 0 && b.page != page
    ensures FreeLinked(word', b, freeptr)
  {
    PagesApart(page, b.page);
    forall j: nat | j < |b.free| ensures WordAt(word', b, j) {
      PtrInPage(b, size, j);
      assert WordAt(word, b, j);
    }
  }

  /** Memory and view after descriptor d, the first spare one, took a new page into chain c. */
  ghost predicate Joined(m: Memory, v: View, m': Memory, v': View, c: nat, d: nat, page: nat, word: map<nat, nat>) {
    && |v.lists| == |m.heads| == SPARE + 1 && c < |SIZES| && SIZES[c] > 0
    && |m.descs| == |m.next| == |v.owner| == |v.free| && d < |m.descs|
    && v.lists[SPARE] != [] && d == v.lists[SPARE][0] && m.heads[SPARE] == d
    && m' == Memory(word, m.descs[d := Desc(page, page, 0, SIZES[c])], m.next[d := m.heads[c]],
                    m.heads[SPARE := m.next[d]][c := d])
    && v' == View(v.lists[SPARE := v.lists[SPARE][1..]][c := [d] + v.lists[c]], v.owner[d := c],
                  v.free[d := NewBucket(page, SIZES[c]).free])
  }

  lemma JoinedShape(m: Memory, v: View, m': Memory, v': View, c: nat, d: nat, page: nat, word: map<nat, nat>)
    requires Shape(m, v) && Joined(m, v, m', v', c, d, page, word)
    ensures Shape(m', v') && v.owner[d] == SPARE
  {
    PopFront(v.lists, v.owner, m.next, m.heads, SPARE);
    var lists, heads := v.lists[SPARE := v.lists[SPARE][1..]], m.heads[SPARE := m.next[d]];
    PushFront(lists, v.owner[d := NIL], m.next, heads, c, d);
    assert v.owner[d := NIL][d := c] == v.owner[d := c];
  }

  lemma JoinedDescs(m: Memory, v: View, m': Memory, v': View, c: nat, d: nat, page: nat, word: map<nat, nat>)
    requires Linked(m, v) && Joined(m, v, m', v', c, d, page, word) && Shape(m', v') && v.owner[d] == SPARE
    requires page % PAGE_SIZE == 0 && page > 0 && OnlyPage(m.word, word, page)
    requires (forall y: nat :: InUse(v, y) ==> m.descs[y].page != page)
    requires FreeLinked(word, NewBucket(page, SIZES[c]), page)
    ensures Linked(m', v')
  {
    SizesOk(c);
    forall y: nat | InUse(v', y) ensures DescOk(m', v', y) {
      if y == d {
        assert BucketOf(m', v', d) == NewBucket(page, SIZES[c]);
      } else {
        assert InUse(v, y) && DescOk(m, v, y) && BucketOf(m', v', y) == BucketOf(m, v, y);
        OnlyPageLinked(m.word, word, page, BucketOf(m, v, y), SIZES[v.owner[y]], m.descs[y].freeptr);
      }
    }
  }

  lemma JoinedHeap(m: Memory, v: View, m': Memory, v': View, c: nat, d: nat, page: nat, word: map<nat, nat>)
    requires Shape(m, v) && Joined(m, v, m', v', c, d, page, word) && Shape(m', v') && v.owner[d] == SPARE
    ensures HeapOf(m', v') == Heap(HeapOf(m, v).chains[c := [NewBucket(page, SIZES[c])] + HeapOf(m, v).chains[c]])
  {
    var b := NewBucket(page, SIZES[c]);
    var h, h' := HeapOf(m, v), HeapOf(m', v');
    forall x: nat | x < |SIZES| ensures h'.chains[x] == if x == c then [b] + h.chains[c] else h.chains[x] {
      AddedChain(m, v, m', v', d, x);
      if x == c {
        assert v'.lists[c] == [d] + v.lists[c] && BucketOf(m', v', d) == b;
      }
    }
  }

  /** A spare descriptor takes a new page into chain c. */
  lemma Added(m: Memory, v: View, m': Memory, v': View, c: nat, d: nat, page: nat, word: map<nat, nat>)
    requires Linked(m, v) && Joined(m, v, m', v', c, d, page, word) && page % PAGE_SIZE == 0 && page > 0
    requires (forall y: nat :: InUse(v, y) ==> m.descs[y].page != page) && OnlyPage(m.word, word, page)
    requires FreeLinked(word, NewBucket(page, SIZES[c]), page)
    ensures Linked(m', v')
    ensures HeapOf(m', v') == Heap(HeapOf(m, v).chains[c := [NewBucket(page, SIZES[c])] + HeapOf(m, v).chains[c]])
  {
    JoinedShape(m, v, m', v', c, d, page, word);
    JoinedDescs(m, v, m', v', c, d, page, word);
    JoinedHeap(m, v, m', v', c, d, page, word);
  }

  /** A chain whose descriptors are not d. */
  lemma AddedChain(m: Memory, v: View, m': Memory, v': View, d: nat, x: nat)
    requires Shape(m, v) && x < |SIZES| && d < |m.descs| && v.owner[d] == SPARE
    requires |m'.descs| == |m.descs| && |v'.free| == |v.free|
    requires forall y: nat :: y < |m.descs| && y != d ==> BucketOf(m', v', y) == BucketOf(m, v, y)
    ensures forall i :: 0 <= i < |v.lists[x]| ==>
              v.lists[x][i] < |m.descs| && BucketOf(m', v', v.lists[x][i]) == BucketOf(m, v, v.lists[x][i])
  {
    forall i | 0 <= i < |v.lists[x]|
      ensures v.lists[x][i] < |m.descs| && BucketOf(m', v', v.lists[x][i]) == BucketOf(m, v, v.lists[x][i])
    {
      assert v.lists[x][i] in v.lists[x];
    }
  }

  // ---------- a new page of descriptors ----------

  /** The links of new descriptors n, ..., and of those there were. */
  function Grown(next: seq<int>, head: int): seq<int> {
    next + seq(DESCS, k => if k + 1 < DESCS then |next| + k + 1 else head)
  }

  function NewNames(n: nat): seq<nat> {
    seq(DESCS, k requires 0 <= k => n + k)
  }

  lemma GrownLinks(q: seq<nat>, next: seq<int>, head: int, h: int)
    requires Links(q, next, head)
    ensures Links(q, Grown(next, h), head)
  {
    forall k: nat | k < |q| ensures LinkAt(q, Grown(next, h), k) {
      assert LinkAt(q, next, k);
    }
  }

  lemma GrownFirst(q: seq<nat>, next: seq<int>, head: int)
    requires Links(q, next, head)
    ensures Links(NewNames(|next|) + q, Grown(next, head), |next|)
  {
    var q', next' := NewNames(|next|) + q, Grown(next, head);
    forall k: nat | k < |q'| ensures LinkAt(q', next', k) {
      assert k >= DESCS ==> LinkAt(q, next, k - DESCS) && q'[k] == q[k - DESCS];
    }
  }

  /** init_bucket_desc. */
  lemma MoreDescs(m: Memory, v: View, blank: seq<Desc>)
    requires Linked(m, v) && |blank| == DESCS
    ensures var n := |m.descs|;
            var m' := m.(descs := m.descs + blank, next := Grown(m.next, m.heads[SPARE]), heads := m.heads[SPARE := n]);
            var v' := View(v.lists[SPARE := NewNames(n) + v.lists[SPARE]], v.owner + seq(DESCS, _ => SPARE),
                           v.free + seq(DESCS, _ => []));
            && Linked(m', v') && HeapOf(m', v') == HeapOf(m, v) && v'.lists[SPARE] != []
  {
    var n := |m.descs|;
    var m' := m.(descs := m.descs + blank, next := Grown(m.next, m.heads[SPARE]), heads := m.heads[SPARE := n]);
    var v' := View(v.lists[SPARE := NewNames(n) + v.lists[SPARE]], v.owner + seq(DESCS, _ => SPARE),
                   v.free + seq(DESCS, _ => []));
    GrownTable(v.lists, v.owner, n);
    forall x | 0 <= x < |v.lists| ensures Links(v'.lists[x], m'.next, m'.heads[x]) {
      if x == SPARE {
        GrownFirst(v.lists[x], m.next, m.heads[x]);
      } else {
        GrownLinks(v.lists[x], m.next, m.heads[x], m.heads[SPARE]);
      }
    }
    forall y: nat | InUse(v', y) ensures DescOk(m', v', y) {
      assert InUse(v, y) && DescOk(m, v, y) && BucketOf(m', v', y) == BucketOf(m, v, y);
    }
    forall x: nat | x < |SIZES| ensures HeapOf(m', v').chains[x] == HeapOf(m, v).chains[x] {
      ChainsSame(m, v, m', v', x);
    }
  }

  lemma GrownTable(lists: seq<seq<nat>>, owner: seq<int>, n: nat)
    requires Table(lists, owner) && |owner| == n && |lists| == SPARE + 1
    ensures Table(lists[SPARE := NewNames(n) + lists[SPARE]], owner + seq(DESCS, _ => SPARE))
  {
    var names := NewNames(n);
    var lists', owner' := lists[SPARE := names + lists[SPARE]], owner + seq(DESCS, _ => SPARE);
    forall m, s: nat | 0 <= m < |lists'| && s < |owner'| ensures s in lists'[m] <==> owner'[s] == m {
      if s < n {
        assert s in lists[m] <==> owner[s] == m;
        assert s !in names;
      } else {
        assert names[s - n] == s;
        assert s !in lists[m];
      }
    }
  }

  // ---------- the code ----------

  lemma FreeptrNull(word: map<nat, nat>, b: Bucket, size: nat, freeptr: nat)
    requires BucketShape(b, size) && FreeLinked(word, b, freeptr)
    ensures freeptr == 0 <==> b.free == []
  {
    if b.free != [] {
      assert Ptr(b, 0) >= b.page;
    }
  }

  class KernelHeap {
    /** The first words of objects; the bucket descriptors and their next fields; the chains of
        bucket_dir, followed by free_bucket_desc. */
    var word: map<nat, nat>
    var descs: seq<Desc>
    var next: seq<int>
    var heads: seq<int>
    ghost var view: View

    ghost function Now(): Memory
      reads this
    {
      Memory(word, descs, next, heads)
    }

    ghost function Contents(): Heap
      reads this
      requires Linked(Now(), view)
    {
      HeapOf(Now(), view)
    }

    ghost predicate Valid()
      reads this
    {
      Linked(Now(), view) && Inv(Contents())
    }

    constructor ()
      ensures Valid() && Contents() == Heap(seq(|SIZES|, _ => []))
    {
      word, descs, next := map[], [], [];
      heads := seq(SPARE + 1, _ => NIL);
      view := View(seq(SPARE + 1, _ => []), [], []);
    }

    /** The search of malloc for a descriptor with a free object. */
    method FindRoom(c: nat) returns (d: int)
      requires Linked(Now(), view) && c < |SIZES|
      ensures var chain := Contents().chains[c];
              var i := FirstFree(chain, 0);
              |chain| == |view.lists[c]| && d == if i < |chain| then view.lists[c][i] else NIL
    {
      ghost var chain, list := Contents().chains[c], view.lists[c];
      ghost var i: nat := 0;
      assert Links(list, next, heads[c]);
      d := heads[c];
      while d != NIL
        invariant i <= |list| && d == (if i < |list| then list[i] else NIL)
        invariant FirstFree(chain, 0) == FirstFree(chain, i)
        decreases |list| - i
      {
        DescAt(Now(), view, c, i);
        assert DescOk(Now(), view, d) && LinkAt(list, next, i);
        FreeptrNull(word, chain[i], SIZES[c], descs[d].freeptr);
        if descs[d].freeptr != 0 {
          return;
        }
        d := next[d];
        i := i + 1;
      }
    }

    /** Link the objects of a new page. */
    method CutPage(page: nat, c: nat)
      requires c < |SIZES| && page > 0 && page % PAGE_SIZE == 0
      modifies this`word
      ensures FreeLinked(word, NewBucket(page, SIZES[c]), page) && OnlyPage(old(word), word, page)
    {
      SizesOk(c);
      var size := SIZES[c];
      var n := PAGE_SIZE / size;
      ghost var b := NewBucket(page, size);
      var cp := page;
      var i := n;
      while i > 1
        invariant 1 <= i <= n && cp == Addr(b, n - i)
        invariant forall j: nat :: j < n - i ==> WordAt(word, b, j)
        invariant OnlyPage(old(word), word, page)
        decreases i
      {
        InPage(page, n - i, size, n);
        NextObject(b, n - i, n, word, word[cp := cp + size]);
        word := word[cp := cp + size];
        cp := cp + size;
        i := i - 1;
      }
      InPage(page, n - 1, size, n);
      NextObject(b, n - 1, n, word, word[cp := 0]);
      word := word[cp := 0];
    }

    method InitBucketDesc()
      requires Linked(Now(), view)
      modifies this`descs, this`next, this`heads, this`view
      ensures Linked(Now(), view) && Contents() == old(Contents()) && view.lists[SPARE] != []
    {
      var n := |descs|;
      var blank := seq(DESCS, _ => Desc(0, 0, 0, 0));
      MoreDescs(Now(), view, blank);
      view := View(view.lists[SPARE := NewNames(n) + view.lists[SPARE]], view.owner + seq(DESCS, _ => SPARE),
                   view.free + seq(DESCS, _ => []));
      descs := descs + blank;
      next := Grown(next, heads[SPARE]);
      heads := heads[SPARE := n];
    }

    /** A new page for chain c. */
    method AddBucket(c: nat, page: nat)
      requires Linked(Now(), view) && c < |SIZES| && page % PAGE_SIZE == 0 && page > 0 && !Holds(Contents(), page)
      modifies this
      ensures Linked(Now(), view) && view.lists[c] != [] && heads[c] == view.lists[c][0]
      ensures SIZES[c] > 0
      ensures Contents() == Heap(old(Contents()).chains[c := [NewBucket(page, SIZES[c])] + old(Contents()).chains[c]])
    {
      SizesOk(c);
      assert Links(view.lists[SPARE], next, heads[SPARE]);
      if heads[SPARE] == NIL {
        InitBucketDesc();
      }
      ghost var m, v := Now(), view;
      NotInUse(m, v, page);
      CutPage(page, c);
      assert Links(v.lists[SPARE], next, heads[SPARE]) && LinkAt(v.lists[SPARE], next, 0);
      var d := heads[SPARE];
      heads := heads[SPARE := next[d]];
      descs := descs[d := Desc(page, page, 0, SIZES[c])];
      next := next[d := heads[c]];
      heads := heads[c := d];
      view := View(v.lists[SPARE := v.lists[SPARE][1..]][c := [d] + v.lists[c]], v.owner[d := c],
                   v.free[d := NewBucket(page, SIZES[c]).free]);
      Added(m, v, Now(), view, c, d, page, word);
    }

    /** Take the first free object of descriptor d. */
    method TakeObject(d: nat, ghost c: nat, ghost i: nat) returns (obj: nat)
      requires Linked(Now(), view) && c < |SIZES| && i < |view.lists[c]| && d == view.lists[c][i]
      requires Contents().chains[c][i].free != []
      modifies this`descs, this`view
      ensures Linked(Now(), view)
      ensures var b := old(Contents()).chains[c][i];
              && obj == Addr(b, b.free[0])
              && Contents() == Heap(old(Contents()).chains[c := old(Contents()).chains[c][i := Take(b)]])
    {
      ghost var b := Contents().chains[c][i];
      DescAt(Now(), view, c, i);
      assert DescOk(Now(), view, d);
      TakeLinked(word, b, descs[d].freeptr);
      obj := descs[d].freeptr;
      PtrInPage(b, SIZES[c], 0);
      var desc := descs[d].(freeptr := word[obj], refcnt := descs[d].refcnt + 1);
      assert word[obj := word[obj]] == word;
      Changed(Now(), view, d, c, i, desc, b.free[1..], obj, word[obj]);
      descs := descs[d := desc];
      view := view.(free := view.free[d := b.free[1..]]);
    }

    /** malloc; `page` is what get_free_page has to give. */
    method Malloc(len: nat, page: nat) returns (obj: nat)
      requires Valid() && len <= 4096 && !Holds(Contents(), page) && page % PAGE_SIZE == 0 && page > 0
      modifies this
      ensures Valid() && ChainFor(len, 0) < |SIZES|
      ensures Given(Contents(), obj) == Alloc(old(Contents()), len, page)
    {
      ghost var h := Contents();
      AllocGives(h, len, page);
      var c := FindSize(len);
      var d := FindRoom(c);
      if d != NIL {
        obj := TakeObject(d, c, FirstFree(h.chains[c], 0));
      } else {
        AddBucket(c, page);
        TakeFirst(h, c, page);
        obj := TakeObject(heads[c], c, 0);
      }
    }

    /** The search of free_s along one chain: the descriptor of a page, and the one before it. */
    method FindInChain(c: nat, page: nat) returns (d: int, prev: int)
      requires Linked(Now(), view) && c < |SIZES|
      ensures var chain, list := Contents().chains[c], view.lists[c];
              var i := FindIn(chain, page, 0);
              && |chain| == |list| && d == (if i < |list| then list[i] else NIL)
              && (i < |list| ==> prev == if i > 0 then list[i - 1] else NIL)
    {
      ghost var chain, list := Contents().chains[c], view.lists[c];
      ghost var i: nat := 0;
      assert Links(list, next, heads[c]);
      prev, d := NIL, heads[c];
      while d != NIL
        invariant i <= |list| && d == (if i < |list| then list[i] else NIL)
        invariant prev == (if i > 0 then list[i - 1] else NIL)
        invariant FindIn(chain, page, 0) == FindIn(chain, page, i)
        decreases |list| - i
      {
        DescAt(Now(), view, c, i);
        assert LinkAt(list, next, i);
        if descs[d].page == page {
          return;
        }
        prev := d;
        d := next[d];
        i := i + 1;
      }
    }

    /** The search of free_s over the directory. */
    method FindDesc(page: nat, size: nat) returns (c: nat, d: nat, prev: int)
      requires Linked(Now(), view) && FindChain(Contents(), page, size, 0) < |SIZES|
      ensures c == FindChain(Contents(), page, size, 0)
      ensures var i := FindIn(Contents().chains[c], page, 0);
              i < |view.lists[c]| && d == view.lists[c][i] && prev == if i > 0 then view.lists[c][i - 1] else NIL
    {
      c, d := 0, 0;
      while true
        invariant c < |SIZES| && FindChain(Contents(), page, size, 0) == FindChain(Contents(), page, size, c)
        decreases |SIZES| - c
      {
        if SIZES[c] >= size {
          var found;
          found, prev := FindInChain(c, page);
          if found != NIL {
            return c, found, prev;
          }
        }
        c := c + 1;
      }
    }

    /** Put object k of bucket i back on the free list of its page. */
    method PutObject(d: nat, obj: nat, ghost c: nat, ghost i: nat, ghost k: nat)
      requires Linked(Now(), view) && c < |SIZES| && i < |view.lists[c]| && d == view.lists[c][i]
      requires BucketOk(Contents().chains[c][i], SIZES[c]) && OutOf(Contents(), obj, c, i, k)
      modifies this`word, this`descs, this`view
      ensures Linked(Now(), view) && next == old(next) && heads == old(heads) && view.lists == old(view).lists
      ensures var b := old(Contents()).chains[c][i];
              var b' := b.(free := [k] + b.free);
              && Contents() == Heap(old(Contents()).chains[c := old(Contents()).chains[c][i := b']])
              && d < |descs| && descs[d].refcnt == Objects(b.size) - |b'.free|
    {
      ghost var b := Contents().chains[c][i];
      DescAt(Now(), view, c, i);
      assert DescOk(Now(), view, d);
      GiveLinked(word, b, descs[d].freeptr, k);
      GiveBackOk(b, SIZES[c], k);
      SizesOk(c);
      InPage(b.page, k, SIZES[c], Objects(SIZES[c]));
      var desc := descs[d].(freeptr := obj, refcnt := descs[d].refcnt - 1);
      Changed(Now(), view, d, c, i, desc, [k] + b.free, obj, descs[d].freeptr);
      word := word[obj := descs[d].freeptr];
      descs := descs[d := desc];
      view := view.(free := view.free[d := [k] + b.free]);
    }

    /** Take descriptor d out of chain c and keep it as a spare one. */
    method Release(c: nat, d: nat, prev: int, ghost i: nat)
      requires Linked(Now(), view) && c < |SIZES| && i < |view.lists[c]| && d == view.lists[c][i]
      requires prev == if i > 0 then view.lists[c][i - 1] else NIL
      modifies this`next, this`heads, this`view
      ensures Linked(Now(), view) && Contents() == Without(old(Contents()), c, i)
    {
      ghost var m, v := Now(), view;
      DescAt(m, v, c, i);
      if prev != NIL {
        DropAfter(v.lists, v.owner, m.next, m.heads, c, i - 1);
        next := next[prev := next[d]];
      } else {
        PopFront(v.lists, v.owner, m.next, m.heads, c);
        assert RemoveAt(v.lists[c], 0) == v.lists[c][1..];
        heads := heads[c := next[d]];
      }
      Released(m, v, c, i, next, heads);
      next := next[d := heads[SPARE]];
      heads := heads[SPARE := d];
      view := v.(lists := v.lists[c := RemoveAt(v.lists[c], i)][SPARE := [d] + v.lists[SPARE]],
                 owner := v.owner[d := SPARE]);
    }

    /** free_s of an object that is out, with no size or at most that of its bucket; `released` says
        that its page goes back to the system. */
    method FreeS(obj: nat, size: nat, ghost c: nat, ghost i: nat, ghost k: nat) returns (released: bool)
      requires Valid() && c < |SIZES| && OutOf(Contents(), obj, c, i, k) && size <= SIZES[c]
      modifies this
      ensures Valid() && FindChain(old(Contents()), PageOf(obj), size, 0) < |SIZES|
      ensures Freed(Contents(), released) == Free(old(Contents()), obj, size)
    {
      ghost var h := Contents();
      FreeTakes(h, obj, size, c, i, k);
      FindOwner(h, obj, size, c, i, k);
      GiveBackIs(h, obj, c, i, k);
      var c', d, prev := FindDesc(obj / PAGE_SIZE * PAGE_SIZE, size);
      PutObject(d, obj, c, i, k);
      released := descs[d].refcnt == 0;
      if released {
        WithoutChanged(h, c, i, h.chains[c][i].(free := [k] + h.chains[c][i].free));
        Release(c', d, prev, i);
      }
    }
  }

  lemma WithoutChanged(h: Heap, c: nat, i: nat, b: Bucket)
    requires IsBucket(h, c, i)
    ensures Without(Heap(h.chains[c := h.chains[c][i := b]]), c, i) == Without(h, c, i)
  {
    var chain := h.chains[c][i := b];
    assert chain[..i] + chain[i + 1..] == h.chains[c][..i] + h.chains[c][i + 1..];
    assert h.chains[c := chain][c := chain[..i] + chain[i + 1..]] == h.chains[c := chain[..i] + chain[i + 1..]];
  }

  /** The search of bucket_dir for a size. */
  method FindSize(len: nat) returns (c: nat)
    requires len <= 4096
    ensures c == ChainFor(len, 0) < |SIZES|
  {
    c := 0;
    assert SIZES[8] == 4096;
    while SIZES[c] < len
      invariant c < |SIZES| && ChainFor(len, 0) == ChainFor(len, c)
      decreases |SIZES| - c
    {
      c := c + 1;
    }
  }

  lemma TakeFirst(h: Heap, c: nat, page: nat)
    requires |h.chains| == |SIZES| && c < |SIZES|
    ensures SIZES[c] > 0
    ensures var b := NewBucket(page, SIZES[c]);
            var h' := Heap(h.chains[c := [b] + h.chains[c]]);
            && b.free != [] && h'.chains[c][0] == b
            && Heap(h'.chains[c := h'.chains[c][0 := Take(b)]]) == Heap(h.chains[c := [Take(b)] + h.chains[c]])
  {
    SizesOk(c);
    var b := NewBucket(page, SIZES[c]);
    assert ([b] + h.chains[c])[0 := Take(b)] == [Take(b)] + h.chains[c];
  }

  lemma NotInUse(m: Memory, v: View, page: nat)
    requires Linked(m, v) && !Holds(HeapOf(m, v), page)
    ensures forall y: nat :: InUse(v, y) ==> m.descs[y].page != page
  {
    forall y: nat | InUse(v, y) ensures m.descs[y].page != page {
      var c := v.owner[y];
      assert y in v.lists[c];
      var i :| 0 <= i < |v.lists[c]| && v.lists[c][i] == y;
      assert IsBucket(HeapOf(m, v), c, i) && HeapOf(m, v).chains[c][i] == BucketOf(m, v, y);
    }
  }

  /** The word of object j of a new page may be set after those of the objects before it. */
  lemma NextObject(b: Bucket, j: nat, n: nat, word: map<nat, nat>, word': map<nat, nat>)
    requires b.size > 0 && n == Objects(b.size) && b.free == seq(n, k => k) && j < n && b.page > 0
    requires forall x: nat :: x < j ==> WordAt(word, b, x)
    requires word' == word[Addr(b, j) := if j + 1 < n then Addr(b, j) + b.size else 0]
    ensures Addr(b, j) + b.size == Addr(b, j + 1) && forall x: nat :: x <= j ==> WordAt(word', b, x)
  {
    assert (j + 1) * b.size == j * b.size + b.size;
    forall x: nat | x <= j ensures WordAt(word', b, x) {
      if x < j {
        assert WordAt(word, b, x);
        SameSlot(b.size, x, j);
      }
    }
  }
}
