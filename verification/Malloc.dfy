/** The kernel's bucket allocator (lib/malloc.c): pages cut into objects of one size, and which
    objects are out.
 */
module Malloc {
  import opened Common
  import opened Lists

  const PAGE_SIZE: nat := 4096

  /** The sizes of bucket_dir. */
  const SIZES: seq<nat> := [16, 32, 64, 128, 256, 512, 1024, 2048, 4096]

  /** A page of objects; `free` are the numbers of the free ones, the next to be given first. */
  datatype Bucket = Bucket(page: nat, size: nat, free: seq<nat>)

  /** The chain of buckets of each size. */
  datatype Heap = Heap(chains: seq<seq<Bucket>>)

  function Objects(size: nat): nat
    requires size > 0
  {
    PAGE_SIZE / size
  }

  function Addr(b: Bucket, k: nat): nat {
    b.page + k * b.size
  }

  /** A page cut into objects of one size. */
  ghost predicate BucketShape(b: Bucket, size: nat) {
    && b.size == size > 0 && b.page % PAGE_SIZE == 0 && b.page > 0 && NoDup(b.free)
    && forall i :: 0 <= i < |b.free| ==> b.free[i] < Objects(size)
  }

  /** A page in use: at least one object is out. */
  ghost predicate BucketOk(b: Bucket, size: nat) {
    BucketShape(b, size) && |b.free| < Objects(size)
  }

  predicate IsBucket(h: Heap, c: nat, i: nat) {
    c < |h.chains| && i < |h.chains[c]|
  }

  ghost predicate Inv(h: Heap) {
    && |h.chains| == |SIZES|
    && (forall c: nat, i: nat :: IsBucket(h, c, i) ==> BucketOk(h.chains[c][i], SIZES[c]))
    && (forall c: nat, i: nat, c': nat, i': nat ::
          IsBucket(h, c, i) && IsBucket(h, c', i') && h.chains[c][i].page == h.chains[c'][i'].page ==>
            c == c' && i == i')
  }

  // ---------- objects that are out ----------

  ghost predicate Out(b: Bucket, k: nat) {
    b.size > 0 && k < Objects(b.size) && k !in b.free
  }

  /** Object o is out, from bucket i of chain c. */
  ghost predicate OutOf(h: Heap, o: nat, c: nat, i: nat, k: nat) {
    IsBucket(h, c, i) && Out(h.chains[c][i], k) && Addr(h.chains[c][i], k) == o
  }

  ghost predicate Live(h: Heap, o: nat) {
    exists c: nat, i: nat, k: nat :: OutOf(h, o, c, i, k)
  }

  /** Some page of the heap is `page`. */
  ghost predicate Holds(h: Heap, page: nat) {
    exists c: nat, i: nat :: IsBucket(h, c, i) && h.chains[c][i].page == page
  }

  lemma SizesOk(c: nat)
    requires c < |SIZES|
    ensures SIZES[c] > 0 && Objects(SIZES[c]) * SIZES[c] == PAGE_SIZE
  {
  }

  lemma InPage(page: nat, k: nat, size: nat, n: nat)
    requires k < n && n * size == PAGE_SIZE && page % PAGE_SIZE == 0
    ensures page <= page + k * size && page + k * size + size <= page + PAGE_SIZE
    ensures size > 0 ==> (page + k * size) / PAGE_SIZE * PAGE_SIZE == page
  {
    assert (k + 1) * size <= n * size;
    assert (k + 1) * size == k * size + size;
    var q := page / PAGE_SIZE;
    assert page == q * PAGE_SIZE;
    if size > 0 {
      assert q * PAGE_SIZE <= page + k * size < (q + 1) * PAGE_SIZE;
      assert (page + k * size) / PAGE_SIZE == q;
    }
  }

  lemma SameSlot(size: nat, k: nat, k': nat)
    requires size > 0 && k < k'
    ensures k * size + size <= k' * size
  {
    assert (k + 1) * size <= k' * size;
    assert (k + 1) * size == k * size + size;
  }

  /** Two objects that are out do not overlap. */
  lemma LiveDisjoint(h: Heap, o: nat, o': nat, c: nat, i: nat, k: nat, c': nat, i': nat, k': nat)
    requires Inv(h) && OutOf(h, o, c, i, k) && OutOf(h, o', c', i', k') && o != o'
    ensures o + SIZES[c] <= o' || o' + SIZES[c'] <= o
  {
    SizesOk(c);
    SizesOk(c');
    var b, b' := h.chains[c][i], h.chains[c'][i'];
    InPage(b.page, k, SIZES[c], Objects(SIZES[c]));
    InPage(b'.page, k', SIZES[c'], Objects(SIZES[c']));
    if b.page == b'.page {
      if k < k' {
        SameSlot(SIZES[c], k, k');
      } else {
        SameSlot(SIZES[c], k', k);
      }
    } else {
      PagesApart(b.page, b'.page);
    }
  }

  lemma PagesApart(page: nat, page': nat)
    requires page % PAGE_SIZE == 0 && page' % PAGE_SIZE == 0 && page != page'
    ensures page + PAGE_SIZE <= page' || page' + PAGE_SIZE <= page
  {
    var q, q' := page / PAGE_SIZE, page' / PAGE_SIZE;
    assert page == q * PAGE_SIZE && page' == q' * PAGE_SIZE;
  }

  // ---------- malloc ----------

  /** The chain for objects of len bytes; |SIZES| when none is large enough, which is a panic. */
  function ChainFor(len: nat, c: nat): (r: nat)
    requires c <= |SIZES|
    ensures c <= r <= |SIZES| && (r < |SIZES| ==> SIZES[r] >= len) && forall x :: c <= x < r ==> SIZES[x] < len
    decreases |SIZES| - c
  {
    if c == |SIZES| || SIZES[c] >= len then c else ChainFor(len, c + 1)
  }

  /** The first bucket of a chain with a free object. */
  function FirstFree(chain: seq<Bucket>, i: nat): (r: nat)
    requires i <= |chain|
    ensures i <= r <= |chain| && (r < |chain| ==> chain[r].free != []) && forall x :: i <= x < r ==> chain[x].free == []
    decreases |chain| - i
  {
    if i == |chain| || chain[i].free != [] then i else FirstFree(chain, i + 1)
  }

  /** A new page with all its objects free. */
  function NewBucket(page: nat, size: nat): Bucket
    requires size > 0
  {
    Bucket(page, size, seq(Objects(size), k => k))
  }

  function Take(b: Bucket): Bucket
    requires b.free != []
  {
    b.(free := b.free[1..])
  }

  datatype Given = Given(heap: Heap, obj: nat)

  /** malloc; `page` is what get_free_page gives if it is asked. */
  function Alloc(h: Heap, len: nat, page: nat): Given
    requires |h.chains| == |SIZES| && ChainFor(len, 0) < |SIZES|
  {
    var c := ChainFor(len, 0);
    var chain := h.chains[c];
    var i := FirstFree(chain, 0);
    if i < |chain| then
      Given(Heap(h.chains[c := chain[i := Take(chain[i])]]), Addr(chain[i], chain[i].free[0]))
    else
      SizesOk(c);
      var b := NewBucket(page, SIZES[c]);
      if b.free == [] then Given(h, 0)
      else Given(Heap(h.chains[c := [Take(b)] + chain]), Addr(b, b.free[0]))
  }

  /** One more object is out of one bucket; everything else is where it was. */
  lemma TakeOk(b: Bucket, size: nat)
    requires b.size == size > 0 && b.page % PAGE_SIZE == 0 && b.page > 0 && NoDup(b.free) && b.free != []
    requires |b.free| <= Objects(size) && forall i :: 0 <= i < |b.free| ==> b.free[i] < Objects(size)
    ensures BucketOk(Take(b), size)
    ensures forall k: nat :: Out(Take(b), k) <==> Out(b, k) || k == b.free[0]
    ensures !Out(b, b.free[0])
  {
    assert b.free == [b.free[0]] + b.free[1..];
  }

  /** Bucket i of chain c is replaced by b', which has the same page. */
  lemma ReplaceOk(h: Heap, c: nat, i: nat, b': Bucket)
    requires Inv(h) && IsBucket(h, c, i) && BucketOk(b', SIZES[c]) && b'.page == h.chains[c][i].page
    ensures Inv(Heap(h.chains[c := h.chains[c][i := b']]))
  {
    var h' := Heap(h.chains[c := h.chains[c][i := b']]);
    assert forall x: nat, y: nat :: IsBucket(h', x, y) ==>
             IsBucket(h, x, y) && h'.chains[x][y].page == h.chains[x][y].page;
  }

  /** The same, for the objects that are out: those of other buckets stay out. */
  lemma ReplaceLive(h: Heap, c: nat, i: nat, b': Bucket, o: nat)
    requires Inv(h) && IsBucket(h, c, i) && BucketOk(b', SIZES[c]) && b'.page == h.chains[c][i].page
    ensures Live(Heap(h.chains[c := h.chains[c][i := b']]), o) <==>
              || (exists k: nat :: Out(b', k) && Addr(b', k) == o)
              || (exists x: nat, y: nat, k: nat :: OutOf(h, o, x, y, k) && (x != c || y != i))
  {
    var h' := Heap(h.chains[c := h.chains[c][i := b']]);
    if k: nat :| Out(b', k) && Addr(b', k) == o {
      assert OutOf(h', o, c, i, k);
    }
    if x: nat, y: nat, k: nat :| OutOf(h, o, x, y, k) && (x != c || y != i) {
      assert OutOf(h', o, x, y, k);
    }
    if x: nat, y: nat, k: nat :| OutOf(h', o, x, y, k) {
      assert (x != c || y != i) ==> OutOf(h, o, x, y, k);
    }
  }

  /** A bucket and number determine an address, and an address the bucket and number. */
  lemma OneOwner(h: Heap, o: nat, c: nat, i: nat, k: nat, c': nat, i': nat, k': nat)
    requires Inv(h) && IsBucket(h, c, i) && IsBucket(h, c', i')
    requires k < Objects(SIZES[c]) && k' < Objects(SIZES[c'])
    requires Addr(h.chains[c][i], k) == o == Addr(h.chains[c'][i'], k')
    ensures c == c' && i == i' && k == k'
  {
    SizesOk(c);
    SizesOk(c');
    InPage(h.chains[c][i].page, k, SIZES[c], Objects(SIZES[c]));
    InPage(h.chains[c'][i'].page, k', SIZES[c'], Objects(SIZES[c']));
    assert h.chains[c][i].page == h.chains[c'][i'].page;
    if k < k' {
      SameSlot(SIZES[c], k, k');
    } else if k' < k {
      SameSlot(SIZES[c], k', k);
    }
  }

  /** malloc from a page that has room. */
  lemma AllocOld(h: Heap, c: nat, i: nat)
    requires Inv(h) && IsBucket(h, c, i) && h.chains[c][i].free != []
    ensures var b := h.chains[c][i];
            var h', obj := Heap(h.chains[c := h.chains[c][i := Take(b)]]), Addr(b, b.free[0]);
            && Inv(h') && !Live(h, obj) && OutOf(h', obj, c, i, b.free[0])
            && forall o: nat :: Live(h', o) <==> Live(h, o) || o == obj
  {
    var b := h.chains[c][i];
    var k0, obj := b.free[0], Addr(b, b.free[0]);
    var h' := Heap(h.chains[c := h.chains[c][i := Take(b)]]);
    TakeOk(b, SIZES[c]);
    ReplaceOk(h, c, i, Take(b));
    forall x: nat, y: nat, k: nat ensures !OutOf(h, obj, x, y, k) {
      if OutOf(h, obj, x, y, k) {
        OneOwner(h, obj, c, i, k0, x, y, k);
      }
    }
    forall o: nat ensures Live(h', o) <==> Live(h, o) || o == obj {
      ReplaceLive(h, c, i, Take(b), o);
      if x: nat, y: nat, k: nat :| OutOf(h, o, x, y, k) {
        assert x == c && y == i ==> Out(Take(b), k) && Addr(Take(b), k) == o;
      }
      if k: nat :| Out(Take(b), k) && Addr(Take(b), k) == o {
        assert k != k0 ==> OutOf(h, o, c, i, k);
      }
    }
  }

  /** A page comes to the front of a chain: others keep their objects. */
  lemma PushLive(h: Heap, c: nat, b: Bucket, o: nat)
    requires c < |h.chains|
    ensures Live(Heap(h.chains[c := [b] + h.chains[c]]), o) <==>
              Live(h, o) || exists k: nat :: Out(b, k) && Addr(b, k) == o
  {
    var h' := Heap(h.chains[c := [b] + h.chains[c]]);
    if x: nat, y: nat, k: nat :| OutOf(h, o, x, y, k) {
      assert OutOf(h', o, x, if x == c then y + 1 else y, k);
    }
    if k: nat :| Out(b, k) && Addr(b, k) == o {
      assert OutOf(h', o, c, 0, k);
    }
    if x: nat, y: nat, k: nat :| OutOf(h', o, x, y, k) {
      if x == c && y > 0 {
        assert OutOf(h, o, c, y - 1, k);
      } else if x != c {
        assert OutOf(h, o, x, y, k);
      }
    }
  }

  lemma PushOk(h: Heap, c: nat, b: Bucket)
    requires Inv(h) && c < |SIZES| && BucketOk(b, SIZES[c]) && !Holds(h, b.page)
    ensures Inv(Heap(h.chains[c := [b] + h.chains[c]]))
  {
    var h' := Heap(h.chains[c := [b] + h.chains[c]]);
    forall x: nat, y: nat | IsBucket(h', x, y)
      ensures BucketOk(h'.chains[x][y], SIZES[x])
      ensures (x == c && y == 0) || h'.chains[x][y].page != b.page
    {
      assert (x != c ==> IsBucket(h, x, y)) && (x == c && y > 0 ==> IsBucket(h, c, y - 1));
    }
    forall x: nat, y: nat, x': nat, y': nat |
      IsBucket(h', x, y) && IsBucket(h', x', y') && h'.chains[x][y].page == h'.chains[x'][y'].page
      ensures x == x' && y == y'
    {
      var z, z' := if x == c then y - 1 else y, if x' == c then y' - 1 else y';
      assert z >= 0 ==> IsBucket(h, x, z);
      assert z' >= 0 ==> IsBucket(h, x', z');
    }
  }

  /** A page that is not in the heap has no objects. */
  lemma FreshPage(h: Heap, page: nat, o: nat)
    requires Inv(h) && !Holds(h, page) && page % PAGE_SIZE == 0 && page <= o < page + PAGE_SIZE
    ensures !Live(h, o)
  {
    forall x: nat, y: nat, k: nat ensures !OutOf(h, o, x, y, k) {
      if OutOf(h, o, x, y, k) {
        SizesOk(x);
        InPage(h.chains[x][y].page, k, SIZES[x], Objects(SIZES[x]));
        PagesApart(h.chains[x][y].page, page);
      }
    }
  }

  lemma NewBucketOk(page: nat, c: nat)
    requires c < |SIZES| && page % PAGE_SIZE == 0 && page > 0
    ensures var b := NewBucket(page, SIZES[c]);
            && b.free != [] && b.free[0] == 0 && BucketOk(Take(b), SIZES[c])
            && forall k: nat :: Out(Take(b), k) <==> k == 0
  {
    SizesOk(c);
    var b := NewBucket(page, SIZES[c]);
    assert Objects(SIZES[c]) > 0;
    forall k: nat ensures !Out(b, k) {
      assert k < Objects(SIZES[c]) ==> b.free[k] == k;
    }
    TakeOk(b, SIZES[c]);
  }

  /** malloc that needs a new page. */
  lemma AllocNew(h: Heap, c: nat, page: nat)
    requires Inv(h) && c < |SIZES| && !Holds(h, page) && page % PAGE_SIZE == 0 && page > 0
    ensures var b := NewBucket(page, SIZES[c]);
            && b.free != [] && b.free[0] == 0
            && var h' := Heap(h.chains[c := [Take(b)] + h.chains[c]]);
               && Inv(h') && !Live(h, page) && OutOf(h', page, c, 0, 0)
               && forall o: nat :: Live(h', o) <==> Live(h, o) || o == page
  {
    NewBucketOk(page, c);
    FreshPage(h, page, page);
    var b := Take(NewBucket(page, SIZES[c]));
    PushOk(h, c, b);
    forall o: nat ensures Live(Heap(h.chains[c := [b] + h.chains[c]]), o) <==> Live(h, o) || o == page {
      PushLive(h, c, b, o);
      assert o == page ==> Out(b, 0) && Addr(b, 0) == o;
    }
  }

  /** MALLOC gives an object that is large enough and that nobody has, and takes nothing back. */
  lemma AllocGives(h: Heap, len: nat, page: nat)
    requires Inv(h) && len <= 4096 && !Holds(h, page) && page % PAGE_SIZE == 0 && page > 0
    ensures ChainFor(len, 0) < |SIZES|
    ensures var c := ChainFor(len, 0);
            var g := Alloc(h, len, page);
            && Inv(g.heap) && !Live(h, g.obj) && SIZES[c] >= len
            && (exists i: nat, k: nat :: OutOf(g.heap, g.obj, c, i, k))
            && forall o: nat :: Live(g.heap, o) <==> Live(h, o) || o == g.obj
  {
    var c := ChainFor(len, 0);
    assert SIZES[8] == 4096;
    SizesOk(c);
    var i := FirstFree(h.chains[c], 0);
    if i < |h.chains[c]| {
      AllocOld(h, c, i);
    } else {
      AllocNew(h, c, page);
    }
  }

  // ---------- free_s ----------

  /** The place of a page in one chain. */
  function FindIn(chain: seq<Bucket>, page: nat, i: nat): (r: nat)
    requires i <= |chain|
    ensures i <= r <= |chain| && (r < |chain| ==> chain[r].page == page)
    ensures forall x :: i <= x < r ==> chain[x].page != page
    decreases |chain| - i
  {
    if i == |chain| || chain[i].page == page then i else FindIn(chain, page, i + 1)
  }

  /** The chain that has the page, among those of objects of at least `size` bytes; |SIZES| when
      there is none, which is a panic. */
  function FindChain(h: Heap, page: nat, size: nat, c: nat): (r: nat)
    requires |h.chains| == |SIZES| && c <= |SIZES|
    ensures c <= r <= |SIZES|
    ensures r < |SIZES| ==> SIZES[r] >= size && FindIn(h.chains[r], page, 0) < |h.chains[r]|
    ensures forall x :: c <= x < r && SIZES[x] >= size ==> FindIn(h.chains[x], page, 0) == |h.chains[x]|
    decreases |SIZES| - c
  {
    if c == |SIZES| || (SIZES[c] >= size && FindIn(h.chains[c], page, 0) < |h.chains[c]|) then c
    else FindChain(h, page, size, c + 1)
  }

  function PageOf(o: nat): nat {
    o / PAGE_SIZE * PAGE_SIZE
  }

  function GiveBack(b: Bucket, o: nat): Bucket
    requires b.size > 0 && o >= b.page
  {
    b.(free := [(o - b.page) / b.size] + b.free)
  }

  datatype Freed = Freed(heap: Heap, released: bool)

  /** free_s of object o; the page goes back when its last object does. */
  function Free(h: Heap, o: nat, size: nat): Freed
    requires |h.chains| == |SIZES| && FindChain(h, PageOf(o), size, 0) < |SIZES|
    requires forall c: nat, i: nat :: IsBucket(h, c, i) ==> h.chains[c][i].size > 0
  {
    var c := FindChain(h, PageOf(o), size, 0);
    var i := FindIn(h.chains[c], PageOf(o), 0);
    assert IsBucket(h, c, i);
    var b := GiveBack(h.chains[c][i], o);
    if |b.free| == Objects(b.size) then Freed(Heap(h.chains[c := h.chains[c][..i] + h.chains[c][i + 1..]]), true)
    else Freed(Heap(h.chains[c := h.chains[c][i := b]]), false)
  }

  /** free_s finds the bucket an object came from. */
  lemma FindOwner(h: Heap, o: nat, size: nat, c: nat, i: nat, k: nat)
    requires Inv(h) && OutOf(h, o, c, i, k) && size <= SIZES[c]
    ensures h.chains[c][i].page == PageOf(o) && FindChain(h, PageOf(o), size, 0) == c
    ensures FindIn(h.chains[c], PageOf(o), 0) == i
  {
    SizesOk(c);
    InPage(h.chains[c][i].page, k, SIZES[c], Objects(SIZES[c]));
    var page := PageOf(o);
    var c' := FindChain(h, page, size, 0);
    var i0 := FindIn(h.chains[c], page, 0);
    assert IsBucket(h, c, i) && i0 <= i;
    assert IsBucket(h, c, i0);
    if c' < |SIZES| {
      assert IsBucket(h, c', FindIn(h.chains[c'], page, 0));
    }
  }

  lemma NumberOf(page: nat, k: nat, size: nat)
    requires size > 0
    ensures (page + k * size - page) / size == k
  {
    var q, r := (k * size) / size, (k * size) % size;
    assert k * size == q * size + r;
    if q < k {
      SameSlot(size, q, k);
    } else if k < q {
      SameSlot(size, k, q);
    }
  }

  lemma GiveBackOk(b: Bucket, size: nat, k: nat)
    requires BucketOk(b, size) && Out(b, k)
    ensures var b' := b.(free := [k] + b.free);
            && NoDup(b'.free) && (forall x: nat :: Out(b', x) <==> Out(b, x) && x != k)
            && |b'.free| <= Objects(size) && (|b'.free| < Objects(size) ==> BucketOk(b', size))
            && (|b'.free| == Objects(size) ==> forall x: nat :: !Out(b', x))
  {
    var b' := b.(free := [k] + b.free);
    if |b'.free| == Objects(size) {
      AllFree(b'.free, Objects(size));
    }
  }

  /** n different numbers below n are all of them. */
  lemma AllFree(s: seq<nat>, n: nat)
    requires NoDup(s) && |s| == n && forall i :: 0 <= i < n ==> s[i] < n
    ensures forall x: nat :: x < n ==> x in s
  {
    var have := set i | 0 <= i < n :: s[i];
    SizeOfImage(s, n);
    SubsetFull(have, Below(n));
    forall x: nat | x < n ensures x in s {
      assert x in have;
    }
  }

  ghost function Below(n: nat): (r: set<nat>)
    ensures |r| == n && forall x: nat :: x in r <==> x < n
  {
    if n == 0 then {} else Below(n - 1) + {n - 1}
  }

  lemma {:induction false} SizeOfImage(s: seq<nat>, n: nat)
    requires NoDup(s) && n <= |s|
    ensures |set i | 0 <= i < n :: s[i]| == n
  {
    if n == 0 {
    } else {
      SizeOfImage(s, n - 1);
      assert (set i | 0 <= i < n :: s[i]) == (set i | 0 <= i < n - 1 :: s[i]) + {s[n - 1]};
    }
  }

  lemma SubsetFull(a: set<nat>, b: set<nat>)
    requires a <= b && |a| == |b|
    ensures a == b
  {
    assert b == a + (b - a);
  }

  /** Bucket i of chain c is taken out. */
  function Without(h: Heap, c: nat, i: nat): Heap
    requires IsBucket(h, c, i)
  {
    Heap(h.chains[c := h.chains[c][..i] + h.chains[c][i + 1..]])
  }

  /** Where a bucket of the smaller heap was before. */
  function Earlier(c: nat, i: nat, x: nat, y: nat): nat {
    if x == c && y >= i then y + 1 else y
  }

  lemma WithoutSame(h: Heap, c: nat, i: nat, x: nat, y: nat)
    requires IsBucket(h, c, i)
    ensures IsBucket(Without(h, c, i), x, y) <==> IsBucket(h, x, Earlier(c, i, x, y))
    ensures IsBucket(Without(h, c, i), x, y) ==> Without(h, c, i).chains[x][y] == h.chains[x][Earlier(c, i, x, y)]
  {
  }

  lemma WithoutOk(h: Heap, c: nat, i: nat)
    requires Inv(h) && IsBucket(h, c, i)
    ensures Inv(Without(h, c, i)) && !Holds(Without(h, c, i), h.chains[c][i].page)
  {
    var h' := Without(h, c, i);
    forall x: nat, y: nat
      ensures IsBucket(h', x, y) ==> BucketOk(h'.chains[x][y], SIZES[x]) && h'.chains[x][y].page != h.chains[c][i].page
    {
      WithoutSame(h, c, i, x, y);
    }
    forall x: nat, y: nat, x': nat, y': nat |
      IsBucket(h', x, y) && IsBucket(h', x', y') && h'.chains[x][y].page == h'.chains[x'][y'].page
      ensures x == x' && y == y'
    {
      WithoutSame(h, c, i, x, y);
      WithoutSame(h, c, i, x', y');
    }
  }

  lemma WithoutLive(h: Heap, c: nat, i: nat, o: nat)
    requires Inv(h) && IsBucket(h, c, i)
    ensures Live(Without(h, c, i), o) <==> exists x: nat, y: nat, k: nat :: OutOf(h, o, x, y, k) && (x != c || y != i)
  {
    var h' := Without(h, c, i);
    if x: nat, y: nat, k: nat :| OutOf(h', o, x, y, k) {
      WithoutSame(h, c, i, x, y);
      assert OutOf(h, o, x, Earlier(c, i, x, y), k);
    }
    if x: nat, y: nat, k: nat :| OutOf(h, o, x, y, k) && (x != c || y != i) {
      var y' := if x == c && y > i then y - 1 else y;
      WithoutSame(h, c, i, x, y');
      assert OutOf(h', o, x, y', k);
    }
  }

  /** Exactly the objects of the other buckets, and those of this one but k, remain. */
  lemma OthersRemain(h: Heap, o: nat, c: nat, i: nat, k: nat, p: nat)
    requires Inv(h) && OutOf(h, o, c, i, k)
    ensures Live(h, p) && p != o <==>
              || (exists x: nat :: Out(h.chains[c][i], x) && x != k && Addr(h.chains[c][i], x) == p)
              || (exists x: nat, y: nat, z: nat :: OutOf(h, p, x, y, z) && (x != c || y != i))
  {
    var b := h.chains[c][i];
    if x: nat, y: nat, z: nat :| OutOf(h, p, x, y, z) {
      assert x == c && y == i && p != o ==> Out(b, z) && z != k && Addr(b, z) == p;
    }
    if x: nat :| Out(b, x) && x != k && Addr(b, x) == p {
      assert OutOf(h, p, c, i, x);
      if p == o {
        OneOwner(h, o, c, i, k, c, i, x);
      }
    }
    if x: nat, y: nat, z: nat :| OutOf(h, p, x, y, z) && (x != c || y != i) {
      if p == o {
        OneOwner(h, o, c, i, k, x, y, z);
      }
    }
  }

  lemma GiveBackIs(h: Heap, o: nat, c: nat, i: nat, k: nat)
    requires Inv(h) && OutOf(h, o, c, i, k)
    ensures o >= h.chains[c][i].page
    ensures GiveBack(h.chains[c][i], o) == h.chains[c][i].(free := [k] + h.chains[c][i].free)
  {
    NumberOf(h.chains[c][i].page, k, h.chains[c][i].size);
  }

  /** FREE_S takes back exactly the object it is given, and the page goes back exactly when that was
      the last object out of it. */
  lemma FreeTakes(h: Heap, o: nat, size: nat, c: nat, i: nat, k: nat)
    requires Inv(h) && OutOf(h, o, c, i, k) && size <= SIZES[c]
    ensures FindChain(h, PageOf(o), size, 0) == c
    ensures var f := Free(h, o, size);
            && Inv(f.heap) && (forall p: nat :: Live(f.heap, p) <==> Live(h, p) && p != o)
            && (f.released <==> forall x: nat :: Out(h.chains[c][i], x) ==> x == k)
            && (f.released ==> !Holds(f.heap, PageOf(o)))
  {
    FindOwner(h, o, size, c, i, k);
    GiveBackIs(h, o, c, i, k);
    var b := h.chains[c][i];
    var b' := b.(free := [k] + b.free);
    GiveBackOk(b, SIZES[c], k);
    if |b'.free| == Objects(SIZES[c]) {
      WithoutOk(h, c, i);
      assert Free(h, o, size).heap == Without(h, c, i);
      forall p: nat ensures Live(Without(h, c, i), p) <==> Live(h, p) && p != o {
        WithoutLive(h, c, i, p);
        OthersRemain(h, o, c, i, k, p);
        assert forall x: nat :: Out(b, x) && x != k ==> Out(b', x);
      }
    } else {
      ReplaceOk(h, c, i, b');
      SomeOut(b', SIZES[c]);
      forall p: nat ensures Live(Heap(h.chains[c := h.chains[c][i := b']]), p) <==> Live(h, p) && p != o {
        FreeKeeps(h, o, c, i, k, p);
      }
    }
  }

  lemma FreeKeeps(h: Heap, o: nat, c: nat, i: nat, k: nat, p: nat)
    requires Inv(h) && OutOf(h, o, c, i, k) && BucketOk(h.chains[c][i].(free := [k] + h.chains[c][i].free), SIZES[c])
    ensures var b' := h.chains[c][i].(free := [k] + h.chains[c][i].free);
            Live(Heap(h.chains[c := h.chains[c][i := b']]), p) <==> Live(h, p) && p != o
  {
    var b := h.chains[c][i];
    var b' := b.(free := [k] + b.free);
    GiveBackOk(b, SIZES[c], k);
    ReplaceLive(h, c, i, b', p);
    OthersRemain(h, o, c, i, k, p);
    assert forall x: nat :: Addr(b', x) == Addr(b, x);
    if x: nat :| Out(b', x) && Addr(b', x) == p {
      assert Out(b, x) && x != k && Addr(b, x) == p;
    }
    if x: nat :| Out(b, x) && x != k && Addr(b, x) == p {
      assert Out(b', x) && Addr(b', x) == p;
    }
  }

  /** A page that is kept has an object out. */
  lemma SomeOut(b: Bucket, size: nat)
    requires BucketOk(b, size)
    ensures exists k: nat :: Out(b, k)
  {
    var n := Objects(size);
    var have := set i | 0 <= i < |b.free| :: b.free[i];
    SizeOfImage(b.free, |b.free|);
    if forall k: nat :: !Out(b, k) {
      forall x: nat | x < n ensures x in have {
        assert !Out(b, x);
        var j :| 0 <= j < |b.free| && b.free[j] == x;
      }
      assert Below(n) <= have;
      SubsetSize(Below(n), have);
    }
  }

  /** No page is kept for nothing: the heap holds exactly the pages objects are out of. */
  lemma PagesInUse(h: Heap, page: nat)
    requires Inv(h)
    ensures Holds(h, page) <==> exists o: nat :: Live(h, o) && PageOf(o) == page
  {
    if c: nat, i: nat :| IsBucket(h, c, i) && h.chains[c][i].page == page {
      SomeOut(h.chains[c][i], SIZES[c]);
      var k: nat :| Out(h.chains[c][i], k);
      var o := Addr(h.chains[c][i], k);
      assert OutOf(h, o, c, i, k);
      FindOwner(h, o, 0, c, i, k);
      assert Live(h, o);
    }
    if o: nat :| Live(h, o) && PageOf(o) == page {
      var c: nat, i: nat, k: nat :| OutOf(h, o, c, i, k);
      FindOwner(h, o, 0, c, i, k);
    }
  }

  // ---------- whole runs ----------

  datatype Step = Get(len: nat, page: nat) | Drop(o: nat, size: nat)

  /** A request of at most a page, with a page at hand that is not in use; or an object that is out,
      freed with no size or at most that of its bucket. */
  ghost predicate Enabled(h: Heap, st: Step) {
    match st
    case Get(len, page) => len <= 4096 && !Holds(h, page) && page % PAGE_SIZE == 0 && page > 0
    case Drop(o, size) => exists c: nat, i: nat, k: nat :: c < |SIZES| && OutOf(h, o, c, i, k) && size <= SIZES[c]
  }

  ghost function Next(h: Heap, st: Step): Heap
    requires Inv(h) && Enabled(h, st)
  {
    match st
    case Get(len, page) => AllocGives(h, len, page); Alloc(h, len, page).heap
    case Drop(o, size) =>
      var c: nat, i: nat, k: nat :| c < |SIZES| && OutOf(h, o, c, i, k) && size <= SIZES[c];
      FreeTakes(h, o, size, c, i, k);
      Free(h, o, size).heap
  }

  lemma StepInv(h: Heap, st: Step)
    requires Inv(h) && Enabled(h, st)
    ensures Inv(Next(h, st))
    ensures st.Get? ==> ChainFor(st.len, 0) < |SIZES|
    ensures st.Get? ==> forall o: nat :: Live(Next(h, st), o) <==> Live(h, o) || o == Alloc(h, st.len, st.page).obj
    ensures st.Drop? ==> forall o: nat :: Live(Next(h, st), o) <==> Live(h, o) && o != st.o
  {
    match st
    case Get(len, page) => AllocGives(h, len, page);
    case Drop(o, size) =>
      var c: nat, i: nat, k: nat :| c < |SIZES| && OutOf(h, o, c, i, k) && size <= SIZES[c];
      FreeTakes(h, o, size, c, i, k);
  }

  /** From the empty heap each step leads to the next.  Steps are defined on heaps that satisfy Inv,
      which RunLedger shows of every heap in turn. */
  ghost predicate IsRun(hs: seq<Heap>, steps: seq<Step>) {
    && |hs| == |steps| + 1 && hs[0] == Heap(seq(|SIZES|, _ => []))
    && forall i :: 0 <= i < |steps| && Inv(hs[i]) ==> Enabled(hs[i], steps[i]) && hs[i + 1] == Next(hs[i], steps[i])
  }

  /** The objects given and not freed, kept by hand. */
  ghost function Ledger(hs: seq<Heap>, steps: seq<Step>, n: nat): set<nat>
    requires |hs| == |steps| + 1 && n <= |steps|
  {
    if n == 0 then {}
    else
      match steps[n - 1]
      case Get(len, page) =>
        if |hs[n - 1].chains| == |SIZES| && ChainFor(len, 0) < |SIZES| then
          Ledger(hs, steps, n - 1) + {Alloc(hs[n - 1], len, page).obj}
        else Ledger(hs, steps, n - 1)
      case Drop(o, _) => Ledger(hs, steps, n - 1) - {o}
  }

  /** Over any run of malloc and free_s the objects out are exactly those given and not freed. */
  lemma {:induction false} RunLedger(hs: seq<Heap>, steps: seq<Step>, n: nat)
    requires IsRun(hs, steps) && n <= |steps|
    ensures Inv(hs[n]) && forall o: nat :: Live(hs[n], o) <==> o in Ledger(hs, steps, n)
  {
    if n == 0 {
    } else {
      RunLedger(hs, steps, n - 1);
      StepInv(hs[n - 1], steps[n - 1]);
    }
  }
}
