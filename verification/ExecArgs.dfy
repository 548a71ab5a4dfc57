/** The argument block of a new program (fs/exec.c): copy_strings, create_tables and the order in
    which do_execve splices in an interpreter.
 */
module ExecArgs {
  import FileModel

  type Byte = FileModel.Byte

  const PAGE_SIZE: nat := 4096
  const MAX_ARG_PAGES: nat := 32
  const ARG_BYTES: nat := 131072

  /** A C string without its final zero. */
  predicate IsString(s: seq<Byte>) {
    forall i :: 0 <= i < |s| ==> s[i] != 0
  }

  ghost predicate AllStrings(ss: seq<seq<Byte>>) {
    forall i :: 0 <= i < |ss| ==> IsString(ss[i])
  }

  /** Strings k, k + 1, ... one after the other, each with its final zero. */
  function Block(ss: seq<seq<Byte>>, k: nat): seq<Byte>
    requires k <= |ss|
    decreases |ss| - k
  {
    if k == |ss| then [] else ss[k] + [0] + Block(ss, k + 1)
  }

  /** bytes with data put at address a. */
  function Put(bytes: seq<Byte>, a: nat, data: seq<Byte>): (r: seq<Byte>)
    requires a + |data| <= |bytes|
    ensures |r| == |bytes| && forall i :: 0 <= i < |r| ==> r[i] == if a <= i < a + |data| then data[i - a] else bytes[i]
  {
    bytes[..a] + data + bytes[a + |data|..]
  }

  lemma PutTwice(bytes: seq<Byte>, mid: seq<Byte>, last: seq<Byte>, a: nat, front: seq<Byte>, back: seq<Byte>)
    requires a + |front| + |back| <= |bytes|
    requires mid == Put(bytes, a + |front|, back) && last == Put(mid, a, front)
    ensures last == Put(bytes, a, front + back)
  {
  }

  /** One more byte below. */
  lemma PutDown(bytes: seq<Byte>, a: nat, s: seq<Byte>, len: nat)
    requires len < |s| && a + |s| - len <= |bytes|
    ensures Put(bytes, a + 1, s[len + 1..])[a := s[len]] == Put(bytes, a, s[len..])
  {
  }

  // ---------- pages given out on demand ----------

  /** How many of pages i, ..., j - 1 are absent. */
  function Missing(present: seq<bool>, i: nat, j: nat): (n: nat)
    requires i <= j <= |present|
    decreases j - i
  {
    if i == j then 0 else (if present[i] then 0 else 1) + Missing(present, i + 1, j)
  }

  lemma {:induction false} MissingLess(present: seq<bool>, i: nat, k: nat, j: nat)
    requires i <= k <= j <= |present|
    ensures Missing(present, k, j) <= Missing(present, i, j)
    decreases k - i
  {
    if i == k {
    } else {
      MissingLess(present, i + 1, k, j);
    }
  }

  /** copy_strings needs the pages of addresses lo, ..., hi - 1. */
  function Needed(present: seq<bool>, lo: nat, hi: nat): nat
    requires lo <= hi <= ARG_BYTES && |present| == MAX_ARG_PAGES
  {
    if lo == hi then 0 else Missing(present, lo / PAGE_SIZE, (hi - 1) / PAGE_SIZE + 1)
  }

  /** Nothing but the pages of addresses lo, ..., hi - 1 has been given out since `was`. */
  ghost predicate Given(was: seq<bool>, present: seq<bool>, lo: nat, hi: nat) {
    && |was| == |present| == MAX_ARG_PAGES && lo <= hi <= ARG_BYTES
    && forall i :: 0 <= i < MAX_ARG_PAGES ==>
         present[i] == (was[i] || (lo < hi && lo / PAGE_SIZE <= i <= (hi - 1) / PAGE_SIZE))
  }

  /** One more byte down needs the page below if the last byte was the first of its page. */
  lemma OneByteDown(was: seq<bool>, lo: nat, hi: nat)
    requires 0 < lo <= hi <= ARG_BYTES && |was| == MAX_ARG_PAGES
    ensures Needed(was, lo - 1, hi) == Needed(was, lo, hi) +
              if (lo < hi && lo % PAGE_SIZE != 0) || was[(lo - 1) / PAGE_SIZE] then 0 else 1
  {
    var pag := (lo - 1) / PAGE_SIZE;
    assert pag < MAX_ARG_PAGES;
    if lo == hi {
      assert Missing(was, pag, pag + 1) == (if was[pag] then 0 else 1) + Missing(was, pag + 1, pag + 1);
    } else if lo % PAGE_SIZE != 0 {
      assert lo / PAGE_SIZE == pag;
    } else {
      assert lo / PAGE_SIZE == pag + 1;
    }
  }

  lemma NeededLess(was: seq<bool>, lo: nat, mid: nat, hi: nat)
    requires lo <= mid <= hi <= ARG_BYTES && |was| == MAX_ARG_PAGES
    ensures Needed(was, mid, hi) <= Needed(was, lo, hi)
  {
    if mid < hi {
      MissingLess(was, lo / PAGE_SIZE, mid / PAGE_SIZE, (hi - 1) / PAGE_SIZE + 1);
    }
  }

  class ArgPages {
    /** The contents of all thirty-two pages, zero where a page is absent; which pages have been
        allocated; and how many more get_free_page can give. */
    const bytes: array<Byte>
    const present: array<bool>
    var free: nat

    ghost predicate Valid()
      reads this
    {
      bytes.Length == ARG_BYTES && present.Length == MAX_ARG_PAGES
    }

    constructor (free: nat)
      ensures Valid() && fresh(bytes) && fresh(present) && this.free == free
      ensures bytes[..] == seq(ARG_BYTES, _ => 0) && present[..] == seq(MAX_ARG_PAGES, _ => false)
    {
      bytes := new Byte[ARG_BYTES](_ => 0);
      present := new bool[MAX_ARG_PAGES](_ => false);
      this.free := free;
    }

    /** How far copy_strings has come: from top down to p, with the page and offset of p at hand. */
    ghost predicate Copied(was: seq<bool>, had: nat, top: nat, p: nat, offset: int, pag: nat)
      reads this, present
      requires Valid()
    {
      && Given(was, present[..], p, top) && free + Needed(was, p, top) == had
      && (if p == top then offset == 0 else 0 <= offset < PAGE_SIZE && pag * PAGE_SIZE + offset == p)
    }

    /** The page for the byte at p, which is given out if it is absent. */
    method NextPage(p: nat) returns (ok: bool, pag: nat)
      requires Valid() && p < ARG_BYTES
      modifies this`free, present
      ensures pag == p / PAGE_SIZE
      ensures ok <==> old(present[p / PAGE_SIZE]) || old(free) > 0
      ensures ok ==>
                present[..] == old(present[..])[pag := true] && free == old(free) - (if old(present[pag]) then 0 else 1)
      ensures !ok ==> free == old(free) == 0
    {
      pag := p / PAGE_SIZE;
      if !present[pag] {
        if free == 0 {
          return false, pag;
        }
        free := free - 1;
        present[pag] := true;
      }
      ok := true;
      assert present[..] == old(present[..])[pag := true];
    }

    /** One round of the inner loop up to the store: the page and offset of the byte below p. */
    method StepDown(p: nat, offset: int, pag: nat, ghost was: seq<bool>, ghost had: nat, ghost top: nat)
      returns (ok: bool, offset': int, pag': nat)
      requires Valid() && 0 < p <= top <= ARG_BYTES && Copied(was, had, top, p, offset, pag)
      modifies this`free, present
      ensures ok ==> Copied(was, had, top, p - 1, offset', pag') && pag' * PAGE_SIZE + offset' == p - 1
      ensures ok <==> Needed(was, p - 1, top) <= had
    {
      OneByteDown(was, p, top);
      ok, offset', pag' := true, offset - 1, pag;
      if offset' < 0 {
        offset' := (p - 1) % PAGE_SIZE;
        ok, pag' := NextPage(p - 1);
      }
    }

    /** The inner loop of copy_strings: the bytes of s, the last one first, down from p. */
    method CopyDown(s: seq<Byte>, p: nat, offset: int, pag: nat, ghost was: seq<bool>, ghost had: nat, ghost top: nat)
      returns (ok: bool, r: nat, offset': int, pag': nat)
      requires Valid() && |s| <= p <= top <= ARG_BYTES && Copied(was, had, top, p, offset, pag)
      modifies this`free, bytes, present
      ensures ok <==> Needed(was, p - |s|, top) <= had
      ensures ok ==> r == p - |s| && Copied(was, had, top, r, offset', pag') && bytes[..] == Put(old(bytes[..]), r, s)
    {
      hide Needed;
      r, offset', pag' := p, offset, pag;
      var len := |s|;
      while len > 0
        invariant 0 <= len <= |s| && r == p - (|s| - len) && Copied(was, had, top, r, offset', pag')
        invariant bytes[..] == Put(old(bytes[..]), r, s[len..])
      {
        ok, offset', pag' := StepDown(r, offset', pag', was, had, top);
        if !ok {
          NeededLess(was, p - |s|, r - 1, top);
          return;
        }
        r, len := r - 1, len - 1;
        PutDown(old(bytes[..]), r, s, len);
        bytes[pag' * PAGE_SIZE + offset'] := s[len];
      }
      ok := true;
    }

    /** copy_strings: all strings, the last one first; 0 when there is no page for one of them. */
    method CopyStrings(ss: seq<seq<Byte>>, p: nat) returns (r: nat)
      requires Valid() && p <= ARG_BYTES && (p != 0 ==> |Block(ss, 0)| <= p)
      modifies this`free, bytes, present
      ensures r == if p != 0 && Needed(old(present[..]), p - |Block(ss, 0)|, p) <= old(free)
                   then p - |Block(ss, 0)| else 0
      ensures r != 0 ==> bytes[..] == Put(old(bytes[..]), r, Block(ss, 0)) && Given(old(present[..]), present[..], r, p)
      ensures r != 0 ==> free == old(free) - Needed(old(present[..]), r, p)
    {
      if p == 0 {
        return 0;
      }
      r := CopyAll(ss, p);
    }

    method CopyAll(ss: seq<seq<Byte>>, p: nat) returns (r: nat)
      requires Valid() && 0 < p <= ARG_BYTES && |Block(ss, 0)| <= p
      modifies this`free, bytes, present
      ensures r == if Needed(old(present[..]), p - |Block(ss, 0)|, p) <= old(free) then p - |Block(ss, 0)| else 0
      ensures r != 0 ==> bytes[..] == Put(old(bytes[..]), r, Block(ss, 0)) && Given(old(present[..]), present[..], r, p)
      ensures r != 0 ==> free == old(free) - Needed(old(present[..]), r, p)
    {
      r := p;
      var argc, offset, pag, ok := |ss|, 0, 0, true;
      ghost var was, had := present[..], free;
      while argc > 0
        invariant 0 <= argc <= |ss| && |Block(ss, argc)| <= p && r == p - |Block(ss, argc)|
        invariant Copied(was, had, p, r, offset, pag)
        invariant bytes[..] == Put(old(bytes[..]), r, Block(ss, argc))
      {
        BlockStep(ss, argc - 1);
        ghost var above := Block(ss, argc);
        argc := argc - 1;
        ok, r, offset, pag := CopyOne(ss[argc] + [0], r, offset, pag, was, had, p, old(bytes[..]), above);
        if !ok {
          NeededLess(was, p - |Block(ss, 0)|, p - |Block(ss, argc)|, p);
          return 0;
        }
      }
    }

    /** One round of the outer loop of copy_strings: s goes below the bytes already copied over what
        `start` was. */
    method CopyOne(s: seq<Byte>, p: nat, offset: int, pag: nat, ghost was: seq<bool>, ghost had: nat, ghost top: nat,
                   ghost start: seq<Byte>, ghost above: seq<Byte>)
      returns (ok: bool, r: nat, offset': int, pag': nat)
      requires Valid() && |s| <= p && p + |above| == top <= ARG_BYTES == |start|
      requires Copied(was, had, top, p, offset, pag) && bytes[..] == Put(start, p, above)
      modifies this`free, bytes, present
      ensures ok <==> Needed(was, p - |s|, top) <= had
      ensures ok ==> r == p - |s| && Copied(was, had, top, r, offset', pag') && bytes[..] == Put(start, r, s + above)
    {
      ok, r, offset', pag' := CopyDown(s, p, offset, pag, was, had, top);
      if ok {
        PutTwice(start, old(bytes[..]), bytes[..], r, s, above);
      }
    }
  }

  lemma BlockStep(ss: seq<seq<Byte>>, k: nat)
    requires k < |ss|
    ensures Block(ss, k) == ss[k] + [0] + Block(ss, k + 1) && |Block(ss, k)| <= |Block(ss, 0)|
  {
    BlockLengths(ss, k);
  }

  /** The block from a later string on is no longer. */
  lemma {:induction false} BlockLengths(ss: seq<seq<Byte>>, k: nat)
    requires k <= |ss|
    ensures |Block(ss, k)| <= |Block(ss, 0)|
    decreases k
  {
    if k == 0 {
    } else {
      BlockLengths(ss, k - 1);
    }
  }

  // ---------- the pointer tables ----------

  /** The zero-terminated string at address a is s. */
  predicate Reads(bytes: seq<Byte>, a: int, s: seq<Byte>) {
    0 <= a && a + |s| < |bytes| && IsString(s) && bytes[a..a + |s|] == s && bytes[a + |s|] == 0
  }

  /** Where string k begins. */
  function Start(ss: seq<seq<Byte>>, k: nat): (n: nat)
    requires k <= |ss|
  {
    BlockLengths(ss, k);
    |Block(ss, 0)| - |Block(ss, k)|
  }

  /** The strings lie one after the other from address p on. */
  ghost predicate Laid(bytes: seq<Byte>, p: nat, ss: seq<seq<Byte>>) {
    p + |Block(ss, 0)| <= |bytes| && bytes[p..p + |Block(ss, 0)|] == Block(ss, 0)
  }

  lemma {:induction false} BlockTail(ss: seq<seq<Byte>>, k: nat)
    requires k <= |ss|
    ensures Block(ss, 0)[Start(ss, k)..] == Block(ss, k)
    decreases k
  {
    if k == 0 {
    } else {
      BlockTail(ss, k - 1);
      BlockLengths(ss, k);
      var tail := Block(ss, k - 1);
      assert tail == ss[k - 1] + [0] + Block(ss, k);
      assert Start(ss, k) == Start(ss, k - 1) + |ss[k - 1]| + 1;
      assert tail[|ss[k - 1]| + 1..] == Block(ss, k);
      assert Block(ss, 0)[Start(ss, k)..] == Block(ss, 0)[Start(ss, k - 1)..][|ss[k - 1]| + 1..];
    }
  }

  lemma StringAt(bytes: seq<Byte>, p: nat, ss: seq<seq<Byte>>, k: nat)
    requires Laid(bytes, p, ss) && k < |ss| && IsString(ss[k])
    ensures Reads(bytes, p + Start(ss, k), ss[k]) && Start(ss, k + 1) == Start(ss, k) + |ss[k]| + 1
  {
    BlockTail(ss, k);
    BlockLengths(ss, k);
    var all, n := Block(ss, 0), Start(ss, k);
    assert Block(ss, k) == ss[k] + [0] + Block(ss, k + 1);
    forall i | 0 <= i < |Block(ss, k)| ensures bytes[p + n + i] == Block(ss, k)[i] {
      assert all[n + i] == all[n..][i];
      assert bytes[p + (n + i)] == bytes[p..p + |all|][n + i];
    }
    StringHere(bytes, p + n, ss[k], Block(ss, k + 1));
  }

  lemma StringHere(bytes: seq<Byte>, a: nat, s: seq<Byte>, rest: seq<Byte>)
    requires IsString(s) && a + |s| < |bytes| && a + |s| + 1 + |rest| <= |bytes|
    requires forall i :: 0 <= i < |s| + 1 + |rest| ==> bytes[a + i] == (s + [0] + rest)[i]
    ensures Reads(bytes, a, s)
  {
    var got := bytes[a..a + |s|];
    forall i | 0 <= i < |s| ensures got[i] == s[i] {
      assert bytes[a + i] == (s + [0] + rest)[i];
    }
    assert bytes[a + |s|] == (s + [0] + rest)[|s|];
  }

  /** The loop that walks over one string: just past its final zero. */
  method Skip(bytes: seq<Byte>, a: nat, ghost s: seq<Byte>) returns (a': nat)
    requires Reads(bytes, a, s)
    ensures a' == a + |s| + 1
  {
    a' := a;
    while bytes[a'] != 0
      invariant a <= a' <= a + |s|
      decreases a + |s| - a'
    {
      a' := a' + 1;
      assert a' < a + |s| ==> bytes[a'] == bytes[a..a + |s|][a' - a];
    }
    a' := a' + 1;
  }

  /** Entry i of the table at address t is v. */
  predicate Entry(words: map<int, int>, t: int, i: nat, v: int) {
    t + 4 * i in words && words[t + 4 * i] == v
  }

  /** Entry i of the table at t points to string k + i. */
  ghost predicate PointerAt(words: map<int, int>, t: int, base: int, p: nat, ss: seq<seq<Byte>>, k: nat, i: nat)
    requires k + i <= |ss|
  {
    Entry(words, t, i, base + p + Start(ss, k + i))
  }

  /** Entries of the table at t point to strings k, k + 1, ..., which are at p in the argument block
      at address base. */
  ghost predicate Pointers(words: map<int, int>, t: int, n: nat, base: int, p: nat, ss: seq<seq<Byte>>, k: nat) {
    k + n <= |ss| && forall i: nat :: i < n ==> PointerAt(words, t, base, p, ss, k, i)
  }

  /** A whole table: n pointers and a null pointer. */
  ghost predicate Table(words: map<int, int>, t: int, n: nat, base: int, p: nat, ss: seq<seq<Byte>>, k: nat) {
    Pointers(words, t, n, base, p, ss, k) && Entry(words, t, n, 0)
  }

  /** Nothing is written outside lo, ..., hi. */
  ghost predicate Within(words: map<int, int>, words': map<int, int>, lo: int, hi: int) {
    && (forall w :: w in words && !(lo <= w <= hi) ==> w in words' && words'[w] == words[w])
    && (forall w :: w in words' ==> w in words || lo <= w <= hi)
  }

  /** A word behind them does not change the pointers. */
  lemma PointersStay(words: map<int, int>, words': map<int, int>, t: int, n: nat, base: int, p: nat,
                     ss: seq<seq<Byte>>, k: nat, w: int)
    requires Pointers(words, t, n, base, p, ss, k) && words' == words[t + 4 * n := w]
    ensures Pointers(words', t, n, base, p, ss, k)
  {
    forall i: nat | i < n ensures PointerAt(words', t, base, p, ss, k, i) {
      assert PointerAt(words, t, base, p, ss, k, i);
    }
  }

  /** One of the two loops of create_tables. */
  method FillTable(bytes: seq<Byte>, base: int, ghost p: nat, ghost ss: seq<seq<Byte>>, ghost k: nat,
                   words: map<int, int>, t: int, n: nat, a: nat)
    returns (words': map<int, int>, a': nat)
    requires Laid(bytes, p, ss) && AllStrings(ss) && k + n <= |ss| && a == p + Start(ss, k)
    ensures Table(words', t, n, base, p, ss, k) && a' == p + Start(ss, k + n)
    ensures Within(words, words', t, t + 4 * n)
  {
    words', a' := words, a;
    for i := 0 to n
      invariant Pointers(words', t, i, base, p, ss, k) && a' == p + Start(ss, k + i)
      invariant Within(words, words', t, t + 4 * n)
    {
      StringAt(bytes, p, ss, k + i);
      ghost var before := words';
      words' := words'[t + 4 * i := base + a'];
      assert PointerAt(words', t, base, p, ss, k, i);
      PointersStay(before, words', t, i, base, p, ss, k, base + a');
      a' := Skip(bytes, a', ss[k + i]);
    }
    ghost var before := words';
    words' := words'[t + 4 * n := 0];
    PointersStay(before, words', t, n, base, p, ss, k, 0);
  }

  /** create_tables.  `p` is the place of the first string in the argument block, `base` the address
      of the block, `words` what is written below the strings. */
  method CreateTables(bytes: seq<Byte>, base: int, p: nat, argc: nat, envc: nat, ghost ss: seq<seq<Byte>>)
    returns (sp: int, words: map<int, int>)
    requires Laid(bytes, p, ss) && AllStrings(ss) && argc + envc <= |ss|
    ensures sp in words && sp + 4 in words && sp + 8 in words && words[sp] == argc
    ensures Table(words, words[sp + 4], argc, base, p, ss, 0) && Table(words, words[sp + 8], envc, base, p, ss, argc)
    ensures sp % 4 == 0 && forall w :: w in words ==> sp <= w && w + 4 <= base + p
  {
    var top := base + p - (base + p) % 4;
    var envp := top - 4 * (envc + 1);
    var argv := envp - 4 * (argc + 1);
    sp := argv - 12;
    Aligned(base + p, argc, envc);
    words := map[sp + 8 := envp, sp + 4 := argv, sp := argc];
    assert Within(map[], words, sp, sp + 8);
    var a := p;
    words, a := FillTable(bytes, base, p, ss, 0, words, argv, argc, a);
    assert Within(map[], words, sp, envp - 4);
    ghost var first := words;
    words, a := FillTable(bytes, base, p, ss, argc, words, envp, envc, a);
    TableKept(first, words, argv, argc, base, p, ss, envp, envp + 4 * envc);
    assert Within(map[], words, sp, top - 4);
  }

  lemma Aligned(x: int, argc: nat, envc: nat)
    ensures (x - x % 4 - 4 * (envc + 1) - 4 * (argc + 1) - 12) % 4 == 0
  {
    var q := x / 4;
    assert x - x % 4 == 4 * q;
    assert x - x % 4 - 4 * (envc + 1) - 4 * (argc + 1) - 12 == 4 * (q - envc - argc - 5);
  }

  lemma TableKept(words: map<int, int>, words': map<int, int>, t: int, n: nat, base: int, p: nat,
                  ss: seq<seq<Byte>>, lo: int, hi: int)
    requires Table(words, t, n, base, p, ss, 0) && Within(words, words', lo, hi) && t + 4 * n < lo
    ensures Table(words', t, n, base, p, ss, 0)
  {
    forall i: nat | i < n ensures PointerAt(words', t, base, p, ss, 0, i) {
      assert PointerAt(words, t, base, p, ss, 0, i);
    }
  }

  // ---------- do_execve ----------

  lemma {:induction false} BlockConcat(front: seq<seq<Byte>>, back: seq<seq<Byte>>, k: nat)
    requires k <= |front|
    ensures Block(front + back, k) == Block(front, k) + Block(back, 0)
    decreases |front| - k
  {
    if k == |front| {
      BlockShift(front, back, 0);
    } else {
      BlockConcat(front, back, k + 1);
    }
  }

  lemma {:induction false} BlockShift(front: seq<seq<Byte>>, back: seq<seq<Byte>>, k: nat)
    requires k <= |back|
    ensures Block(front + back, |front| + k) == Block(back, k)
    decreases |back| - k
  {
    if k == |back| {
    } else {
      BlockShift(front, back, k + 1);
    }
  }

  /** Strings copied below others make one block. */
  lemma LaidBelow(bytes: seq<Byte>, r: nat, front: seq<seq<Byte>>, back: seq<seq<Byte>>)
    requires Laid(bytes, r + |Block(front, 0)|, back)
    ensures Laid(Put(bytes, r, Block(front, 0)), r, front + back)
  {
    BlockConcat(front, back, 0);
    PutJoins(bytes, r, Block(front, 0), Block(back, 0));
  }

  lemma PutJoins(bytes: seq<Byte>, r: nat, f: seq<Byte>, b: seq<Byte>)
    requires r + |f| + |b| <= |bytes| && bytes[r + |f|..r + |f| + |b|] == b
    ensures Put(bytes, r, f)[r..r + |f| + |b|] == f + b
  {
    var got := Put(bytes, r, f)[r..r + |f| + |b|];
    forall i | 0 <= i < |got| ensures got[i] == (f + b)[i] {
      assert i >= |f| ==> bytes[r + |f|..r + |f| + |b|][i - |f|] == bytes[r + i];
    }
  }

  /** Entry i of the table at t points to the string s. */
  ghost predicate SeesAt(bytes: seq<Byte>, words: map<int, int>, t: int, base: int, i: nat, s: seq<Byte>) {
    t + 4 * i in words && Reads(bytes, words[t + 4 * i] - base, s)
  }

  /** A program that finds the table at t sees exactly these strings. */
  ghost predicate Sees(bytes: seq<Byte>, words: map<int, int>, t: int, base: int, list: seq<seq<Byte>>) {
    && (forall i: nat :: i < |list| ==> SeesAt(bytes, words, t, base, i, list[i]))
    && Entry(words, t, |list|, 0)
  }

  lemma TableSeen(bytes: seq<Byte>, words: map<int, int>, t: int, n: nat, base: int, p: nat, ss: seq<seq<Byte>>, k: nat)
    requires Laid(bytes, p, ss) && AllStrings(ss) && Table(words, t, n, base, p, ss, k)
    ensures Sees(bytes, words, t, base, ss[k..k + n])
  {
    var list := ss[k..k + n];
    forall i: nat | i < n ensures SeesAt(bytes, words, t, base, i, list[i]) {
      assert PointerAt(words, t, base, p, ss, k, i);
      StringAt(bytes, p, ss, k + i);
    }
  }

  /** create_tables, in terms of what the program sees. */
  method ShowTables(bytes: seq<Byte>, base: int, p: nat, argc: nat, envc: nat, ghost ss: seq<seq<Byte>>)
    returns (sp: int, words: map<int, int>)
    requires Laid(bytes, p, ss) && AllStrings(ss) && argc + envc <= |ss|
    ensures sp in words && sp + 4 in words && sp + 8 in words && words[sp] == argc
    ensures Sees(bytes, words, words[sp + 4], base, ss[..argc])
    ensures Sees(bytes, words, words[sp + 8], base, ss[argc..argc + envc])
    ensures forall w :: w in words ==> sp <= w && w + 4 <= base + p
  {
    sp, words := CreateTables(bytes, base, p, argc, envc, ss);
    TableSeen(bytes, words, words[sp + 4], argc, base, p, ss, 0);
    TableSeen(bytes, words, words[sp + 8], envc, base, p, ss, argc);
    assert ss[0..argc] == ss[..argc];
  }

  /** do_execve starts copying just below the end of the block. */
  const TOP: nat := ARG_BYTES - 4

  /** n bytes of strings can be had: they leave room in the block, and there are free pages for those
      that are absent. */
  ghost predicate Fits(was: seq<bool>, had: nat, n: nat)
    requires |was| == MAX_ARG_PAGES && n <= TOP
  {
    n < TOP && Needed(was, TOP - n, TOP) <= had
  }

  lemma FitsLess(was: seq<bool>, had: nat, n: nat, n': nat)
    requires |was| == MAX_ARG_PAGES && n <= n' <= TOP && Fits(was, had, n')
    ensures Fits(was, had, n)
  {
    NeededLess(was, TOP - n', TOP - n, TOP);
  }

  lemma {:induction false} MissingSplit(was: seq<bool>, i: nat, k: nat, j: nat)
    requires i <= k <= j <= |was|
    ensures Missing(was, i, j) == Missing(was, i, k) + Missing(was, k, j)
    decreases k - i
  {
    if i == k {
    } else {
      MissingSplit(was, i + 1, k, j);
    }
  }

  lemma {:induction false} MissingSame(was: seq<bool>, now: seq<bool>, i: nat, j: nat)
    requires i <= j <= |was| == |now| && forall x :: i <= x < j ==> now[x] == was[x]
    ensures Missing(now, i, j) == Missing(was, i, j)
    decreases j - i
  {
    if i == j {
    } else {
      MissingSame(was, now, i + 1, j);
    }
  }

  /** Pages given out for one stretch are there for the stretch below it. */
  lemma NeededJoin(was: seq<bool>, now: seq<bool>, a: nat, b: nat, c: nat)
    requires a <= b <= c <= ARG_BYTES && Given(was, now, b, c)
    ensures Needed(was, a, c) == Needed(was, b, c) + Needed(now, a, b)
  {
    if a < b < c {
      var i, j, k := a / PAGE_SIZE, b / PAGE_SIZE, (c - 1) / PAGE_SIZE + 1;
      var m := (b - 1) / PAGE_SIZE;
      assert i <= m <= j < k && j <= m + 1;
      MissingSplit(was, i, j, k);
      MissingSplit(now, i, j, if m == j then j + 1 else j);
      MissingSame(was, now, i, j);
      assert now[j];
      assert m == j ==> Missing(now, j, j + 1) == Missing(now, j + 1, j + 1);
    } else if b == c {
      MissingSameAll(was, now, a, b);
    }
  }

  lemma MissingSameAll(was: seq<bool>, now: seq<bool>, a: nat, b: nat)
    requires a <= b <= ARG_BYTES && |was| == |now| == MAX_ARG_PAGES
    requires forall x :: 0 <= x < MAX_ARG_PAGES ==> now[x] == was[x]
    ensures Needed(now, a, b) == Needed(was, a, b)
  {
    if a < b {
      MissingSame(was, now, a / PAGE_SIZE, (b - 1) / PAGE_SIZE + 1);
    }
  }

  lemma GivenJoin(was: seq<bool>, mid: seq<bool>, now: seq<bool>, a: nat, b: nat, c: nat)
    requires a <= b <= c <= ARG_BYTES && Given(was, mid, b, c) && Given(mid, now, a, b)
    ensures Given(was, now, a, c)
  {
    if a < b < c {
      var j, m := b / PAGE_SIZE, (b - 1) / PAGE_SIZE;
      assert m <= j <= m + 1;
    }
  }

  /** How far do_execve has come: the strings so far lie just below the top, at the cost of exactly
      the absent pages, or they could not all be had and p is 0. */
  ghost predicate Copying(pages: ArgPages, p: nat, above: seq<seq<Byte>>, was: seq<bool>, had: nat)
    reads pages, pages.bytes, pages.present
  {
    && pages.Valid() && |was| == MAX_ARG_PAGES && |Block(above, 0)| <= TOP
    && (p != 0 <==> Fits(was, had, |Block(above, 0)|))
    && (p != 0 ==>
          && p == TOP - |Block(above, 0)| && Laid(pages.bytes[..], p, above)
          && Given(was, pages.present[..], p, TOP) && pages.free + Needed(was, p, TOP) == had)
  }

  lemma CopyingStarts(pages: ArgPages)
    requires pages.Valid()
    ensures Copying(pages, TOP, [], pages.present[..], pages.free)
  {
    assert Block([], 0) == [];
  }

  /** The strings from one copy_strings call lie below those of the calls before it. */
  method CopyBelow(pages: ArgPages, ss: seq<seq<Byte>>, p: nat, ghost above: seq<seq<Byte>>, ghost was: seq<bool>,
                   ghost had: nat)
    returns (r: nat)
    requires Copying(pages, p, above, was, had) && |Block(ss, 0)| + |Block(above, 0)| <= TOP
    modifies pages`free, pages.bytes, pages.present
    ensures Copying(pages, r, ss + above, was, had)
  {
    BlockLess(ss, above);
    r := pages.CopyStrings(ss, p);
    if p != 0 {
      NeededJoin(was, old(pages.present[..]), p - |Block(ss, 0)|, p, TOP);
      if r != 0 {
        LaidBelow(old(pages.bytes[..]), r, ss, above);
        GivenJoin(was, old(pages.present[..]), pages.present[..], r, p, TOP);
      }
    } else if Fits(was, had, |Block(ss + above, 0)|) {
      FitsLess(was, had, |Block(above, 0)|, |Block(ss + above, 0)|);
    }
  }

  /** Copy some strings to the top of the block, and others below them. */
  method CopyTwo(pages: ArgPages, front: seq<seq<Byte>>, back: seq<seq<Byte>>) returns (p: nat)
    requires pages.Valid() && |Block(front + back, 0)| <= TOP
    modifies pages`free, pages.bytes, pages.present
    ensures Copying(pages, p, front + back, old(pages.present[..]), old(pages.free))
  {
    ghost var was, had := pages.present[..], pages.free;
    BlockLess(front, back);
    CopyingStarts(pages);
    assert back + [] == back && |Block([], 0)| == 0;
    p := CopyBelow(pages, back, TOP, [], was, had);
    p := CopyBelow(pages, front, p, back, was, had);
  }

  /** THE ARGUMENTS COME THROUGH.  do_execve copies the environment, then the arguments, and builds
      the tables.  It succeeds if and only if strings and free pages allow, and then the new program
      sees its own argc, argv and envp. */
  method Exec(pages: ArgPages, args: seq<seq<Byte>>, envs: seq<seq<Byte>>, base: int)
    returns (ok: bool, sp: int, words: map<int, int>)
    requires pages.Valid() && AllStrings(args) && AllStrings(envs) && |Block(args + envs, 0)| <= TOP
    modifies pages`free, pages.bytes, pages.present
    ensures ok <==> Fits(old(pages.present[..]), old(pages.free), |Block(args + envs, 0)|)
    ensures ok ==> sp in words && sp + 4 in words && sp + 8 in words && words[sp] == |args|
    ensures ok ==> Sees(pages.bytes[..], words, words[sp + 4], base, args)
    ensures ok ==> Sees(pages.bytes[..], words, words[sp + 8], base, envs)
    ensures ok ==> forall w :: w in words ==> sp <= w && w + 4 <= base + TOP - |Block(args + envs, 0)|
  {
    var p := CopyTwo(pages, args, envs);
    if p == 0 {
      return false, 0, map[];
    }
    ok := true;
    sp, words := ShowBoth(pages.bytes[..], base, p, args, envs);
  }

  method ShowBoth(bytes: seq<Byte>, base: int, p: nat, args: seq<seq<Byte>>, envs: seq<seq<Byte>>)
    returns (sp: int, words: map<int, int>)
    requires Laid(bytes, p, args + envs) && AllStrings(args) && AllStrings(envs)
    ensures sp in words && sp + 4 in words && sp + 8 in words && words[sp] == |args|
    ensures Sees(bytes, words, words[sp + 4], base, args) && Sees(bytes, words, words[sp + 8], base, envs)
    ensures forall w :: w in words ==> sp <= w && w + 4 <= base + p
  {
    ghost var ss := args + envs;
    assert ss[..|args|] == args;
    assert ss[|args|..|args| + |envs|] == envs;
    sp, words := ShowTables(bytes, base, p, |args|, |envs|, ss);
  }

  // ---------- scripts ----------

  /** The arguments an interpreter is meant to see: its name, its optional argument, the script and
      the script's own arguments. */
  function Script(args: seq<seq<Byte>>, name: seq<Byte>, arg: seq<seq<Byte>>, file: seq<Byte>): seq<seq<Byte>> {
    [name] + (arg + ([file] + (if args == [] then [] else args[1..])))
  }

  /** The argc that do_execve counts for a script: it takes one off for the old argv[0], also when
      there is none. */
  function ScriptArgc(args: seq<seq<Byte>>, arg: seq<seq<Byte>>): int {
    |args| - 1 + 1 + |arg| + 1
  }

  lemma BlockLess(front: seq<seq<Byte>>, back: seq<seq<Byte>>)
    ensures |Block(front + back, 0)| == |Block(front, 0)| + |Block(back, 0)|
  {
    BlockConcat(front, back, 0);
  }

  /** The lengths of a script's strings add up. */
  lemma ScriptLength(args: seq<seq<Byte>>, envs: seq<seq<Byte>>, name: seq<Byte>, arg: seq<seq<Byte>>, file: seq<Byte>)
    ensures var rest := if args == [] then [] else args[1..];
            var all := |Block(Script(args, name, arg, file) + envs, 0)|;
            && Script(args, name, arg, file) + envs == [name] + (arg + ([file] + (rest + envs)))
            && |Block([file] + (rest + envs), 0)| == |Block([file], 0)| + |Block(rest + envs, 0)|
            && all == |Block([name], 0)| + |Block(arg, 0)| + |Block([file] + (rest + envs), 0)|
  {
    var rest := if args == [] then [] else args[1..];
    assert Script(args, name, arg, file) + envs == [name] + (arg + ([file] + (rest + envs)));
    BlockLess([name], arg + ([file] + (rest + envs)));
    BlockLess(arg, [file] + (rest + envs));
    BlockLess([file], rest + envs);
  }

  /** The copies for a script, each below the ones before. */
  method CopyScript(pages: ArgPages, args: seq<seq<Byte>>, envs: seq<seq<Byte>>, name: seq<Byte>, arg: seq<seq<Byte>>,
                    file: seq<Byte>)
    returns (p: nat, argc: int)
    requires pages.Valid() && |arg| <= 1 && |Block(Script(args, name, arg, file) + envs, 0)| <= TOP
    modifies pages`free, pages.bytes, pages.present
    ensures argc == ScriptArgc(args, arg)
    ensures Copying(pages, p, Script(args, name, arg, file) + envs, old(pages.present[..]), old(pages.free))
  {
    ghost var was, had := pages.present[..], pages.free;
    var rest := if args == [] then [] else args[1..];
    ScriptLength(args, envs, name, arg, file);
    argc := |args| - 1;
    p := CopyTwo(pages, rest, envs);
    argc := argc + 1;
    p := CopyBelow(pages, [file], p, rest + envs, was, had);
    var n;
    p, n := CopyInterpreter(pages, name, arg, p, [file] + (rest + envs), was, had);
    argc := argc + n;
  }

  method CopyInterpreter(pages: ArgPages, name: seq<Byte>, arg: seq<seq<Byte>>, p: nat, ghost above: seq<seq<Byte>>,
                         ghost was: seq<bool>, ghost had: nat)
    returns (r: nat, n: nat)
    requires |arg| <= 1 && Copying(pages, p, above, was, had)
    requires |Block([name], 0)| + |Block(arg, 0)| + |Block(above, 0)| <= TOP
    modifies pages`free, pages.bytes, pages.present
    ensures n == |arg| + 1 && Copying(pages, r, [name] + (arg + above), was, had)
  {
    r, n := p, 0;
    BlockLess(arg, above);
    assert [] + above == above;
    if arg != [] {
      r := CopyBelow(pages, arg, r, above, was, had);
      n := n + 1;
    }
    r := CopyBelow(pages, [name], r, arg + above, was, had);
    n := n + 1;
  }

  /** A script: success is as exact as without one, and the interpreter sees the first argc of all the
      strings, and as its environment those that follow. */
  method ExecScript(pages: ArgPages, args: seq<seq<Byte>>, envs: seq<seq<Byte>>, name: seq<Byte>, arg: seq<seq<Byte>>,
                    file: seq<Byte>, base: int)
    returns (ok: bool, sp: int, words: map<int, int>)
    requires pages.Valid() && |arg| <= 1 && AllStrings(Script(args, name, arg, file)) && AllStrings(envs)
    requires |Block(Script(args, name, arg, file) + envs, 0)| <= TOP
    modifies pages`free, pages.bytes, pages.present
    ensures ok <==> Fits(old(pages.present[..]), old(pages.free), |Block(Script(args, name, arg, file) + envs, 0)|)
    ensures ok ==> sp in words && sp + 4 in words && sp + 8 in words && words[sp] == ScriptArgc(args, arg)
    ensures ok ==>
      var ss, argc := Script(args, name, arg, file) + envs, ScriptArgc(args, arg);
      && 0 <= argc && argc + |envs| <= |ss|
      && Sees(pages.bytes[..], words, words[sp + 4], base, ss[..argc])
      && Sees(pages.bytes[..], words, words[sp + 8], base, ss[argc..argc + |envs|])
      && forall w :: w in words ==> sp <= w && w + 4 <= base + TOP - |Block(ss, 0)|
  {
    var p, argc := CopyScript(pages, args, envs, name, arg, file);
    if p == 0 {
      return false, 0, map[];
    }
    ok := true;
    ghost var ss := Script(args, name, arg, file) + envs;
    sp, words := ShowTables(pages.bytes[..], base, p, argc, |envs|, ss);
  }

  /** Interpreter and script get what they should if and only if the script was given an argv[0];
      without one the last string of argv turns up as the first of envp. */
  lemma ScriptArgumentsExact(args: seq<seq<Byte>>, envs: seq<seq<Byte>>, name: seq<Byte>, arg: seq<seq<Byte>>,
                             file: seq<Byte>)
    ensures var script := Script(args, name, arg, file);
            var ss, argc := script + envs, ScriptArgc(args, arg);
            && 0 <= argc && argc + |envs| <= |ss|
            && (ss[..argc] == script && ss[argc..argc + |envs|] == envs <==> args != [])
            && (args == [] && envs != [] ==> ss[argc..argc + |envs|][0] == file)
  {
    var script := Script(args, name, arg, file);
    var ss, argc := script + envs, ScriptArgc(args, arg);
    if args != [] {
      assert ss[..argc] == script && ss[argc..argc + |envs|] == envs;
    } else {
      assert |ss[..argc]| != |script|;
      assert script[argc] == file;
    }
  }
}
