/** Whole runs of file operations on one device, against plain arrays of bytes. */
module FileRuns {
  import opened FileModel
  import opened FileInvariant
  import opened FileBytes
  import opened FileTruncate

  datatype Op = WriteOp(n: nat, base: nat, data: seq<Byte>) | TruncateOp(n: nat)

  predicate Enabled(fs: Fs, op: Op) {
    IsFile(fs, op.n) && (op.WriteOp? ==> op.base + |op.data| <= MAX_BYTES)
  }

  function Apply(fs: Fs, op: Op): (r: Fs)
    requires Enabled(fs, op)
    ensures SameFiles(fs, r)
  {
    match op
    case WriteOp(n, base, data) => Write(fs, n, base, data, 0).fs
    case TruncateOp(n) => Truncate(fs, n)
  }

  /** The bytes an operation reports as written. */
  function Reported(fs: Fs, op: Op): (c: nat)
    requires Enabled(fs, op)
    ensures op.WriteOp? ==> c <= |op.data|
  {
    match op
    case WriteOp(n, base, data) => Write(fs, n, base, data, 0).count
    case TruncateOp(_) => 0
  }

  ghost predicate CanRun(fs: Fs, ops: seq<Op>) {
    forall i :: 0 <= i < |ops| ==> Enabled(fs, ops[i])
  }

  lemma CanRunRest(fs: Fs, ops: seq<Op>)
    requires CanRun(fs, ops) && ops != []
    ensures CanRun(Apply(fs, ops[0]), ops[1..])
  {
    forall i | 0 <= i < |ops[1..]| ensures Enabled(Apply(fs, ops[0]), ops[1..][i]) {
      assert Enabled(fs, ops[i + 1]);
    }
  }

  ghost function After(fs: Fs, ops: seq<Op>): Fs
    requires CanRun(fs, ops)
    decreases |ops|
  {
    if ops == [] then fs
    else
      CanRunRest(fs, ops);
      After(Apply(fs, ops[0]), ops[1..])
  }

  /** What each operation of a run reports. */
  ghost function Reports(fs: Fs, ops: seq<Op>): (cs: seq<nat>)
    requires CanRun(fs, ops)
    ensures |cs| == |ops|
    decreases |ops|
  {
    if ops == [] then []
    else
      CanRunRest(fs, ops);
      [Reported(fs, ops[0])] + Reports(Apply(fs, ops[0]), ops[1..])
  }

  // ---------- a file as a plain array ----------

  datatype Plain = Plain(size: nat, bytes: seq<Byte>)

  ghost function View(fs: Fs, n: nat): (p: Plain)
    requires IsFile(fs, n)
    ensures |p.bytes| == MAX_BYTES && p.size == fs.inodes[n].size
    ensures forall q: nat :: q < MAX_BYTES ==> p.bytes[q] == ByteAt(fs, n, q)
  {
    Plain(fs.inodes[n].size, seq(MAX_BYTES, q requires 0 <= q < MAX_BYTES => ByteAt(fs, n, q)))
  }

  /** The array after an operation that reports c: writes lay their first c bytes over it and extend
      it, truncation empties it. */
  function Changed(p: Plain, op: Op, c: nat, n: nat): (r: Plain)
    requires op.WriteOp? ==> c <= |op.data|
    ensures |p.bytes| == MAX_BYTES ==> |r.bytes| == MAX_BYTES
  {
    if op.n != n then p
    else
      match op
      case TruncateOp(_) => Plain(0, seq(MAX_BYTES, _ => 0))
      case WriteOp(_, base, data) =>
        Plain(if c > 0 && base + c > p.size then base + c else p.size,
              seq(|p.bytes|, q requires 0 <= q < |p.bytes| =>
                    if base <= q < base + c then data[q - base] else p.bytes[q]))
  }

  ghost predicate Fitting(ops: seq<Op>, cs: seq<nat>) {
    |cs| == |ops| && forall i :: 0 <= i < |ops| && ops[i].WriteOp? ==> cs[i] <= |ops[i].data|
  }

  /** The operations folded over a plain array; the device does not appear. */
  ghost function Fold(p: Plain, ops: seq<Op>, cs: seq<nat>, n: nat): Plain
    requires Fitting(ops, cs)
    decreases |ops|
  {
    if ops == [] then p else Fold(Changed(p, ops[0], cs[0], n), ops[1..], cs[1..], n)
  }

  lemma FittingMore(ops: seq<Op>, c: nat, cs: seq<nat>)
    requires ops != [] && Fitting(ops[1..], cs) && (ops[0].WriteOp? ==> c <= |ops[0].data|)
    ensures Fitting(ops, [c] + cs)
  {
    forall i | 0 <= i < |ops| && ops[i].WriteOp? ensures ([c] + cs)[i] <= |ops[i].data| {
      if i > 0 {
        assert ops[i] == ops[1..][i - 1];
      }
    }
  }

  lemma {:induction false} ReportsFit(fs: Fs, ops: seq<Op>)
    requires CanRun(fs, ops)
    ensures Fitting(ops, Reports(fs, ops))
    decreases |ops|
  {
    if ops == [] {
    } else {
      CanRunRest(fs, ops);
      ReportsFit(Apply(fs, ops[0]), ops[1..]);
      FittingMore(ops, Reported(fs, ops[0]), Reports(Apply(fs, ops[0]), ops[1..]));
    }
  }

  lemma ApplyChanges(fs: Fs, op: Op, n: nat)
    requires Inv(fs) && Enabled(fs, op) && IsFile(fs, n)
    ensures Inv(Apply(fs, op)) && View(Apply(fs, op), n) == Changed(View(fs, n), op, Reported(fs, op), n)
  {
    var fs' := Apply(fs, op);
    match op {
      case WriteOp(m, base, data) => WriteRefines(fs, m, base, data, 0);
      case TruncateOp(m) => TruncateTheorem(fs, m);
    }
    if op.n != n {
      assert SameBytes(fs, fs', n);
      assert View(fs', n).bytes == View(fs, n).bytes;
    } else {
      ChangedBytes(fs, op);
    }
  }

  lemma ChangedBytes(fs: Fs, op: Op)
    requires Enabled(fs, op)
    requires op.WriteOp? ==> Wrote(fs, Apply(fs, op), op.n, op.base, op.data, 0, Reported(fs, op))
    requires op.TruncateOp? ==> Emptied(fs, Apply(fs, op), op.n)
    ensures View(Apply(fs, op), op.n) == Changed(View(fs, op.n), op, Reported(fs, op), op.n)
  {
    var fs', c := Apply(fs, op), Reported(fs, op);
    var p, p' := View(fs, op.n), View(fs', op.n);
    var r := Changed(p, op, c, op.n);
    forall q: nat | q < MAX_BYTES ensures p'.bytes[q] == r.bytes[q] {
      assert p'.bytes[q] == ByteAt(fs', op.n, q);
    }
    assert p'.bytes == r.bytes;
  }

  /** EVERY FILE IS ITS OWN HISTORY.  Starting from a consistent disk, ownership of zones stays exact
      through every run, and the size and bytes of every file are those of a plain array to which the
      same operations were applied. */
  lemma {:induction false} RunIsFold(fs: Fs, ops: seq<Op>, n: nat)
    requires Inv(fs) && CanRun(fs, ops) && IsFile(fs, n)
    ensures Inv(After(fs, ops)) && IsFile(After(fs, ops), n) && Fitting(ops, Reports(fs, ops))
    ensures View(After(fs, ops), n) == Fold(View(fs, n), ops, Reports(fs, ops), n)
    decreases |ops|
  {
    ReportsFit(fs, ops);
    if ops == [] {
    } else {
      ApplyChanges(fs, ops[0], n);
      CanRunRest(fs, ops);
      RunIsFold(Apply(fs, ops[0]), ops[1..], n);
      assert Reports(fs, ops)[1..] == Reports(Apply(fs, ops[0]), ops[1..]);
    }
  }

  lemma {:induction false} FoldKeeps(p: Plain, ops: seq<Op>, cs: seq<nat>, n: nat)
    requires Fitting(ops, cs) && forall op <- ops :: op.n != n
    ensures Fold(p, ops, cs, n) == p
    decreases |ops|
  {
    if ops == [] {
    } else {
      assert ops[0] in ops;
      FoldKeeps(p, ops[1..], cs[1..], n);
    }
  }

  /** A file that no operation of the run names keeps its size and all of its bytes. */
  lemma RunKeeps(fs: Fs, ops: seq<Op>, n: nat)
    requires Inv(fs) && CanRun(fs, ops) && IsFile(fs, n) && forall op <- ops :: op.n != n
    ensures SameBytes(fs, After(fs, ops), n)
  {
    RunIsFold(fs, ops, n);
    FoldKeeps(View(fs, n), ops, Reports(fs, ops), n);
    forall q: nat | q < MAX_BYTES ensures ByteAt(After(fs, ops), n, q) == ByteAt(fs, n, q) {
      assert View(After(fs, ops), n).bytes[q] == View(fs, n).bytes[q];
    }
  }

  lemma ReadIsSlice(fs: Fs, n: nat, pos: nat, count: nat)
    requires IsFile(fs, n) && pos + count <= MAX_BYTES
    ensures Read(fs, n, pos, count) == View(fs, n).bytes[pos..pos + count]
  {
    ReadRefines(fs, n, pos, count);
    var p, got := View(fs, n), Read(fs, n, pos, count);
    forall k: nat | k < count ensures got[k] == p.bytes[pos + k] {
      assert got[k] == ByteAt(fs, n, pos + k);
    }
  }

  /** A read at the end of a run gives the slice of that array. */
  lemma RunReads(fs: Fs, ops: seq<Op>, n: nat, pos: nat, count: nat)
    requires Inv(fs) && CanRun(fs, ops) && IsFile(fs, n) && pos + count <= MAX_BYTES
    ensures IsFile(After(fs, ops), n) && Fitting(ops, Reports(fs, ops))
    ensures var p := Fold(View(fs, n), ops, Reports(fs, ops), n);
            |p.bytes| == MAX_BYTES && Read(After(fs, ops), n, pos, count) == p.bytes[pos..pos + count]
  {
    RunIsFold(fs, ops, n);
    ReadIsSlice(After(fs, ops), n, pos, count);
  }
}
