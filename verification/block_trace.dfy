/**
 Sequences of calls on one `mimir::Block` (include/block.h). A trace is run
 call by call; an unlock() without a matching lock() is a usage error and
 stops the run. The lemmas state what holds over whole traces: where the
 read-only flag can be cleared, that caller memory is never freed, how the
 lock count evolves, and what a run of appends produces.
 */
module BlockTrace {
  import opened Options
  import B = Blocks

  /** The calls that change a block's state. */
  datatype Op =
    | LoadMemory(data: seq<bv8>)
    | LoadFile(contents: seq<bv8>)
    | Append(data: seq<bv8>)
    | AppendBlock(other: B.Block)
    | AppendString(s: seq<bv8>)
    | Expand(size: nat, unspecified: nat -> bv8)
    | Unload
    | Lock
    | Unlock

  /** The calls the header says make the block read-write heap memory. */
  predicate Mutates(op: Op) {
    op.Append? || op.AppendBlock? || op.AppendString? || op.Expand?
  }

  /** One call, or `None` for an unlock() with no lock outstanding. */
  function Step(b: B.Block, op: Op): (r: Option<B.Block>)
    ensures r.None? <==> op.Unlock? && b.lockCount == 0
    ensures r.Some? && Mutates(op) ==> r.value.Malloced() && !r.value.ReadOnly()
    ensures r.Some? && b.Valid() ==> r.value.Valid()
  {
    match op
    case LoadMemory(data) => Some(B.Load(b, data))
    case LoadFile(contents) => Some(B.LoadFile(b, contents))
    case Append(data) => Some(B.Append(b, data, |data|))
    case AppendBlock(other) => Some(B.AppendBlock(b, other))
    case AppendString(s) => Some(B.AppendString(b, s))
    case Expand(size, f) => Some(B.Expand(b, size, f))
    case Unload => Some(B.Unload(b))
    case Lock => Some(B.Lock(b))
    case Unlock => if b.lockCount == 0 then None else Some(B.Unlock(b))
  }

  /** The calls of `ops` in order, stopping at the first usage error. */
  function Run(b: B.Block, ops: seq<Op>): Option<B.Block>
    decreases |ops|
  {
    if |ops| == 0 then Some(b)
    else
      match Step(b, ops[0])
      case None => None
      case Some(b1) => Run(b1, ops[1..])
  }

  /** Running two traces one after the other is running their concatenation. */
  lemma {:induction false} RunConcat(b: B.Block, xs: seq<Op>, ys: seq<Op>)
    ensures Run(b, xs + ys) == (match Run(b, xs) case None => None case Some(b1) => Run(b1, ys))
    decreases |xs|
  {
    if |xs| == 0 {
      assert xs + ys == ys;
    } else {
      assert (xs + ys)[0] == xs[0];
      assert (xs + ys)[1..] == xs[1..] + ys;
      match Step(b, xs[0])
      case None =>
      case Some(b1) => RunConcat(b1, xs[1..], ys);
    }
  }

  /** Every state a run reaches from a valid state is valid. */
  lemma {:induction false} RunKeepsValid(b: B.Block, ops: seq<Op>)
    requires b.Valid()
    ensures Run(b, ops).Some? ==> Run(b, ops).value.Valid()
    decreases |ops|
  {
    if |ops| > 0 && Step(b, ops[0]).Some? {
      RunKeepsValid(Step(b, ops[0]).value, ops[1..]);
    }
  }

  /** The calls that may take a read-only block out of read-only mode: the
      mutating calls, unload(), and re-loading from caller memory. */
  predicate ClearsReadOnly(op: Op) {
    Mutates(op) || op.Unload? || op.LoadMemory?
  }

  /** A read-only block (one loaded from a file) stays read-only through any
      trace without append(), expand(), unload() or load(void*, size_t). */
  lemma {:induction false} ReadOnlyUntilMutated(b: B.Block, ops: seq<Op>)
    requires b.ReadOnly()
    requires forall i :: 0 <= i < |ops| ==> !ClearsReadOnly(ops[i])
    ensures Run(b, ops).Some? ==> Run(b, ops).value.ReadOnly()
    decreases |ops|
  {
    if |ops| > 0 {
      match Step(b, ops[0])
      case None =>
      case Some(b1) =>
        assert b1.ReadOnly();
        ReadOnlyUntilMutated(b1, ops[1..]);
    }
  }

  /** Once a trace has an append() or expand() whose result is not reloaded
      or unloaded afterwards, the block ends read-write heap memory. */
  lemma {:induction false} MutationMakesReadWrite(b: B.Block, ops: seq<Op>, k: nat)
    requires k < |ops| && Mutates(ops[k])
    requires forall i :: k < i < |ops| ==> ops[i].Lock? || ops[i].Unlock?
    ensures Run(b, ops).Some? ==> Run(b, ops).value.Malloced() && !Run(b, ops).value.ReadOnly()
  {
    assert ops == ops[..k + 1] + ops[k + 1..];
    RunConcat(b, ops[..k + 1], ops[k + 1..]);
    var prefix := ops[..k + 1];
    assert prefix == ops[..k] + [ops[k]];
    RunConcat(b, ops[..k], [ops[k]]);
    match Run(b, ops[..k])
    case None =>
    case Some(bk) =>
      match Step(bk, ops[k])
      case None =>
      case Some(bm) =>
        assert Run(b, prefix) == Some(bm);
        LocksKeepState(bm, ops[k + 1..]);
  }

  /** Only lock() and unlock(): the content and backing are untouched. */
  lemma {:induction false} LocksKeepState(b: B.Block, ops: seq<Op>)
    requires forall i :: 0 <= i < |ops| ==> ops[i].Lock? || ops[i].Unlock?
    ensures Run(b, ops).Some? ==>
              Run(b, ops).value.bytes == b.bytes && Run(b, ops).value.backing == b.backing
    decreases |ops|
  {
    if |ops| > 0 {
      match Step(b, ops[0])
      case None =>
      case Some(b1) => LocksKeepState(b1, ops[1..]);
    }
  }

  /** A block wrapping caller memory never frees anything until an append()
      or expand() has given it memory of its own, or it maps a file. */
  lemma {:induction false} WrappedMemoryNeverFreed(b: B.Block, data: seq<bv8>, ops: seq<Op>)
    requires forall i :: 0 <= i < |ops| ==> !Mutates(ops[i]) && !ops[i].LoadFile?
    ensures Run(B.Load(b, data), ops).Some? ==>
              B.Releases(Run(B.Load(b, data), ops).value) == B.ReleaseNothing
  {
    NothingOwnedStaysSo(B.Load(b, data), ops);
  }

  /** Helper for the above: ownership is only acquired by mapping or by
      allocating. */
  lemma {:induction false} NothingOwnedStaysSo(b: B.Block, ops: seq<Op>)
    requires b.backing.Wrapped? || b.backing.Unloaded?
    requires forall i :: 0 <= i < |ops| ==> !Mutates(ops[i]) && !ops[i].LoadFile?
    ensures Run(b, ops).Some? ==>
              Run(b, ops).value.backing.Wrapped? || Run(b, ops).value.backing.Unloaded?
    decreases |ops|
  {
    if |ops| > 0 {
      match Step(b, ops[0])
      case None =>
      case Some(b1) => NothingOwnedStaysSo(b1, ops[1..]);
    }
  }

  /** Number of lock() calls in a trace. */
  function Locks(ops: seq<Op>): nat
    decreases |ops|
  {
    if |ops| == 0 then 0 else (if ops[0].Lock? then 1 else 0) + Locks(ops[1..])
  }

  /** Number of unlock() calls in a trace. */
  function Unlocks(ops: seq<Op>): nat
    decreases |ops|
  {
    if |ops| == 0 then 0 else (if ops[0].Unlock? then 1 else 0) + Unlocks(ops[1..])
  }

  /** After any successful run the lock count is the starting count plus the
      lock() calls minus the unlock() calls. */
  lemma {:induction false} LockCountBalance(b: B.Block, ops: seq<Op>)
    ensures Run(b, ops).Some? ==>
              Run(b, ops).value.lockCount == b.lockCount + Locks(ops) - Unlocks(ops)
    decreases |ops|
  {
    if |ops| > 0 {
      match Step(b, ops[0])
      case None =>
      case Some(b1) => LockCountBalance(b1, ops[1..]);
    }
  }

  /** `n` copies of one call. */
  function Repeat(op: Op, n: nat): (r: seq<Op>)
    ensures |r| == n && forall i :: 0 <= i < n ==> r[i] == op
  {
    seq(n, _ => op)
  }

  /** `k` lock() calls followed by `j <= k` unlock() calls succeed, leave the
      lock count raised by `k - j`, and change nothing else. */
  lemma LocksThenUnlocks(b: B.Block, k: nat, j: nat)
    requires j <= b.lockCount + k
    ensures Run(b, Repeat(Lock, k) + Repeat(Unlock, j)) == Some(b.(lockCount := b.lockCount + k - j))
  {
    RunConcat(b, Repeat(Lock, k), Repeat(Unlock, j));
    RunLocks(b, k);
    RunUnlocks(b.(lockCount := b.lockCount + k), j);
  }

  lemma {:induction false} RunLocks(b: B.Block, k: nat)
    ensures Run(b, Repeat(Lock, k)) == Some(b.(lockCount := b.lockCount + k))
    decreases k
  {
    if k > 0 {
      assert Repeat(Lock, k)[1..] == Repeat(Lock, k - 1);
      RunLocks(b.(lockCount := b.lockCount + 1), k - 1);
    }
  }

  lemma {:induction false} RunUnlocks(b: B.Block, j: nat)
    requires j <= b.lockCount
    ensures Run(b, Repeat(Unlock, j)) == Some(b.(lockCount := b.lockCount - j))
    decreases j
  {
    if j > 0 {
      assert Repeat(Unlock, j)[1..] == Repeat(Unlock, j - 1);
      RunUnlocks(b.(lockCount := b.lockCount - 1), j - 1);
    }
  }

  /** The three append() overloads. */
  predicate IsAppend(op: Op) {
    op.Append? || op.AppendBlock? || op.AppendString?
  }

  /** The bytes one append() call adds: the data, the other block's
      content, or the string followed by its terminator. */
  function Chunk(op: Op): seq<bv8>
    requires IsAppend(op)
  {
    match op
    case Append(data) => data
    case AppendBlock(other) => other.bytes
    case AppendString(s) => s + [0]
  }

  /** The bytes a run of append() calls adds, in order. */
  function Chunks(ops: seq<Op>): seq<bv8>
    requires forall i :: 0 <= i < |ops| ==> IsAppend(ops[i])
    decreases |ops|
  {
    if |ops| == 0 then [] else Chunk(ops[0]) + Chunks(ops[1..])
  }

  /** One append() call adds its chunk. */
  lemma StepAppendsChunk(b: B.Block, op: Op) returns (b1: B.Block)
    requires IsAppend(op)
    ensures Step(b, op) == Some(b1) && b1.bytes == b.bytes + Chunk(op)
  {
    b1 := Step(b, op).value;
    match op
    case Append(data) => assert data[..|data|] == data;
    case AppendBlock(other) =>
    case AppendString(s) =>
  }

  /** A run of append() calls of any of the three kinds, from any backing,
      ends with the old content followed by every chunk, and with the sum of
      the sizes. */
  lemma {:induction false} AppendsConcatenate(b: B.Block, ops: seq<Op>)
    requires forall i :: 0 <= i < |ops| ==> IsAppend(ops[i])
    ensures Run(b, ops).Some?
    ensures Run(b, ops).value.bytes == b.bytes + Chunks(ops)
    ensures B.GetSize(Run(b, ops).value) == B.GetSize(b) + |Chunks(ops)|
    decreases |ops|
  {
    if |ops| > 0 {
      var b1 := StepAppendsChunk(b, ops[0]);
      RunAfterStep(b, ops, b1);
      AppendsConcatenate(b1, ops[1..]);
      var rest := Chunks(ops[1..]);
      assert Chunks(ops) == Chunk(ops[0]) + rest;
      ConcatAssoc(b.bytes, Chunk(ops[0]), rest);
    }
  }

  /** Concatenation of byte sequences is associative. */
  lemma ConcatAssoc(x: seq<bv8>, y: seq<bv8>, z: seq<bv8>)
    ensures x + y + z == x + (y + z)
  {
  }

  /** A run whose first call succeeds continues from that call's result. */
  lemma RunAfterStep(b: B.Block, ops: seq<Op>, b1: B.Block)
    requires |ops| > 0 && Step(b, ops[0]) == Some(b1)
    ensures Run(b, ops) == Run(b1, ops[1..])
  {
  }

  /** Only calls that replace the content or append()/expand() can make a
      block larger: getSize() grows through no other call. */
  lemma SizeGrowsOnlyByMutation(b: B.Block, op: Op)
    requires Step(b, op).Some? && B.GetSize(Step(b, op).value) > B.GetSize(b)
    ensures Mutates(op) || op.LoadMemory? || op.LoadFile?
  {
  }
}
