/**
 The `mimir::Block` byte buffer (include/block.h) as an immutable state with
 pure transitions. The header promises behaviour only through its comments,
 so each transition states exactly those promises and nothing more: pointers
 become positions in the content, the caller's destination buffer becomes the
 returned byte sequence, and a sub-block is a copy of the parent's range.
 */
module Blocks {
  import opened Options

  /** What currently backs a block's bytes. */
  datatype Backing =
    | Unloaded                       // no storage: default construction, after unload()
    | Wrapped                        // caller memory from load(void*, size_t); never freed by the block
    | Mapped                         // a file mapped by load(path); write-protected
    | View(parentReadOnly: bool)     // a range of another block's storage, owned by that block
    | Heap                           // malloc'ed memory owned by the block (m_bMalloced)

  /** Logical content, its backing, and the lock reference count (m_lockCount). */
  datatype Block = Block(bytes: seq<bv8>, backing: Backing, lockCount: nat) {

    /** m_bReadOnly: a mapped file, or a view into one, is write-protected. */
    predicate ReadOnly() {
      backing.Mapped? || (backing.View? && backing.parentReadOnly)
    }

    /** m_bMalloced: the block owns heap memory that unload() frees. */
    predicate Malloced() {
      backing.Heap?
    }

    /** An unloaded block holds no bytes. */
    predicate Valid() {
      backing.Unloaded? ==> bytes == []
    }
  }

  /** What unload(), or destruction, gives back to the system. */
  datatype Release = ReleaseNothing | FreeHeap | Unmap

  function Releases(b: Block): (r: Release)
    ensures r == FreeHeap <==> b.Malloced()
    ensures r == Unmap <==> b.backing.Mapped?
    ensures r == ReleaseNothing <==> !b.Malloced() && !b.backing.Mapped?
  {
    match b.backing
    case Heap => FreeHeap
    case Mapped => Unmap
    case _ => ReleaseNothing
  }

  /** Block(): an empty, unloaded block. */
  function Empty(): (r: Block)
    ensures r.Valid() && r.backing.Unloaded? && GetSize(r) == 0 && r.lockCount == 0
  {
    Block([], Unloaded, 0)
  }

  /** getSize(). */
  function GetSize(b: Block): (n: nat)
    ensures n == |b.bytes|
    ensures b.Valid() && b.backing.Unloaded? ==> n == 0
  {
    |b.bytes|
  }

  /** getStart() and getEnd(), as positions in the block's own storage. The
      start addresses the first byte of the content. */
  function GetStart(b: Block): (p: nat)
    ensures p <= |b.bytes| && b.bytes[p..] == b.bytes
  {
    0
  }

  function GetEnd(b: Block): (e: nat)
    ensures GetStart(b) <= e && e - GetStart(b) == GetSize(b)
    ensures b.bytes[GetStart(b)..e] == b.bytes
  {
    |b.bytes|
  }

  /** load(void* data, size_t size): wrap caller memory. The block never
      frees it: unloading or destroying a wrapped block releases nothing. */
  function Load(b: Block, data: seq<bv8>): (r: Block)
    ensures r.Valid() && r.bytes == data && GetSize(r) == |data|
    ensures !r.Malloced() && !r.ReadOnly()
    ensures Releases(r) == ReleaseNothing
    ensures r.lockCount == b.lockCount
  {
    Block(data, Wrapped, b.lockCount)
  }

  /** load(path), with the file's bytes as a parameter: the file system is
      not part of this model. The mapped data is read-only. */
  function LoadFile(b: Block, contents: seq<bv8>): (r: Block)
    ensures r.Valid() && r.bytes == contents
    ensures r.ReadOnly() && !r.Malloced()
    ensures Releases(r) == Unmap
    ensures r.lockCount == b.lockCount
  {
    Block(contents, Mapped, b.lockCount)
  }

  /** append(void* data, size_t size): the first `size` bytes at `data` are
      added at the end; the block becomes read-write heap memory. */
  function Append(b: Block, data: seq<bv8>, size: nat): (r: Block)
    requires size <= |data|
    ensures GetSize(r) == GetSize(b) + size
    ensures r.bytes[..GetSize(b)] == b.bytes
    ensures r.bytes[GetSize(b)..] == data[..size]
    ensures r.Valid() && r.Malloced() && !r.ReadOnly()
    ensures r.lockCount == b.lockCount
  {
    Block(b.bytes + data[..size], Heap, b.lockCount)
  }

  /** append(Block& data): the other block's whole content is added. */
  function AppendBlock(b: Block, other: Block): (r: Block)
    ensures GetSize(r) == GetSize(b) + GetSize(other)
    ensures r.bytes == b.bytes + other.bytes
    ensures r == Append(b, other.bytes, GetSize(other))
    ensures r.Malloced() && !r.ReadOnly()
  {
    Append(b, other.bytes, |other.bytes|)
  }

  /** append(const std::string& s): the string's bytes and then its null
      terminator are added. */
  function AppendString(b: Block, s: seq<bv8>): (r: Block)
    ensures GetSize(r) == GetSize(b) + |s| + 1
    ensures r.bytes == b.bytes + s + [0]
    ensures r.bytes[GetSize(r) - 1] == 0
    ensures r.Valid() && r.Malloced() && !r.ReadOnly()
    ensures r.lockCount == b.lockCount
  {
    Append(b, s + [0], |s| + 1)
  }

  /** expand(size_t size): expand or shrink the block and switch it to
      read-write heap memory (a mapped file is copied before the mapping is
      closed). Because the call can shrink while its argument is unsigned,
      `size` is read as the new total size; the bytes both sizes share are
      kept. The header says nothing
      of the bytes past the old end; they are `unspecified(i)` at position i. */
  function Expand(b: Block, size: nat, unspecified: nat -> bv8): (r: Block)
    ensures GetSize(r) == size
    ensures size <= GetSize(b) ==> r.bytes == b.bytes[..size]
    ensures GetSize(b) <= size ==> r.bytes[..GetSize(b)] == b.bytes
    ensures r.Valid() && r.Malloced() && !r.ReadOnly()
    ensures r.lockCount == b.lockCount
  {
    if size <= |b.bytes| then Block(b.bytes[..size], Heap, b.lockCount)
    else
      var extra := seq(size - |b.bytes|, i requires 0 <= i < size - |b.bytes| => unspecified(|b.bytes| + i));
      Block(b.bytes + extra, Heap, b.lockCount)
  }

  /** unload(): release whatever the block holds (see `Releases`) and become
      empty. Locking is a separate count that unload() leaves alone. */
  function Unload(b: Block): (r: Block)
    ensures r.Valid() && r.backing.Unloaded? && GetSize(r) == 0
    ensures Releases(r) == ReleaseNothing
    ensures r.lockCount == b.lockCount
  {
    Block([], Unloaded, b.lockCount)
  }

  /** getSubBlock(int start, int length): a new block over
      `[start, start + length)` of this one, or null when that range is not
      inside the block. The sub-block owns nothing and shares the parent's
      write protection; the parent, a value here, is unaffected. */
  function GetSubBlock(b: Block, start: int, length: int): (r: Option<Block>)
    ensures r.None? <==> start < 0 || length < 0 || start + length > GetSize(b)
    ensures r.Some? ==>
              && r.value.bytes == b.bytes[start..start + length]
              && GetSize(r.value) == length
              && r.value.ReadOnly() == b.ReadOnly()
              && !r.value.Malloced()
              && Releases(r.value) == ReleaseNothing
              && r.value.lockCount == 0
  {
    if start < 0 || length < 0 || start + length > |b.bytes| then None
    else Some(Block(b.bytes[start..start + length], View(b.ReadOnly()), 0))
  }

  /** getString(): the whole content, embedded zero bytes included. */
  function GetString(b: Block): (r: seq<bv8>)
    ensures |r| == GetSize(b)
    ensures r == Copy(b)
  {
    b.bytes
  }

  /** copy(void* dest): the bytes written to `dest` are the whole content. */
  function Copy(b: Block): (r: seq<bv8>)
    ensures |r| == GetSize(b)
    ensures forall i :: 0 <= i < |r| ==> r[i] == b.bytes[i]
  {
    b.bytes
  }

  /** copy(void* dest, int start, int count): the bytes written to `dest`, or
      `None` (nothing written) when the range is not inside the block. */
  function CopyRange(b: Block, start: int, count: int): (r: Option<seq<bv8>>)
    ensures r.None? <==> start < 0 || count < 0 || start + count > GetSize(b)
    ensures r.Some? ==> |r.value| == count && r.value == b.bytes[start..start + count]
  {
    if start < 0 || count < 0 || start + count > |b.bytes| then None
    else Some(b.bytes[start..start + count])
  }

  /** lock(): one more lock reference; nothing else changes. */
  function Lock(b: Block): (r: Block)
    ensures r.lockCount == b.lockCount + 1
    ensures r.bytes == b.bytes && r.backing == b.backing
  {
    b.(lockCount := b.lockCount + 1)
  }

  /** unlock(): one lock reference fewer. Each unlock() must match an earlier
      lock(). */
  function Unlock(b: Block): (r: Block)
    requires b.lockCount > 0
    ensures r.lockCount == b.lockCount - 1
    ensures r.bytes == b.bytes && r.backing == b.backing
  {
    b.(lockCount := b.lockCount - 1)
  }

  // Relations between the operations

  /** Appended bytes can be read back: the sub-block at the old end is the
      appended data, and the sub-block before it is the old content. */
  lemma AppendThenSubBlock(b: Block, data: seq<bv8>, size: nat)
    requires size <= |data|
    ensures GetSubBlock(Append(b, data, size), GetSize(b), size).Some?
    ensures GetSubBlock(Append(b, data, size), GetSize(b), size).value.bytes == data[..size]
    ensures GetSubBlock(Append(b, data, size), 0, GetSize(b)).value.bytes == b.bytes
  {
  }

  /** The string and its terminator can be read back after a string append:
      the sub-block at the old end is the string, and a zero byte follows it. */
  lemma AppendStringThenSubBlock(b: Block, s: seq<bv8>)
    ensures GetSubBlock(AppendString(b, s), GetSize(b), |s|).Some?
    ensures GetSubBlock(AppendString(b, s), GetSize(b), |s|).value.bytes == s
    ensures CopyRange(AppendString(b, s), GetSize(b) + |s|, 1) == Some([0])
    ensures GetSubBlock(AppendString(b, s), 0, GetSize(b)).value.bytes == b.bytes
  {
    var r := AppendString(b, s);
    assert r.bytes[GetSize(b)..GetSize(b) + |s|] == s;
    assert r.bytes[GetSize(b) + |s|..GetSize(b) + |s| + 1] == [0];
    assert r.bytes[0..GetSize(b)] == b.bytes;
  }

  /** Shrinking back to the old size undoes an append. */
  lemma ExpandUndoesAppend(b: Block, data: seq<bv8>, size: nat, unspecified: nat -> bv8)
    requires size <= |data|
    ensures Expand(Append(b, data, size), GetSize(b), unspecified).bytes == b.bytes
  {
  }

  /** Expanding to the current size only switches the backing: the bytes of a
      mapped or wrapped block are copied unchanged into heap memory. */
  lemma ExpandToSameSizeKeepsBytes(b: Block, unspecified: nat -> bv8)
    ensures Expand(b, GetSize(b), unspecified).bytes == b.bytes
    ensures Expand(b, GetSize(b), unspecified).Malloced()
  {
  }

  /** Two expansions keep the bytes both sizes share with the original. */
  lemma ExpandTwice(b: Block, n: nat, m: nat, f: nat -> bv8, g: nat -> bv8)
    requires n <= m
    ensures var k := if n < GetSize(b) then n else GetSize(b);
            Expand(Expand(b, n, f), m, g).bytes[..k] == b.bytes[..k]
  {
  }

  /** The bytes an expand() keeps do not depend on what the new bytes are. */
  lemma ExpandKeptBytesIndependent(b: Block, size: nat, f: nat -> bv8, g: nat -> bv8)
    ensures var k := if size < GetSize(b) then size else GetSize(b);
            Expand(b, size, f).bytes[..k] == Expand(b, size, g).bytes[..k]
  {
  }

  /** A sub-block of a sub-block is the sub-block at the summed offset. */
  lemma SubBlockOfSubBlock(b: Block, s1: int, l1: int, s2: int, l2: int)
    requires GetSubBlock(b, s1, l1).Some?
    requires GetSubBlock(GetSubBlock(b, s1, l1).value, s2, l2).Some?
    ensures GetSubBlock(b, s1 + s2, l2).Some?
    ensures GetSubBlock(GetSubBlock(b, s1, l1).value, s2, l2).value.bytes
            == GetSubBlock(b, s1 + s2, l2).value.bytes
  {
  }

  /** A range copy writes the sub-block's content, and fails exactly when
      getSubBlock() does. */
  lemma CopyRangeIsSubBlockCopy(b: Block, start: int, count: int)
    ensures CopyRange(b, start, count).Some? <==> GetSubBlock(b, start, count).Some?
    ensures CopyRange(b, start, count).Some? ==>
              CopyRange(b, start, count).value == Copy(GetSubBlock(b, start, count).value)
  {
  }

  /** A second unload() releases nothing and changes nothing. */
  lemma UnloadIdempotent(b: Block)
    ensures Unload(Unload(b)) == Unload(b)
    ensures Releases(Unload(b)) == ReleaseNothing
  {
  }

  /** The ASCII bytes of a string. */
  function Ascii(s: string): (r: seq<bv8>)
    requires forall i :: 0 <= i < |s| ==> s[i] as int < 256
    ensures |r| == |s|
  {
    seq(|s|, i requires 0 <= i < |s| => s[i] as int as bv8)
  }

  /** Appending "hello" and then " world" to an empty block gives 13 bytes,
      each string followed by its terminator, and getString() keeps the
      embedded zero. */
  lemma HelloWorldScenario()
    ensures var hello := Ascii("hello");
            var world := Ascii(" world");
            var b := AppendString(AppendString(Empty(), hello), world);
            && GetSize(b) == 13
            && GetString(b) == hello + [0] + world + [0]
            && GetString(b)[5] == 0
  {
  }
}
