# mimir Block and path helpers in Dafny

A model of two pieces of the Kraken Engine's `mimir` library:

- the path-string helpers `GetFileExtension`, `GetFileBase` and `GetFilePath`
  of `mimir::util` (module `PathUtil`, file `path_util.dfy`), as total
  functions over `string`, with `LastIndexOf` standing for
  `std::string::find_last_of` with a one-character argument (`None` is `npos`);
- the `mimir::Block` byte buffer, whose behaviour is known only through the
  comments of its header. `Blocks` (`block.dfy`) is an immutable `Block`
  value — content `bytes: seq<bv8>`, a `Backing` (unloaded, wrapped caller
  memory, mapped file, view into another block, or heap) and the lock count —
  with one pure transition per public operation. The read-only flag
  (`m_bReadOnly`) and the heap-ownership flag (`m_bMalloced`) are derived from
  the backing, so the switch from a mapped, read-only file to read-write heap
  memory is an explicit change of `Backing`. `BlockTrace`
  (`block_trace.dfy`) runs sequences of calls and proves what holds over
  whole traces. `Options` (`options.dfy`) holds the `Option` type used for
  `npos` and for a null `Block*`.

Pointers become positions in the content: `getStart()` is position 0 and
`getEnd()` is the size. The destination buffer of `copy` becomes the returned
byte sequence, and a sub-block is a copy of the parent's range. Sizes are
unbounded naturals.

Two promises of the header shape the model:
- `append(const std::string&)` always includes the null terminator
  (include/block.h:68), so appending "hello" and then " world" to an empty
  block gives 13 bytes (`Blocks.HelloWorldScenario`).
- The header does not say that `expand()` zero-fills the new bytes. The model
  makes their contents a parameter (`unspecified`) and claims nothing about
  them.

The header does not say what happens when `getSubBlock` or the range `copy`
is given a range outside the block. The model answers `None`, which stands
for a null `Block*` or for nothing being written, exactly when `start < 0`,
the length is negative, or `start + length` exceeds the size. A sub-block
points into its parent's storage, so the model gives it the parent's write
protection and makes it own nothing; it starts unlocked.

## Model

| member | source | states |
|---|---|---|
| PathUtil.LastIndexOf | src/util.cpp:41-42 | `None` exactly when the character is absent; otherwise an index holding it with no later occurrence |
| PathUtil.LastIndexOfUnique | src/util.cpp:41-42 | any index holding the character with none after it is the one `find_last_of` reports |
| PathUtil.LastIndexOfSuffix | src/util.cpp:56-62 | when the character occurs in a suffix, the last occurrence in the whole string is the suffix's last occurrence shifted by the suffix's start |
| PathUtil.GetFileExtension | src/util.cpp:39-46 | empty when the name has no `.`; otherwise the dot-free suffix that directly follows a `.` of the name, i.e. the text after the last `.` |
| PathUtil.NormalizeSeparators | src/util.cpp:52-53 | same length, no `\` left, each `\` becomes `/` and every other character is kept |
| PathUtil.NormalizeWithoutBackslash | src/util.cpp:52-53 | a name without `\` is unchanged by the normalisation |
| PathUtil.StripDirectory | src/util.cpp:55-58 | a `/`-free suffix of the name; the whole name when it has no `/`, otherwise the text directly after a `/` |
| PathUtil.StripExtension | src/util.cpp:60-63 | a prefix of the component; the whole component when it has no `.`, otherwise it stops at a `.` after which no `.` occurs |
| PathUtil.GetFileBase | src/util.cpp:48-66 | contains neither `/` nor `\`; a prefix of the last component of the normalised name, shorter than it exactly when that component has a `.` |
| PathUtil.GetFilePath | src/util.cpp:68-75 | empty when the name has no `/`; otherwise the name is the result, a `/`, and a `/`-free rest |
| PathUtil.PathSplitsAtLastSlash | src/util.cpp:68-75 | a name with a `/` is `GetFilePath` + `/` + its last component |
| PathUtil.GetFileBaseIgnoresSeparatorStyle | src/util.cpp:50-53 | normalising is idempotent, so a name and its normalised form have the same base |
| PathUtil.SplitsAtLastDot | src/util.cpp:41-42 | a string with a `.` is its extension-stripped prefix, `.`, and its extension |
| PathUtil.ExtensionInLastComponent | src/util.cpp:39-46 | when the last component has a `.`, the extension of the whole name is that of the component |
| PathUtil.ComponentIsBaseDotExtension | src/util.cpp:39-66 | for a name without `\` whose last component has a `.`, that component is `GetFileBase` + `.` + `GetFileExtension` |
| PathUtil.GetFileBaseStripsLastDotOnly | src/util.cpp:60-63 | only the last dot is stripped: `"a.b.c"` has base `"a.b"` |
| PathUtil.GetFileBaseOfDotFile | src/util.cpp:60-63 | a leading-dot name `".x"` has the empty base |
| PathUtil.GetFileExtensionCrossesSlash | src/util.cpp:41-42 | `/` is not special: the extension of `"dir.d/file"` is `"d/file"` |
| PathUtil.BackslashOnlyPath | src/util.cpp:68-75 | `GetFilePath` does not normalise: `"dir\file"` has the empty path but the base `"file"` |
| Blocks.Releases | include/block.h:74-75 | what unload() gives back: heap memory is freed, a file mapping is unmapped, and otherwise nothing is released |
| Blocks.GetSize | include/block.h:83-84 | the number of content bytes; zero for an unloaded block |
| Blocks.GetStart | include/block.h:77-78 | the start addresses the first byte: the content from there on is the whole content |
| Blocks.Empty | include/block.h:46 | a new block is unloaded, valid, empty and unlocked |
| Blocks.GetEnd | include/block.h:77-84 | `getEnd() - getStart() == getSize()`, and the range between them is the whole content |
| Blocks.Load | include/block.h:50-51 | wraps exactly the caller's bytes, not owned and read-write; unloading it releases nothing |
| Blocks.LoadFile | include/block.h:53-54 | content is the file's bytes; the block is read-only and owns a mapping, not heap memory |
| Blocks.Append | include/block.h:62-63 | size grows by exactly `size`; old content is a prefix and the first `size` bytes of the data follow; read-write heap memory afterwards |
| Blocks.AppendBlock | include/block.h:65-66 | content is the old content followed by the other block's; size is the sum; read-write afterwards |
| Blocks.AppendString | include/block.h:68-69 | content is the old content, the string's bytes, then a zero byte; size grows by the length plus one; read-write heap memory afterwards, lock count kept |
| Blocks.Expand | include/block.h:71-72 | size becomes exactly the requested size, growing or shrinking; the shared prefix is kept; read-write heap memory afterwards |
| Blocks.Unload | include/block.h:74-75 | the block is empty and unloaded and owns nothing; the lock count is kept |
| Blocks.GetSubBlock | include/block.h:59-60 | null exactly for a range outside the block; otherwise the content is that range, the sub-block owns nothing and shares the parent's write protection, and it starts unlocked |
| Blocks.GetString | include/block.h:86-87 | the full content, as long as the block, with no truncation |
| Blocks.Copy | include/block.h:89-90 | writes every byte of the content, in order |
| Blocks.CopyRange | include/block.h:92-93 | nothing written exactly for a range outside the block; otherwise exactly `count` bytes of that range |
| Blocks.Lock | include/block.h:95-96 | the lock count rises by one; content and backing are unchanged |
| Blocks.Unlock | include/block.h:98-99 | the lock count falls by one; content and backing are unchanged |
| Blocks.AppendThenSubBlock | include/block.h:59-63 | the sub-block at the old end of an appended block is the appended data, and the one before it is the old content |
| Blocks.AppendStringThenSubBlock | include/block.h:68-69 | after a string append, the sub-block at the old end is the string, one zero byte follows it, and the old content precedes it |
| Blocks.ExpandUndoesAppend | include/block.h:62-72 | shrinking to the old size after an append restores the old content |
| Blocks.ExpandToSameSizeKeepsBytes | include/block.h:71-72 | the mapped-to-heap switch copies the content unchanged |
| Blocks.ExpandTwice | include/block.h:71-72 | two expansions, the second not smaller, keep the bytes shared with the original |
| Blocks.ExpandKeptBytesIndependent | include/block.h:71-72 | the kept bytes do not depend on the contents of new bytes |
| Blocks.SubBlockOfSubBlock | include/block.h:59-60 | a sub-block of a sub-block is the parent's sub-block at the summed offset |
| Blocks.CopyRangeIsSubBlockCopy | include/block.h:92-93 | a range copy fails exactly when getSubBlock does, and otherwise writes that sub-block's content |
| Blocks.UnloadIdempotent | include/block.h:74-75 | a second unload releases nothing and changes nothing |
| Blocks.HelloWorldScenario | include/block.h:68-69 | "hello" then " world" appended as strings give 13 bytes with both terminators, the first at position 5 |
| BlockTrace.Step | include/block.h:50-99 | a call fails only as an unlock with no lock held; every mutating call leaves read-write heap memory; validity is kept |
| BlockTrace.RunConcat | include/block.h:50-99 | running two traces in turn is running their concatenation |
| BlockTrace.RunKeepsValid | include/block.h:50-99 | every state reached from a valid state is valid |
| BlockTrace.ReadOnlyUntilMutated | include/block.h:53-54 | a read-only block stays read-only through any trace without append, expand, unload or load of caller memory |
| BlockTrace.MutationMakesReadWrite | include/block.h:62-72 | after an append or expand followed only by lock and unlock calls, the block is read-write heap memory |
| BlockTrace.LocksKeepState | include/block.h:95-99 | lock and unlock never change the content or backing |
| BlockTrace.WrappedMemoryNeverFreed | include/block.h:50-51 | a block wrapping caller memory releases nothing through any trace that neither mutates nor maps a file |
| BlockTrace.NothingOwnedStaysSo | include/block.h:50-51 | without a mutation or a file mapping, a wrapped or unloaded block stays wrapped or unloaded |
| BlockTrace.LockCountBalance | include/block.h:121-122 | after a successful run the lock count is the start plus the locks minus the unlocks |
| BlockTrace.LocksThenUnlocks | include/block.h:95-99 | `k` locks then `j` unlocks, `j` not exceeding what is held, succeed with the count raised by `k - j` and nothing else changed |
| BlockTrace.RunLocks | include/block.h:95-96 | `k` locks raise the count by `k` |
| BlockTrace.RunUnlocks | include/block.h:98-99 | `j` unlocks with at least `j` held lower the count by `j` |
| BlockTrace.StepAppendsChunk | include/block.h:62-69 | each append overload adds its chunk: the data, the other block's content, or the string and its terminator |
| BlockTrace.AppendsConcatenate | include/block.h:62-69 | a run mixing all three append overloads, from any backing, gives the old content followed by every chunk, and the summed size |
| BlockTrace.SizeGrowsOnlyByMutation | include/block.h:83-84 | a call that makes the block larger is an append, an expand, or a load that replaces the content |

## Left out

- `load(const std::string& path)` touches the file system and `mmap`: `Blocks.LoadFile` takes the file's bytes as a parameter, and I/O failures are not modelled.
- `save(const std::string& path)` is file I/O and is not modelled.
- `init()`, the platform handles `m_hPackFile`, `m_hFileMapping` and `m_fdPackFile`, and the file name `m_fileName` are OS plumbing with no promise in the header.
- `assertLocked()` and what locking means to the OS (residency, contiguity) are not modelled; only the counter is.
- A sub-block is a copy of the parent's range. Shared memory between the two (`m_fileOwnerDataBlock`, `m_data_offset`) and the parent's lifetime are not modelled.
- `Blocks.Load`: the `bool` result of `load(void*, size_t)` is not modelled, since there are no null pointers in the model.
- `Blocks.Unlock`: requires a lock to be held. The header does not say what an unbalanced unlock does; in `BlockTrace.Step` it is a usage error that stops the run.
- `Blocks.Expand`: states nothing about the bytes past the old size, and no over-allocation policy, because the header promises neither. Its `size` argument is read as the new total size because the header says the call can also shrink the block; the header does not rule out reading it as a number of bytes to add.
- `Blocks.AppendBlock`: the appended data, like that of `Blocks.Append`, is read as a value taken before the call. A call whose data aliases the block's own storage, such as a block appended to itself, is not modelled as the memory operation it is.
- `Blocks.Unload` and `Blocks.Load` keep the lock count. The header does not say whether unloading resets it.
- `BlockTrace.ReadOnlyUntilMutated`: the model lets `unload()` and `load(void*, size_t)` end read-only mode, since both discard the mapped data; the header names only `append()` and `expand()`.
- `Blocks.GetSubBlock`: returns `None` (a null `Block*`) for a range outside the block, and the sub-block takes its parent's write protection and starts unlocked; the header states none of these.
- `Blocks.CopyRange`: returns `None` (nothing written) for a range outside the block; the header does not say what such a call does.
- `PathUtil.GetFileBase`, `PathUtil.GetFileExtension`, `PathUtil.GetFilePath`: `std::string` holds bytes while the model uses `char`; the results agree for UTF-8 names because `.`, `/` and `\` are single ASCII bytes that never occur inside a multi-byte sequence.
- `size_t` and `int` wrap-around are not modelled: sizes and offsets are unbounded integers.
- `getString()` returns the content bytes unchanged; no text encoding is modelled.
- The `Block(void*, size_t)` constructor and the destructor are `Blocks.Load` on an empty block and `Blocks.Unload`; they have no members of their own.
