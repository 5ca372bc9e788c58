# Bootstrap snapshot exporter, modelled in Dafny

The exporter builds a bootstrap snapshot of a node. A new node can start from
that snapshot without replaying history. The program reads its command line:

- the first argument is the height `to` of the newest block;
- an optional `-exporter-output <folder>` pair names the destination;
- every other argument is passed on, in order, to the node context.

It then builds one RLP payload with two parts:

- the blocks section: the 4000 main-chain blocks above `from = to - 4000`, up
  to and including `to`. Each block is an RLP list of the block's encoding and
  its total difficulty.
- the state section: the state trie of the block at `to`. It is a list of node
  messages, the root's first, and a list of long leaf values. Both come from one
  walk of the trie's in-order iterator.

The payload frames each section as a byte string inside a two-item list.

The model is organised as follows:

| module | file | what it holds |
|---|---|---|
| `Rlp` | `rlp.dfy` | the two RLP framing operations the exporter calls, written from Appendix B of the Ethereum Yellow Paper, plus a decoder for the same grammar used to prove round trips |
| `Snapshot` | `snapshot.dfy` | read-only views of the block store and the trie store, the error taxonomy, and framing that fails for inputs the standard cannot frame |
| `CommandLine` | `command_line.dfy` | the argument split, as a function and as the step-by-step edits of the source's `ArrayList` (class `ArgList`) |
| `BlockWindow` | `block_window.dfy` | `encodeBlocks`, as a specification function and as the source's loop over an array |
| `StateSnapshot` | `state_snapshot.dfy` | `encodeState`, as a specification function and as the source's iterator loop; `Keep` is the reference filter |
| `Exporter` | `exporter.dfy` | `main` from the argument split up to the payload |

Each imperative method is proved equal to its specification function. The
lemmas state what the source promises about those functions.

Modelling choices:

- A Java `NullPointerException`, an `IndexOutOfBoundsException` or a
  `NumberFormatException` becomes an `ExportError`:
  - no argument at all: `MissingHeightArgument`;
  - a height that does not parse: `MalformedHeight`;
  - a flag in last place: `MissingOutputValue`;
  - no best block: `MissingBestBlock`;
  - no block at a window height: `MissingBlock`;
  - no total difficulty for a block's hash: `MissingDifficulty`;
  - `retrieve` finds nothing: `StateRootNotFound`.
- RLP cannot frame a byte string or list payload of 2^64 bytes or more. Such an
  input gives `InputTooLong`. It is checked at each framing call, in source
  order.
- Block heights are keys of type `nat`. The store never holds a negative height,
  so a lookup below zero finds nothing.

Behaviour of the code that a reader might not expect, and that the model keeps:

- The trie's in-order iterator yields the root too. So a non-embeddable root
  appears twice in the node list: once from line 128 and once from the walk.
  For a root with an embeddable left child and a stored right child, the node
  list reads root, root, right (`StateSnapshot.RootListedTwice`).
- Each node message and long value is framed once more with `encodeElement`
  (lines 135 and 141). Decoding the two lists therefore yields the messages and
  values themselves.
- The export fails for a missing best block (line 78), a missing block in the
  window (line 107, dereferenced at line 108), a missing total difficulty
  (dereferenced at line 112) and a missing state root (line 122). Which block a
  height maps to is decided by the block store, which is not part of this
  model.
- Only the first `-exporter-output` flag is consumed. A second occurrence and
  its value are passed on to the node context (`ArgumentsSplit`: `after` may
  contain the flag).

## Model

| member | source | states |
|---|---|---|
| `CommandLine.ParseArgs` | exporter/src/main/java/co/rsk/core/db/bootstrap/FileExporter.java:51-69 | the step-by-step edits of the argument list produce exactly the split `ParseInvocation` specifies, including each failure |
| `CommandLine.TakeDestination` | exporter/src/main/java/co/rsk/core/db/bootstrap/FileExporter.java:59-67 | with the flag absent, the destination is the system property or `./output` and the list is unchanged; with the flag in last place, the run fails; otherwise the value after the first flag is returned and the flag and value are removed from the list |
| `CommandLine.ArgList.RemoveAt` | exporter/src/main/java/co/rsk/core/db/bootstrap/FileExporter.java:57-64 | removing at a valid index returns that element and closes the gap; an invalid index changes nothing |
| `CommandLine.ArgList.IndexOf` | exporter/src/main/java/co/rsk/core/db/bootstrap/FileExporter.java:59 | returns -1 exactly when the flag is absent, otherwise a position holding the flag with no earlier occurrence |
| `CommandLine.FirstIndex` | exporter/src/main/java/co/rsk/core/db/bootstrap/FileExporter.java:59 | the reference first-occurrence search: -1 exactly when absent, otherwise the first position holding the element |
| `CommandLine.ArgumentsPassThrough` | exporter/src/main/java/co/rsk/core/db/bootstrap/FileExporter.java:54-66 | a successful split has `to` parsed from the first argument and `from = to - 4000`; without the flag, all other arguments pass through unchanged and the destination is the system property or `./output` |
| `CommandLine.FlagAndValueRemoved` | exporter/src/main/java/co/rsk/core/db/bootstrap/FileExporter.java:59-64 | with the first flag at position k, the destination is argument k+1 and the pass-through list is every other argument after the height, in order |
| `CommandLine.ArgumentsSplit` | exporter/src/main/java/co/rsk/core/db/bootstrap/FileExporter.java:51-69 | a height, flag-free arguments, the flag with a folder, and any further arguments split back into exactly those parts |
| `CommandLine.AssembledSplits` | exporter/src/main/java/co/rsk/core/db/bootstrap/FileExporter.java:59-64 | for any element type: the first flag and the element after it are cut out, and the rest keeps its order |
| `CommandLine.SplitAtPosition` | exporter/src/main/java/co/rsk/core/db/bootstrap/FileExporter.java:59-64 | for any element type: with the first flag at position k, the split has no value if k is last, and otherwise cuts out positions k and k+1 |
| `CommandLine.DanglingExactly` | exporter/src/main/java/co/rsk/core/db/bootstrap/FileExporter.java:63 | the flag has no value exactly when its first occurrence is the last element |
| `CommandLine.ParseFailures` | exporter/src/main/java/co/rsk/core/db/bootstrap/FileExporter.java:54-63 | each of the three argument failures happens exactly in its own case: no arguments; an unparsable height; the first flag in last place |
| `BlockWindow.EncodeEntry` | exporter/src/main/java/co/rsk/core/db/bootstrap/FileExporter.java:105-114 | one loop iteration yields the specified entry for its height, or the specified failure, in source order |
| `BlockWindow.EncodeBlocks` | exporter/src/main/java/co/rsk/core/db/bootstrap/FileExporter.java:99-119 | the loop over the array yields the specified blocks section, or the failure of the first height that cannot be filled |
| `BlockWindow.WindowHeights` | exporter/src/main/java/co/rsk/core/db/bootstrap/FileExporter.java:104-105 | slot heights run strictly upward from `to - 3999` to `to`. They are exactly the heights above `from` up to `to`, so `from` is excluded |
| `BlockWindow.EntriesPerSlot` | exporter/src/main/java/co/rsk/core/db/bootstrap/FileExporter.java:104-115 | the entries exist exactly when every slot can be filled; there are then n of them, slot i holding the entry for height `from + i + 1` |
| `BlockWindow.FirstFailingSlot` | exporter/src/main/java/co/rsk/core/db/bootstrap/FileExporter.java:104-115 | the window fails with the error of a slot whose lower-numbered slots all succeed |
| `BlockWindow.FailureStops` | exporter/src/main/java/co/rsk/core/db/bootstrap/FileExporter.java:104-115 | a failing slot ends the gathering with that slot's error |
| `BlockWindow.GatherPerSlot` | exporter/src/main/java/co/rsk/core/db/bootstrap/FileExporter.java:104-115 | for any slot function: gathering succeeds exactly when every slot does, and then yields one value per slot, in order |
| `BlockWindow.GatherFirstFailure` | exporter/src/main/java/co/rsk/core/db/bootstrap/FileExporter.java:104-115 | for any slot function: a failed gathering carries the error of the first failing slot |
| `BlockWindow.BlockEntryShape` | exporter/src/main/java/co/rsk/core/db/bootstrap/FileExporter.java:107-114 | no block gives `MissingBlock(height)`; a block without a difficulty fails with its hash, or earlier with `InputTooLong`; a successful entry decodes to a list of exactly the block's encoding and the difficulty for that block's hash |
| `BlockWindow.BlocksSectionDecodes` | exporter/src/main/java/co/rsk/core/db/bootstrap/FileExporter.java:99-119 | a blocks section means the window is complete and it decodes to one pair per slot, in ascending height order |
| `BlockWindow.CompleteWindowSucceeds` | exporter/src/main/java/co/rsk/core/db/bootstrap/FileExporter.java:104-118 | a complete window always yields a blocks section unless some input is too long to frame |
| `StateSnapshot.EncodeState` | exporter/src/main/java/co/rsk/core/db/bootstrap/FileExporter.java:121-154 | the iterator loop appending to the two lists yields the specified state section, or the specified failure |
| `StateSnapshot.WalkStops` | exporter/src/main/java/co/rsk/core/db/bootstrap/FileExporter.java:132-146 | an element that cannot be framed ends the walk with its failure |
| `StateSnapshot.WalkOutcome` | exporter/src/main/java/co/rsk/core/db/bootstrap/FileExporter.java:132-146 | the walk succeeds exactly when every element can be framed, and its only failure is `InputTooLong` |
| `StateSnapshot.WalkCollects` | exporter/src/main/java/co/rsk/core/db/bootstrap/FileExporter.java:132-146 | a successful walk records, in iterator order, the framed message of exactly the non-embeddable elements and the framed value of exactly the elements with a long value, embeddable or not |
| `StateSnapshot.KeepPosition` | exporter/src/main/java/co/rsk/core/db/bootstrap/FileExporter.java:134-141 | every selected element appears in the list, right after the selected elements before it |
| `StateSnapshot.KeepSource` | exporter/src/main/java/co/rsk/core/db/bootstrap/FileExporter.java:134-141 | every list entry comes from a selected element, so the list is an ordered subsequence |
| `StateSnapshot.KeepOrder` | exporter/src/main/java/co/rsk/core/db/bootstrap/FileExporter.java:132-141 | selected elements keep their relative order in the list |
| `StateSnapshot.KeepCount` | exporter/src/main/java/co/rsk/core/db/bootstrap/FileExporter.java:134-141 | the list has exactly as many entries as there are selected elements |
| `StateSnapshot.KeepLength` | exporter/src/main/java/co/rsk/core/db/bootstrap/FileExporter.java:134-141 | the list is never longer than the iterated sequence |
| `StateSnapshot.KeepAll` | exporter/src/main/java/co/rsk/core/db/bootstrap/FileExporter.java:134-141 | a property every selected element's image has holds for every entry of the list |
| `StateSnapshot.StoredMessages` | exporter/src/main/java/co/rsk/core/db/bootstrap/FileExporter.java:137-141 | when every element can be framed, every selected message can be framed |
| `StateSnapshot.LongValues` | exporter/src/main/java/co/rsk/core/db/bootstrap/FileExporter.java:134-135 | when every element can be framed, every selected long value can be framed |
| `StateSnapshot.StateSectionDecodes` | exporter/src/main/java/co/rsk/core/db/bootstrap/FileExporter.java:121-154 | a state section means the root was found; it decodes to two lists. The node list starts with the root's message, whether or not the root is embeddable, followed by the messages of the non-embeddable iterated nodes. The value list holds the long values, in iterator order |
| `StateSnapshot.SectionLayout` | exporter/src/main/java/co/rsk/core/db/bootstrap/FileExporter.java:127-152 | the node entries are the root's framed message followed by the walk's entries, and the walk's lists are the framed reference lists |
| `StateSnapshot.SectionPairDecodes` | exporter/src/main/java/co/rsk/core/db/bootstrap/FileExporter.java:150-153 | the list of the two framed lists decodes to the two lists of strings |
| `StateSnapshot.FramedStrings` | exporter/src/main/java/co/rsk/core/db/bootstrap/FileExporter.java:151-152 | a framed list of framed byte strings decodes to the list of those strings |
| `StateSnapshot.FramedEachDecodes` | exporter/src/main/java/co/rsk/core/db/bootstrap/FileExporter.java:135-141 | each framed byte string decodes back to its string |
| `StateSnapshot.StateSectionFailures` | exporter/src/main/java/co/rsk/core/db/bootstrap/FileExporter.java:122 | a missing state root gives `StateRootNotFound(root)`; with the root present, only `InputTooLong` can fail |
| `StateSnapshot.StateSectionSucceeds` | exporter/src/main/java/co/rsk/core/db/bootstrap/FileExporter.java:121-153 | with the root found, fewer than `NodeBound` iterated nodes and every message and value under `NodeBound` bytes, the state section exists |
| `StateSnapshot.SmallEntries` | exporter/src/main/java/co/rsk/core/db/bootstrap/FileExporter.java:127-141 | for a trie with fewer than `NodeBound` iterated nodes whose messages and values are under `NodeBound` bytes, the walk succeeds and both lists have at most `NodeBound` entries of at most `NodeBound + 9` bytes |
| `StateSnapshot.FramedListsFit` | exporter/src/main/java/co/rsk/core/db/bootstrap/FileExporter.java:150-153 | lists of at most `NodeBound` such entries, and the pair of their list framings, are short enough to frame |
| `StateSnapshot.RootListedTwice` | exporter/src/main/java/co/rsk/core/db/bootstrap/FileExporter.java:127-153 | for a root with an embeddable valueless left child and a stored right child with a long value, all under `NodeBound` bytes, the state section exists; its node list reads root, root, right and its value list holds the right child's value |
| `Exporter.ExportSnapshot` | exporter/src/main/java/co/rsk/core/db/bootstrap/FileExporter.java:50-83 | `main` from its arguments to the payload computes exactly what `Run` specifies, failures included |
| `Exporter.PayloadDecodes` | exporter/src/main/java/co/rsk/core/db/bootstrap/FileExporter.java:78-83 | a payload decodes to exactly two byte strings, the blocks section then the state section. These decode to the window's pairs in ascending height order and to the best block's state lists |
| `Exporter.PayloadFailures` | exporter/src/main/java/co/rsk/core/db/bootstrap/FileExporter.java:78-82 | no best block gives `MissingBestBlock(to)`; a window that cannot be filled gives its first slot's error; a missing state root gives `StateRootNotFound`; a payload implies the best block, a complete window and the state root |
| `Exporter.CompleteStoresSucceed` | exporter/src/main/java/co/rsk/core/db/bootstrap/FileExporter.java:78-83 | with the best block, a complete window and the state root present, only `InputTooLong` can stop the payload |
| `Rlp.ElementFraming` | exporter/src/main/java/co/rsk/core/db/bootstrap/FileExporter.java:111-112 | framing adds at most nine bytes in front of the string and keeps the string as its tail |
| `Rlp.ListFraming` | exporter/src/main/java/co/rsk/core/db/bootstrap/FileExporter.java:114 | framing adds one to nine bytes in front of the concatenated items and keeps them as its tail |
| `Rlp.ElementRoundTrip` | exporter/src/main/java/co/rsk/core/db/bootstrap/FileExporter.java:111-112 | every framed byte string decodes back to itself, whatever follows it |
| `Rlp.ListRoundTrip` | exporter/src/main/java/co/rsk/core/db/bootstrap/FileExporter.java:114-118 | a framed list of encodings decodes to the list of the items they encode |
| `Rlp.ItemsRoundTrip` | exporter/src/main/java/co/rsk/core/db/bootstrap/FileExporter.java:118 | concatenated encodings decode, as a list payload, to their items in order |
| `Rlp.ConcatBound` | exporter/src/main/java/co/rsk/core/db/bootstrap/FileExporter.java:114-118 | items of at most n bytes each concatenate to at most their number times n bytes |
| `Rlp.HeaderDecodes` | exporter/src/main/java/co/rsk/core/db/bootstrap/FileExporter.java:114 | a header decodes to the kind and the payload length it announces |
| `Rlp.BigEndianRoundTrip` | exporter/src/main/java/co/rsk/core/db/bootstrap/FileExporter.java:118 | the big-endian length bytes of a long header decode back to the length |
| `Rlp.DecodeEncoding` | exporter/src/main/java/co/rsk/core/db/bootstrap/FileExporter.java:83 | an encoding standing alone decodes to its item |
| `Rlp.PairDecodes` | exporter/src/main/java/co/rsk/core/db/bootstrap/FileExporter.java:83 | a framed pair of encodings decodes to the pair of the items they encode |

## Left out

- Writing the archive (lines 87-91 and `zipFile`, lines 156-165): file and zip output are I/O. The model stops at the payload bytes handed to the archive.
- Creating `RskContext` (line 70) and the stores it opens: this becomes the parameter `openContext`, a function from the pass-through arguments to read-only store views.
- The block store, the trie store and the trie: they are foreign classes, seen only through the lookups the exporter makes. The in-order iterator is given as the sequence of nodes it yields. How the trie computes messages, embeddability and long values is not part of this model.
- `Long.parseLong` becomes the parameter `parseLong`. The value of the `exporter.output` system property becomes the parameter `outputProperty`.
- Logging, the timing around the encoding (lines 80 and 85-94) and `System.exit`: these have no effect on the payload.
- Java's array-size limit of 2^31 - 1 elements, and running out of memory: neither is modelled. The only size limit modelled is RLP's 2^64 bytes.
- `long` overflow in `to - 4000` and `from + (i + 1)`: it is not modelled. Heights are unbounded integers, and a height outside the chain finds no block.
- The RLP library itself: the model does not reproduce its code. Its two framing operations are written from the standard.
