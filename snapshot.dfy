/**
 * The data the exporter reads and the ways an export can fail.
 *
 * The block store, the trie store and the state trie are foreign classes of
 * the node; the exporter sees them only through a few lookups, so they are
 * modelled as the read-only views those lookups give:
 *   - `getChainBlockByNumber` is the `chain` map from height to main-chain block;
 *   - `getTotalDifficultyForHash` is the `totalDifficulty` map from block hash
 *     to the difficulty's bytes;
 *   - `TrieStore.retrieve` is a map from state-root hash to a trie, given by its
 *     root node and the nodes its in-order iterator yields, in that order.
 */
module Snapshot {
  import opened Wrappers
  import opened Rlp

  /** Number of most recent blocks a bootstrap snapshot carries. */
  const BlocksNeeded: nat := 4000

  type Hash = seq<Byte>

  datatype Block = Block(encoded: seq<Byte>, hash: Hash, stateRoot: Hash)

  /** Block numbers are never negative, so the chain is keyed by `nat`. */
  datatype BlockStoreView = BlockStoreView(chain: map<nat, Block>, totalDifficulty: map<Hash, seq<Byte>>)

  /** What the exporter asks of one trie node. */
  datatype TrieNode = TrieNode(message: seq<Byte>, embeddable: bool, hasLongValue: bool, value: seq<Byte>)

  /** A state trie: its root and the nodes its in-order iterator yields (the
      root among them, in the iterator's order). */
  datatype Trie = Trie(root: TrieNode, inOrder: seq<TrieNode>)

  type TrieStoreView = map<Hash, Trie>

  datatype ExportError =
    | MissingHeightArgument      // no command-line argument to read the target height from
    | MalformedHeight(arg: string) // the first argument is not a number
    | MissingOutputValue         // the output flag is the last argument
    | MissingBestBlock(height: int) // no main-chain block at the target height
    | MissingBlock(height: int)  // no main-chain block at a height of the window
    | MissingDifficulty(hash: Hash) // no total difficulty recorded for a window block
    | StateRootNotFound(root: Hash) // the trie store does not hold the target state root
    | InputTooLong               // a byte string or list payload too long for RLP

  /** The main-chain block at `height`, if the store has one. */
  function ChainBlock(store: BlockStoreView, height: int): (r: Option<Block>)
    ensures r.Some? <==> height >= 0 && height in store.chain
    ensures r.Some? ==> r.value == store.chain[height]
  {
    if height >= 0 && height in store.chain then Some(store.chain[height]) else None
  }

  /** `RLP.encodeElement`, failing where the standard has no encoding. */
  function Element(b: seq<Byte>): (r: Result<seq<Byte>, ExportError>)
    ensures r.Ok? <==> |b| < MaxLength
    ensures r.Ok? ==> r.value == EncodeElement(b)
    ensures r.Err? ==> r.error == InputTooLong
  {
    if |b| < MaxLength then Ok(EncodeElement(b)) else Err(InputTooLong)
  }

  /** `RLP.encodeList`, failing where the standard has no encoding. */
  function ListOf(items: seq<seq<Byte>>): (r: Result<seq<Byte>, ExportError>)
    ensures r.Ok? <==> |Concat(items)| < MaxLength
    ensures r.Ok? ==> r.value == EncodeList(items)
    ensures r.Err? ==> r.error == InputTooLong
  {
    if |Concat(items)| < MaxLength then Ok(EncodeList(items)) else Err(InputTooLong)
  }
}
