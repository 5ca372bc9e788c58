/**
 * The exporter's `main`: it reads its arguments, opens the node's stores, and
 * builds the bootstrap payload, an RLP list of two byte strings: the blocks
 * section and the state section of the best block at the target height.
 */
module Exporter {
  import opened Wrappers
  import opened Rlp
  import opened Snapshot
  import opened CommandLine
  import opened BlockWindow
  import opened StateSnapshot

  /** The stores a node context opened with some arguments gives access to. */
  datatype Context = Context(blocks: BlockStoreView, tries: TrieStoreView)

  /** What one run produces: the folder to write to, the arguments the node
      context received and the payload to archive. */
  datatype Export = Export(destination: string, rskArgs: seq<string>, payload: seq<Byte>)

  /** The payload for the window `from` (excluded) to `to` and the state of the
      best block at `to`. The best block is looked up first; the blocks section
      is built before the state section. */
  function Payload(blocks: BlockStoreView, tries: TrieStoreView, from: int, to: int): Result<seq<Byte>, ExportError>
    requires to - from == BlocksNeeded
  {
    match ChainBlock(blocks, to)
    case None => Err(MissingBestBlock(to))
    case Some(best) =>
      var blocksSection :- BlocksSection(blocks, from, to);
      var stateSection :- StateSection(tries, best);
      var blocksEntry :- Element(blocksSection);
      var stateEntry :- Element(stateSection);
      ListOf([blocksEntry, stateEntry])
  }

  /** A whole run; `openContext` stands for creating the node context from the
      pass-through arguments. */
  function Run(args: seq<string>, parseLong: string -> Option<int>, outputProperty: Option<string>,
               openContext: seq<string> -> Context): Result<Export, ExportError>
  {
    var inv :- ParseInvocation(args, parseLong, outputProperty);
    ArgumentsPassThrough(args, parseLong, outputProperty);
    var context := openContext(inv.rskArgs);
    var payload :- Payload(context.blocks, context.tries, inv.from, inv.to);
    Ok(Export(inv.destination, inv.rskArgs, payload))
  }

  /** `main` up to the archive: the same steps, through the imperative pieces. */
  method ExportSnapshot(args: seq<string>, parseLong: string -> Option<int>, outputProperty: Option<string>,
                        openContext: seq<string> -> Context) returns (r: Result<Export, ExportError>)
    ensures r == Run(args, parseLong, outputProperty, openContext)
  {
    var inv :- ParseArgs(args, parseLong, outputProperty);
    ArgumentsPassThrough(args, parseLong, outputProperty);
    var context := openContext(inv.rskArgs);
    var bestBlock := ChainBlock(context.blocks, inv.to);
    if bestBlock.None? {
      return Err(MissingBestBlock(inv.to));
    }
    var blocks :- EncodeBlocks(context.blocks, inv.from, inv.to);
    var state :- EncodeState(context.tries, bestBlock.value);
    var blocksEntry :- Element(blocks);
    var stateEntry :- Element(state);
    var bootstrap :- ListOf([blocksEntry, stateEntry]);
    r := Ok(Export(inv.destination, inv.rskArgs, bootstrap));
  }

  // ----- properties -----------------------------------------------------------

  /** A payload reads back as a list of exactly two byte strings, the blocks
      section then the state section; these read back in turn as the window's
      pairs in ascending height order and as the best block's state lists. */
  lemma PayloadDecodes(blocks: BlockStoreView, tries: TrieStoreView, from: int, to: int)
    requires to - from == BlocksNeeded
    requires Payload(blocks, tries, from, to).Ok?
    ensures ChainBlock(blocks, to).Some?
    ensures BlocksSection(blocks, from, to).Ok? && StateSection(tries, ChainBlock(blocks, to).value).Ok?
    ensures var best := ChainBlock(blocks, to).value;
            var blocksSection := BlocksSection(blocks, from, to).value;
            var stateSection := StateSection(tries, best).value;
            && Decode(Payload(blocks, tries, from, to).value) == Some(List([Str(blocksSection), Str(stateSection)]))
            && WindowComplete(blocks, from, BlocksNeeded)
            && Decode(blocksSection) == Some(List(WindowItems(blocks, from, BlocksNeeded)))
            && best.stateRoot in tries
            && Decode(stateSection) == Some(StateItem(tries[best.stateRoot]))
  {
    var best := ChainBlock(blocks, to).value;
    var blocksSection := BlocksSection(blocks, from, to).value;
    var stateSection := StateSection(tries, best).value;
    BlocksSectionDecodes(blocks, from, to);
    StateSectionDecodes(tries, best);
    ElementRoundTrip(blocksSection);
    ElementRoundTrip(stateSection);
    PairDecodes(EncodeElement(blocksSection), Str(blocksSection), EncodeElement(stateSection), Str(stateSection));
  }

  /** There is no payload without a best block at `to`; otherwise the first slot
      of the window that cannot be filled decides the failure, and with a full
      window a missing state root does. */
  lemma PayloadFailures(blocks: BlockStoreView, tries: TrieStoreView, from: int, to: int)
    requires to - from == BlocksNeeded
    ensures ChainBlock(blocks, to).None? ==> Payload(blocks, tries, from, to) == Err(MissingBestBlock(to))
    ensures ChainBlock(blocks, to).Some? && Entries(blocks, from, BlocksNeeded).Err? ==>
              Payload(blocks, tries, from, to) == Err(Entries(blocks, from, BlocksNeeded).error)
    ensures ChainBlock(blocks, to).Some? && BlocksSection(blocks, from, to).Ok?
            && blocks.chain[to].stateRoot !in tries ==>
              Payload(blocks, tries, from, to) == Err(StateRootNotFound(blocks.chain[to].stateRoot))
    ensures Payload(blocks, tries, from, to).Ok? ==>
              && to in blocks.chain
              && WindowComplete(blocks, from, BlocksNeeded)
              && blocks.chain[to].stateRoot in tries
  {
    if Payload(blocks, tries, from, to).Ok? {
      PayloadDecodes(blocks, tries, from, to);
    }
  }

  /** With the best block, a full window and the state root all present, only a
      byte string too long to frame can stop the payload. */
  lemma CompleteStoresSucceed(blocks: BlockStoreView, tries: TrieStoreView, from: int, to: int)
    requires to - from == BlocksNeeded
    requires to >= 0 && to in blocks.chain
    requires WindowComplete(blocks, from, BlocksNeeded)
    requires blocks.chain[to].stateRoot in tries
    ensures Payload(blocks, tries, from, to).Ok? || Payload(blocks, tries, from, to) == Err(InputTooLong)
  {
    CompleteWindowSucceeds(blocks, from, to);
    StateSectionFailures(tries, blocks.chain[to]);
  }
}
