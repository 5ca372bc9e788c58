/**
 * The blocks section of the snapshot (`encodeBlocks`): the `BlocksNeeded`
 * main-chain blocks above height `from`, up to and including `to`, each
 * paired with its total difficulty, in ascending height order.
 */
module BlockWindow {
  import opened Wrappers
  import opened Rlp
  import opened Snapshot

  /** Slot `i` of the window holds the block at this height. */
  function SlotHeight(from: int, i: nat): int
  {
    from + (i + 1)
  }

  /** The store can fill the slot for `height`: it has a main-chain block there
      and a total difficulty for that block's hash. */
  predicate HasEntry(store: BlockStoreView, height: int)
  {
    height >= 0 && height in store.chain && store.chain[height].hash in store.totalDifficulty
  }

  /**
   * The entry for the main-chain block at `height`: an RLP list of two byte
   * strings, the block's encoding and the total difficulty looked up by that
   * same block's hash. The failures come in the order of the source: the block
   * is absent; its encoding cannot be framed; its difficulty is absent; the
   * difficulty or the pair cannot be framed.
   */
  function BlockEntry(store: BlockStoreView, height: int): Result<seq<Byte>, ExportError>
  {
    match ChainBlock(store, height)
    case None => Err(MissingBlock(height))
    case Some(block) =>
      var encoded :- Element(block.encoded);
      if block.hash !in store.totalDifficulty then Err(MissingDifficulty(block.hash))
      else
        var difficulty :- Element(store.totalDifficulty[block.hash]);
        ListOf([encoded, difficulty])
  }

  /** The results of `slot(0)` to `slot(n - 1)`, or the first failure among them. */
  function Gather<T, E>(slot: nat -> Result<T, E>, n: nat): Result<seq<T>, E>
  {
    if n == 0 then Ok([])
    else
      var xs :- Gather(slot, n - 1);
      var x :- slot(n - 1);
      Ok(xs + [x])
  }

  function Slots(store: BlockStoreView, from: int): nat -> Result<seq<Byte>, ExportError>
  {
    i => BlockEntry(store, SlotHeight(from, i))
  }

  /** The entries of the first `n` slots, or the failure of the first slot that
      cannot be filled. */
  function Entries(store: BlockStoreView, from: int, n: nat): Result<seq<seq<Byte>>, ExportError>
  {
    Gather(Slots(store, from), n)
  }

  /** The blocks section: an RLP list of the entries of all slots. */
  function BlocksSection(store: BlockStoreView, from: int, to: int): Result<seq<Byte>, ExportError>
    requires to - from == BlocksNeeded
  {
    var entries :- Entries(store, from, to - from);
    ListOf(entries)
  }

  // ----- the source's loop ----------------------------------------------------

  /** The body of the loop of `encodeBlocks` for one height. */
  method EncodeEntry(store: BlockStoreView, blockNumber: int) returns (r: Result<seq<Byte>, ExportError>)
    ensures r == BlockEntry(store, blockNumber)
  {
    var block := ChainBlock(store, blockNumber);
    if block.None? {
      return Err(MissingBlock(blockNumber));
    }
    var hash := block.value.hash;
    var totalDifficulty := if hash in store.totalDifficulty then Some(store.totalDifficulty[hash]) else None;

    var encodedTuple := new seq<Byte>[2];
    var encoded :- Element(block.value.encoded);
    encodedTuple[0] := encoded;
    if totalDifficulty.None? {
      return Err(MissingDifficulty(hash));
    }
    var difficulty :- Element(totalDifficulty.value);
    encodedTuple[1] := difficulty;
    assert encodedTuple[..] == [encoded, difficulty];
    r := ListOf(encodedTuple[..]);
  }

  /** `encodeBlocks`: fills the `BlocksNeeded` slots in ascending height order,
      then frames them as one list. */
  method EncodeBlocks(store: BlockStoreView, from: int, to: int) returns (r: Result<seq<Byte>, ExportError>)
    requires to - from == BlocksNeeded
    ensures r == BlocksSection(store, from, to)
  {
    var encodedBlocks := new seq<Byte>[BlocksNeeded];
    var i := 0;
    while i < to - from
      invariant 0 <= i <= to - from
      invariant Entries(store, from, i) == Ok(encodedBlocks[..i])
    {
      var entry := EncodeEntry(store, from + (i + 1));
      if entry.Err? {
        assert Slots(store, from)(i) == entry;
        FailureStops(Slots(store, from), i, to - from);
        assert Entries(store, from, to - from) == Err(entry.error);
        return Err(entry.error);
      }
      encodedBlocks[i] := entry.value;
      assert encodedBlocks[..i + 1] == encodedBlocks[..i] + [entry.value];
      i := i + 1;
    }
    assert encodedBlocks[..] == encodedBlocks[..i];
    r := ListOf(encodedBlocks[..]);
  }

  /** A slot that cannot be filled ends the gathering with that slot's failure. */
  lemma {:induction false} FailureStops<T, E>(slot: nat -> Result<T, E>, i: nat, n: nat)
    requires i < n
    requires Gather(slot, i).Ok? && slot(i).Err?
    ensures Gather(slot, n) == Err(slot(i).error)
  {
    if n > i + 1 {
      FailureStops(slot, i, n - 1);
    }
  }

  lemma {:induction false} GatherPerSlot<T, E>(slot: nat -> Result<T, E>, n: nat)
    ensures Gather(slot, n).Ok? <==> forall i :: 0 <= i < n ==> slot(i).Ok?
    ensures Gather(slot, n).Ok? ==>
              |Gather(slot, n).value| == n
              && forall i :: 0 <= i < n ==> Gather(slot, n).value[i] == slot(i).value
  {
    if n > 0 {
      GatherPerSlot(slot, n - 1);
    }
  }

  lemma {:induction false} GatherFirstFailure<T, E>(slot: nat -> Result<T, E>, n: nat)
    requires Gather(slot, n).Err?
    ensures exists i :: 0 <= i < n && slot(i) == Err(Gather(slot, n).error)
                        && forall j :: 0 <= j < i ==> slot(j).Ok?
  {
    if Gather(slot, n - 1).Err? {
      GatherFirstFailure(slot, n - 1);
    } else {
      GatherPerSlot(slot, n - 1);
      assert slot(n - 1) == Err(Gather(slot, n).error);
    }
  }

  // ----- properties -----------------------------------------------------------

  function WindowHeightSet(from: int): set<int>
  {
    set i | 0 <= i < BlocksNeeded :: SlotHeight(from, i)
  }

  /** The window is the `BlocksNeeded` heights above `from`, in strictly
      ascending order: the first is `to - 3999`, the last is `to`, and `from`
      itself is not among them. */
  lemma WindowHeights(from: int, to: int)
    requires to - from == BlocksNeeded
    ensures SlotHeight(from, 0) == to - BlocksNeeded + 1 && SlotHeight(from, BlocksNeeded - 1) == to
    ensures forall i, j :: 0 <= i < j < BlocksNeeded ==> SlotHeight(from, i) < SlotHeight(from, j)
    ensures forall h :: h in WindowHeightSet(from) <==> from < h <= to
  {
    forall h | from < h <= to
      ensures h in WindowHeightSet(from)
    {
      assert SlotHeight(from, h - from - 1) == h;
    }
  }

  /** The entries are exactly one per slot, in slot order, each the entry of its
      slot's height; they exist exactly when every slot can be filled. */
  lemma EntriesPerSlot(store: BlockStoreView, from: int, n: nat)
    ensures Entries(store, from, n).Ok?
            <==> forall i :: 0 <= i < n ==> BlockEntry(store, SlotHeight(from, i)).Ok?
    ensures Entries(store, from, n).Ok? ==>
              var entries := Entries(store, from, n).value;
              && |entries| == n
              && forall i :: 0 <= i < n ==> entries[i] == BlockEntry(store, SlotHeight(from, i)).value
  {
    GatherPerSlot(Slots(store, from), n);
    assert forall i: nat :: Slots(store, from)(i) == BlockEntry(store, SlotHeight(from, i));
  }

  /** When the entries fail, some slot fails with that very error and every
      slot below it can be filled. */
  lemma FirstFailingSlot(store: BlockStoreView, from: int, n: nat)
    requires Entries(store, from, n).Err?
    ensures exists i :: 0 <= i < n
              && BlockEntry(store, SlotHeight(from, i)) == Err(Entries(store, from, n).error)
              && forall j :: 0 <= j < i ==> BlockEntry(store, SlotHeight(from, j)).Ok?
  {
    GatherFirstFailure(Slots(store, from), n);
    assert forall i: nat :: Slots(store, from)(i) == BlockEntry(store, SlotHeight(from, i));
  }

  /** What a decoder reads from the entry of a fillable slot. */
  function PairItem(store: BlockStoreView, height: int): Item
    requires HasEntry(store, height)
  {
    var block := store.chain[height];
    List([Str(block.encoded), Str(store.totalDifficulty[block.hash])])
  }

  /** An entry is a list of exactly two strings: the encoding of the block at
      that height and the difficulty recorded for that block's hash. Without a
      block the entry fails with the height; without a difficulty it fails with
      the hash (or, before that, for a block too long to frame). */
  lemma BlockEntryShape(store: BlockStoreView, height: int)
    ensures ChainBlock(store, height).None? ==> BlockEntry(store, height) == Err(MissingBlock(height))
    ensures ChainBlock(store, height).Some? && !HasEntry(store, height) ==>
              BlockEntry(store, height) in {Err(MissingDifficulty(store.chain[height].hash)), Err(InputTooLong)}
    ensures BlockEntry(store, height).Ok? ==>
              && HasEntry(store, height)
              && EncodesItem(BlockEntry(store, height).value, PairItem(store, height))
  {
    if BlockEntry(store, height).Ok? {
      var block := store.chain[height];
      var td := store.totalDifficulty[block.hash];
      ElementRoundTrip(block.encoded);
      ElementRoundTrip(td);
      ListRoundTrip([EncodeElement(block.encoded), EncodeElement(td)], [Str(block.encoded), Str(td)]);
    }
  }

  /** Every slot can be filled. */
  predicate WindowComplete(store: BlockStoreView, from: int, n: nat)
  {
    forall i :: 0 <= i < n ==> HasEntry(store, SlotHeight(from, i))
  }

  function WindowItems(store: BlockStoreView, from: int, n: nat): (items: seq<Item>)
    requires WindowComplete(store, from, n)
    ensures |items| == n
  {
    seq(n, i requires 0 <= i < n => PairItem(store, SlotHeight(from, i)))
  }

  /** Reading the blocks section back gives one pair per slot, in ascending
      height order: the block at `from + i + 1` and its difficulty. A section
      exists only for a complete window. */
  lemma BlocksSectionDecodes(store: BlockStoreView, from: int, to: int)
    requires to - from == BlocksNeeded
    requires BlocksSection(store, from, to).Ok?
    ensures WindowComplete(store, from, BlocksNeeded)
    ensures Decode(BlocksSection(store, from, to).value) == Some(List(WindowItems(store, from, BlocksNeeded)))
  {
    var entries := Entries(store, from, BlocksNeeded).value;
    EntriesPerSlot(store, from, BlocksNeeded);
    var items := WindowItems(store, from, BlocksNeeded);
    forall i | 0 <= i < BlocksNeeded
      ensures HasEntry(store, SlotHeight(from, i)) && EncodesItem(entries[i], items[i])
    {
      BlockEntryShape(store, SlotHeight(from, i));
    }
    ListRoundTrip(entries, items);
    DecodeEncoding(EncodeList(entries), List(items));
  }

  /** A complete window always yields a blocks section, unless some byte string
      is too long to frame. */
  lemma CompleteWindowSucceeds(store: BlockStoreView, from: int, to: int)
    requires to - from == BlocksNeeded
    requires WindowComplete(store, from, BlocksNeeded)
    ensures BlocksSection(store, from, to).Ok? || BlocksSection(store, from, to) == Err(InputTooLong)
  {
    if Entries(store, from, BlocksNeeded).Err? {
      FirstFailingSlot(store, from, BlocksNeeded);
      var i :| 0 <= i < BlocksNeeded && BlockEntry(store, SlotHeight(from, i)) == Err(Entries(store, from, BlocksNeeded).error);
      BlockEntryShape(store, SlotHeight(from, i));
    }
  }
}
