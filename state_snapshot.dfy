/**
 * The state section of the snapshot (`encodeState`): the messages of the
 * state trie's nodes and the long values its leaves hold, collected in one
 * walk of the trie's in-order iterator.
 */
module StateSnapshot {
  import opened Wrappers
  import opened Rlp
  import opened Snapshot

  /** The lists the walk builds: node entries after the root's leading one,
      and value entries. */
  datatype Lists = Lists(nodes: seq<seq<Byte>>, values: seq<seq<Byte>>)

  /** One element of the iterator: a long value is recorded first, whatever
      the node's embeddability; then an embeddable node is skipped and any
      other node's message recorded. */
  function Visit(acc: Lists, node: TrieNode): Result<Lists, ExportError>
  {
    var values :-
      if node.hasLongValue then
        var value :- Element(node.value);
        Ok(acc.values + [value])
      else Ok(acc.values);
    if node.embeddable then Ok(Lists(acc.nodes, values))
    else
      var message :- Element(node.message);
      Ok(Lists(acc.nodes + [message], values))
  }

  /** The walk over the iterated elements, in the iterator's order. */
  function Walk(elements: seq<TrieNode>): Result<Lists, ExportError>
  {
    if elements == [] then Ok(Lists([], []))
    else
      var acc :- Walk(elements[..|elements| - 1]);
      Visit(acc, elements[|elements| - 1])
  }

  /** The state section for the state root of `block`: a list of the node list
      (the root's message first) and the value list. */
  function StateSection(tries: TrieStoreView, block: Block): Result<seq<Byte>, ExportError>
  {
    if block.stateRoot !in tries then Err(StateRootNotFound(block.stateRoot))
    else
      var trie := tries[block.stateRoot];
      var rootEntry :- Element(trie.root.message);
      var lists :- Walk(trie.inOrder);
      var nodes :- ListOf([rootEntry] + lists.nodes);
      var values :- ListOf(lists.values);
      ListOf([nodes, values])
  }

  // ----- the source's loop ----------------------------------------------------

  /** `encodeState`, appending to the two lists while it walks the iterator. */
  method EncodeState(tries: TrieStoreView, block: Block) returns (r: Result<seq<Byte>, ExportError>)
    ensures r == StateSection(tries, block)
  {
    if block.stateRoot !in tries {
      return Err(StateRootNotFound(block.stateRoot));
    }
    var node := tries[block.stateRoot];
    var encodedNodes: seq<seq<Byte>> := [];
    var encodedValues: seq<seq<Byte>> := [];
    var nodeBytes := node.root.message;
    var rootEntry :- Element(nodeBytes);
    encodedNodes := encodedNodes + [rootEntry];

    var it := node.inOrder;
    var k := 0;
    while k < |it|
      invariant 0 <= k <= |it|
      invariant Walk(it[..k]).Ok?
      invariant encodedNodes == [rootEntry] + Walk(it[..k]).value.nodes
      invariant encodedValues == Walk(it[..k]).value.values
    {
      var iterating := it[k];
      ghost var acc := Walk(it[..k]).value;
      WalkStep(it, k);
      if iterating.hasLongValue {
        var value := Element(iterating.value);
        if value.Err? {
          WalkStops(it, k);
          return Err(value.error);
        }
        encodedValues := encodedValues + [value.value];
      }
      k := k + 1;
      if iterating.embeddable {
        assert Visit(acc, iterating) == Ok(Lists(acc.nodes, encodedValues));
        continue;
      }
      nodeBytes := iterating.message;
      var message := Element(nodeBytes);
      if message.Err? {
        WalkStops(it, k - 1);
        return Err(message.error);
      }
      assert Visit(acc, iterating) == Ok(Lists(acc.nodes + [message.value], encodedValues));
      encodedNodes := encodedNodes + [message.value];
    }
    assert it[..k] == it;
    var nodes :- ListOf(encodedNodes);
    var values :- ListOf(encodedValues);
    r := ListOf([nodes, values]);
  }

  /** Proof helper: one more iterated element is one more visit. */
  lemma WalkStep(elements: seq<TrieNode>, k: nat)
    requires k < |elements| && Walk(elements[..k]).Ok?
    ensures Walk(elements[..k + 1]) == Visit(Walk(elements[..k]).value, elements[k])
  {
    assert elements[..k + 1][..k] == elements[..k];
  }

  /** An element that cannot be recorded ends the walk with its failure. */
  lemma {:induction false} WalkStops(elements: seq<TrieNode>, k: nat)
    requires k < |elements|
    requires Walk(elements[..k]).Ok?
    requires Visit(Walk(elements[..k]).value, elements[k]).Err?
    ensures Walk(elements) == Err(Visit(Walk(elements[..k]).value, elements[k]).error)
  {
    var last := |elements| - 1;
    if k < last {
      assert elements[..last][..k] == elements[..k] && elements[..last][k] == elements[k];
      WalkStops(elements[..last], k);
    } else {
      assert elements[..last] == elements[..k];
    }
  }

  // ----- reference definitions ------------------------------------------------

  /** `f` of every element of `s` that satisfies `p`, in the order of `s`. */
  function Keep<T, U>(s: seq<T>, p: T -> bool, f: T -> U): seq<U>
  {
    if s == [] then []
    else Keep(s[..|s| - 1], p, f) + (if p(s[|s| - 1]) then [f(s[|s| - 1])] else [])
  }

  function IsStored(node: TrieNode): bool { !node.embeddable }
  function MessageOf(node: TrieNode): seq<Byte> { node.message }
  function HasLongValue(node: TrieNode): bool { node.hasLongValue }
  function ValueOf(node: TrieNode): seq<Byte> { node.value }

  /** The messages of the iterated nodes that are not embeddable. */
  function StoredMessages(elements: seq<TrieNode>): (r: seq<seq<Byte>>)
    ensures (forall i :: 0 <= i < |elements| ==> Frameable(elements[i])) ==>
              forall j :: 0 <= j < |r| ==> |r[j]| < MaxLength
  {
    KeepAll(elements, IsStored, MessageOf, Frameable, Short);
    Keep(elements, IsStored, MessageOf)
  }

  /** The long values of the iterated nodes, embeddable or not. */
  function LongValues(elements: seq<TrieNode>): (r: seq<seq<Byte>>)
    ensures (forall i :: 0 <= i < |elements| ==> Frameable(elements[i])) ==>
              forall j :: 0 <= j < |r| ==> |r[j]| < MaxLength
  {
    KeepAll(elements, HasLongValue, ValueOf, Frameable, Short);
    Keep(elements, HasLongValue, ValueOf)
  }

  /** Everything an iterated node contributes can be framed. */
  predicate Frameable(node: TrieNode)
  {
    (node.hasLongValue ==> |node.value| < MaxLength) && (!node.embeddable ==> |node.message| < MaxLength)
  }

  predicate Short(b: seq<Byte>) { |b| < MaxLength }

  /** If `f` maps every kept element satisfying `q` into `short`, and every
      element of `s` satisfies `q`, then every kept entry is `short`. */
  lemma {:induction false} KeepAll<T, U>(s: seq<T>, p: T -> bool, f: T -> U, q: T -> bool, short: U -> bool)
    requires forall x :: p(x) && q(x) ==> short(f(x))
    ensures (forall i :: 0 <= i < |s| ==> q(s[i])) ==>
              forall j :: 0 <= j < |Keep(s, p, f)| ==> short(Keep(s, p, f)[j])
  {
    if s != [] {
      var last := |s| - 1;
      KeepAll(s[..last], p, f, q, short);
      assert forall i :: 0 <= i < last ==> s[..last][i] == s[i];
    }
  }

  /** The framing of every byte string of `bs`, in order. */
  function FramedEach(bs: seq<seq<Byte>>): (r: seq<seq<Byte>>)
    requires forall i :: 0 <= i < |bs| ==> |bs[i]| < MaxLength
    ensures |r| == |bs|
  {
    seq(|bs|, i requires 0 <= i < |bs| => EncodeElement(bs[i]))
  }

  // ----- properties -----------------------------------------------------------

  /** Proof helper: `Keep` unfolded for one appended element. */
  lemma KeepSnoc<T, U>(s: seq<T>, x: T, p: T -> bool, f: T -> U)
    ensures Keep(s + [x], p, f) == Keep(s, p, f) + (if p(x) then [f(x)] else [])
  {
    assert (s + [x])[..|s|] == s;
  }

  /** The element of `s` at `i`, if kept, sits in the kept list right after all
      kept elements before it. */
  lemma {:induction false} KeepPosition<T, U>(s: seq<T>, p: T -> bool, f: T -> U, i: nat)
    requires i < |s| && p(s[i])
    ensures |Keep(s[..i], p, f)| < |Keep(s, p, f)|
    ensures Keep(s, p, f)[|Keep(s[..i], p, f)|] == f(s[i])
  {
    var last := |s| - 1;
    if i < last {
      assert s[..last][..i] == s[..i] && s[..last][i] == s[i];
      KeepPosition(s[..last], p, f, i);
    } else {
      assert s[..last] == s[..i];
    }
  }

  /** Every entry of the kept list is `f` of some kept element of `s`, namely the
      one with exactly that many kept elements before it. */
  lemma {:induction false} KeepSource<T, U>(s: seq<T>, p: T -> bool, f: T -> U, k: nat)
    requires k < |Keep(s, p, f)|
    ensures exists i :: 0 <= i < |s| && p(s[i]) && |Keep(s[..i], p, f)| == k && Keep(s, p, f)[k] == f(s[i])
  {
    var last := |s| - 1;
    var prefix := Keep(s[..last], p, f);
    if k < |prefix| {
      KeepSource(s[..last], p, f, k);
      var i :| 0 <= i < last && p(s[..last][i]) && |Keep(s[..last][..i], p, f)| == k && prefix[k] == f(s[..last][i]);
      assert s[..last][..i] == s[..i];
    } else {
      assert s[..last] == s[..last][..last];
    }
  }

  /** Kept elements keep their relative order. */
  lemma {:induction false} KeepOrder<T, U>(s: seq<T>, p: T -> bool, f: T -> U, i: nat, j: nat)
    requires i < j <= |s| && p(s[i])
    ensures |Keep(s[..i], p, f)| < |Keep(s[..j], p, f)|
  {
    if j == i + 1 {
      assert s[..j][..j - 1] == s[..i];
    } else {
      KeepOrder(s, p, f, i, j - 1);
      assert s[..j][..j - 1] == s[..j - 1];
    }
  }

  /** The positions of `s` whose element satisfies `p`. */
  function KeptPositions<T>(s: seq<T>, p: T -> bool): set<nat>
  {
    set i: nat | i < |s| && p(s[i])
  }

  /** The kept list has one entry per element that satisfies `p`. */
  lemma {:induction false} KeepCount<T, U>(s: seq<T>, p: T -> bool, f: T -> U)
    ensures |Keep(s, p, f)| == |KeptPositions(s, p)|
  {
    if s != [] {
      var last := |s| - 1;
      KeepCount(s[..last], p, f);
      var before := KeptPositions(s[..last], p);
      assert forall i :: 0 <= i < last ==> s[..last][i] == s[i];
      if p(s[last]) {
        assert KeptPositions(s, p) == before + {last};
        assert last !in before;
      } else {
        assert KeptPositions(s, p) == before;
      }
    }
  }

  /** Visiting a node succeeds exactly when what it contributes can be framed,
      and then appends its framed message if it is stored and its framed value
      if it has a long one. */
  lemma VisitOutcome(acc: Lists, node: TrieNode)
    ensures Visit(acc, node).Ok? <==> Frameable(node)
    ensures Visit(acc, node).Err? ==> Visit(acc, node).error == InputTooLong
    ensures Visit(acc, node).Ok? ==>
              Visit(acc, node).value
              == Lists(acc.nodes + (if IsStored(node) then [EncodeElement(MessageOf(node))] else []),
                       acc.values + (if HasLongValue(node) then [EncodeElement(ValueOf(node))] else []))
  {
  }

  /** The walk succeeds exactly when every element can be framed, and fails
      only for a byte string too long to frame. */
  lemma {:induction false} WalkOutcome(elements: seq<TrieNode>)
    ensures Walk(elements).Ok? <==> forall i :: 0 <= i < |elements| ==> Frameable(elements[i])
    ensures Walk(elements).Err? ==> Walk(elements).error == InputTooLong
  {
    if elements != [] {
      var last := |elements| - 1;
      var prefix := elements[..last];
      WalkOutcome(prefix);
      assert forall i :: 0 <= i < last ==> prefix[i] == elements[i];
      if Walk(prefix).Ok? {
        VisitOutcome(Walk(prefix).value, elements[last]);
        assert Walk(elements) == Visit(Walk(prefix).value, elements[last]);
      } else {
        assert Walk(elements) == Err(Walk(prefix).error);
        var i :| 0 <= i < last && !Frameable(prefix[i]);
        assert !Frameable(elements[i]);
      }
    }
  }

  /** The walk records, in the iterator's order, the framed message of exactly
      the non-embeddable elements and the framed value of exactly the elements
      with a long value, embeddable or not. */
  lemma {:induction false} WalkCollects(elements: seq<TrieNode>)
    requires Walk(elements).Ok?
    ensures forall i :: 0 <= i < |elements| ==> Frameable(elements[i])
    ensures Walk(elements).value.nodes == FramedEach(StoredMessages(elements))
    ensures Walk(elements).value.values == FramedEach(LongValues(elements))
  {
    WalkOutcome(elements);
    if elements != [] {
      var last := |elements| - 1;
      var prefix := elements[..last];
      assert forall i :: 0 <= i < last ==> prefix[i] == elements[i];
      assert Walk(prefix).Ok?;
      WalkCollects(prefix);
      VisitOutcome(Walk(prefix).value, elements[last]);
      assert FramedEach(StoredMessages(elements)) == FramedEach(StoredMessages(prefix))
             + (if IsStored(elements[last]) then [EncodeElement(MessageOf(elements[last]))] else []);
      assert FramedEach(LongValues(elements)) == FramedEach(LongValues(prefix))
             + (if HasLongValue(elements[last]) then [EncodeElement(ValueOf(elements[last]))] else []);
    }
  }

  lemma FramedEachDecodes(bs: seq<seq<Byte>>)
    requires forall i :: 0 <= i < |bs| ==> |bs[i]| < MaxLength
    ensures forall i :: 0 <= i < |bs| ==> EncodesItem(FramedEach(bs)[i], Strs(bs)[i])
  {
    forall i | 0 <= i < |bs| ensures EncodesItem(FramedEach(bs)[i], Strs(bs)[i]) {
      ElementRoundTrip(bs[i]);
    }
  }

  /** What a decoder reads back from the state section of `trie`. */
  function StateItem(trie: Trie): Item
  {
    List([List(Strs([trie.root.message] + StoredMessages(trie.inOrder))),
          List(Strs(LongValues(trie.inOrder)))])
  }

  /** Reading the state section back gives the root's message first, whether or
      not the root is embeddable, then the messages of the non-embeddable
      iterated nodes, and separately the long values, both in iterator order. */
  lemma StateSectionDecodes(tries: TrieStoreView, block: Block)
    requires StateSection(tries, block).Ok?
    ensures block.stateRoot in tries
    ensures Decode(StateSection(tries, block).value) == Some(StateItem(tries[block.stateRoot]))
  {
    var trie := tries[block.stateRoot];
    var messages := [trie.root.message] + StoredMessages(trie.inOrder);
    var values := LongValues(trie.inOrder);
    SectionLayout(trie);
    SectionPairDecodes(messages, values);
  }

  /** The state section is the framed pair of the framed node entries and the
      framed value entries. */
  lemma SectionLayout(trie: Trie)
    requires |trie.root.message| < MaxLength && Walk(trie.inOrder).Ok?
    ensures var messages := [trie.root.message] + StoredMessages(trie.inOrder);
            var values := LongValues(trie.inOrder);
            && (forall i :: 0 <= i < |messages| ==> |messages[i]| < MaxLength)
            && (forall i :: 0 <= i < |values| ==> |values[i]| < MaxLength)
            && [EncodeElement(trie.root.message)] + Walk(trie.inOrder).value.nodes == FramedEach(messages)
            && Walk(trie.inOrder).value.values == FramedEach(values)
  {
    WalkCollects(trie.inOrder);
    FramedEachPrepend(trie.root.message, StoredMessages(trie.inOrder));
  }

  lemma FramedEachPrepend(b: seq<Byte>, bs: seq<seq<Byte>>)
    requires |b| < MaxLength && forall i :: 0 <= i < |bs| ==> |bs[i]| < MaxLength
    ensures forall i :: 0 <= i < |[b] + bs| ==> |([b] + bs)[i]| < MaxLength
    ensures FramedEach([b] + bs) == [EncodeElement(b)] + FramedEach(bs)
  {
  }

  lemma SectionPairDecodes(messages: seq<seq<Byte>>, values: seq<seq<Byte>>)
    requires forall i :: 0 <= i < |messages| ==> |messages[i]| < MaxLength
    requires forall i :: 0 <= i < |values| ==> |values[i]| < MaxLength
    requires |Concat(FramedEach(messages))| < MaxLength && |Concat(FramedEach(values))| < MaxLength
    requires |Concat([EncodeList(FramedEach(messages)), EncodeList(FramedEach(values))])| < MaxLength
    ensures Decode(EncodeList([EncodeList(FramedEach(messages)), EncodeList(FramedEach(values))]))
            == Some(List([List(Strs(messages)), List(Strs(values))]))
  {
    FramedStrings(messages);
    FramedStrings(values);
    PairDecodes(EncodeList(FramedEach(messages)), List(Strs(messages)), EncodeList(FramedEach(values)), List(Strs(values)));
  }

  /** A framed list of framed byte strings decodes to the list of those strings. */
  lemma FramedStrings(bs: seq<seq<Byte>>)
    requires forall i :: 0 <= i < |bs| ==> |bs[i]| < MaxLength
    requires |Concat(FramedEach(bs))| < MaxLength
    ensures EncodesItem(EncodeList(FramedEach(bs)), List(Strs(bs)))
  {
    FramedEachDecodes(bs);
    ListRoundTrip(FramedEach(bs), Strs(bs));
  }

  /** Without the state root in the trie store there is no state section; with
      it, only a byte string too long to frame can stop one. */
  lemma StateSectionFailures(tries: TrieStoreView, block: Block)
    ensures block.stateRoot !in tries ==> StateSection(tries, block) == Err(StateRootNotFound(block.stateRoot))
    ensures block.stateRoot in tries && StateSection(tries, block).Err? ==>
              StateSection(tries, block).error == InputTooLong
  {
    if block.stateRoot in tries {
      WalkOutcome(tries[block.stateRoot].inOrder);
    }
  }

  /** Message and value sizes below which a trie's state section always fits
      the framing limits. */
  const NodeBound: nat := 0x1_0000

  predicate SmallNode(node: TrieNode)
  {
    |node.message| < NodeBound && |node.value| < NodeBound
  }

  predicate Small(b: seq<Byte>) { |b| < NodeBound }

  lemma {:induction false} KeepLength<T, U>(s: seq<T>, p: T -> bool, f: T -> U)
    ensures |Keep(s, p, f)| <= |s|
  {
    if s != [] {
      KeepLength(s[..|s| - 1], p, f);
    }
  }

  lemma FramedEachBound(bs: seq<seq<Byte>>)
    requires forall i :: 0 <= i < |bs| ==> |bs[i]| < NodeBound
    ensures forall i :: 0 <= i < |bs| ==> |FramedEach(bs)[i]| <= 0x1_0009
  {
    forall i | 0 <= i < |bs| ensures |FramedEach(bs)[i]| <= 0x1_0009 {
      ElementFraming(bs[i]);
    }
  }

  /** A trie whose root is found, with fewer than `NodeBound` iterated nodes
      and every message and value shorter than `NodeBound` bytes, always has a
      state section: the framing limits are never reached. */
  lemma StateSectionSucceeds(tries: TrieStoreView, block: Block)
    requires block.stateRoot in tries
    requires var trie := tries[block.stateRoot];
             && |trie.inOrder| < NodeBound && SmallNode(trie.root)
             && forall i :: 0 <= i < |trie.inOrder| ==> SmallNode(trie.inOrder[i])
    ensures StateSection(tries, block).Ok?
  {
    var trie := tries[block.stateRoot];
    SmallEntries(trie);
    FramedListsFit([EncodeElement(trie.root.message)] + Walk(trie.inOrder).value.nodes, Walk(trie.inOrder).value.values);
  }

  /** For such a trie the walk succeeds with at most `NodeBound` node entries
      and fewer value entries, none longer than `NodeBound + 9` bytes. */
  lemma SmallEntries(trie: Trie)
    requires |trie.inOrder| < NodeBound && SmallNode(trie.root)
    requires forall i :: 0 <= i < |trie.inOrder| ==> SmallNode(trie.inOrder[i])
    ensures Walk(trie.inOrder).Ok?
    ensures var nodes := [EncodeElement(trie.root.message)] + Walk(trie.inOrder).value.nodes;
            var values := Walk(trie.inOrder).value.values;
            && |nodes| <= NodeBound && (forall i :: 0 <= i < |nodes| ==> |nodes[i]| <= 0x1_0009)
            && |values| <= NodeBound && (forall i :: 0 <= i < |values| ==> |values[i]| <= 0x1_0009)
  {
    var it := trie.inOrder;
    assert forall i :: 0 <= i < |it| ==> Frameable(it[i]);
    WalkOutcome(it);
    WalkCollects(it);
    var messages := [trie.root.message] + StoredMessages(it);
    KeepLength(it, IsStored, MessageOf);
    KeepLength(it, HasLongValue, ValueOf);
    KeepAll(it, IsStored, MessageOf, SmallNode, Small);
    KeepAll(it, HasLongValue, ValueOf, SmallNode, Small);
    assert forall i :: 0 <= i < |messages| ==> |messages[i]| < NodeBound;
    FramedEachPrepend(trie.root.message, StoredMessages(it));
    FramedEachBound(messages);
    FramedEachBound(LongValues(it));
  }

  /** Up to `NodeBound` entries of at most `NodeBound + 9` bytes per list fit
      in both lists and in the pair of them. */
  lemma FramedListsFit(nodes: seq<seq<Byte>>, values: seq<seq<Byte>>)
    requires |nodes| <= NodeBound && forall i :: 0 <= i < |nodes| ==> |nodes[i]| <= 0x1_0009
    requires |values| <= NodeBound && forall i :: 0 <= i < |values| ==> |values[i]| <= 0x1_0009
    ensures |Concat(nodes)| < MaxLength && |Concat(values)| < MaxLength
    ensures |Concat([EncodeList(nodes), EncodeList(values)])| < MaxLength
  {
    ConcatBound(nodes, 0x1_0009);
    ConcatBound(values, 0x1_0009);
    ListFraming(nodes);
    ListFraming(values);
    var pair := [EncodeList(nodes), EncodeList(values)];
    assert |pair[0]| <= 0x2_0000_0000 && |pair[1]| <= 0x2_0000_0000;
    ConcatBound(pair, 0x2_0000_0000);
  }

  /** The in-order iterator yields the root too, so a non-embeddable root is
      listed twice: for a root whose left child is embeddable without a value
      and whose right child is stored with a long value, the state section
      exists, its node list reads root, root, right and its value list holds
      the right child's value. */
  lemma RootListedTwice(tries: TrieStoreView, block: Block, left: TrieNode, root: TrieNode, right: TrieNode)
    requires block.stateRoot in tries && tries[block.stateRoot] == Trie(root, [left, root, right])
    requires left.embeddable && !left.hasLongValue
    requires !root.embeddable && !root.hasLongValue
    requires !right.embeddable && right.hasLongValue
    requires SmallNode(left) && SmallNode(root) && SmallNode(right)
    ensures StateSection(tries, block).Ok?
    ensures Decode(StateSection(tries, block).value)
            == Some(List([List([Str(root.message), Str(root.message), Str(right.message)]),
                          List([Str(right.value)])]))
  {
    var elements := [left, root, right];
    StateSectionSucceeds(tries, block);
    assert [left] == [] + [left] && [left, root] == [left] + [root] && elements == [left, root] + [right];
    KeepSnoc([], left, IsStored, MessageOf);
    KeepSnoc([left], root, IsStored, MessageOf);
    KeepSnoc([left, root], right, IsStored, MessageOf);
    KeepSnoc([], left, HasLongValue, ValueOf);
    KeepSnoc([left], root, HasLongValue, ValueOf);
    KeepSnoc([left, root], right, HasLongValue, ValueOf);
    assert StoredMessages(elements) == [root.message, right.message];
    assert LongValues(elements) == [right.value];
    StateSectionDecodes(tries, block);
    assert [root.message] + StoredMessages(elements) == [root.message, root.message, right.message];
    assert Strs([root.message, root.message, right.message]) == [Str(root.message), Str(root.message), Str(right.message)];
    assert Strs([right.value]) == [Str(right.value)];
  }
}
