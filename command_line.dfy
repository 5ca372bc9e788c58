/**
 * The argument handling at the start of the exporter's `main`: the first
 * argument is the height of the last block to export, an optional
 * `-exporter-output <folder>` pair picks the destination folder, and every
 * other argument is handed on to the node's own context in its original order.
 */
module CommandLine {
  import opened Wrappers
  import opened Snapshot

  const OutputFlag: string := "-exporter-output"
  const DefaultOutput: string := "./output"

  /** What `main` takes from its arguments. */
  datatype Invocation = Invocation(to: int, from: int, destination: string, rskArgs: seq<string>)

  /** Position of the first `x` in `s`, or -1 (`List.indexOf`). */
  function FirstIndex<T(==)>(s: seq<T>, x: T): (k: int)
    ensures -1 <= k < |s|
    ensures k == -1 <==> x !in s
    ensures 0 <= k ==> s[k] == x && x !in s[..k]
  {
    if s == [] then -1
    else if s[0] == x then 0
    else
      var k := FirstIndex(s[1..], x);
      if k == -1 then -1
      else
        assert s[..k + 1] == [s[0]] + s[1..][..k];
        k + 1
  }

  /** How a list splits around the first occurrence of a flag. */
  datatype FlagSplit<T> = Absent | Dangling | Found(value: T, kept: seq<T>)

  /** The flag and the element after it are taken out; a flag in last place
      has no element after it. */
  function SplitAtFlag<T(==)>(s: seq<T>, flag: T): FlagSplit<T>
  {
    var k := FirstIndex(s, flag);
    if k == -1 then Absent
    else if k + 1 == |s| then Dangling
    else Found(s[k + 1], s[..k] + s[k + 2..])
  }

  /**
   * The outcome of the argument handling. `parseLong` stands for
   * `Long.parseLong` (None where it throws), `outputProperty` for the value of
   * the `exporter.output` system property, if it is set.
   */
  function ParseInvocation(args: seq<string>, parseLong: string -> Option<int>,
                           outputProperty: Option<string>): Result<Invocation, ExportError>
  {
    if |args| == 0 then Err(MissingHeightArgument)
    else
      match parseLong(args[0])
      case None => Err(MalformedHeight(args[0]))
      case Some(to) =>
        match SplitAtFlag(args[1..], OutputFlag)
        case Absent => Ok(Invocation(to, to - BlocksNeeded, outputProperty.GetOr(DefaultOutput), args[1..]))
        case Dangling => Err(MissingOutputValue)
        case Found(destination, kept) => Ok(Invocation(to, to - BlocksNeeded, destination, kept))
  }

  /** The mutable argument list of `main` (an `ArrayList<String>`). */
  class ArgList {
    var items: seq<string>

    constructor (args: seq<string>)
      ensures items == args
    {
      items := args;
    }

    /** `get(i)`; None where the list throws for an index out of range. */
    method Get(i: nat) returns (x: Option<string>)
      ensures x.Some? <==> i < |items|
      ensures x.Some? ==> x.value == items[i]
    {
      if i < |items| {
        x := Some(items[i]);
      } else {
        x := None;
      }
    }

    /** `remove(i)`: takes out and returns the element at `i`, closing the gap;
        None, and nothing changes, where the list throws for an index out of range. */
    method RemoveAt(i: nat) returns (x: Option<string>)
      modifies this
      ensures x.Some? <==> i < |old(items)|
      ensures x.Some? ==> x.value == old(items)[i] && items == old(items)[..i] + old(items)[i + 1..]
      ensures x.None? ==> items == old(items)
    {
      if i < |items| {
        x := Some(items[i]);
        items := items[..i] + items[i + 1..];
      } else {
        x := None;
      }
    }

    /** `indexOf(x)`: the position of the first element equal to `x`, or -1. */
    method IndexOf(x: string) returns (k: int)
      ensures -1 <= k < |items|
      ensures k == -1 <==> x !in items
      ensures 0 <= k ==> items[k] == x && x !in items[..k]
    {
      var i := 0;
      while i < |items|
        invariant 0 <= i <= |items|
        invariant x !in items[..i]
      {
        if items[i] == x {
          return i;
        }
        assert items[..i + 1] == items[..i] + [items[i]];
        i := i + 1;
      }
      assert items[..i] == items;
      k := -1;
    }
  }

  /** Lines 51-69 of `main`, step by step on the argument list. */
  method ParseArgs(args: seq<string>, parseLong: string -> Option<int>, outputProperty: Option<string>)
    returns (r: Result<Invocation, ExportError>)
    ensures r == ParseInvocation(args, parseLong, outputProperty)
  {
    var argList := new ArgList(args);
    var first := argList.Get(0);
    if first.None? {
      return Err(MissingHeightArgument);
    }
    var parsed := parseLong(first.value);
    if parsed.None? {
      return Err(MalformedHeight(first.value));
    }
    var to := parsed.value;
    var from := to - BlocksNeeded;
    var _ := argList.RemoveAt(0);
    ghost var split := SplitAtFlag(argList.items, OutputFlag);
    assert argList.items == args[1..];
    var taken := TakeDestination(argList, outputProperty);
    if taken.Err? {
      assert split == Dangling;
      return Err(taken.error);
    }
    var destinationFolder := taken.value;
    if split.Found? {
      assert destinationFolder == split.value && argList.items == split.kept;
    } else {
      assert split.Absent? && argList.items == args[1..];
    }
    r := Ok(Invocation(to, from, destinationFolder, argList.items));
  }

  /** Lines 59-67 of `main`: takes the destination out of the argument list,
      together with the flag before it, or falls back to the default. */
  method TakeDestination(argList: ArgList, outputProperty: Option<string>) returns (r: Result<string, ExportError>)
    modifies argList
    ensures match SplitAtFlag(old(argList.items), OutputFlag)
            case Absent => r == Ok(outputProperty.GetOr(DefaultOutput)) && argList.items == old(argList.items)
            case Dangling => r == Err(MissingOutputValue)
            case Found(destination, kept) => r == Ok(destination) && argList.items == kept
  {
    ghost var rest := argList.items;
    var destFolderKeyIndex := argList.IndexOf(OutputFlag);
    assert destFolderKeyIndex == FirstIndex(rest, OutputFlag);
    if destFolderKeyIndex != -1 {
      var removed := argList.RemoveAt(destFolderKeyIndex + 1);
      if removed.None? {
        return Err(MissingOutputValue);
      }
      var _ := argList.RemoveAt(destFolderKeyIndex);
      assert argList.items == rest[..destFolderKeyIndex] + rest[destFolderKeyIndex + 2..];
      r := Ok(removed.value);
    } else {
      r := Ok(outputProperty.GetOr(DefaultOutput));
    }
  }

  // ----- properties of the argument split -------------------------------------

  /** A list built from a flag-free prefix, the flag, a value and
      any suffix splits back into the value and prefix plus suffix. */
  lemma AssembledSplits<T>(before: seq<T>, flag: T, value: T, after: seq<T>)
    requires flag !in before
    ensures SplitAtFlag(before + [flag, value] + after, flag) == Found(value, before + after)
  {
    var s := before + [flag, value] + after;
    assert s == before + ([flag, value] + after);
    FirstIndexAfter(before, [flag, value] + after, flag);
    var k := |before|;
    assert s[..k] == before && s[k + 1] == value && s[k + 2..] == after;
  }

  lemma {:induction false} FirstIndexAfter<T>(before: seq<T>, tail: seq<T>, x: T)
    requires x !in before && |tail| > 0 && tail[0] == x
    ensures FirstIndex(before + tail, x) == |before|
  {
    if before != [] {
      assert (before + tail)[1..] == before[1..] + tail;
      FirstIndexAfter(before[1..], tail, x);
    }
  }

  /** The split has no value exactly when the first flag is the last element. */
  lemma DanglingExactly<T>(s: seq<T>, flag: T)
    ensures SplitAtFlag(s, flag) == Dangling <==> flag in s && flag !in s[..|s| - 1]
  {
    if flag in s {
      var k := FirstIndex(s, flag);
      if k + 1 == |s| {
        assert s[..|s| - 1] == s[..k];
      } else {
        assert s[k] in s[..|s| - 1];
      }
    }
  }

  /** With the first output flag at position `k`, the destination is the
      argument after it and the pass-through arguments are all the others
      after the height, in their original order. */
  lemma FlagAndValueRemoved(args: seq<string>, parseLong: string -> Option<int>, outputProperty: Option<string>, k: nat)
    requires ParseInvocation(args, parseLong, outputProperty).Ok?
    requires 0 < k < |args| && args[k] == OutputFlag && OutputFlag !in args[1..k]
    ensures k + 1 < |args|
    ensures ParseInvocation(args, parseLong, outputProperty).value.destination == args[k + 1]
    ensures ParseInvocation(args, parseLong, outputProperty).value.rskArgs == args[1..k] + args[k + 2..]
  {
    var rest := args[1..];
    assert rest[k - 1] == args[k] && rest[..k - 1] == args[1..k];
    SplitAtPosition(rest, OutputFlag, k - 1);
    if k + 1 < |args| {
      assert rest[k] == args[k + 1] && rest[k + 1..] == args[k + 2..];
    }
  }

  /** With the first flag at position `k`, the split cuts out positions `k` and `k + 1`. */
  lemma SplitAtPosition<T>(s: seq<T>, flag: T, k: nat)
    requires k < |s| && s[k] == flag && flag !in s[..k]
    ensures SplitAtFlag(s, flag) == if k + 1 == |s| then Dangling else Found(s[k + 1], s[..k] + s[k + 2..])
  {
    assert s == s[..k] + s[k..];
    FirstIndexAfter(s[..k], s[k..], flag);
  }

  /** Without the output flag, every argument after the first passes through
      unchanged and the destination is the system property or `./output`; in
      both cases the height is the first argument's value and `from` lies
      `BlocksNeeded` below it. */
  lemma ArgumentsPassThrough(args: seq<string>, parseLong: string -> Option<int>, outputProperty: Option<string>)
    requires ParseInvocation(args, parseLong, outputProperty).Ok?
    ensures |args| > 0
    ensures var inv := ParseInvocation(args, parseLong, outputProperty).value;
            && parseLong(args[0]) == Some(inv.to) && inv.from == inv.to - BlocksNeeded
            && (OutputFlag !in args[1..] ==>
                  inv.rskArgs == args[1..] && inv.destination == outputProperty.GetOr(DefaultOutput))
  {
  }

  /** Any argument list built from a height, pass-through arguments and the
      flag with its value is split back into exactly those parts. */
  lemma ArgumentsSplit(height: string, before: seq<string>, destination: string, after: seq<string>,
                       parseLong: string -> Option<int>, outputProperty: Option<string>, to: int)
    requires parseLong(height) == Some(to)
    requires OutputFlag !in before
    ensures ParseInvocation([height] + before + [OutputFlag, destination] + after, parseLong, outputProperty)
            == Ok(Invocation(to, to - BlocksNeeded, destination, before + after))
  {
    var args := [height] + before + [OutputFlag, destination] + after;
    assert args[1..] == before + [OutputFlag, destination] + after;
    AssembledSplits(before, OutputFlag, destination, after);
  }

  /** The argument handling fails, and for which reason, exactly when: no
      arguments; a first argument that is not a number; or a first output flag
      in last place. */
  lemma ParseFailures(args: seq<string>, parseLong: string -> Option<int>, outputProperty: Option<string>)
    ensures ParseInvocation(args, parseLong, outputProperty) == Err(MissingHeightArgument) <==> |args| == 0
    ensures ParseInvocation(args, parseLong, outputProperty) == Err(MalformedHeight(if |args| > 0 then args[0] else ""))
            <==> |args| > 0 && parseLong(args[0]).None?
    ensures ParseInvocation(args, parseLong, outputProperty) == Err(MissingOutputValue)
            <==> |args| > 0 && parseLong(args[0]).Some?
                 && OutputFlag in args[1..] && OutputFlag !in args[1..|args| - 1]
  {
    if |args| > 1 {
      DanglingExactly(args[1..], OutputFlag);
      assert args[1..][..|args[1..]| - 1] == args[1..|args| - 1];
    }
  }
}
