/** The driver of the calendar shifter (shifter.py, applyDelta and shift):
    probe every item for its start and end times, and turn the outcome of
    reading the input file into the program's return code. */
module Shifter {
  import opened Records
  import opened Tokenizer

  /** The branch of applyDelta's try statement an item takes. */
  datatype Branch =
    | NotAnEvent             // `except AttributeError`: a generic item
    | MissingKey(key: string) // `except KeyError`: an event without that key
    | BothFound              // start() and end() both returned a value

  /** The branch a failed accessor call leads to. */
  function Handler(failure: Failure): Branch
  {
    match failure
    case AttributeError(_) => NotAnEvent
    case KeyError(k) => MissingKey(k)
  }

  /** The branch applyDelta takes for `item`: start() is called first, so a
      missing DTSTART is the key reported even when DTEND is missing too. */
  function BranchOf(item: Item): (b: Branch)
    ensures b == NotAnEvent <==> item.Generic?
    ensures b == MissingKey("DTSTART") <==> item.Event? && "DTSTART" !in item.values
    ensures b == MissingKey("DTEND") <==> item.Event? && "DTSTART" in item.values && "DTEND" !in item.values
    ensures b == BothFound <==> item.Event? && "DTSTART" in item.values && "DTEND" in item.values
  {
    match Start(item)
    case Raised(failure) => Handler(failure)
    case Found(_) =>
      match End(item)
      case Raised(failure) => Handler(failure)
      case Found(_) => BothFound
  }

  /** applyDelta: visit every item, calling start() and then end(). The list
      of shifted items it returns stays empty whatever the items and the
      delta; `branches` records, item by item, the branch taken. */
  method ApplyDelta(items: seq<Item>, delta: int) returns (shiftedItems: seq<Item>, branches: seq<Branch>)
    ensures shiftedItems == []
    ensures |branches| == |items|
    ensures forall i :: 0 <= i < |items| ==> branches[i] == BranchOf(items[i])
  {
    shiftedItems := [];
    branches := [];
    for i := 0 to |items|
      invariant |branches| == i
      invariant forall k :: 0 <= k < i ==> branches[k] == BranchOf(items[k])
    {
      var branch: Branch;
      var startTime := Start(items[i]);
      if startTime.Raised? {
        branch := Handler(startTime.failure);
      } else {
        var endTime := End(items[i]);
        branch := if endTime.Raised? then Handler(endTime.failure) else BothFound;
      }
      branches := branches + [branch];
    }
  }

  /** What opening the input file gives: its lines, or an OSError. */
  datatype Source = Lines(lines: seq<string>) | OsError

  /** shift: read the items, apply the delta, and return 0; return 1 when the
      file cannot be opened. */
  method Shift(source: Source, delta: int) returns (code: int)
    ensures source.Lines? ==> code == 0
    ensures source.OsError? ==> code == 1
  {
    match source
    case OsError =>
      code := 1;
    case Lines(lines) =>
      var items, _ := ReadItems(lines);
      var shifted, _ := ApplyDelta(items, delta);
      code := 0;
  }

  /** An event read from input takes the KeyError branch for DTSTART exactly
      when none of its lines stores DTSTART. */
  lemma MissingStartOfParsedEvent(lines: seq<string>)
    ensures BranchOf(Event(Parse(lines))) == MissingKey("DTSTART") <==>
            forall i :: 0 <= i < |lines| ==> !SetsKey(lines[i], "DTSTART")
  {
    ParseKeys(lines);
  }

  /** An event read from input reaches both accessors exactly when some line
      stores DTSTART and some line stores DTEND. */
  lemma BothFoundOfParsedEvent(lines: seq<string>)
    ensures BranchOf(Event(Parse(lines))) == BothFound <==>
            (exists i :: 0 <= i < |lines| && SetsKey(lines[i], "DTSTART")) &&
            (exists i :: 0 <= i < |lines| && SetsKey(lines[i], "DTEND"))
  {
    ParseKeys(lines);
  }
}
