/** Key/value records of the calendar shifter (shifter.py, classes IcsData and
    Event). A record is built from a run of input lines: each line is split at
    its first colon and the pair is stored in a dictionary, a later line with
    the same key overwriting an earlier one. Lines are the opaque strings the
    file iterator yields, line terminator included. */
module Records {

  datatype Option<+T> = None | Some(value: T)

  /** An item of the tokenized document: generic data (class IcsData) or a
      calendar event (class Event); both hold the record's dictionary. */
  datatype Item = Generic(values: map<string, string>) | Event(values: map<string, string>)

  // ---------------------------------------------------------------------------
  // Splitting one line

  /** Position of the first ':' in `line`, or |line| when there is none. */
  function ColonIndex(line: string): (i: nat)
    ensures i <= |line|
    ensures ':' !in line[..i]
    ensures i < |line| ==> line[i] == ':'
  {
    if line == [] then 0
    else if line[0] == ':' then 0
    else
      var j := ColonIndex(line[1..]);
      assert line[..1 + j] == [line[0]] + line[1..][..j];
      1 + j
  }

  /** `re.split(":", line, maxsplit=1)` when it yields two parts: the key is
      the text before the first colon, the value everything after it (which
      may hold further colons). None when the line has no colon. */
  function SplitLine(line: string): (r: Option<(string, string)>)
    ensures r.None? <==> ':' !in line
    ensures r.Some? ==> line == r.value.0 + ":" + r.value.1 && ':' !in r.value.0
  {
    var i := ColonIndex(line);
    if i == |line| then
      assert line[..i] == line;
      None
    else
      assert line == line[..i] + ":" + line[i + 1..];
      Some((line[..i], line[i + 1..]))
  }

  /** The line "key:value" that content() writes for one entry. */
  function EntryLine(key: string, value: string): string
  {
    key + ":" + value
  }

  /** A key without a colon is split back off its entry line exactly. */
  lemma SplitEntryLine(key: string, value: string)
    requires ':' !in key
    ensures SplitLine(EntryLine(key, value)) == Some((key, value))
  {
    var line := EntryLine(key, value);
    var i := ColonIndex(line);
    assert line[|key|] == ':';
    assert forall n :: 0 <= n < |key| ==> line[n] == key[n];
    assert i == |key|;
    assert line[..i] == key;
    assert line[i + 1..] == value;
  }

  /** Line `line` stores key `key`. */
  predicate SetsKey(line: string, key: string)
  {
    SplitLine(line).Some? && SplitLine(line).value.0 == key
  }

  // ---------------------------------------------------------------------------
  // Building the dictionary (IcsData.__init__)

  /** The dictionary that IcsData.__init__ leaves in `_values` after reading
      `lines` in order. */
  function Parse(lines: seq<string>): map<string, string>
  {
    if lines == [] then map[]
    else
      var values := Parse(lines[..|lines| - 1]);
      match SplitLine(lines[|lines| - 1])
      case None => values
      case Some((k, v)) => values[k := v]
  }

  /** IcsData.__init__: fill the dictionary line by line. A line without a
      colon is dropped. */
  method Build(lines: seq<string>) returns (values: map<string, string>)
    ensures values == Parse(lines)
    ensures forall k :: k in values ==> ':' !in k
  {
    values := map[];
    for i := 0 to |lines|
      invariant values == Parse(lines[..i])
      invariant forall k :: k in values ==> ':' !in k
    {
      assert lines[..i + 1][..i] == lines[..i];
      match SplitLine(lines[i])
      case Some((k, v)) =>
        values := values[k := v];
      case None =>
    }
    assert lines[..|lines|] == lines;
  }

  /** Reading one more line updates the record by that line alone. */
  lemma ParseSnoc(lines: seq<string>, line: string)
    ensures Parse(lines + [line]) ==
            match SplitLine(line)
            case None => Parse(lines)
            case Some((k, v)) => Parse(lines)[k := v]
  {
    assert (lines + [line])[..|lines|] == lines;
  }

  /** Some line of `lines` stores key `k`. */
  ghost predicate SomeLineSets(lines: seq<string>, k: string)
  {
    exists i :: 0 <= i < |lines| && SetsKey(lines[i], k)
  }

  lemma SomeLineSetsSnoc(lines: seq<string>, line: string, k: string)
    ensures SomeLineSets(lines + [line], k) <==> SomeLineSets(lines, k) || SetsKey(line, k)
  {
    var all := lines + [line];
    if SomeLineSets(lines, k) {
      var i :| 0 <= i < |lines| && SetsKey(lines[i], k);
      assert all[i] == lines[i];
    }
    if SetsKey(line, k) {
      assert all[|lines|] == line;
    }
    if SomeLineSets(all, k) {
      var i :| 0 <= i < |all| && SetsKey(all[i], k);
      if i < |lines| {
        assert all[i] == lines[i];
      }
    }
  }

  /** The keys of a record are exactly the first-colon prefixes of its lines
      that have a colon. */
  lemma {:induction false} ParseKeys(lines: seq<string>)
    ensures forall k :: k in Parse(lines) <==> exists i :: 0 <= i < |lines| && SetsKey(lines[i], k)
  {
    if lines != [] {
      var init, last := lines[..|lines| - 1], lines[|lines| - 1];
      assert lines == init + [last];
      ParseKeys(init);
      ParseSnoc(init, last);
      forall k
        ensures k in Parse(lines) <==> SomeLineSets(lines, k)
      {
        assert k in Parse(init) <==> SomeLineSets(init, k);
        SomeLineSetsSnoc(init, last, k);
      }
    }
  }

  /** Stored keys never contain a colon. */
  lemma ParseKeysColonFree(lines: seq<string>)
    ensures forall k :: k in Parse(lines) ==> ':' !in k
  {
    ParseKeys(lines);
  }

  /** A repeated key keeps the value of its last line. */
  lemma {:induction false} ParseLastWins(lines: seq<string>, j: nat)
    requires j < |lines| && SplitLine(lines[j]).Some?
    requires forall i :: j < i < |lines| ==> !SetsKey(lines[i], SplitLine(lines[j]).value.0)
    ensures SplitLine(lines[j]).value.0 in Parse(lines)
    ensures Parse(lines)[SplitLine(lines[j]).value.0] == SplitLine(lines[j]).value.1
  {
    var init := lines[..|lines| - 1];
    if j < |lines| - 1 {
      assert init[j] == lines[j];
      forall i | j < i < |init|
        ensures !SetsKey(init[i], SplitLine(init[j]).value.0)
      {
        assert init[i] == lines[i];
      }
      ParseLastWins(init, j);
    }
  }

  /** A line without a colon leaves the record as it is, wherever it stands. */
  lemma {:induction false} ParseSkipsPlainLine(before: seq<string>, line: string, after: seq<string>)
    requires ':' !in line
    ensures Parse(before + [line] + after) == Parse(before + after)
  {
    if after == [] {
      assert before + [line] + after == before + [line];
      assert before + after == before;
      ParseSnoc(before, line);
    } else {
      var front, last := after[..|after| - 1], after[|after| - 1];
      ParseSkipsPlainLine(before, line, front);
      assert before + [line] + after == (before + [line] + front) + [last];
      assert before + after == (before + front) + [last];
      ParseSnoc(before + [line] + front, last);
      ParseSnoc(before + front, last);
    }
  }

  // ---------------------------------------------------------------------------
  // Writing the dictionary back out (IcsData.content)

  /** `line` is the "key:value" line of some entry of `values`. */
  ghost predicate IsEntryOf(values: map<string, string>, line: string)
  {
    exists k :: k in values && line == EntryLine(k, values[k])
  }

  /** `lines` lists every entry of `values` once, as "key:value", in some order. */
  ghost predicate IsContentOf(values: map<string, string>, lines: seq<string>)
  {
    |lines| == |values| &&
    (forall k :: k in values ==> EntryLine(k, values[k]) in lines) &&
    (forall i :: 0 <= i < |lines| ==> IsEntryOf(values, lines[i]))
  }

  /** `lines` writes out the entries of `values` for `keys`, a sequence of
      distinct keys of `values`, one line per key, in the order of `keys`. */
  ghost predicate WritesKeys(values: map<string, string>, keys: seq<string>, lines: seq<string>)
  {
    |lines| == |keys| &&
    (forall i :: 0 <= i < |keys| ==> keys[i] in values && lines[i] == EntryLine(keys[i], values[keys[i]])) &&
    (forall i, j :: 0 <= i < j < |keys| ==> keys[i] != keys[j])
  }

  /** IcsData.content(): one "key:value" line per dictionary entry, in the
      dictionary's iteration order, which is left unspecified here. */
  method Content(item: Item) returns (lines: seq<string>)
    ensures IsContentOf(item.values, lines)
  {
    var values := item.values;
    lines := [];
    var todo := values.Keys;
    ghost var keys: seq<string> := [];  // the keys written so far, in order
    while todo != {}
      invariant todo <= values.Keys
      invariant forall k :: k in keys <==> k in values && k !in todo
      invariant WritesKeys(values, keys, lines)
      decreases |todo|
    {
      var k :| k in todo;
      lines := lines + [EntryLine(k, values[k])];
      keys := keys + [k];
      todo := todo - {k};
    }
    AllKeysWritten(values, keys, lines);
  }

  /** Lines written for every key of `values` are its content. */
  lemma AllKeysWritten(values: map<string, string>, keys: seq<string>, lines: seq<string>)
    requires WritesKeys(values, keys, lines)
    requires forall k :: k in values ==> k in keys
    ensures IsContentOf(values, lines)
  {
    forall k | k in values
      ensures EntryLine(k, values[k]) in lines
    {
      var i :| 0 <= i < |keys| && keys[i] == k;
      assert lines[i] == EntryLine(k, values[k]);
    }
    forall i | 0 <= i < |lines|
      ensures IsEntryOf(values, lines[i])
    {
      assert keys[i] in values && lines[i] == EntryLine(keys[i], values[keys[i]]);
    }
    DistinctKeysCount(keys);
    assert (set k | k in keys) == values.Keys;
  }

  /** A sequence without repetitions has as many elements as its set. */
  lemma {:induction false} DistinctKeysCount(keys: seq<string>)
    requires forall i, j :: 0 <= i < j < |keys| ==> keys[i] != keys[j]
    ensures |set k | k in keys| == |keys|
  {
    if keys != [] {
      var init := keys[..|keys| - 1];
      DistinctKeysCount(init);
      assert (set k | k in keys) == (set k | k in init) + {keys[|keys| - 1]};
    }
  }

  /** Re-reading lines that are all entries of `values` gives a sub-record of it. */
  lemma {:induction false} ParseOfEntries(values: map<string, string>, lines: seq<string>)
    requires forall k :: k in values ==> ':' !in k
    requires forall i :: 0 <= i < |lines| ==> IsEntryOf(values, lines[i])
    ensures forall k :: k in Parse(lines) ==> k in values && Parse(lines)[k] == values[k]
  {
    if lines != [] {
      var init := lines[..|lines| - 1];
      assert forall i :: 0 <= i < |init| ==> init[i] == lines[i];
      ParseOfEntries(values, init);
      assert IsEntryOf(values, lines[|lines| - 1]);
      var k0 :| k0 in values && lines[|lines| - 1] == EntryLine(k0, values[k0]);
      SplitEntryLine(k0, values[k0]);
    }
  }

  /** Re-reading the lines content() writes yields the same dictionary. */
  lemma ContentRoundTrip(values: map<string, string>, lines: seq<string>)
    requires forall k :: k in values ==> ':' !in k
    requires IsContentOf(values, lines)
    ensures Parse(lines) == values
  {
    ParseOfEntries(values, lines);
    forall k | k in values
      ensures k in Parse(lines)
    {
      var line := EntryLine(k, values[k]);
      SplitEntryLine(k, values[k]);
      var i :| 0 <= i < |lines| && lines[i] == line;
      assert SetsKey(lines[i], k);
      ParseKeys(lines);
    }
    assert Parse(lines).Keys == values.Keys;
  }

  /** For any record read from input, writing it out and reading the result
      back gives the record unchanged. */
  lemma ReparseContent(source: seq<string>, lines: seq<string>)
    requires IsContentOf(Parse(source), lines)
    ensures Parse(lines) == Parse(source)
  {
    ParseKeysColonFree(source);
    ContentRoundTrip(Parse(source), lines);
  }

  // ---------------------------------------------------------------------------
  // Event accessors (Event.name, Event.start, Event.end)

  /** The exception a failed accessor call raises. */
  datatype Failure = KeyError(key: string) | AttributeError(attribute: string)

  /** What an accessor call gives: the stored value or the raised exception. */
  datatype Lookup = Found(value: string) | Raised(failure: Failure)

  /** Calling accessor `attribute`, which Event defines as the lookup of `key`. */
  function Access(item: Item, attribute: string, key: string): Lookup
  {
    match item
    case Generic(_) => Raised(AttributeError(attribute))
    case Event(values) => if key in values then Found(values[key]) else Raised(KeyError(key))
  }

  /** Event.name(): the SUMMARY value. */
  function Name(item: Item): (r: Lookup)
    ensures r.Found? <==> item.Event? && "SUMMARY" in item.values
    ensures r.Found? ==> r.value == item.values["SUMMARY"]
    ensures item.Event? && "SUMMARY" !in item.values ==> r == Raised(KeyError("SUMMARY"))
    ensures item.Generic? ==> r == Raised(AttributeError("name"))
  {
    Access(item, "name", "SUMMARY")
  }

  /** Event.start(): the DTSTART value. */
  function Start(item: Item): (r: Lookup)
    ensures r.Found? <==> item.Event? && "DTSTART" in item.values
    ensures r.Found? ==> r.value == item.values["DTSTART"]
    ensures item.Event? && "DTSTART" !in item.values ==> r == Raised(KeyError("DTSTART"))
    ensures item.Generic? ==> r == Raised(AttributeError("start"))
  {
    Access(item, "start", "DTSTART")
  }

  /** Event.end(): the DTEND value. */
  function End(item: Item): (r: Lookup)
    ensures r.Found? <==> item.Event? && "DTEND" in item.values
    ensures r.Found? ==> r.value == item.values["DTEND"]
    ensures item.Event? && "DTEND" !in item.values ==> r == Raised(KeyError("DTEND"))
    ensures item.Generic? ==> r == Raised(AttributeError("end"))
  {
    Access(item, "end", "DTEND")
  }

  /** On an event read from `lines`, an accessor finds the value of the last
      line that stores its key, and raises KeyError when no line does. */
  lemma AccessParsedEvent(lines: seq<string>, attribute: string, key: string)
    ensures (Access(Event(Parse(lines)), attribute, key) == Raised(KeyError(key))) <==>
            (forall i :: 0 <= i < |lines| ==> !SetsKey(lines[i], key))
    ensures forall j :: 0 <= j < |lines| && SetsKey(lines[j], key) &&
                        (forall i :: j < i < |lines| ==> !SetsKey(lines[i], key)) ==>
              Access(Event(Parse(lines)), attribute, key) == Found(SplitLine(lines[j]).value.1)
  {
    ParseKeys(lines);
    forall j | 0 <= j < |lines| && SetsKey(lines[j], key) &&
               (forall i :: j < i < |lines| ==> !SetsKey(lines[i], key))
      ensures Access(Event(Parse(lines)), attribute, key) == Found(SplitLine(lines[j]).value.1)
    {
      ParseLastWins(lines, j);
    }
  }

  // ---------------------------------------------------------------------------
  // IcsData.__init__ as written, under Python 3

  /** Outcome of IcsData.__init__ as written: the branch for a line without a
      colon evaluates `0 < verbose`, an int compared with a function, which
      raises TypeError under Python 3. */
  datatype InitOutcome = Built(values: map<string, string>) | TypeError(line: string)

  /** IcsData.__init__ exactly as written: the first colon-free line raises. */
  function InitAsWritten(lines: seq<string>): (r: InitOutcome)
    ensures r.Built? <==> forall i :: 0 <= i < |lines| ==> ':' in lines[i]
    ensures r.Built? ==> r.values == Parse(lines)
    ensures r.TypeError? ==> exists i :: 0 <= i < |lines| && lines[i] == r.line && ':' !in r.line &&
                                       forall j :: 0 <= j < i ==> ':' in lines[j]
  {
    if lines == [] then Built(map[])
    else
      var init := lines[..|lines| - 1];
      var last := lines[|lines| - 1];
      match InitAsWritten(init)
      case TypeError(l) =>
        assert forall i :: 0 <= i < |init| ==> init[i] == lines[i];
        TypeError(l)
      case Built(values) =>
        assert forall i :: 0 <= i < |init| ==> init[i] == lines[i];
        match SplitLine(last)
        case None => TypeError(last)
        case Some((k, v)) => Built(values[k := v])
  }

  /** A line without a colon, such as a folded continuation line, makes the
      constructor as written raise, where the evident intent, modelled by
      Parse, drops the line. */
  lemma InitAsWrittenRaisesOnPlainLine(before: seq<string>, line: string)
    requires ':' !in line
    ensures InitAsWritten(before + [line]) ==
            if InitAsWritten(before).TypeError? then InitAsWritten(before) else TypeError(line)
    ensures InitAsWritten(before + [line]).TypeError?
    ensures Parse(before + [line]) == Parse(before)
  {
    assert (before + [line])[..|before|] == before;
  }
}
