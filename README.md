# ics-time-shifter: a verified model of the iCalendar line tokenizer

`shifter.py` reads an iCalendar file line by line. It has three parts, and
this project models each one in Dafny:

- A two-state scanner (`readItems`). It cuts the file into items: each
  `BEGIN:VEVENT` … `END:VEVENT` run becomes an `Event`, and a run of other
  lines becomes a generic `IcsData` item when the next event begins. Lines
  still collected at end of input make no item.
- A key/value record (`IcsData`) per item. It is filled by splitting every
  line at its first colon.
- A driver (`applyDelta`, `shift`). It calls `start()` on every item and,
  if that returns, `end()`, and `shift` returns an exit code.

The model follows the code. The code has no timestamp parsing and no shift
arithmetic, so the model has none either.

Modules:

- `Records` (`records.dfy`) holds the record and the accessors:
  - `SplitLine` splits one line.
  - `Parse` is the dictionary the constructor leaves behind, written as a
    fold over the lines.
  - `Build` is the constructor's loop, proved equal to `Parse`.
  - `Content` is `content()`.
  - `Name`/`Start`/`End` are the `Event` accessors. A failed lookup is a
    `KeyError` on an event without the key, and an `AttributeError` on a
    generic item.
- `Tokenizer` (`tokenizer.dfy`) holds the scanner:
  - `Segment` is a front-to-back reference definition of how lines are cut
    into spans.
  - `Scan`/`Step` mirror one iteration of the loop.
  - `ReadItems` is the loop itself, with `items`, `eventCount`, the
    `itemLines` buffer and the `insideEvent` flag. It is proved to produce
    `ItemsOf(Segment(lines).spans)`.
  - `Segment` is proved to cover the input in order, to produce only
    well-formed spans, to leave over exactly the unclosed tail, and to be
    the only segmentation with these properties.
- `Shifter` (`shifter.dfy`) holds the driver:
  - `ApplyDelta` records the `try` branch each item takes and returns the
    list of shifted items, which is always empty.
  - `Shift` maps the outcome of opening the file to the return code.

Lines are the opaque strings the file iterator yields. Line terminators
are not stripped, so they stay inside the stored values.

The code is read with Python 3 semantics. The shebang names Python 2.7, but
`readItems` calls `itemLines.clear()` (shifter.py:180, 195), a list method
that exists only from Python 3.3 on. Under Python 2.7 that call raises
AttributeError at the first flush, so `readItems` fails on any input that
closes an item. This discrepancy between the declared interpreter and the
code is not modelled further.

Behaviour of the code that the model states:

- At end of input the buffer is not flushed, so trailing lines and an
  unterminated event make no item (`TrailingLinesDropped`,
  `SegmentRestIsOpen`).
- A repeated key keeps its last value (`ParseLastWins`).
- A colon-free line raises TypeError under Python 3 (see Findings); the
  rest of the model drops it instead (`ParseSkipsPlainLine`).

## Model

| member | source | states |
|---|---|---|
| Records.ColonIndex | shifter.py:58-62 | the returned position is the first colon of the line, or the line's length when there is none |
| Records.SplitLine | shifter.py:58-64 | a line has two parts exactly when it contains a colon; the key is the colon-free text before the first colon; key, colon and value together give back the line, so the value may contain colons |
| Records.SplitEntryLine | shifter.py:62-64 | a "key:value" line with a colon-free key splits back into exactly that key and that value |
| Records.Build | shifter.py:56-70 | the constructor's loop yields the dictionary `Parse` describes, and no stored key contains a colon |
| Records.ParseKeys | shifter.py:59-64 | a key is in the record if and only if some line's first-colon prefix is that key |
| Records.ParseKeysColonFree | shifter.py:62-64 | stored keys never contain a colon |
| Records.ParseLastWins | shifter.py:61-64 | for a repeated key, the record holds the value from the last line that sets it |
| Records.ParseSkipsPlainLine | shifter.py:61-70 | a line without a colon leaves the record unchanged, wherever it stands among the lines |
| Records.ParseSnoc | shifter.py:61-64 | reading one more line changes the record by that line's pair alone, setting its key to its value whatever was stored before, or not at all when the line has no colon |
| Records.Content | shifter.py:72-76 | the result has one line per dictionary entry; every entry's "key:value" line occurs in it; every line in it is such an entry line |
| Records.ContentRoundTrip | shifter.py:62-76 | re-reading the lines written for a dictionary with colon-free keys gives back exactly that dictionary |
| Records.ReparseContent | shifter.py:56-76 | for a record built from any lines, re-reading what `content()` writes gives the same record |
| Records.Name | shifter.py:82-83 | returns the SUMMARY value of an event that has one; raises KeyError("SUMMARY") on an event without it and AttributeError on a generic item |
| Records.Start | shifter.py:85-86 | returns the DTSTART value of an event that has one; raises KeyError("DTSTART") on an event without it and AttributeError on a generic item |
| Records.End | shifter.py:88-89 | returns the DTEND value of an event that has one; raises KeyError("DTEND") on an event without it and AttributeError on a generic item |
| Records.AccessParsedEvent | shifter.py:59-89 | on an event built from lines, an accessor raises KeyError if and only if no line sets its key, and otherwise returns the value of the last line that does |
| Records.InitAsWritten | shifter.py:56-70 | the constructor as written under Python 3 finishes exactly when every line has a colon, and then gives `Parse`'s dictionary; otherwise it raises TypeError at the first colon-free line |
| Records.InitAsWrittenRaisesOnPlainLine | shifter.py:69 | one colon-free line makes the constructor as written raise, although dropping that line would leave the record unchanged |
| Tokenizer.BeginIndex | shifter.py:163-174 | the result is the position of the first line that starts with BEGIN:VEVENT, or the number of lines when none does |
| Tokenizer.EndIndex | shifter.py:164-184 | the result is the position of the first line that starts with END:VEVENT, or the number of lines when none does |
| Tokenizer.ReadItems | shifter.py:157-206 | the loop returns one item per span of `Segment(lines)`, in order, built from that span's lines; `eventCount` is the number of Event items |
| Tokenizer.ScanIsSegment | shifter.py:172-198 | scanning all lines one at a time gives exactly the spans of `Segment`, and leaves in the buffer exactly the lines `Segment` leaves over |
| Tokenizer.StepBegin | shifter.py:174-182 | a BEGIN line outside an event closes a non-empty buffer as a generic span and starts an event buffer with itself; the scan still agrees with `Segment` |
| Tokenizer.StepEnd | shifter.py:184-195 | an END line inside an event closes the buffer, END line included, as an event span and empties the buffer; the scan still agrees with `Segment` |
| Tokenizer.StepOther | shifter.py:197-198 | any other line, including a BEGIN line inside an event or an END line outside one, is appended to the buffer; the scan still agrees with `Segment` |
| Tokenizer.SegmentCovers | shifter.py:172-198 | the spans' lines, followed by the lines left over, are the input in order: no line is lost, duplicated or moved |
| Tokenizer.SegmentSpansWellFormed | shifter.py:174-198 | every event span starts with a BEGIN line, has no END line before its last line, and ends with an END line; every generic span is non-empty and has no BEGIN line |
| Tokenizer.SegmentGenericBeforeEvent | shifter.py:174-180 | a generic span is only closed by a beginning event: it is followed by an event span, or by an unterminated event left over at the end |
| Tokenizer.SegmentRestIsOpen | shifter.py:200-206 | the lines left over are an unterminated event or a run with no BEGIN line |
| Tokenizer.TrailingLinesDropped | shifter.py:200-206 | appending an unterminated event or lines without a BEGIN line to a complete input adds no item; those lines are left over as they are |
| Tokenizer.SegmentAppend | shifter.py:172-198 | once every buffer is closed, the lines that follow are segmented as if the input started there |
| Tokenizer.SegmentationUnique | shifter.py:172-206 | any cover of the input by well-formed spans, with generic spans only before events and an open tail, is the one `Segment` computes |
| Tokenizer.CountEventsOfSpans | shifter.py:189-190 | the number of Event items equals the number of event spans |
| Tokenizer.EventRecordsEnd | shifter.py:182-189 | an event's record holds END, with the text after "END:" on the event's closing line |
| Tokenizer.EventsRecordEnd | shifter.py:157-206 | every event that readItems returns has an END entry |
| Tokenizer.GenericEventTail | shifter.py:172-206 | header lines, one complete event and a tail without a closing marker give a generic item, an event, and the tail left over |
| Shifter.BranchOf | shifter.py:211-222 | a generic item takes the AttributeError branch; an event without DTSTART takes the KeyError branch for DTSTART; an event with DTSTART but no DTEND takes it for DTEND; an event with both takes neither |
| Shifter.ApplyDelta | shifter.py:208-224 | the returned list is empty for all items and all deltas, and the branch taken by each item is `BranchOf` of that item |
| Shifter.Shift | shifter.py:227-236 | the return code is 0 when the file can be read and 1 when opening it raises OSError |
| Shifter.MissingStartOfParsedEvent | shifter.py:213-222 | an event built from lines takes the KeyError branch for DTSTART if and only if no line stores DTSTART |
| Shifter.BothFoundOfParsedEvent | shifter.py:213-214 | an event built from lines passes both accessors if and only if some line stores DTSTART and some line stores DTEND |

## Left out

- `main`, argument parsing, the version and licence strings and the
  `__main__` block (shifter.py:92-155, 239-259). They are command-line glue
  around a library.
- The verbosity helpers and every `print` (shifter.py:37-42, 66-67, 70,
  137-140, 192-193, 201-204, 220-222). They only log. In particular, the
  `content()` call at line 222 only feeds a print.
- Opening and reading the file. `Shift` receives either the file's lines or
  an `OsError` marker. An OSError raised while reading, after a successful
  open, is treated like one raised by the open.
- Records.Content: does not fix the order of the lines. The dictionary's
  iteration order depends on the Python version: it is arbitrary before 3.7
  and insertion order after. So the contract states the set of lines and
  their number, not their order.
- Shifter.Shift: models the return code only. Exceptions other than OSError
  are not modelled, such as a decoding error while reading, or the
  TypeError of the Finding below; each would leave `shift` without a
  return code.
- Shifter.ApplyDelta: items are immutable values in the model. That
  `applyDelta` leaves its input items unchanged therefore holds by
  construction and is not stated as a contract.
- `delta` is accepted and never used, exactly as in the code. No timestamp
  parsing or shifting is modelled, because the code has none.
- `ReadItems` and everything built on it use the corrected constructor
  (`Build`, which drops a colon-free line), not the raising one.

## Findings

| source | as written | input that shows it | evidently intended | confidence | as-written member | corrected member |
|---|---|---|---|---|---|---|
| shifter.py:69 | `elif 0 < verbose:` compares an int with the function `verbose`. Under Python 3 this raises TypeError, so any line without a colon aborts the constructor and, with it, `readItems` and `shift` | a record whose lines include a blank line or a folded continuation line without a colon, e.g. `["BEGIN:VEVENT", "", "END:VEVENT"]` | call `verbose()`, so that the line is dropped and reading continues | not executed | Records.InitAsWritten, Records.InitAsWrittenRaisesOnPlainLine | Records.Build, Records.ParseSkipsPlainLine |
