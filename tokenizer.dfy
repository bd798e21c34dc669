/** The line scanner of the calendar shifter (shifter.py, readItems). Lines
    from a BEGIN:VEVENT line through the next END:VEVENT line, markers
    included, become an Event; a run of other lines becomes a generic item
    when the next event begins. Lines still collected when the input ends
    are not placed in any item. */
module Tokenizer {
  import opened Records

  const BeginMarker: string := "BEGIN:VEVENT"
  const EndMarker: string := "END:VEVENT"

  /** `re.match("BEGIN:VEVENT", line)`: the line starts with the marker. */
  predicate IsBegin(line: string)
  {
    BeginMarker <= line
  }

  /** `re.match("END:VEVENT", line)`: the line starts with the marker. */
  predicate IsEnd(line: string)
  {
    EndMarker <= line
  }

  /** Position of the first BEGIN line, or |lines| when there is none. */
  function BeginIndex(lines: seq<string>): (j: nat)
    ensures j <= |lines|
    ensures forall k :: 0 <= k < j ==> !IsBegin(lines[k])
    ensures j < |lines| ==> IsBegin(lines[j])
  {
    if lines == [] then 0
    else if IsBegin(lines[0]) then 0
    else
      var j := BeginIndex(lines[1..]);
      assert forall k :: 1 <= k < 1 + j ==> lines[k] == lines[1..][k - 1];
      1 + j
  }

  /** Position of the first END line, or |lines| when there is none. */
  function EndIndex(lines: seq<string>): (j: nat)
    ensures j <= |lines|
    ensures forall k :: 0 <= k < j ==> !IsEnd(lines[k])
    ensures j < |lines| ==> IsEnd(lines[j])
  {
    if lines == [] then 0
    else if IsEnd(lines[0]) then 0
    else
      var j := EndIndex(lines[1..]);
      assert forall k :: 1 <= k < 1 + j ==> lines[k] == lines[1..][k - 1];
      1 + j
  }

  // ---------------------------------------------------------------------------
  // The segmentation readItems computes

  datatype Kind = GenericSpan | EventSpan

  /** A run of consecutive input lines that becomes one item. */
  datatype Span = Span(kind: Kind, body: seq<string>)

  /** The spans of a document, in input order, and the lines left over at the
      end of the input, which belong to no span. */
  datatype Segmentation = Segmentation(spans: seq<Span>, rest: seq<string>)

  function Prepend(spans: seq<Span>, s: Segmentation): Segmentation
  {
    Segmentation(spans + s.spans, s.rest)
  }

  /** The segmentation of `lines`, read from the front: a BEGIN line opens an
      event that runs to the next END line; any other line opens a generic
      run that lasts up to the next BEGIN line. A run with no closing line is
      left over. */
  function Segment(lines: seq<string>): Segmentation
    decreases |lines|
  {
    if lines == [] then Segmentation([], [])
    else if IsBegin(lines[0]) then
      var j := 1 + EndIndex(lines[1..]);
      if j == |lines| then Segmentation([], lines)
      else Prepend([Span(EventSpan, lines[..j + 1])], Segment(lines[j + 1..]))
    else
      var j := BeginIndex(lines);
      if j == |lines| then Segmentation([], lines)
      else Prepend([Span(GenericSpan, lines[..j])], Segment(lines[j..]))
  }

  /** The item readItems makes of a span: IcsData or Event over its lines. */
  function ItemOf(span: Span): Item
  {
    match span.kind
    case GenericSpan => Generic(Parse(span.body))
    case EventSpan => Event(Parse(span.body))
  }

  function ItemsOf(spans: seq<Span>): (items: seq<Item>)
    ensures |items| == |spans|
    ensures forall i :: 0 <= i < |spans| ==> items[i] == ItemOf(spans[i])
  {
    if spans == [] then [] else ItemsOf(spans[..|spans| - 1]) + [ItemOf(spans[|spans| - 1])]
  }

  /** Number of Event items. */
  function CountEvents(items: seq<Item>): nat
  {
    if items == [] then 0
    else CountEvents(items[..|items| - 1]) + (if items[|items| - 1].Event? then 1 else 0)
  }

  /** Number of event spans. */
  function CountEventSpans(spans: seq<Span>): nat
  {
    if spans == [] then 0
    else CountEventSpans(spans[..|spans| - 1]) + (if spans[|spans| - 1].kind == EventSpan then 1 else 0)
  }

  /** All lines of the spans, in order. */
  function Concat(spans: seq<Span>): seq<string>
  {
    if spans == [] then [] else spans[0].body + Concat(spans[1..])
  }

  /** An event buffer: a BEGIN line and then no END line. */
  predicate IsOpenEvent(buffer: seq<string>)
  {
    buffer != [] && IsBegin(buffer[0]) && forall k :: 1 <= k < |buffer| ==> !IsEnd(buffer[k])
  }

  /** A generic buffer: no BEGIN line. */
  predicate IsOpenGeneric(buffer: seq<string>)
  {
    forall k :: 0 <= k < |buffer| ==> !IsBegin(buffer[k])
  }

  /** A span as readItems emits it: an event is a BEGIN line, lines without an
      END line, then an END line; a generic run is non-empty and has no BEGIN
      line. */
  predicate WellFormedSpan(span: Span)
  {
    match span.kind
    case EventSpan =>
      |span.body| >= 2 && IsOpenEvent(span.body[..|span.body| - 1]) && IsEnd(span.body[|span.body| - 1])
    case GenericSpan =>
      span.body != [] && IsOpenGeneric(span.body)
  }

  // ---------------------------------------------------------------------------
  // Lemmas about the first marker line

  /** The index functions give the first marker line and nothing else. */
  lemma BeginIndexIs(lines: seq<string>, j: nat)
    requires j <= |lines|
    requires forall k :: 0 <= k < j ==> !IsBegin(lines[k])
    requires j < |lines| ==> IsBegin(lines[j])
    ensures BeginIndex(lines) == j
  {
    var i := BeginIndex(lines);
    assert i < |lines| ==> IsBegin(lines[i]);
    assert j < |lines| ==> IsBegin(lines[j]);
  }

  lemma EndIndexIs(lines: seq<string>, j: nat)
    requires j <= |lines|
    requires forall k :: 0 <= k < j ==> !IsEnd(lines[k])
    requires j < |lines| ==> IsEnd(lines[j])
    ensures EndIndex(lines) == j
  {
    var i := EndIndex(lines);
    assert i < |lines| ==> IsEnd(lines[i]);
    assert j < |lines| ==> IsEnd(lines[j]);
  }

  // ---------------------------------------------------------------------------
  // The scan, line by line

  /** The scanner's state after some lines: the spans of the items made so
      far, the `itemLines` buffer and the `insideEvent` flag. */
  datatype ScanState = ScanState(spans: seq<Span>, buffer: seq<string>, inside: bool)

  /** One iteration of readItems' loop. */
  function Step(s: ScanState, line: string): ScanState
  {
    if !s.inside && IsBegin(line) then
      var spans := if 0 < |s.buffer| then s.spans + [Span(GenericSpan, s.buffer)] else s.spans;
      ScanState(spans, [line], true)
    else if s.inside && IsEnd(line) then
      ScanState(s.spans + [Span(EventSpan, s.buffer + [line])], [], false)
    else
      ScanState(s.spans, s.buffer + [line], s.inside)
  }

  /** The state after scanning `lines` from the initial state. */
  function Scan(lines: seq<string>): ScanState
  {
    if lines == [] then ScanState([], [], false)
    else Step(Scan(lines[..|lines| - 1]), lines[|lines| - 1])
  }

  /** The buffer agrees with the flag. */
  predicate BufferMatchesFlag(s: ScanState)
  {
    (s.inside ==> IsOpenEvent(s.buffer)) && (!s.inside ==> IsOpenGeneric(s.buffer))
  }

  /** The segmentation of a document is the spans scanned so far followed by
      the segmentation of the buffer and the lines still to come. */
  ghost predicate ScanAgrees(s: ScanState, rest: seq<string>, whole: Segmentation)
  {
    BufferMatchesFlag(s) && whole == Prepend(s.spans, Segment(s.buffer + rest))
  }

  // ---------------------------------------------------------------------------
  // Steps of the scan

  /** A BEGIN line after a non-empty generic buffer closes that buffer as a
      generic span. */
  lemma GenericFlush(buffer: seq<string>, rest: seq<string>)
    requires buffer != [] && IsOpenGeneric(buffer)
    requires rest != [] && IsBegin(rest[0])
    ensures Segment(buffer + rest) == Prepend([Span(GenericSpan, buffer)], Segment(rest))
  {
    var lines := buffer + rest;
    assert lines[0] == buffer[0];
    assert forall k :: 0 <= k < |buffer| ==> lines[k] == buffer[k];
    assert lines[|buffer|] == rest[0];
    BeginIndexIs(lines, |buffer|);
    assert lines[..|buffer|] == buffer;
    assert lines[|buffer|..] == rest;
  }

  /** A complete event, from its BEGIN line through its END line, is closed
      as an event span. */
  lemma EventFlush(body: seq<string>, rest: seq<string>)
    requires WellFormedSpan(Span(EventSpan, body))
    ensures Segment(body + rest) == Prepend([Span(EventSpan, body)], Segment(rest))
  {
    var lines, n := body + rest, |body|;
    var open := body[..n - 1];
    assert lines[0] == body[0] == open[0];
    var tail := lines[1..];
    forall k | 0 <= k < n - 2
      ensures !IsEnd(tail[k])
    {
      assert tail[k] == open[k + 1];
    }
    assert tail[n - 2] == body[n - 1];
    EndIndexIs(tail, n - 2);
    assert lines[..n] == body;
    assert lines[n..] == rest;
  }

  /** A buffer that is still open is left over whole: no span is made of it. */
  lemma TailSegment(tail: seq<string>)
    requires IsOpenEvent(tail) || IsOpenGeneric(tail)
    ensures Segment(tail) == Segmentation([], tail)
  {
    if tail != [] {
      if IsBegin(tail[0]) {
        assert IsOpenEvent(tail);
        assert forall k :: 0 <= k < |tail| - 1 ==> tail[1..][k] == tail[k + 1];
        EndIndexIs(tail[1..], |tail| - 1);
      } else {
        assert IsOpenGeneric(tail);
        BeginIndexIs(tail, |tail|);
      }
    }
  }

  /** A well-formed span in front of lines it may close on is segmented as
      that span, followed by the segmentation of those lines. */
  lemma SpanFlush(span: Span, after: seq<string>)
    requires WellFormedSpan(span)
    requires span.kind == GenericSpan ==> after != [] && IsBegin(after[0])
    ensures Segment(span.body + after) == Prepend([span], Segment(after))
  {
    if span.kind == EventSpan {
      EventFlush(span.body, after);
    } else {
      GenericFlush(span.body, after);
    }
  }

  /** A BEGIN line outside an event. */
  lemma StepBegin(s: ScanState, line: string, rest: seq<string>, whole: Segmentation)
    requires !s.inside && IsBegin(line)
    requires ScanAgrees(s, [line] + rest, whole)
    ensures ScanAgrees(Step(s, line), rest, whole)
  {
    var later := Segment([line] + rest);
    if 0 < |s.buffer| {
      var span := Span(GenericSpan, s.buffer);
      GenericFlush(s.buffer, [line] + rest);
      assert whole == Prepend(s.spans, Prepend([span], later));
      SeqAssoc(s.spans, [span], later.spans);
      assert Step(s, line) == ScanState(s.spans + [span], [line], true);
    } else {
      assert s.buffer + ([line] + rest) == [line] + rest;
      assert Step(s, line) == ScanState(s.spans, [line], true);
    }
    assert [line] + rest == Step(s, line).buffer + rest;
  }

  /** An END line inside an event. */
  lemma StepEnd(s: ScanState, line: string, rest: seq<string>, whole: Segmentation)
    requires s.inside && IsEnd(line)
    requires ScanAgrees(s, [line] + rest, whole)
    ensures ScanAgrees(Step(s, line), rest, whole)
  {
    var span := Span(EventSpan, s.buffer + [line]);
    assert s.buffer + ([line] + rest) == span.body + rest;
    assert span.body[..|s.buffer|] == s.buffer;
    EventFlush(span.body, rest);
    var later := Segment(rest);
    assert whole == Prepend(s.spans, Prepend([span], later));
    assert s.spans + ([span] + later.spans) == (s.spans + [span]) + later.spans;
    assert Step(s, line) == ScanState(s.spans + [span], [], false);
    assert [] + rest == rest;
  }

  /** Any other line only joins the buffer. */
  lemma StepOther(s: ScanState, line: string, rest: seq<string>, whole: Segmentation)
    requires !(!s.inside && IsBegin(line)) && !(s.inside && IsEnd(line))
    requires ScanAgrees(s, [line] + rest, whole)
    ensures ScanAgrees(Step(s, line), rest, whole)
  {
    assert s.buffer + ([line] + rest) == (s.buffer + [line]) + rest;
    assert s.inside ==> IsOpenEvent(s.buffer + [line]);
  }

  /** Scanning a prefix leaves a state that agrees with the segmentation of
      the whole input. */
  lemma {:induction false} ScanPrefix(done: seq<string>, rest: seq<string>)
    ensures ScanAgrees(Scan(done), rest, Segment(done + rest))
    decreases |done|
  {
    if done == [] {
      assert done + rest == rest;
      assert [] + rest == rest;
    } else {
      var init, line := done[..|done| - 1], done[|done| - 1];
      assert done + rest == init + ([line] + rest);
      ScanPrefix(init, [line] + rest);
      var s := Scan(init);
      if !s.inside && IsBegin(line) {
        StepBegin(s, line, rest, Segment(done + rest));
      } else if s.inside && IsEnd(line) {
        StepEnd(s, line, rest, Segment(done + rest));
      } else {
        StepOther(s, line, rest, Segment(done + rest));
      }
    }
  }

  /** Scanning the whole input from the back and segmenting it from the front
      agree: the scanned spans are the segmentation's spans, and the buffer
      left at the end is what the segmentation leaves over. */
  lemma ScanIsSegment(lines: seq<string>)
    ensures Scan(lines).spans == Segment(lines).spans
    ensures Scan(lines).buffer == Segment(lines).rest
  {
    ScanPrefix(lines, []);
    assert lines + [] == lines;
    var s := Scan(lines);
    assert s.buffer + [] == s.buffer;
    TailSegment(s.buffer);
  }

  // ---------------------------------------------------------------------------
  // What the segmentation guarantees

  lemma ConcatCons(span: Span, spans: seq<Span>)
    ensures Concat([span] + spans) == span.body + Concat(spans)
  {
    assert ([span] + spans)[0] == span;
    assert ([span] + spans)[1..] == spans;
  }

  /** A proof step, not part of the model: regrouping a concatenation. */
  lemma SeqAssoc<T>(a: seq<T>, b: seq<T>, c: seq<T>)
    ensures (a + b) + c == a + (b + c)
  {
  }

  /** Every input line is in exactly one place, in order: the spans' lines,
      then the leftover lines. */
  lemma {:induction false} SegmentCovers(lines: seq<string>)
    ensures Concat(Segment(lines).spans) + Segment(lines).rest == lines
    decreases |lines|
  {
    if lines != [] {
      var j := if IsBegin(lines[0]) then 2 + EndIndex(lines[1..]) else BeginIndex(lines);
      if j <= |lines| && (IsBegin(lines[0]) || j < |lines|) {
        var span := Span(if IsBegin(lines[0]) then EventSpan else GenericSpan, lines[..j]);
        var later := Segment(lines[j..]);
        assert Segment(lines) == Prepend([span], later);
        SegmentCovers(lines[j..]);
        ConcatCons(span, later.spans);
        var front, back := lines[..j], Concat(later.spans);
        assert Concat([span] + later.spans) == front + back;
        assert back + later.rest == lines[j..];
        SeqAssoc(front, back, later.rest);
        assert front + lines[j..] == lines;
      }
    }
  }

  /** Every span is well formed: an event runs from a BEGIN line to the first
      END line after it, a generic run is non-empty and has no BEGIN line. */
  lemma {:induction false} SegmentSpansWellFormed(lines: seq<string>)
    ensures forall i :: 0 <= i < |Segment(lines).spans| ==> WellFormedSpan(Segment(lines).spans[i])
    decreases |lines|
  {
    if lines != [] {
      if IsBegin(lines[0]) {
        var j := 1 + EndIndex(lines[1..]);
        if j < |lines| {
          SegmentSpansWellFormed(lines[j + 1..]);
          var body := lines[..j + 1];
          assert body[..|body| - 1] == lines[..j];
          assert forall k :: 1 <= k < j ==> lines[k] == lines[1..][k - 1];
          assert WellFormedSpan(Span(EventSpan, body));
        }
      } else {
        var j := BeginIndex(lines);
        if j < |lines| {
          SegmentSpansWellFormed(lines[j..]);
          assert WellFormedSpan(Span(GenericSpan, lines[..j]));
        }
      }
    }
  }

  /** The leftover lines are an open buffer: an unterminated event, or
      generic lines that no BEGIN line followed. */
  lemma {:induction false} SegmentRestIsOpen(lines: seq<string>)
    ensures IsOpenEvent(Segment(lines).rest) || IsOpenGeneric(Segment(lines).rest)
    decreases |lines|
  {
    if lines != [] {
      if IsBegin(lines[0]) {
        var j := 1 + EndIndex(lines[1..]);
        if j < |lines| {
          SegmentRestIsOpen(lines[j + 1..]);
        } else {
          assert forall k :: 1 <= k < |lines| ==> lines[k] == lines[1..][k - 1];
        }
      } else {
        var j := BeginIndex(lines);
        if j < |lines| {
          SegmentRestIsOpen(lines[j..]);
        }
      }
    }
  }

  /** Every generic span is followed by an event span, or is the last span
      and the leftover lines are an unterminated event. */
  predicate GenericOnlyBeforeEvent(seg: Segmentation)
  {
    forall i {:trigger seg.spans[i]} :: 0 <= i < |seg.spans| && seg.spans[i].kind == GenericSpan ==>
      if i + 1 < |seg.spans| then seg.spans[i + 1].kind == EventSpan else IsOpenEvent(seg.rest)
  }

  /** The first thing in the segmentation is an event, possibly unterminated. */
  predicate StartsWithEvent(seg: Segmentation)
  {
    if seg.spans != [] then seg.spans[0].kind == EventSpan else IsOpenEvent(seg.rest)
  }

  lemma PrependKeepsOrder(span: Span, seg: Segmentation)
    requires GenericOnlyBeforeEvent(seg)
    requires span.kind == GenericSpan ==> StartsWithEvent(seg)
    ensures GenericOnlyBeforeEvent(Prepend([span], seg))
  {
    var all := Prepend([span], seg);
    assert |all.spans| == |seg.spans| + 1 && all.rest == seg.rest;
    assert forall i :: 0 < i < |all.spans| ==> all.spans[i] == seg.spans[i - 1];
    forall i | 0 <= i < |all.spans| && all.spans[i].kind == GenericSpan
      ensures if i + 1 < |all.spans| then all.spans[i + 1].kind == EventSpan else IsOpenEvent(all.rest)
    {
      if i == 0 {
        assert all.spans[0] == span;
        assert StartsWithEvent(seg);
        if seg.spans != [] {
          assert all.spans[1] == seg.spans[0];
        } else {
          assert IsOpenEvent(seg.rest);
        }
      } else {
        assert seg.spans[i - 1].kind == GenericSpan;
        var j := i - 1;
        assert if j + 1 < |seg.spans| then seg.spans[j + 1].kind == EventSpan else IsOpenEvent(seg.rest);
        if i < |seg.spans| {
          assert all.spans[i + 1] == seg.spans[i];
        }
      }
    }
    assert GenericOnlyBeforeEvent(all);
  }

  /** Input that starts with a BEGIN line is segmented starting with an event. */
  lemma SegmentOfBegin(lines: seq<string>)
    requires lines != [] && IsBegin(lines[0])
    ensures StartsWithEvent(Segment(lines))
  {
    var j := 1 + EndIndex(lines[1..]);
    if j == |lines| {
      assert forall k :: 1 <= k < |lines| ==> lines[k] == lines[1..][k - 1];
      assert IsOpenEvent(lines);
    }
  }

  /** A generic span is only made when an event begins: the next span is an
      event, or the leftover lines are an unterminated event. */
  lemma {:induction false} SegmentGenericBeforeEvent(lines: seq<string>)
    ensures GenericOnlyBeforeEvent(Segment(lines))
    decreases |lines|
  {
    if lines != [] {
      if IsBegin(lines[0]) {
        var j := 1 + EndIndex(lines[1..]);
        if j < |lines| {
          var later := Segment(lines[j + 1..]);
          assert Segment(lines) == Prepend([Span(EventSpan, lines[..j + 1])], later);
          SegmentGenericBeforeEvent(lines[j + 1..]);
          PrependKeepsOrder(Span(EventSpan, lines[..j + 1]), later);
        }
      } else {
        var j := BeginIndex(lines);
        if j < |lines| {
          var later := Segment(lines[j..]);
          assert Segment(lines) == Prepend([Span(GenericSpan, lines[..j])], later);
          SegmentGenericBeforeEvent(lines[j..]);
          SegmentOfBegin(lines[j..]);
          PrependKeepsOrder(Span(GenericSpan, lines[..j]), later);
        }
      }
    }
  }

  /** Counting Event items is counting event spans. */
  lemma {:induction false} CountEventsOfSpans(spans: seq<Span>)
    ensures CountEvents(ItemsOf(spans)) == CountEventSpans(spans)
  {
    if spans != [] {
      var init := spans[..|spans| - 1];
      CountEventsOfSpans(init);
      var items := ItemsOf(spans);
      assert items[..|items| - 1] == ItemsOf(init);
      assert items[|items| - 1] == ItemOf(spans[|spans| - 1]);
      assert items[|items| - 1].Event? <==> spans[|spans| - 1].kind == EventSpan;
      assert CountEvents(items) == CountEvents(ItemsOf(init)) + (if items[|items| - 1].Event? then 1 else 0);
    }
  }

  /** After a complete document, segmenting more lines continues
      independently of what came before. */
  lemma {:induction false} SegmentAppend(done: seq<string>, more: seq<string>)
    requires Segment(done).rest == []
    ensures Segment(done + more) == Prepend(Segment(done).spans, Segment(more))
    decreases |done|
  {
    var seg := Segment(done);
    SegmentIsSegmentation(done);
    if seg.spans == [] {
      assert done == [];
      assert done + more == more;
    } else {
      var span := seg.spans[0];
      var later := Segmentation(seg.spans[1..], seg.rest);
      var next := Lines(later);
      SegmentationTail(seg, done);
      SegmentationUnique(later, next);
      SegmentAppend(next, more);
      SegmentationHead(seg, done, more);
      assert seg.spans == [span] + later.spans;
      SeqAssoc([span], later.spans, Segment(more).spans);
    }
  }

  /** Lines after the last completed event, and an event that is never
      closed, make no item: they are left over as they are. */
  lemma TrailingLinesDropped(done: seq<string>, tail: seq<string>)
    requires Segment(done).rest == []
    requires IsOpenEvent(tail) || IsOpenGeneric(tail)
    ensures Segment(done + tail) == Segmentation(Segment(done).spans, tail)
  {
    SegmentAppend(done, tail);
    TailSegment(tail);
    assert Segment(done).spans + [] == Segment(done).spans;
  }

  /** `seg` describes `lines` the way readItems reads them: its spans and
      leftover lines are the input in order, every span is well formed, a
      generic span is only closed by a BEGIN line, and the leftover lines are
      an open buffer. */
  ghost predicate IsSegmentationOf(seg: Segmentation, lines: seq<string>)
  {
    Concat(seg.spans) + seg.rest == lines &&
    (forall i :: 0 <= i < |seg.spans| ==> WellFormedSpan(seg.spans[i])) &&
    GenericOnlyBeforeEvent(seg) &&
    (IsOpenEvent(seg.rest) || IsOpenGeneric(seg.rest))
  }

  /** Segment produces such a segmentation. */
  lemma SegmentIsSegmentation(lines: seq<string>)
    ensures IsSegmentationOf(Segment(lines), lines)
  {
    SegmentCovers(lines);
    SegmentSpansWellFormed(lines);
    SegmentGenericBeforeEvent(lines);
    SegmentRestIsOpen(lines);
  }

  /** The lines a segmentation stands for. */
  function Lines(seg: Segmentation): seq<string>
  {
    Concat(seg.spans) + seg.rest
  }

  /** Dropping the first span of a segmentation leaves a segmentation of the
      lines after it. */
  lemma SegmentationTail(seg: Segmentation, lines: seq<string>)
    requires seg.spans != [] && IsSegmentationOf(seg, lines)
    ensures WellFormedSpan(seg.spans[0])
    ensures lines == seg.spans[0].body + Lines(Segmentation(seg.spans[1..], seg.rest))
    ensures IsSegmentationOf(Segmentation(seg.spans[1..], seg.rest), Lines(Segmentation(seg.spans[1..], seg.rest)))
  {
    var span, later := seg.spans[0], Segmentation(seg.spans[1..], seg.rest);
    assert seg.spans == [span] + later.spans;
    ConcatCons(span, later.spans);
    SeqAssoc(span.body, Concat(later.spans), later.rest);
    assert forall i :: 0 <= i < |later.spans| ==> later.spans[i] == seg.spans[i + 1];
    forall i {:trigger later.spans[i]} | 0 <= i < |later.spans| && later.spans[i].kind == GenericSpan
      ensures if i + 1 < |later.spans| then later.spans[i + 1].kind == EventSpan else IsOpenEvent(later.rest)
    {
      var j := i + 1;
      assert seg.spans[j].kind == GenericSpan;
      assert if j + 1 < |seg.spans| then seg.spans[j + 1].kind == EventSpan else IsOpenEvent(seg.rest);
    }
  }

  /** A segmentation whose first span is generic goes on with a BEGIN line. */
  lemma GenericThenBegin(seg: Segmentation, lines: seq<string>)
    requires seg.spans != [] && seg.spans[0].kind == GenericSpan && IsSegmentationOf(seg, lines)
    ensures var next := Lines(Segmentation(seg.spans[1..], seg.rest)); next != [] && IsBegin(next[0])
  {
    var later := Segmentation(seg.spans[1..], seg.rest);
    var next := Lines(later);
    assert if 1 < |seg.spans| then seg.spans[1].kind == EventSpan else IsOpenEvent(seg.rest);
    if 1 < |seg.spans| {
      var first := seg.spans[1];
      assert first == later.spans[0];
      assert WellFormedSpan(first);
      ConcatCons(first, later.spans[1..]);
      assert later.spans == [first] + later.spans[1..];
      SeqAssoc(first.body, Concat(later.spans[1..]), later.rest);
      assert next == first.body + (Concat(later.spans[1..]) + later.rest);
      assert next[0] == first.body[0];
    } else {
      assert later.spans == [];
      assert next == later.rest;
    }
  }

  /** The first span of a segmentation, followed by any further lines, is
      segmented as that span and then the rest of those lines. */
  lemma SegmentationHead(seg: Segmentation, lines: seq<string>, more: seq<string>)
    requires seg.spans != [] && IsSegmentationOf(seg, lines)
    ensures var later := Segmentation(seg.spans[1..], seg.rest);
            Segment(lines + more) == Prepend([seg.spans[0]], Segment(Lines(later) + more))
  {
    var span, later := seg.spans[0], Segmentation(seg.spans[1..], seg.rest);
    var next := Lines(later);
    SegmentationTail(seg, lines);
    SeqAssoc(span.body, next, more);
    if span.kind == GenericSpan {
      GenericThenBegin(seg, lines);
      assert (next + more)[0] == next[0];
    }
    SpanFlush(span, next + more);
  }

  /** Segment gives the only segmentation there is: any segmentation of the
      input with the properties above is the one Segment computes. */
  lemma {:induction false} SegmentationUnique(seg: Segmentation, lines: seq<string>)
    requires IsSegmentationOf(seg, lines)
    ensures seg == Segment(lines)
    decreases |seg.spans|
  {
    if seg.spans == [] {
      assert seg.rest == lines;
      TailSegment(lines);
    } else {
      var later := Segmentation(seg.spans[1..], seg.rest);
      var next := Lines(later);
      SegmentationTail(seg, lines);
      SegmentationUnique(later, next);
      SegmentationHead(seg, lines, []);
      assert lines + [] == lines && next + [] == next;
      assert seg.spans == [seg.spans[0]] + later.spans;
    }
  }

  /** An END:VEVENT line stores key END. */
  lemma EndLineSplit(line: string)
    requires IsEnd(line)
    ensures SplitLine(line) == Some(("END", line[4..]))
  {
    assert line[..|EndMarker|] == EndMarker;
    assert line == "END" + ":" + line[4..];
    SplitEntryLine("END", line[4..]);
  }

  /** The END:VEVENT line closing an event is its last line, so the event's
      record maps END to the text after "END:" on that line. */
  lemma EventRecordsEnd(span: Span)
    requires span.kind == EventSpan && WellFormedSpan(span)
    ensures "END" in ItemOf(span).values
    ensures ItemOf(span).values["END"] == span.body[|span.body| - 1][4..]
  {
    var n := |span.body|;
    var init, last := span.body[..n - 1], span.body[n - 1];
    EndLineSplit(last);
    assert span.body == init + [last];
    ParseSnoc(init, last);
    assert Parse(span.body) == Parse(init)["END" := last[4..]];
    assert ItemOf(span) == Event(Parse(span.body));
  }

  /** Every event read from input holds the END key of its closing line. */
  lemma EventsRecordEnd(lines: seq<string>)
    ensures forall i :: 0 <= i < |ItemsOf(Segment(lines).spans)| && ItemsOf(Segment(lines).spans)[i].Event? ==>
              "END" in ItemsOf(Segment(lines).spans)[i].values
  {
    var spans := Segment(lines).spans;
    SegmentSpansWellFormed(lines);
    forall i | 0 <= i < |spans| && ItemOf(spans[i]).Event?
      ensures "END" in ItemOf(spans[i]).values
    {
      EventRecordsEnd(spans[i]);
    }
  }

  /** The shape of a calendar file: header lines before the first event
      become a generic item, the event an Event, and the lines after it
      (such as END:VCALENDAR) are left over. */
  lemma GenericEventTail(generic: seq<string>, event: seq<string>, tail: seq<string>)
    requires WellFormedSpan(Span(GenericSpan, generic)) && WellFormedSpan(Span(EventSpan, event))
    requires IsOpenEvent(tail) || IsOpenGeneric(tail)
    ensures Segment(generic + event + tail) ==
            Segmentation([Span(GenericSpan, generic), Span(EventSpan, event)], tail)
  {
    var gen, ev := Span(GenericSpan, generic), Span(EventSpan, event);
    var after := event + tail;
    SpanFlush(ev, tail);
    TailSegment(tail);
    assert Segment(after) == Segmentation([ev], tail);
    assert after[0] == event[0] == event[..|event| - 1][0];
    SpanFlush(gen, after);
    assert generic + event + tail == generic + after;
  }

  // ---------------------------------------------------------------------------
  // readItems

  /** readItems: scan the lines with the `insideEvent` flag and the
      `itemLines` buffer. The items are those of the segmentation of the
      input, in order, and `eventCount` is the number of Event items. */
  method ReadItems(lines: seq<string>) returns (items: seq<Item>, eventCount: nat)
    ensures items == ItemsOf(Segment(lines).spans)
    ensures eventCount == CountEvents(items)
  {
    items, eventCount := [], 0;
    var itemLines: seq<string> := [];
    var insideEvent := false;
    ghost var spans: seq<Span> := [];  // the spans of the items made so far
    for i := 0 to |lines|
      invariant ScanState(spans, itemLines, insideEvent) == Scan(lines[..i])
      invariant items == ItemsOf(spans)
      invariant eventCount == CountEvents(items)
    {
      assert lines[..i + 1][..i] == lines[..i];
      var line := lines[i];
      if !insideEvent && IsBegin(line) {
        insideEvent := true;
        if 0 < |itemLines| {
          var values := Build(itemLines);
          items := items + [Generic(values)];
          spans := spans + [Span(GenericSpan, itemLines)];
          itemLines := [];
        }
        itemLines := itemLines + [line];
      } else if insideEvent && IsEnd(line) {
        insideEvent := false;
        itemLines := itemLines + [line];
        var values := Build(itemLines);
        items := items + [Event(values)];
        eventCount := eventCount + 1;
        spans := spans + [Span(EventSpan, itemLines)];
        itemLines := [];
      } else {
        itemLines := itemLines + [line];
      }
    }
    assert lines[..|lines|] == lines;
    ScanIsSegment(lines);
  }
}
