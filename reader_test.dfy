/**
 * The way the package's tests drive a Reader: read one line by calling Read
 * with a fresh buffer until it reports Eof, once per input string, then make
 * one more Read, which must find the reader exhausted.
 */
module CliReaderTest {
  import opened CliReader

  /**
   * Calls Read with a fresh buffer of bufSize bytes until it returns Eof and
   * concatenates the bytes each call copied. The result is the rest of the
   * current segment, and the reader then stands at the start of the next
   * one; an exhausted reader yields nothing and stays exhausted.
   */
  method ReadLine(reader: Reader, bufSize: nat) returns (data: seq<bv8>)
    requires reader.Valid() && bufSize > 0
    modifies reader
    ensures reader.Valid()
    ensures data == old(Unread(reader.inputs, reader.Position()))
    ensures old(reader.inputIndex) == |reader.inputs| ==>
              reader.inputIndex == old(reader.inputIndex) && reader.byteIndex == 0
    ensures old(reader.inputIndex) < |reader.inputs| ==>
              reader.inputIndex == old(reader.inputIndex) + 1 && reader.byteIndex == 0
  {
    ghost var start := reader.Position();
    ghost var line := Unread(reader.inputs, start);
    data := [];
    var status := Continue;
    while status != Eof
      invariant reader.Valid()
      invariant LineProgress(reader.inputs, start, reader.Position(), status, data)
      decreases if status == Eof then 0 else |Unread(reader.inputs, reader.Position())| + 1
    {
      ghost var before := reader.Position();
      var buf := new bv8[bufSize];
      var n;
      n, status := reader.Read(buf);
      ReadLineStep(reader.inputs, start, before, bufSize, data);
      data := data + buf[..n];
    }
  }

  /**
   * The loop state of ReadLine, which began at cursor start: while Read
   * answers Continue the cursor stays in the same segment and the bytes
   * gathered followed by the unread ones are the line; after Eof the bytes
   * gathered are the line and the cursor is at the start of the next
   * segment (or still exhausted).
   */
  ghost predicate LineProgress(segments: seq<seq<bv8>>, start: Cursor, pos: Cursor, status: Status, data: seq<bv8>)
    requires WellFormed(segments, start)
  {
    match status
    case Continue =>
      pos.inputIndex == start.inputIndex &&
      data + Unread(segments, pos) == Unread(segments, start)
    case Eof =>
      data == Unread(segments, start) &&
      pos == if Exhausted(segments, start) then start else Cursor(start.inputIndex + 1, 0)
  }

  /** One more Read keeps LineProgress and, while it continues, shrinks what is unread. */
  lemma ReadLineStep(segments: seq<seq<bv8>>, start: Cursor, before: Cursor, capacity: nat, data: seq<bv8>)
    requires Terminated(segments) && WellFormed(segments, start) && WellFormed(segments, before)
    requires capacity > 0 && LineProgress(segments, start, before, Continue, data)
    ensures var r := Step(segments, before, capacity);
            LineProgress(segments, start, r.next, r.status, data + r.data) &&
            (r.status == Continue ==> |Unread(segments, r.next)| < |Unread(segments, before)|)
  {
    var r := Step(segments, before, capacity);
    if r.status == Continue {
      ContinueKeepsRest(segments, before, capacity);
      AppendAssociative(data, r.data, Unread(segments, r.next));
    } else {
      EofCopiesUnread(segments, before, capacity);
    }
  }

  /**
   * Reads one line per segment, from the first segment on. The lines are
   * the segments, in order, and the reader is then exhausted.
   */
  method ReadLines(reader: Reader, bufSize: nat) returns (lines: seq<seq<bv8>>)
    requires reader.Valid() && reader.Position() == Cursor(0, 0) && bufSize > 0
    modifies reader
    ensures reader.Valid() && Exhausted(reader.inputs, reader.Position())
    ensures lines == reader.inputs
  {
    lines := [];
    for idx := 0 to |reader.inputs|
      invariant reader.Valid() && reader.Position() == Cursor(idx, 0)
      invariant lines == reader.inputs[..idx]
    {
      var line := ReadLine(reader, bufSize);
      assert line == reader.inputs[idx][0..] == reader.inputs[idx];
      assert reader.inputs[..idx + 1] == reader.inputs[..idx] + [reader.inputs[idx]];
      lines := lines + [line];
    }
    assert lines == reader.inputs;
  }

  /**
   * One test run: build a Reader from strs, read one line per input string
   * with buffers of bufSize bytes, then read once more. Every line comes
   * back normalized and in order, and the last read is (0, Eof).
   */
  method ReadScript(strs: seq<seq<bv8>>, bufSize: nat)
    returns (lines: seq<seq<bv8>>, count: nat, status: Status)
    requires bufSize > 0
    ensures |lines| == |strs|
    ensures forall i :: 0 <= i < |strs| ==> lines[i] == Normalize(strs[i])
    ensures count == 0 && status == Eof
  {
    var reader := new Reader(strs);
    lines := ReadLines(reader, bufSize);
    var buf := new bv8[bufSize];
    count, status := reader.Read(buf);
  }
}
