/**
 * A scripted stand-in for line-oriented command-line input.
 *
 * A Reader is built from a list of strings. Each string becomes one segment
 * that ends in a newline byte. Read hands out the bytes of the current
 * segment, never crossing into the next one, and signals the end of the
 * segment with Eof. Once every segment has been handed out, Read keeps
 * answering (0, Eof).
 */
module CliReader {

  /** The byte that terminates every segment: '\n'. */
  const Newline: bv8 := 10

  function Min(a: nat, b: nat): nat {
    if a <= b then a else b
  }

  /** The string ends in "\n" (strings.HasSuffix(input, "\n")). */
  predicate EndsWithNewline(s: seq<bv8>) {
    |s| > 0 && s[|s| - 1] == Newline
  }

  /**
   * The segment made from one input string: the string itself when it
   * already ends in a newline, otherwise the string with a newline added.
   */
  function Normalize(input: seq<bv8>): (segment: seq<bv8>)
    ensures EndsWithNewline(segment)
    ensures input <= segment && |segment| <= |input| + 1
    ensures segment == input <==> EndsWithNewline(input)
  {
    if EndsWithNewline(input) then input else input + [Newline]
  }

  /** Normalizing a segment a second time changes nothing. */
  lemma NormalizeIdempotent(input: seq<bv8>)
    ensures Normalize(Normalize(input)) == Normalize(input)
  {
  }

  /** Every segment ends in a newline, so no segment is empty. */
  predicate Terminated(segments: seq<seq<bv8>>) {
    forall i :: 0 <= i < |segments| ==> EndsWithNewline(segments[i])
  }

  /**
   * The loop of New: a slice of the right length is allocated and segment
   * idx is stored at index idx.
   */
  method BuildSegments(inputs: seq<seq<bv8>>) returns (segments: seq<seq<bv8>>)
    ensures |segments| == |inputs|
    ensures forall i :: 0 <= i < |inputs| ==> segments[i] == Normalize(inputs[i])
    ensures Terminated(segments)
  {
    var slots := new seq<bv8>[|inputs|];
    for idx := 0 to |inputs|
      invariant forall k :: 0 <= k < idx ==> slots[k] == Normalize(inputs[k])
    {
      slots[idx] := Normalize(inputs[idx]);
    }
    segments := slots[..];
  }

  /** The status Read reports: nil (Continue) or io.EOF (Eof). */
  datatype Status = Continue | Eof

  /** The read position: which segment, and how far into it. */
  datatype Cursor = Cursor(inputIndex: nat, byteIndex: nat)

  /**
   * The cursor invariant: the segment index is at most the number of
   * segments; inside a segment the offset is strictly before its end (a
   * segment read to its end moves the cursor on); once exhausted the
   * offset is 0.
   */
  predicate WellFormed(segments: seq<seq<bv8>>, c: Cursor) {
    c.inputIndex <= |segments| &&
    (c.inputIndex < |segments| ==> c.byteIndex < |segments[c.inputIndex]|) &&
    (c.inputIndex == |segments| ==> c.byteIndex == 0)
  }

  predicate Exhausted(segments: seq<seq<bv8>>, c: Cursor) {
    c.inputIndex == |segments|
  }

  /** The bytes of the current segment not handed out yet; none once exhausted. */
  function Unread(segments: seq<seq<bv8>>, c: Cursor): seq<bv8> {
    if c.inputIndex < |segments| && c.byteIndex <= |segments[c.inputIndex]|
    then segments[c.inputIndex][c.byteIndex..]
    else []
  }

  /** Segments j, j+1, ... laid end to end. */
  function ConcatFrom(segments: seq<seq<bv8>>, j: nat): seq<bv8>
    decreases |segments| - j
  {
    if j >= |segments| then [] else segments[j] + ConcatFrom(segments, j + 1)
  }

  /** Every byte still to come, over all remaining segments, in order. */
  function Stream(segments: seq<seq<bv8>>, c: Cursor): seq<bv8> {
    Unread(segments, c) + ConcatFrom(segments, c.inputIndex + 1)
  }

  /** What one call of Read produces: the bytes copied, the status, the new cursor. */
  datatype Outcome = Outcome(data: seq<bv8>, status: Status, next: Cursor)

  /**
   * One call of Read with a buffer of the given capacity, as a function of
   * the cursor.
   */
  function Step(segments: seq<seq<bv8>>, c: Cursor, capacity: nat): (r: Outcome)
    requires Terminated(segments) && WellFormed(segments, c)
    ensures WellFormed(segments, r.next)
    // copy length and content: as many unread bytes of the current segment as fit
    ensures r.data == Unread(segments, c)[..Min(capacity, |Unread(segments, c)|)]
    // boundary rule: Eof exactly when nothing of the segment is left unread
    ensures r.status == Eof <==> |r.data| == |Unread(segments, c)|
    ensures r.next == if r.status == Continue then Cursor(c.inputIndex, c.byteIndex + |r.data|)
                      else if Exhausted(segments, c) then c
                      else Cursor(c.inputIndex + 1, 0)
  {
    if c.inputIndex == |segments| then
      Outcome([], Eof, c)
    else
      var curr := segments[c.inputIndex];
      var readCount := Min(capacity, |curr| - c.byteIndex);
      var data := curr[c.byteIndex..c.byteIndex + readCount];
      if c.byteIndex + readCount == |curr| then
        Outcome(data, Eof, Cursor(c.inputIndex + 1, 0))
      else
        Outcome(data, Continue, Cursor(c.inputIndex, c.byteIndex + readCount))
  }

  /**
   * Progress: before exhaustion a non-empty buffer always receives at least
   * one byte, and an empty buffer gets (0, Continue) with the cursor left
   * where it was, since no segment is empty.
   */
  lemma StepProgress(segments: seq<seq<bv8>>, c: Cursor, capacity: nat)
    requires Terminated(segments) && WellFormed(segments, c) && !Exhausted(segments, c)
    ensures capacity > 0 ==> |Step(segments, c, capacity).data| > 0
    ensures capacity == 0 ==> Step(segments, c, capacity) == Outcome([], Continue, c)
  {
  }

  /** A Read that returns Eof copied everything that was unread. */
  lemma EofCopiesUnread(segments: seq<seq<bv8>>, c: Cursor, capacity: nat)
    requires Terminated(segments) && WellFormed(segments, c)
    requires Step(segments, c, capacity).status == Eof
    ensures Step(segments, c, capacity).data == Unread(segments, c)
  {
    var unread := Unread(segments, c);
    assert unread[..|unread|] == unread;
  }

  /**
   * A Read that returns Continue was not on an exhausted reader, copied at
   * least one byte unless the buffer was empty, and left the rest of the
   * segment unread.
   */
  lemma ContinueKeepsRest(segments: seq<seq<bv8>>, c: Cursor, capacity: nat)
    requires Terminated(segments) && WellFormed(segments, c)
    requires Step(segments, c, capacity).status == Continue
    ensures var r := Step(segments, c, capacity);
            !Exhausted(segments, c) && (capacity > 0 ==> |r.data| > 0) &&
            r.data + Unread(segments, r.next) == Unread(segments, c)
  {
    var r := Step(segments, c, capacity);
    var seg, b, n := segments[c.inputIndex], c.byteIndex, |r.data|;
    assert r.data == seg[b..b + n];
    assert Unread(segments, r.next) == seg[b + n..];
    assert seg[b..b + n] + seg[b + n..] == seg[b..];
  }

  /**
   * Proof helper with no counterpart in the source: regrouping three byte
   * sequences, called where an inline assertion would make the surrounding
   * proof expensive.
   */
  lemma AppendAssociative(a: seq<bv8>, b: seq<bv8>, c: seq<bv8>)
    ensures (a + b) + c == a + (b + c)
  {
  }

  /** One Read hands out the front of the remaining stream and keeps the rest. */
  lemma StepConservesStream(segments: seq<seq<bv8>>, c: Cursor, capacity: nat)
    requires Terminated(segments) && WellFormed(segments, c)
    ensures Step(segments, c, capacity).data + Stream(segments, Step(segments, c, capacity).next)
            == Stream(segments, c)
  {
    if Exhausted(segments, c) {
    } else if Step(segments, c, capacity).status == Continue {
      ContinueConservesStream(segments, c, capacity);
    } else {
      EofConservesStream(segments, c, capacity);
    }
  }

  lemma ContinueConservesStream(segments: seq<seq<bv8>>, c: Cursor, capacity: nat)
    requires Terminated(segments) && WellFormed(segments, c)
    requires Step(segments, c, capacity).status == Continue
    ensures Step(segments, c, capacity).data + Stream(segments, Step(segments, c, capacity).next)
            == Stream(segments, c)
  {
    var r := Step(segments, c, capacity);
    var unread, later := Unread(segments, c), ConcatFrom(segments, c.inputIndex + 1);
    var rest := Unread(segments, r.next);
    assert r.data + rest == unread by {
      ContinueKeepsRest(segments, c, capacity);
    }
    assert (r.data + rest) + later == r.data + (rest + later);
  }

  lemma EofConservesStream(segments: seq<seq<bv8>>, c: Cursor, capacity: nat)
    requires Terminated(segments) && WellFormed(segments, c) && !Exhausted(segments, c)
    requires Step(segments, c, capacity).status == Eof
    ensures Step(segments, c, capacity).data + Stream(segments, Step(segments, c, capacity).next)
            == Stream(segments, c)
  {
    var r := Step(segments, c, capacity);
    assert r.data == Unread(segments, c) by {
      EofCopiesUnread(segments, c, capacity);
    }
    StreamAtSegmentStart(segments, c.inputIndex + 1);
  }

  /** Successive Reads from cursor c, the k-th with a buffer of capacities[k] bytes. */
  function Run(segments: seq<seq<bv8>>, c: Cursor, capacities: seq<nat>): (outs: seq<Outcome>)
    requires Terminated(segments) && WellFormed(segments, c)
    ensures |outs| == |capacities|
    decreases capacities
  {
    if capacities == [] then []
    else
      var r := Step(segments, c, capacities[0]);
      [r] + Run(segments, r.next, capacities[1..])
  }

  /** The cursor after the outcomes outs, starting from c. */
  function Final(c: Cursor, outs: seq<Outcome>): Cursor
    decreases outs
  {
    if outs == [] then c else Final(outs[0].next, outs[1..])
  }

  /** All bytes handed out by the outcomes outs, in order. */
  function Delivered(outs: seq<Outcome>): seq<bv8> {
    if outs == [] then [] else outs[0].data + Delivered(outs[1..])
  }

  /** Every cursor reached by a run is well formed. */
  lemma {:induction false} RunKeepsCursor(segments: seq<seq<bv8>>, c: Cursor, capacities: seq<nat>)
    requires Terminated(segments) && WellFormed(segments, c)
    ensures WellFormed(segments, Final(c, Run(segments, c, capacities)))
    decreases capacities
  {
    if capacities != [] {
      var r := Step(segments, c, capacities[0]);
      var outs := Run(segments, c, capacities);
      assert outs[0] == r && outs[1..] == Run(segments, r.next, capacities[1..]);
      RunKeepsCursor(segments, r.next, capacities[1..]);
    }
  }

  /**
   * Whatever the buffer sizes, the bytes handed out by any number of Reads,
   * followed by what is still to come, are exactly the bytes that were to
   * come before: no byte is lost, repeated or reordered.
   */
  lemma {:induction false} RunConservesStream(segments: seq<seq<bv8>>, c: Cursor, capacities: seq<nat>)
    requires Terminated(segments) && WellFormed(segments, c)
    ensures Delivered(Run(segments, c, capacities))
              + Stream(segments, Final(c, Run(segments, c, capacities)))
            == Stream(segments, c)
    decreases capacities
  {
    if capacities != [] {
      var r := Step(segments, c, capacities[0]);
      var rest := Run(segments, r.next, capacities[1..]);
      var outs := Run(segments, c, capacities);
      assert outs[0] == r && outs[1..] == rest;
      var tail, after := Delivered(rest), Stream(segments, Final(r.next, rest));
      assert Delivered(outs) == r.data + tail && Final(c, outs) == Final(r.next, rest);
      assert tail + after == Stream(segments, r.next) by {
        RunConservesStream(segments, r.next, capacities[1..]);
      }
      assert r.data + Stream(segments, r.next) == Stream(segments, c) by {
        StepConservesStream(segments, c, capacities[0]);
      }
      AppendAssociative(r.data, tail, after);
    }
  }

  /**
   * Reading one segment with any buffer sizes until the first Eof: if every
   * Read but the last answers Continue and the last answers Eof, the bytes
   * handed out are exactly the unread rest of the segment, and the cursor
   * is at the start of the next segment (or stays put when exhausted).
   */
  lemma {:induction false} RunReadsSegment(segments: seq<seq<bv8>>, c: Cursor, capacities: seq<nat>)
    requires Terminated(segments) && WellFormed(segments, c) && |capacities| > 0
    requires forall k :: 0 <= k < |capacities| - 1 ==> Run(segments, c, capacities)[k].status == Continue
    requires Run(segments, c, capacities)[|capacities| - 1].status == Eof
    ensures Delivered(Run(segments, c, capacities)) == Unread(segments, c)
    ensures Final(c, Run(segments, c, capacities))
            == if Exhausted(segments, c) then c else Cursor(c.inputIndex + 1, 0)
    decreases capacities
  {
    var r := Step(segments, c, capacities[0]);
    var outs := Run(segments, c, capacities);
    var rest := Run(segments, r.next, capacities[1..]);
    assert outs[0] == r && outs[1..] == rest;
    assert Delivered(outs) == r.data + Delivered(rest) && Final(c, outs) == Final(r.next, rest);
    if |capacities| == 1 {
      assert r.data == Unread(segments, c) by {
        assert r.status == Eof;
        EofCopiesUnread(segments, c, capacities[0]);
      }
    } else {
      assert r.status == Continue;
      assert r.data + Unread(segments, r.next) == Unread(segments, c) && !Exhausted(segments, c) by {
        ContinueKeepsRest(segments, c, capacities[0]);
      }
      assert Delivered(rest) == Unread(segments, r.next)
          && Final(r.next, rest) == Cursor(c.inputIndex + 1, 0) by {
        forall k | 0 <= k < |capacities| - 2
          ensures rest[k].status == Continue
        {
          assert rest[k] == outs[k + 1];
        }
        assert rest[|capacities| - 2] == outs[|capacities| - 1];
        RunReadsSegment(segments, r.next, capacities[1..]);
      }
    }
  }

  /**
   * At the start of segment j the bytes still to come are segments j, j+1,
   * ... laid end to end; in particular, before the first Read they are all
   * segments.
   */
  lemma StreamAtSegmentStart(segments: seq<seq<bv8>>, j: nat)
    requires Terminated(segments) && j <= |segments|
    ensures WellFormed(segments, Cursor(j, 0))
    ensures Stream(segments, Cursor(j, 0)) == ConcatFrom(segments, j)
  {
    if j < |segments| {
      assert segments[j][0..] == segments[j];
    }
  }

  /**
   * From a freshly built reader, whatever the buffer sizes, the bytes handed
   * out so far are a prefix of all segments laid end to end.
   */
  lemma DeliveredIsPrefixOfInput(segments: seq<seq<bv8>>, capacities: seq<nat>)
    requires Terminated(segments)
    ensures WellFormed(segments, Cursor(0, 0))
    ensures Delivered(Run(segments, Cursor(0, 0), capacities)) <= ConcatFrom(segments, 0)
  {
    StreamAtSegmentStart(segments, 0);
    RunConservesStream(segments, Cursor(0, 0), capacities);
  }

  /**
   * Once exhausted, every later Read, with any buffer, returns (0, Eof) and
   * leaves the cursor where it is.
   */
  lemma {:induction false} RunFromExhausted(segments: seq<seq<bv8>>, c: Cursor, capacities: seq<nat>)
    requires Terminated(segments) && WellFormed(segments, c) && Exhausted(segments, c)
    ensures forall k :: 0 <= k < |capacities| ==>
              Run(segments, c, capacities)[k] == Outcome([], Eof, c)
    ensures Final(c, Run(segments, c, capacities)) == c
    decreases capacities
  {
    if capacities != [] {
      var outs := Run(segments, c, capacities);
      assert outs[0] == Outcome([], Eof, c);
      assert outs[1..] == Run(segments, c, capacities[1..]);
      RunFromExhausted(segments, c, capacities[1..]);
    }
  }

  /**
   * Go's builtin copy: copies min(len(dst), len(src)) bytes to the front of
   * dst and reports how many.
   */
  method Copy(dst: array<bv8>, src: seq<bv8>) returns (count: nat)
    modifies dst
    ensures count == Min(dst.Length, |src|)
    ensures dst[..count] == src[..count]
    ensures dst[count..] == old(dst[count..])
  {
    count := Min(dst.Length, |src|);
    forall i | 0 <= i < count {
      dst[i] := src[i];
    }
  }

  class Reader {
    /** The normalized segments; set by the constructor and never changed. */
    const inputs: seq<seq<bv8>>
    /** Index of the segment being read; |inputs| once exhausted. */
    var inputIndex: nat
    /** Offset of the next byte to hand out within inputs[inputIndex]. */
    var byteIndex: nat

    ghost predicate Valid()
      reads this
    {
      Terminated(inputs) && WellFormed(inputs, Cursor(inputIndex, byteIndex))
    }

    function Position(): Cursor
      reads this
    {
      Cursor(inputIndex, byteIndex)
    }

    /** New: one segment per input string, in order, each normalized. */
    constructor (strs: seq<seq<bv8>>)
      ensures Valid()
      ensures |inputs| == |strs|
      ensures forall i :: 0 <= i < |strs| ==> inputs[i] == Normalize(strs[i])
      ensures Position() == Cursor(0, 0)
    {
      var segments := BuildSegments(strs);
      inputs := segments;
      inputIndex := 0;
      byteIndex := 0;
    }

    /**
     * Copies up to buf.Length bytes of the current segment into buf. The
     * result follows Step: (n, Continue) while the segment has more bytes,
     * (n, Eof) when this copy finished the segment, (0, Eof) once exhausted.
     */
    method Read(buf: array<bv8>) returns (n: nat, status: Status)
      requires Valid()
      modifies this, buf
      ensures Valid()
      ensures var r := Step(inputs, old(Position()), buf.Length);
              n == |r.data| && status == r.status && Position() == r.next &&
              buf[..n] == r.data
      ensures buf[n..] == old(buf[n..])
      ensures old(Exhausted(inputs, Position())) ==>
                n == 0 && status == Eof && Position() == old(Position()) &&
                buf[..] == old(buf[..])
      ensures !old(Exhausted(inputs, Position())) && buf.Length > 0 ==> n > 0
    {
      if inputIndex == |inputs| {
        return 0, Eof;
      }
      var curr := inputs[inputIndex];
      var readCount := Copy(buf, curr[byteIndex..]);
      byteIndex := byteIndex + readCount;
      if byteIndex == |curr| {
        inputIndex := inputIndex + 1;
        byteIndex := 0;
        return readCount, Eof;
      }
      return readCount, Continue;
    }
  }
}
