/**
  The subscriber of `run_sub`: a readiness loop that polls the pipe until
  it holds data, then a loop over the lines of the pipe that forwards every
  envelope that validates to the output file. The pipe is an input trace:
  the outcomes its successive polls and line reads would produce.
 */
module Subscriber {
  import opened Wrappers
  import opened Encoding
  import opened Framing
  import opened Envelope
  import opened Json
  import opened Seqs

  /** The pause before the pipe is polled again, in milliseconds. */
  const PollIntervalMs: nat := 300

  // ---------------------------------------------------------------------
  // Readiness loop
  // ---------------------------------------------------------------------

  /** What one `fill_buf` on the pipe reports. */
  datatype Poll =
    | Empty       // Ok with an empty buffer
    | Filled      // Ok with at least one byte
    | WouldBlock  // Err of kind WouldBlock
    | PollError   // any other Err

  /** Whether the loop sleeps and polls again after this outcome. */
  predicate IsRetry(p: Poll) {
    p.Empty? || p.WouldBlock?
  }

  /** The number of leading polls that found the pipe empty or would block. */
  function Waited(polls: seq<Poll>): (n: nat)
    ensures n <= |polls|
    ensures forall j :: 0 <= j < n ==> IsRetry(polls[j])
    ensures n < |polls| ==> !IsRetry(polls[n])
  {
    if polls == [] || !IsRetry(polls[0]) then 0 else 1 + Waited(polls[1..])
  }

  /** `Waited` is the only count with its three properties. */
  lemma WaitedAt(polls: seq<Poll>, i: nat)
    requires i <= |polls|
    requires forall j :: 0 <= j < i ==> IsRetry(polls[j])
    requires i < |polls| ==> !IsRetry(polls[i])
    ensures Waited(polls) == i
  {
  }

  /** How the readiness loop ended; `StillWaiting` when the trace ran out before it did. */
  datatype Readiness = Ready | PollFailed | StillWaiting

  /**
    Poll until the first outcome that is not an empty buffer or WouldBlock,
    sleeping once after each of those. `sleeps` lists the pauses taken.
   */
  method AwaitReadable(polls: seq<Poll>) returns (sleeps: seq<nat>, readiness: Readiness)
    ensures |sleeps| == Waited(polls)
    ensures forall j :: 0 <= j < |sleeps| ==> IsRetry(polls[j]) && sleeps[j] == PollIntervalMs
    ensures readiness == StillWaiting <==> |sleeps| == |polls|
    ensures readiness == Ready <==> |sleeps| < |polls| && polls[|sleeps|].Filled?
    ensures readiness == PollFailed <==> |sleeps| < |polls| && polls[|sleeps|].PollError?
    ensures readiness == StillWaiting <==> forall j :: 0 <= j < |polls| ==> IsRetry(polls[j])
    ensures readiness == Ready <==>
      exists i :: 0 <= i < |polls| && polls[i].Filled? && forall j :: 0 <= j < i ==> IsRetry(polls[j])
    ensures readiness == PollFailed <==>
      exists i :: 0 <= i < |polls| && polls[i].PollError? && forall j :: 0 <= j < i ==> IsRetry(polls[j])
  {
    sleeps, readiness := [], StillWaiting;
    var i := 0;
    while i < |polls|
      invariant 0 <= i <= |polls| && |sleeps| == i
      invariant forall j :: 0 <= j < i ==> IsRetry(polls[j]) && sleeps[j] == PollIntervalMs
    {
      if polls[i].Filled? {
        readiness := Ready;
        break;
      } else if polls[i].PollError? {
        readiness := PollFailed;
        break;
      }
      sleeps := sleeps + [PollIntervalMs];
      i := i + 1;
    }
    WaitedAt(polls, i);
    // Any poll that ends the wait is the one at `Waited(polls)`.
    forall i' | 0 <= i' < |polls| && !IsRetry(polls[i']) && forall j :: 0 <= j < i' ==> IsRetry(polls[j])
      ensures i' == i
    {
      WaitedAt(polls, i');
    }
  }

  // ---------------------------------------------------------------------
  // Deframe-validate-forward loop
  // ---------------------------------------------------------------------

  /** What one step of `reader.lines()` yields. */
  datatype LineRead =
    | Line(text: string)  // Ok, without its terminator
    | LineWouldBlock      // Err of kind WouldBlock
    | LineError           // any other Err

  /** Why the forwarding loop ended. */
  datatype StreamEnd =
    | EndOfStream    // the line iterator was exhausted
    | ReadFailed     // a hard read error broke the loop
    | ParsePanicked  // a non-empty line did not deserialize: `expect` aborts the process

  /**
    The three steps the loop applies to a non-empty line: `serde_json::from_str`,
    `Message::validate` and `serde_json::to_string`. The loop is stated over
    any such triple; `Pipeline` is the one `run_sub` uses.
   */
  datatype Codec = Codec(decode: string -> Option<Message>, valid: Message -> bool, encode: Message -> string)

  /** The codec of `run_sub`: the JSON envelope format and the MD5 checksum test. */
  function Pipeline(md5: Hasher): (c: Codec)
    ensures forall s :: c.decode(s) == Deserialize(s)
    ensures forall m :: c.valid(m) == Validate(md5, m)
    ensures forall m :: c.encode(m) == Serialize(m)
  {
    Codec(Deserialize, m => Validate(md5, m), Serialize)
  }

  /** Whether this read ends the loop. */
  predicate Halts(c: Codec, r: LineRead) {
    r.LineError? || (r.Line? && r.text != [] && c.decode(r.text).None?)
  }

  /** The index of the first read that ends the loop, or the length of the trace. */
  function StopIndex(c: Codec, trace: seq<LineRead>): (k: nat)
    ensures k <= |trace|
    ensures forall j :: 0 <= j < k ==> !Halts(c, trace[j])
    ensures k < |trace| ==> Halts(c, trace[k])
  {
    if trace == [] then 0
    else if Halts(c, trace[0]) then 0
    else 1 + StopIndex(c, trace[1..])
  }

  /** The message one read hands on to the output file: the decoded envelope, if it is valid. */
  function Forwarded(c: Codec, r: LineRead): seq<Message> {
    if r.Line? && r.text != [] then
      match c.decode(r.text)
      case Some(m) => if c.valid(m) then [m] else []
      case None => []
    else []
  }

  /** The messages the first `n` reads hand on to the output file, in order. */
  function Accepted(c: Codec, trace: seq<LineRead>, n: nat): seq<Message>
    requires n <= |trace|
  {
    if n == 0 then [] else Accepted(c, trace, n - 1) + Forwarded(c, trace[n - 1])
  }

  /** The number of the first `n` reads that delivered a line, empty lines included. */
  function LinesRead(trace: seq<LineRead>, n: nat): (lines: nat)
    requires n <= |trace|
    ensures lines <= n
  {
    if n == 0 then 0 else LinesRead(trace, n - 1) + (if trace[n - 1].Line? then 1 else 0)
  }

  /** The number of the first `n` reads that reported WouldBlock. */
  function Retries(trace: seq<LineRead>, n: nat): (retries: nat)
    requires n <= |trace|
    ensures retries <= n
  {
    if n == 0 then 0 else Retries(trace, n - 1) + (if trace[n - 1].LineWouldBlock? then 1 else 0)
  }

  /**
    The `for line in reader.lines()` loop. `sink` lists the writes to the
    output file, `count` is the line counter, `sleeps` the pauses taken.
    Every line is counted, empty or not; a line that does not decode is
    counted before the panic it causes.
   */
  method ForwardValid(c: Codec, trace: seq<LineRead>)
    returns (sink: seq<string>, count: nat, sleeps: seq<nat>, end: StreamEnd)
    ensures var k := StopIndex(c, trace);
      sink == MapSeq(c.encode, Accepted(c, trace, k)) &&
      count == LinesRead(trace, k) + (if k < |trace| && trace[k].Line? then 1 else 0) &&
      |sleeps| == Retries(trace, k) &&
      (forall j :: 0 <= j < |sleeps| ==> sleeps[j] == PollIntervalMs) &&
      end == (if k == |trace| then EndOfStream else if trace[k].LineError? then ReadFailed else ParsePanicked)
  {
    sink, count, sleeps, end := [], 0, [], EndOfStream;
    var i := 0;
    while i < |trace|
      invariant 0 <= i <= |trace|
      invariant forall j :: 0 <= j < i ==> !Halts(c, trace[j])
      invariant sink == MapSeq(c.encode, Accepted(c, trace, i))
      invariant count == LinesRead(trace, i)
      invariant |sleeps| == Retries(trace, i)
      invariant forall j :: 0 <= j < |sleeps| ==> sleeps[j] == PollIntervalMs
      invariant end == EndOfStream
    {
      var read := trace[i];
      if read.LineError? {
        end := ReadFailed;
        break;
      }
      if read.LineWouldBlock? {
        SkipRetry(c, trace, i);
        sleeps := sleeps + [PollIntervalMs];
      } else {
        var raw := read.text;
        count := count + 1;
        if raw != [] {
          var parsed := c.decode(raw);
          if parsed.None? {
            end := ParsePanicked;
            break;
          }
          var message := parsed.value;
          if c.valid(message) {
            KeepValid(c, trace, i, message);
            MapSeqAppend(c.encode, Accepted(c, trace, i), message);
            sink := sink + [c.encode(message)];
          } else {
            DropInvalid(c, trace, i, message);
          }
        } else {
          SkipEmpty(c, trace, i);
        }
      }
      i := i + 1;
    }
    StopIndexAt(c, trace, i);
  }

  /** A WouldBlock read is retried: it forwards nothing and counts no line. */
  lemma SkipRetry(c: Codec, trace: seq<LineRead>, i: nat)
    requires i < |trace| && trace[i].LineWouldBlock?
    ensures !Halts(c, trace[i])
    ensures Accepted(c, trace, i + 1) == Accepted(c, trace, i)
    ensures LinesRead(trace, i + 1) == LinesRead(trace, i)
    ensures Retries(trace, i + 1) == Retries(trace, i) + 1
  {
  }

  /** An empty line is counted and forwards nothing. */
  lemma SkipEmpty(c: Codec, trace: seq<LineRead>, i: nat)
    requires i < |trace| && trace[i] == Line([])
    ensures !Halts(c, trace[i])
    ensures Accepted(c, trace, i + 1) == Accepted(c, trace, i)
    ensures LinesRead(trace, i + 1) == LinesRead(trace, i) + 1
    ensures Retries(trace, i + 1) == Retries(trace, i)
  {
  }

  /** A line that decodes to an invalid message is counted and forwards nothing. */
  lemma DropInvalid(c: Codec, trace: seq<LineRead>, i: nat, m: Message)
    requires i < |trace| && trace[i].Line? && trace[i].text != []
    requires c.decode(trace[i].text) == Some(m) && !c.valid(m)
    ensures !Halts(c, trace[i])
    ensures Accepted(c, trace, i + 1) == Accepted(c, trace, i)
    ensures LinesRead(trace, i + 1) == LinesRead(trace, i) + 1
    ensures Retries(trace, i + 1) == Retries(trace, i)
  {
  }

  /** A line that decodes to a valid message is counted and forwards that message. */
  lemma KeepValid(c: Codec, trace: seq<LineRead>, i: nat, m: Message)
    requires i < |trace| && trace[i].Line? && trace[i].text != []
    requires c.decode(trace[i].text) == Some(m) && c.valid(m)
    ensures !Halts(c, trace[i])
    ensures Accepted(c, trace, i + 1) == Accepted(c, trace, i) + [m]
    ensures LinesRead(trace, i + 1) == LinesRead(trace, i) + 1
    ensures Retries(trace, i + 1) == Retries(trace, i)
  {
  }

  /** The stop index is the one place where every earlier read continues and this one halts. */
  lemma StopIndexAt(c: Codec, trace: seq<LineRead>, i: nat)
    requires i <= |trace|
    requires forall j :: 0 <= j < i ==> !Halts(c, trace[j])
    requires i < |trace| ==> Halts(c, trace[i])
    ensures StopIndex(c, trace) == i
  {
  }

  // ---------------------------------------------------------------------
  // The whole subscriber
  // ---------------------------------------------------------------------

  /**
    `run_sub` after its setup: the readiness loop, then the forwarding loop
    with the JSON envelope codec. When the polls run out before the pipe is
    ready the forwarding loop is never reached (`end` is `None`). A failed
    poll only ends the waiting: the lines are still read. The records
    written are `Pipeline(md5).encode`, that is `Serialize`, of the accepted
    envelopes.
   */
  method RunSubscriber(md5: Hasher, polls: seq<Poll>, trace: seq<LineRead>)
    returns (readiness: Readiness, sink: seq<string>, count: nat, sleeps: seq<nat>, end: Option<StreamEnd>)
    ensures readiness == StillWaiting <==> forall j :: 0 <= j < |polls| ==> IsRetry(polls[j])
    ensures readiness == (if Waited(polls) == |polls| then StillWaiting
                          else if polls[Waited(polls)].Filled? then Ready else PollFailed)
    ensures |sleeps| == Waited(polls) + (if readiness == StillWaiting then 0 else Retries(trace, StopIndex(Pipeline(md5), trace)))
    ensures readiness == StillWaiting ==> sink == [] && count == 0 && end == None
    ensures readiness != StillWaiting ==>
      var k := StopIndex(Pipeline(md5), trace);
      sink == MapSeq(Pipeline(md5).encode, Accepted(Pipeline(md5), trace, k)) &&
      count == LinesRead(trace, k) + (if k < |trace| && trace[k].Line? then 1 else 0) &&
      end == Some(if k == |trace| then EndOfStream else if trace[k].LineError? then ReadFailed else ParsePanicked)
    ensures forall j :: 0 <= j < |sleeps| ==> sleeps[j] == PollIntervalMs
  {
    var waits;
    waits, readiness := AwaitReadable(polls);
    if readiness == StillWaiting {
      sink, count, sleeps, end := [], 0, waits, None;
      return;
    }
    var retries, stop;
    sink, count, retries, stop := ForwardValid(Pipeline(md5), trace);
    sleeps, end := waits + retries, Some(stop);
  }

  // ---------------------------------------------------------------------
  // What reaches the output file
  // ---------------------------------------------------------------------

  /** Every forwarded message is valid and is the decoding of a line that was read. */
  lemma {:induction false} AcceptedAreValid(c: Codec, trace: seq<LineRead>, n: nat)
    requires n <= |trace|
    ensures forall m :: m in Accepted(c, trace, n) ==>
      c.valid(m) && exists i :: 0 <= i < n && trace[i].Line? && c.decode(trace[i].text) == Some(m)
  {
    if n > 0 {
      AcceptedAreValid(c, trace, n - 1);
      forall m | m in Accepted(c, trace, n)
        ensures c.valid(m) && exists i :: 0 <= i < n && trace[i].Line? && c.decode(trace[i].text) == Some(m)
      {
        if m !in Accepted(c, trace, n - 1) {
          assert m in Forwarded(c, trace[n - 1]);
          assert trace[n - 1].Line? && c.decode(trace[n - 1].text) == Some(m);
        }
      }
    }
  }

  /**
    The records the subscriber writes are envelopes that decode and validate
    again: a reader of the output file sees only intact messages.
   */
  lemma SinkRecordsRevalidate(md5: Hasher, trace: seq<LineRead>, n: nat)
    requires n <= |trace|
    ensures var ms := Accepted(Pipeline(md5), trace, n);
      var sink := MapSeq(Serialize, ms);
      forall j :: 0 <= j < |sink| ==> Deserialize(sink[j]) == Some(ms[j]) && Validate(md5, ms[j])
  {
    var ms := Accepted(Pipeline(md5), trace, n);
    var sink := MapSeq(Serialize, ms);
    AcceptedAreValid(Pipeline(md5), trace, n);
    forall j | 0 <= j < |sink|
      ensures Deserialize(sink[j]) == Some(ms[j]) && Validate(md5, ms[j])
    {
      assert ms[j] in ms;
      DeserializeSerialize(ms[j]);
    }
  }

  /** A line that decodes to an invalid message neither stops the loop nor forwards anything. */
  lemma InvalidLineDropped(c: Codec, text: string, m: Message)
    requires text != [] && c.decode(text) == Some(m) && !c.valid(m)
    ensures !Halts(c, Line(text)) && Forwarded(c, Line(text)) == []
  {
  }

  /**
    A frame carrying an envelope whose checksum was replaced by another is
    read, counted and dropped: it neither stops the subscriber nor reaches
    the output file.
   */
  lemma TamperedFrameDropped(md5: Hasher, m: Message, forged: string)
    requires forged != CheckSumOf(md5, m.content)
    ensures var r := Line(Serialize(Message(m.content, forged, m.createdAt)));
      !Halts(Pipeline(md5), r) && Forwarded(Pipeline(md5), r) == []
  {
    var t := Message(m.content, forged, m.createdAt);
    var text := Serialize(t);
    DeserializeSerialize(t);
    SerializeHasNoLineBreak(t);
    InvalidLineDropped(Pipeline(md5), text, t);
  }

  /** The reads of a stream made only of the given lines. */
  function Received(lines: seq<string>): (trace: seq<LineRead>)
    ensures |trace| == |lines|
    ensures forall i :: 0 <= i < |lines| ==> trace[i] == Line(lines[i])
  {
    MapSeq((t: string) => Line(t), lines)
  }

  /**
    One item of `reader.lines()` on the pipe's bytes: the piece cut at 0x0A
    becomes a string only when it is well-formed UTF-8; otherwise the read
    fails with `InvalidData`.
   */
  function ReadPiece(piece: seq<byte>): (r: LineRead)
    ensures r.Line? <==> Utf8Decode(piece).Some?
    ensures r.Line? ==> Utf8Encode(r.text) == piece
  {
    match Utf8Decode(piece)
    case Some(text) => Utf8DecodeExact(piece, text); Line(text)
    case None => LineError
  }

  /** The reads of `reader.lines()` over the bytes of a pipe that never blocks. */
  function ReceivedBytes(bs: seq<byte>): seq<LineRead> {
    ReadPieces(ByteLines(bs))
  }

  /** One read per piece, in order. */
  function ReadPieces(pieces: seq<seq<byte>>): (trace: seq<LineRead>)
    ensures |trace| == |pieces|
  {
    if pieces == [] then [] else [ReadPiece(pieces[0])] + ReadPieces(pieces[1..])
  }

  /** The pieces that are the bytes of some strings are read as exactly those strings. */
  lemma {:induction false} ReadPiecesOfText(lines: seq<string>)
    ensures ReadPieces(MapSeq(Utf8Encode, lines)) == Received(lines)
  {
    if lines != [] {
      var pieces := MapSeq(Utf8Encode, lines);
      Utf8RoundTrip(lines[0]);
      assert pieces[1..] == MapSeq(Utf8Encode, lines[1..]);
      ReadPiecesOfText(lines[1..]);
      assert Received(lines) == [Line(lines[0])] + Received(lines[1..]);
    }
  }

  /**
    When every line is non-empty and decodes to a valid message, the loop
    passes every line, counts each one and forwards the messages in order.
   */
  lemma {:induction false} ForwardsAll(c: Codec, lines: seq<string>, ms: seq<Message>, n: nat)
    requires |lines| == |ms| && n <= |ms|
    requires forall i :: 0 <= i < |ms| ==> lines[i] != [] && c.decode(lines[i]) == Some(ms[i]) && c.valid(ms[i])
    ensures var trace := Received(lines);
      (forall j :: 0 <= j < n ==> !Halts(c, trace[j])) &&
      Accepted(c, trace, n) == ms[..n] &&
      LinesRead(trace, n) == n && Retries(trace, n) == 0
  {
    if n > 0 {
      ForwardsAll(c, lines, ms, n - 1);
      assert ms[..n] == ms[..n - 1] + [ms[n - 1]];
    }
  }

  /** The serializations of valid envelopes are lines that decode and validate, as `ForwardsAll` needs. */
  lemma SerializedValidLines(md5: Hasher, ms: seq<Message>)
    requires forall i :: 0 <= i < |ms| ==> Validate(md5, ms[i])
    ensures var lines := MapSeq(Serialize, ms);
      |lines| == |ms| &&
      forall i :: 0 <= i < |ms| ==>
        lines[i] != [] && Pipeline(md5).decode(lines[i]) == Some(ms[i]) && Pipeline(md5).valid(ms[i])
  {
    var lines := MapSeq(Serialize, ms);
    forall i | 0 <= i < |ms|
      ensures lines[i] != [] && Pipeline(md5).decode(lines[i]) == Some(ms[i]) && Pipeline(md5).valid(ms[i])
    {
      DeserializeSerialize(ms[i]);
      SerializeHasNoLineBreak(ms[i]);
    }
  }

  /**
    A stream of the serializations of valid envelopes is read to its end,
    every line is counted and every message is forwarded, in order.
   */
  lemma ForwardsAllValid(md5: Hasher, ms: seq<Message>)
    requires forall i :: 0 <= i < |ms| ==> Validate(md5, ms[i])
    ensures var trace := Received(MapSeq(Serialize, ms));
      StopIndex(Pipeline(md5), trace) == |ms| &&
      Accepted(Pipeline(md5), trace, |ms|) == ms &&
      LinesRead(trace, |ms|) == |ms| && Retries(trace, |ms|) == 0
  {
    SerializedValidLines(md5, ms);
    ForwardsAll(Pipeline(md5), MapSeq(Serialize, ms), ms, |ms|);
    assert ms[..|ms|] == ms;
    StopIndexAt(Pipeline(md5), Received(MapSeq(Serialize, ms)), |ms|);
  }
}
