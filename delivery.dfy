/**
  The two processes together: what the subscriber does with the stream the
  publisher writes into the pipe, read back through `BufRead::lines`.
 */
module Delivery {
  import opened Wrappers
  import opened Encoding
  import opened Envelope
  import opened Json
  import opened Framing
  import opened Seqs
  import opened Publisher
  import opened Subscriber

  /**
    The stream of any batch of published envelopes is read to its end by the
    subscriber, which counts every frame and writes exactly the records the
    publisher sent, in order: nothing is lost, reordered or rejected.
   */
  lemma PublishedStreamForwarded(md5: Hasher, contents: seq<string>, clock: seq<string>)
    requires |clock| == |contents|
    ensures var ms := Envelopes(md5, contents, clock);
      var trace := Received(Lines(Frames(Records(ms))));
      StopIndex(Pipeline(md5), trace) == |ms| &&
      MapSeq(Serialize, Accepted(Pipeline(md5), trace, |ms|)) == Records(ms) &&
      LinesRead(trace, |ms|) == |ms| && Retries(trace, |ms|) == 0
  {
    var ms := Envelopes(md5, contents, clock);
    PublishedStreamDeframes(md5, contents, clock);
    forall i | 0 <= i < |ms| ensures Validate(md5, ms[i]) {
      ValidateNew(md5, contents[i], clock[i]);
    }
    assert Records(ms) == MapSeq(Serialize, ms);
    ForwardsAllValid(md5, ms);
  }

  /**
    `reader.lines()` over the bytes on the pipe reads what it would read
    from the text: every framed record, each of which passes the UTF-8
    check, and nothing after the last newline.
   */
  lemma ReceivedFramedBytes(records: seq<string>)
    requires forall i :: 0 <= i < |records| ==> IsFramable(records[i])
    ensures ReceivedBytes(Utf8Encode(Frames(records))) == Received(Lines(Frames(records))) == Received(records)
  {
    ByteLinesOfFrames(records);
    LinesOfFrames(records);
    ReadPiecesOfText(records);
  }

  /**
    One publisher run followed by a whole subscriber run on the bytes the
    publisher put on the pipe. Whichever way the wait ends, the output file
    receives the 1000 records the publisher framed, the subscriber counts
    1000 lines and stops at the end of the stream, and each record carries
    the content it was published with.
   */
  method PublishThenSubscribe(md5: Hasher, contents: seq<string>, clock: seq<string>, polls: seq<Poll>)
    returns (readiness: Readiness, sink: seq<string>, count: nat, sleeps: seq<nat>, end: Option<StreamEnd>)
    requires |contents| == MessageCount as int && |clock| == MessageCount as int
    requires Waited(polls) < |polls|
    ensures readiness == (if polls[Waited(polls)].Filled? then Ready else PollFailed)
    ensures sink == Records(Envelopes(md5, contents, clock))
    ensures count == MessageCount as int && end == Some(EndOfStream)
    ensures |sleeps| == Waited(polls)
    ensures CarriesContents(sink, contents)
  {
    var stream, sent := Publish(md5, contents, clock);
    EnvelopesValid(md5, contents, clock);
    readiness, sink, count, sleeps, end := SubscribeToBytes(md5, Envelopes(md5, contents, clock), polls, Utf8Encode(stream));
    RecordsCarryContents(md5, contents, clock, sink);
  }

  /**
    A subscriber run on the bytes of a framed batch of valid envelopes:
    `reader.lines()` yields exactly the records, and once the wait ends every
    one of them is written to the output file unchanged.
   */
  method SubscribeToBytes(md5: Hasher, ghost ms: seq<Message>, polls: seq<Poll>, bytes: seq<byte>)
    returns (readiness: Readiness, sink: seq<string>, count: nat, sleeps: seq<nat>, end: Option<StreamEnd>)
    requires AllValid(md5, ms)
    requires bytes == Utf8Encode(Frames(Records(ms)))
    requires Waited(polls) < |polls|
    ensures readiness == (if polls[Waited(polls)].Filled? then Ready else PollFailed)
    ensures sink == Records(ms) && count == |ms| && end == Some(EndOfStream)
    ensures |sleeps| == Waited(polls)
  {
    var trace := ReceivedBytes(bytes);
    RecordsAreFramable(ms);
    FramedBytesRead(Records(ms), trace);
    readiness, sink, count, sleeps, end := SubscribeToRecords(md5, ms, polls, trace);
  }

  /** `reader.lines()` over the bytes of framed records yields the records themselves. */
  lemma FramedBytesRead(records: seq<string>, trace: seq<LineRead>)
    requires forall i :: 0 <= i < |records| ==> IsFramable(records[i])
    requires trace == ReceivedBytes(Utf8Encode(Frames(records)))
    ensures trace == Received(records)
  {
    ReceivedFramedBytes(records);
  }

  /**
    A subscriber run on the lines of a batch of valid records: once the wait
    ends, every line is written to the output file unchanged, with no
    retries, and the stream is read to its end.
   */
  method SubscribeToRecords(md5: Hasher, ghost ms: seq<Message>, polls: seq<Poll>, trace: seq<LineRead>)
    returns (readiness: Readiness, sink: seq<string>, count: nat, sleeps: seq<nat>, end: Option<StreamEnd>)
    requires AllValid(md5, ms)
    requires trace == Received(Records(ms))
    requires Waited(polls) < |polls|
    ensures readiness == (if polls[Waited(polls)].Filled? then Ready else PollFailed)
    ensures sink == Records(ms) && count == |ms| && end == Some(EndOfStream)
    ensures |sleeps| == Waited(polls)
  {
    ValidRecordsForwarded(md5, ms, trace);
    readiness, sink, count, sleeps, end := RunSubscriber(md5, polls, trace);
  }

  /** Every envelope of the batch passes the subscriber's check. */
  predicate AllValid(md5: Hasher, ms: seq<Message>) {
    forall i :: 0 <= i < |ms| ==> Validate(md5, ms[i])
  }

  /** Every envelope the publisher builds passes the subscriber's check. */
  lemma EnvelopesValid(md5: Hasher, contents: seq<string>, clock: seq<string>)
    requires |clock| == |contents|
    ensures AllValid(md5, Envelopes(md5, contents, clock))
  {
    forall i | 0 <= i < |contents| ensures Validate(md5, Envelopes(md5, contents, clock)[i]) {
      ValidateNew(md5, contents[i], clock[i]);
    }
  }

  /** A trace of valid records is forwarded whole: every line is read and written back unchanged. */
  lemma ValidRecordsForwarded(md5: Hasher, ms: seq<Message>, trace: seq<LineRead>)
    requires AllValid(md5, ms)
    requires trace == Received(Records(ms))
    ensures |trace| == |ms| && StopIndex(Pipeline(md5), trace) == |ms| &&
      MapSeq(Pipeline(md5).encode, Accepted(Pipeline(md5), trace, |ms|)) == Records(ms) &&
      LinesRead(trace, |ms|) == |ms| && Retries(trace, |ms|) == 0
  {
    assert Records(ms) == MapSeq(Serialize, ms);
    ForwardsAllValid(md5, ms);
    PipelineEncodes(md5, ms);
  }

  /** The codec's encoder is the JSON serializer. */
  lemma PipelineEncodes(md5: Hasher, ms: seq<Message>)
    ensures MapSeq(Pipeline(md5).encode, ms) == MapSeq(Serialize, ms)
  {
  }

  /** Each record decodes back to an envelope carrying the content it was made from. */
  predicate CarriesContents(rs: seq<string>, contents: seq<string>) {
    |rs| == |contents| &&
    forall i :: 0 <= i < |rs| ==> Deserialize(rs[i]).Some? && Deserialize(rs[i]).value.content == contents[i]
  }

  /** Each published record carries the content it was published with. */
  lemma RecordsCarryContents(md5: Hasher, contents: seq<string>, clock: seq<string>, rs: seq<string>)
    requires |clock| == |contents| && rs == Records(Envelopes(md5, contents, clock))
    ensures CarriesContents(rs, contents)
  {
    var ms := Envelopes(md5, contents, clock);
    forall i | 0 <= i < |rs|
      ensures Deserialize(rs[i]).Some? && Deserialize(rs[i]).value.content == contents[i]
    {
      assert rs[i] == Serialize(ms[i]);
      DeserializeSerialize(ms[i]);
    }
  }

  /**
    The "Hello World" envelope travels through the pipe as one frame and is
    written to the output file unchanged, carrying its reference checksum.
   */
  lemma HelloWorldDelivered(md5: Hasher, now: string)
    requires md5([72, 101, 108, 108, 111, 32, 87, 111, 114, 108, 100]) == HelloWorldDigest
    ensures var m := New(md5, "Hello World", now);
      var trace := Received(Lines(Frames([Serialize(m)])));
      StopIndex(Pipeline(md5), trace) == 1 && LinesRead(trace, 1) == 1 &&
      MapSeq(Serialize, Accepted(Pipeline(md5), trace, 1)) == [Serialize(m)] &&
      Deserialize(Serialize(m)) == Some(m) && m.checkSum == "b10a8db164e0754105b7a99be72e3fe5"
  {
    var m := New(md5, "Hello World", now);
    HelloWorldCheckSum(md5, now);
    PublishedStreamForwarded(md5, ["Hello World"], [now]);
    assert Envelopes(md5, ["Hello World"], [now]) == [m];
    DeserializeSerialize(m);
  }
}
