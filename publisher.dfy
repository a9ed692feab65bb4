/**
  The publisher's send loop: build an envelope per content item, write its
  serialization and then a single "\n" to the pipe, and stop after the
  thousandth message.
 */
module Publisher {
  import opened Wrappers
  import opened Envelope
  import opened Json
  import opened Framing
  import opened Seqs

  /** Rust's `i32`, the type of the publisher's counter. */
  newtype int32 = x: int | -0x8000_0000 <= x < 0x8000_0000

  /** The run stops once this many messages have been sent. */
  const MessageCount: int32 := 1000

  /** The envelopes of a run: item `i` is built from content `i` at clock reading `i`. */
  function Envelopes(md5: Hasher, contents: seq<string>, clock: seq<string>): (ms: seq<Message>)
    requires |clock| == |contents|
    ensures |ms| == |contents|
    ensures forall i :: 0 <= i < |ms| ==> ms[i] == New(md5, contents[i], clock[i])
  {
    if contents == [] then []
    else [New(md5, contents[0], clock[0])] + Envelopes(md5, contents[1..], clock[1..])
  }

  /** The serialization of each message, in order. */
  function Records(ms: seq<Message>): (rs: seq<string>)
    ensures |rs| == |ms|
    ensures forall i :: 0 <= i < |ms| ==> rs[i] == Serialize(ms[i])
  {
    MapSeq(Serialize, ms)
  }

  /**
    The send loop of `run_pub`. `contents` are the random strings the
    generator yields, `clock` the successive wall-clock readings; `stream`
    is everything written to the pipe.
   */
  method Publish(md5: Hasher, contents: seq<string>, clock: seq<string>) returns (stream: string, count: int32)
    requires |contents| == MessageCount as int && |clock| == MessageCount as int
    ensures count == MessageCount
    ensures stream == Frames(Records(Envelopes(md5, contents, clock)))
  {
    stream := [];
    count := 0;
    while true
      invariant 0 <= count < MessageCount
      invariant stream == Sent(md5, contents, clock, count as int)
      decreases MessageCount - count
    {
      count := count + 1;
      var message := New(md5, contents[count - 1], clock[count - 1]);
      SentOneMore(md5, contents, clock, count as int - 1);
      stream := stream + Serialize(message);
      stream := stream + "\n";
      if count == MessageCount {
        break;
      }
    }
    SentAll(md5, contents, clock);
  }

  /** What is on the pipe after the first `n` messages. */
  ghost function Sent(md5: Hasher, contents: seq<string>, clock: seq<string>, n: nat): string
    requires n <= |contents| == |clock|
  {
    Frames(Records(Envelopes(md5, contents[..n], clock[..n])))
  }

  lemma SentAll(md5: Hasher, contents: seq<string>, clock: seq<string>)
    requires |contents| == |clock|
    ensures Sent(md5, contents, clock, |contents|) == Frames(Records(Envelopes(md5, contents, clock)))
  {
    assert contents[..|contents|] == contents;
    assert clock[..|clock|] == clock;
  }

  /** Sending message `n` extends the stream by exactly its frame. */
  lemma SentOneMore(md5: Hasher, contents: seq<string>, clock: seq<string>, n: nat)
    requires n < |contents| == |clock|
    ensures Sent(md5, contents, clock, n + 1)
         == Sent(md5, contents, clock, n) + Serialize(New(md5, contents[n], clock[n])) + "\n"
  {
    var before := Envelopes(md5, contents[..n], clock[..n]);
    var after := Envelopes(md5, contents[..n + 1], clock[..n + 1]);
    var m := New(md5, contents[n], clock[n]);
    assert after == before + [m];
    MapSeqAppend(Serialize, before, m);
    FramesAppend(Records(before), Serialize(m));
  }

  /**
    Reading the published stream back line by line gives the serialized
    envelopes in the order they were sent, and each deserializes to the
    envelope that was built.
   */
  lemma PublishedStreamDeframes(md5: Hasher, contents: seq<string>, clock: seq<string>)
    requires |clock| == |contents|
    ensures var ms := Envelopes(md5, contents, clock);
      Lines(Frames(Records(ms))) == Records(ms) &&
      forall i :: 0 <= i < |ms| ==> Deserialize(Records(ms)[i]) == Some(ms[i])
  {
    var ms := Envelopes(md5, contents, clock);
    RecordsAreFramable(ms);
    LinesOfFrames(Records(ms));
    forall i | 0 <= i < |ms| ensures Deserialize(Records(ms)[i]) == Some(ms[i]) {
      DeserializeSerialize(ms[i]);
    }
  }

  lemma RecordsAreFramable(ms: seq<Message>)
    ensures forall i :: 0 <= i < |ms| ==> IsFramable(Records(ms)[i])
  {
    forall i | 0 <= i < |ms| ensures IsFramable(Records(ms)[i]) {
      SerializeHasNoLineBreak(ms[i]);
    }
  }
}
