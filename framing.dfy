/**
  Newline framing over the pipe: the publisher writes each record followed
  by one "\n"; the subscriber reads the stream back with `BufRead::lines`.
 */
module Framing {
  import opened Wrappers
  import opened Encoding
  import opened Seqs

  /** The records, each followed by exactly one newline, back to back. */
  function Frames(records: seq<string>): (s: string)
    ensures |s| >= |records|
  {
    if records == [] then [] else records[0] + "\n" + Frames(records[1..])
  }

  /** Appending a record adds exactly one frame at the end of the stream. */
  lemma {:induction false} FramesAppend(records: seq<string>, r: string)
    ensures Frames(records + [r]) == Frames(records) + r + "\n"
  {
    if records == [] {
      assert [] + [r] == [r];
      assert Frames([r]) == r + "\n" + Frames([]);
    } else {
      assert (records + [r])[0] == records[0];
      assert (records + [r])[1..] == records[1..] + [r];
      FramesAppend(records[1..], r);
    }
  }

  /** The index of the first `x` in `s`, if any. */
  function FindFirst<T(==)>(s: seq<T>, x: T): (r: Option<nat>)
    ensures r.Some? ==> r.value < |s| && s[r.value] == x && x !in s[..r.value]
    ensures r.None? ==> x !in s
  {
    if s == [] then None
    else if s[0] == x then Some(0)
    else
      match FindFirst(s[1..], x)
      case None => None
      case Some(i) =>
        assert s[..i + 1] == [s[0]] + s[1..][..i];
        Some(i + 1)
  }

  /** `lines()` removes a carriage return `cr` that stood just before the removed newline. */
  function StripCarriageReturn<T(==)>(line: seq<T>, cr: T): seq<T> {
    if line != [] && line[|line| - 1] == cr then line[..|line| - 1] else line
  }

  /**
    The cut `BufRead::lines` makes: each line ends at a newline `nl`,
    which is dropped together with a carriage return `cr` just before it;
    a final piece without a newline is a line too; nothing follows the
    last newline.
   */
  function SplitLines<T(==)>(s: seq<T>, nl: T, cr: T): (r: seq<seq<T>>)
    ensures forall i :: 0 <= i < |r| ==> nl !in r[i]
    decreases |s|
  {
    if s == [] then []
    else
      match FindFirst(s, nl)
      case Some(i) => [StripCarriageReturn(s[..i], cr)] + SplitLines(s[i + 1..], nl, cr)
      case None => [s]
  }

  /** `BufRead::lines` on the text of a stream that is read without error. */
  function Lines(s: string): (r: seq<string>)
    ensures forall i :: 0 <= i < |r| ==> '\n' !in r[i]
  {
    SplitLines(s, '\n', '\r')
  }

  /** The same cut on the bytes of the pipe: at each 0x0A, dropping a 0x0D just before it. */
  function ByteLines(bs: seq<byte>): (r: seq<seq<byte>>)
    ensures forall i :: 0 <= i < |r| ==> 10 !in r[i]
  {
    SplitLines(bs, 10, 13)
  }

  /** A record that framing carries unchanged: no newline in it, no carriage return at its end. */
  predicate IsFramable(r: string) {
    '\n' !in r && (r == [] || r[|r| - 1] != '\r')
  }

  lemma FramesOfFirst(records: seq<string>)
    requires records != []
    ensures Frames(records) == records[0] + ("\n" + Frames(records[1..]))
  {
  }

  /**
    Splitting the framed stream at its newlines gives back exactly the
    records, in order, when none of them contains a newline.
   */
  lemma {:induction false} LinesOfFrames(records: seq<string>)
    requires forall i :: 0 <= i < |records| ==> IsFramable(records[i])
    ensures Lines(Frames(records)) == records
  {
    if records != [] {
      FramesOfFirst(records);
      SplitLinesOfFrame(records[0], Frames(records[1..]), '\n', '\r');
      LinesOfFrames(records[1..]);
      assert [records[0]] + records[1..] == records;
    }
  }

  /** The first line of a stream that starts with a record and a newline is that record. */
  lemma SplitLinesOfFrame<T>(r: seq<T>, rest: seq<T>, nl: T, cr: T)
    requires nl !in r && (r == [] || r[|r| - 1] != cr)
    ensures SplitLines(r + ([nl] + rest), nl, cr) == [r] + SplitLines(rest, nl, cr)
  {
    var s := r + ([nl] + rest);
    FirstAfter(r, rest, nl);
    assert s[..|r|] == r;
    assert s[|r| + 1..] == rest;
  }

  lemma FirstAfter<T>(r: seq<T>, rest: seq<T>, nl: T)
    requires nl !in r
    ensures FindFirst(r + ([nl] + rest), nl) == Some(|r|)
  {
    var s := r + ([nl] + rest);
    assert s[|r|] == nl;
  }

  /** The bytes of a frame are the bytes of its record, then 0x0A. */
  lemma Utf8OfFrame(r: string, rest: string)
    ensures Utf8Encode(r + ("\n" + rest)) == Utf8Encode(r) + ([10] + Utf8Encode(rest))
  {
    Utf8EncodeAppend(r, "\n" + rest);
    Utf8EncodeCons('\n', rest);
  }

  /** The bytes the publisher hands to `write_all`: each record's UTF-8 bytes, then the byte 0x0A. */
  function WrittenBytes(records: seq<string>): seq<byte> {
    if records == [] then [] else Utf8Encode(records[0]) + [10] + WrittenBytes(records[1..])
  }

  /** Writing each record's bytes and a 0x0A after it puts the UTF-8 bytes of the framed text on the pipe. */
  lemma {:induction false} FramedTextBytes(records: seq<string>)
    ensures Utf8Encode(Frames(records)) == WrittenBytes(records)
  {
    if records != [] {
      FramesOfFirst(records);
      Utf8OfFrame(records[0], Frames(records[1..]));
      FramedTextBytes(records[1..]);
    }
  }

  /**
    The first byte line of the bytes of a framed record is the bytes of that
    record: bytes 0x0A and 0x0D occur in UTF-8 only as '\n' and '\r'.
   */
  lemma ByteLinesOfFrame(r: string, rest: string)
    requires IsFramable(r)
    ensures ByteLines(Utf8Encode(r + ("\n" + rest))) == [Utf8Encode(r)] + ByteLines(Utf8Encode(rest))
  {
    Utf8OfFrame(r, rest);
    Utf8AsciiByte(r, 10);
    if r != [] {
      Utf8LastByte(r, 13);
    }
    SplitLinesOfFrame(Utf8Encode(r), Utf8Encode(rest), 10, 13);
  }

  /**
    The pipe carries the UTF-8 bytes of the framed text. Cutting those bytes
    at 0x0A gives exactly the bytes of the records, in order.
   */
  lemma {:induction false} ByteLinesOfFrames(records: seq<string>)
    requires forall i :: 0 <= i < |records| ==> IsFramable(records[i])
    ensures ByteLines(Utf8Encode(Frames(records))) == MapSeq(Utf8Encode, records)
  {
    if records != [] {
      FramesOfFirst(records);
      ByteLinesOfFrame(records[0], Frames(records[1..]));
      ByteLinesOfFrames(records[1..]);
    }
  }
}
