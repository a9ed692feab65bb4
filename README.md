# pub-sub-learning, modelled in Dafny

pub-sub-learning is a small Rust program made of two processes that talk
over a named pipe. The publisher builds 1000 message envelopes. Each
envelope holds a content string, the lowercase hex MD5 digest of that
content's UTF-8 bytes (`check_sum`), and a creation timestamp. The
publisher writes each envelope to the pipe as one compact JSON object
followed by a newline. The subscriber waits in a poll-and-sleep loop until
the pipe holds data. It then reads the pipe line by line. Empty lines are
skipped. Each other line is parsed, its checksum recomputed, and the
envelope written back out as JSON to an output file when the checksum
matches and dropped when it does not.

The model follows the program's own units:

- `Envelope` covers `Message::new` and `Message::validate`. The MD5 function is a
  parameter (`md5: Hasher`), so every property holds for any 16-byte hash.
- `Encoding` gives the UTF-8 byte view of a string and lowercase base16
  (section 8 of RFC 4648). Each comes with a decoder and round trips. The
  UTF-8 decoder is as strict as Rust's string check: it refuses overlong
  forms, surrogates and code points above U+10FFFF, so a byte string that
  decodes is exactly the encoding of its result.
- `Json` is the wire format: the serializer with serde_json's escaping rules and
  field order, and a deserializer for that form (JSON whitespace, every string
  escape including surrogate pairs). It proves the round trip and that a
  serialized envelope never contains a raw line break.
- `Framing` is the newline framing, and `BufRead::lines` with its
  carriage-return stripping and its handling of a final unterminated line.
  The same splitting is given over characters (`Lines`) and over the bytes
  on the pipe (`ByteLines`, which cuts at 0x0A); the byte-level reading of
  the published stream is proved equal to the text-level one.
- `Publisher` is the send loop of `run_pub`, an imperative loop proved
  against a function of its inputs.
- `Subscriber` holds the readiness loop and the forwarding loop of `run_sub`,
  both imperative and proved against functions of the read trace. The
  forwarding loop is stated over a `Codec`: a decoder, a validity test and an
  encoder. `Pipeline(md5)` is the codec the program uses.
- `Delivery` puts the two processes together: what the subscriber makes of the
  bytes the publisher writes.

The program's own inputs become parameters:
- the MD5 function;
- the random contents and the clock readings of the publisher;
- the outcomes of the subscriber's polls and line reads, given as traces.

The output file is modelled as the list of records written to it, in
order. The file's contents are their concatenation, with no separator.

## Model

| member | source | states |
|---|---|---|
| Envelope.CheckSumOf | src/main.rs:23-27 | the checksum of a content is 32 lowercase hex characters that decode back to the MD5 digest of the content's UTF-8 bytes |
| Envelope.New | src/main.rs:22-29 | a new envelope keeps its content and the given timestamp, and its checksum is the 32-character lowercase hex of the MD5 digest of the content bytes |
| Envelope.Validate | src/main.rs:32-38 | validation recomputes the lowercase hex MD5 digest of the content's UTF-8 bytes and holds exactly when the stored checksum equals it; so a valid envelope's checksum is 32 lowercase hex characters |
| Envelope.ValidateMeansDigestMatches | src/main.rs:32-38 | validate holds exactly when the stored checksum hex-decodes to the MD5 digest of the content bytes (both directions) |
| Envelope.ValidateNew | src/main.rs:22-38 | every freshly built envelope validates |
| Envelope.TamperedCheckSumRejected | src/main.rs:37 | an envelope whose checksum is replaced by any other string fails validation |
| Envelope.InvalidLiteralRejected | src/main.rs:202-206 | setting the checksum of a new envelope to "invalid" makes validation fail |
| Envelope.TamperedContentRejected | src/main.rs:32-38 | changing the content to one with a different digest, while keeping the checksum, makes validation fail |
| Envelope.HelloWorldCheckSum | src/main.rs:193-197 | for an MD5 that maps the bytes of "Hello World" to the reference digest, the new envelope keeps "Hello World" and has checksum b10a8db164e0754105b7a99be72e3fe5 |
| Encoding.Utf8Encode | src/main.rs:24 | `as_bytes`: the UTF-8 bytes of a string, one to four per character, so between n and 4n bytes for n characters; `Utf8Decode` is its inverse (`Utf8RoundTrip`) |
| Encoding.Utf8RoundTrip | src/main.rs:24 | decoding the UTF-8 bytes of any string gives that string back |
| Encoding.Utf8Injective | src/main.rs:34 | different strings have different UTF-8 bytes, so the digest is taken over an exact image of the content |
| Encoding.Utf8EncodeAppend | src/main.rs:92-101 | the UTF-8 bytes of a concatenation are the bytes of the first part followed by those of the second, so writing a record and then a newline writes the bytes of their concatenation |
| Encoding.Utf8DecodeExact | src/main.rs:151 | a byte string that passes the UTF-8 check is exactly the UTF-8 bytes of the string it decodes to |
| Encoding.Utf8AsciiByte | src/main.rs:151 | an ASCII byte, such as 0x0A or 0x0D, occurs in the UTF-8 bytes of a string exactly when its character occurs in the string |
| Encoding.Utf8LastByte | src/main.rs:151 | the UTF-8 bytes of a non-empty string end in an ASCII byte exactly when the string ends in that character |
| Encoding.Utf8EncodeAscii | src/main.rs:195 | a string of ASCII characters, such as "Hello World", encodes to one byte per character, equal to its code |
| Encoding.HexEncode | src/main.rs:27 | `hex::encode`: each byte becomes two lowercase hex digits, high nibble first, in byte order; its shape is proved in `HexEncodeShape` and its inverse `HexDecode` in `HexRoundTrip` |
| Encoding.HexEncodeShape | src/main.rs:27 | the hex text of n bytes has 2n characters, all lowercase hex digits |
| Encoding.HexRoundTrip | src/main.rs:27 | decoding the hex text of any byte string gives the bytes back |
| Encoding.HexDecodeExact | src/main.rs:35-37 | a string that decodes to some bytes is exactly the hex text of those bytes |
| Encoding.HexInjective | src/main.rs:35-37 | different digests give different hex texts |
| Json.Serialize | src/main.rs:94 | `serde_json::to_string`: one compact object with the members `content`, `check_sum`, `created_at` in that order, each value a JSON string with serde_json's escapes; `Deserialize` is its inverse (`DeserializeSerialize`) |
| Json.Deserialize | src/main.rs:162 | `serde_json::from_str`: accepts an object of the three string members in declaration order, with any JSON whitespace and every string escape, and fails otherwise; an empty line is never an envelope |
| Json.DeserializeSerialize | src/main.rs:210-216 | deserializing the serialization of any envelope gives back the same content, checksum and timestamp |
| Json.SerializeInjective | src/main.rs:168-170 | different envelopes have different serializations |
| Json.SerializeHasNoLineBreak | src/main.rs:92-101 | a serialized envelope is non-empty, ends in '}' and contains neither '\n' nor '\r', so it is one frame |
| Framing.FramesAppend | src/main.rs:92-101 | writing one more record and a newline extends the stream by exactly that record and one '\n' |
| Framing.Lines | src/main.rs:151 | `reader.lines()` stated on the text: the stream is cut at each newline, a carriage return before it is removed, a final piece without a newline is a line too; no line contains a newline |
| Framing.LinesOfFrames | src/main.rs:151 | reading newline-framed records with `lines` gives back exactly those records, in order, when none contains a newline or ends in '\r'; nothing follows the final newline |
| Framing.ByteLines | src/main.rs:151 | `reader.lines()` on the pipe's bytes: they are cut at each byte 0x0A, a 0x0D before it is removed, a final piece without 0x0A is a piece too; no piece contains 0x0A |
| Framing.FramedTextBytes | src/main.rs:92-101 | the bytes the publisher writes, each record's UTF-8 bytes followed by one 0x0A, are the UTF-8 bytes of the framed text |
| Framing.ByteLinesOfFrames | src/main.rs:151 | cutting the UTF-8 bytes of framed records at 0x0A gives back the bytes of each record, in order, when none contains a newline or ends in '\r' |
| Publisher.Publish | src/main.rs:81-109 | the loop runs 1000 times, its i32 counter goes from 0 to 1000, and the stream it writes is the frames of the serialized envelopes of the contents and clock readings, each followed by one '\n'; `FramedTextBytes` shows that the bytes these writes put on the pipe are the UTF-8 bytes of that text |
| Publisher.PublishedStreamDeframes | src/main.rs:92-101 | reading the published stream line by line gives exactly the serialized envelopes, each of which deserializes to its envelope |
| Publisher.RecordsAreFramable | src/main.rs:92-101 | no published record contains a newline or ends in '\r' |
| Subscriber.ReadPiece | src/main.rs:151-153 | a piece cut from the bytes is read as a line exactly when it passes the UTF-8 check, and the line's bytes are then the piece; otherwise the read fails, as `lines()` does with InvalidData |
| Subscriber.ReadPiecesOfText | src/main.rs:151-153 | reading the UTF-8 bytes of strings piece by piece gives back each string as a line, and no read fails |
| Subscriber.AwaitReadable | src/main.rs:129-147 | the wait ends at the first non-empty buffer (Ready) or the first hard error (PollFailed); every earlier poll was an empty buffer or WouldBlock and was followed by one 300 ms sleep; it keeps waiting exactly when every poll so far was empty or WouldBlock |
| Subscriber.StopIndex | src/main.rs:151-186 | the loop stops at the first hard read error or the first non-empty line that does not deserialize; every read before it lets the loop go on |
| Subscriber.ForwardValid | src/main.rs:151-186 | the sink receives, in order, the re-serialization of each valid envelope read before the stop; empty and invalid lines write nothing; the count rises once per line delivered, empty lines included, and also for the line that panics; every WouldBlock costs one 300 ms sleep; the loop ends at end of stream, on a hard error, or on a parse panic |
| Subscriber.RunSubscriber | src/main.rs:129-186 | the wait ends Ready at the first non-empty buffer and PollFailed at the first hard error, after as many 300 ms sleeps as there were leading empty or WouldBlock polls; only then are the lines read, with the outcome of the forwarding loop, whose WouldBlock sleeps are added; a failed poll ends the wait without exiting, so the lines are still read; while the pipe stays empty nothing is read or written |
| Subscriber.Waited | src/main.rs:129-147 | the number of leading polls that found the pipe empty or would block: all polls before it are such, and the poll at it is not |
| Subscriber.AcceptedAreValid | src/main.rs:164-175 | every forwarded envelope is valid and is the decoding of a line that was read |
| Subscriber.SinkRecordsRevalidate | src/main.rs:164-175 | every record written to the output file deserializes to its envelope, which validates again |
| Subscriber.InvalidLineDropped | src/main.rs:164-178 | a line that decodes to an invalid envelope neither stops the loop nor writes anything |
| Subscriber.TamperedFrameDropped | src/main.rs:164-178 | a frame whose checksum was replaced by a wrong one is read and dropped; it neither stops the subscriber nor reaches the output file |
| Subscriber.ForwardsAll | src/main.rs:151-175 | when every line is non-empty and decodes to a valid envelope, no line stops the loop, every line is counted, and the envelopes are forwarded in order |
| Subscriber.ForwardsAllValid | src/main.rs:151-175 | a stream of serialized valid envelopes is read to its end, every line is counted, no sleep is taken, and every envelope is forwarded in order |
| Delivery.PublishedStreamForwarded | src/main.rs:92-175 | the subscriber reads a published stream to its end, counts every frame and writes exactly the records the publisher sent, in order |
| Delivery.ReceivedFramedBytes | src/main.rs:92-153 | `reader.lines()` over the bytes of framed records reads what it reads from the text: exactly the records, in order, none failing the UTF-8 check |
| Delivery.FramedBytesRead | src/main.rs:92-153 | the trace read from the bytes of framed records is one line per record, in order |
| Delivery.EnvelopesValid | src/main.rs:22-38 | every envelope the publisher builds passes the subscriber's check |
| Delivery.ValidRecordsForwarded | src/main.rs:151-175 | a trace of serialized valid envelopes is read to its end with no retry, every line is counted, and the records written are exactly the ones read |
| Delivery.SubscribeToRecords | src/main.rs:129-186 | a whole subscriber run on the lines of valid records: the wait ends Ready or PollFailed after one sleep per leading empty poll, then every record is written unchanged, all are counted and the stream is read to its end |
| Delivery.SubscribeToBytes | src/main.rs:129-186 | the same whole subscriber run, on the bytes of the framed valid envelopes as they lie in the pipe |
| Delivery.PublishThenSubscribe | src/main.rs:81-186 | one publisher run followed by a whole subscriber run, readiness loop included, on the bytes the publisher wrote: whichever way the wait ends, after one sleep per leading empty poll, the output file gets the 1000 published records, the count is 1000, the loop ends at end of stream, and each record carries its original content |
| Delivery.RecordsCarryContents | src/main.rs:86-95 | each published record deserializes to an envelope holding the content it was made from |
| Delivery.HelloWorldDelivered | src/main.rs:193-197 | the "Hello World" envelope passes through the pipe as one frame and is written to the output file unchanged, with checksum b10a8db164e0754105b7a99be72e3fe5 |

## Left out

- `main` and its argument handling are not modelled. Note that `args[1]` is read even when the argument count is wrong, so running with no argument panics.
- `setup_input_and_outputs` is not modelled: `mkfifo` and `File::create` are file-system effects. The model keeps only their effect: the output file starts empty.
- The opening of the pipe and the output file, the 50 KiB buffer capacity, and all `println!`/`eprintln!` logging are left out. The subscriber's sleeps appear only as a list of 300 ms durations.
- The pipe is opened for reading with plain `OpenOptions` and no non-blocking flag. The model still keeps the WouldBlock branches, because the poll and read outcomes are inputs.
- A hard error in the readiness loop is only logged. The loop breaks and the line loop still runs; the model does the same.
- The MD5 algorithm is a parameter. Only one of its values is fixed, and only where needed: the reference digest of "Hello World".
- `rand` and `chrono` are inputs: the publisher's contents and clock readings are given. The contents' alphanumeric alphabet and 5000–9999 length are not required.
- Subscriber.AwaitReadable: the source waits forever while the pipe stays empty. The model stops when the poll trace runs out and reports `StillWaiting`.
- Subscriber: the bytes the readiness loop sees are not tied to the lines the forwarding loop then reads. The two are separate traces.
- Json.Deserialize: serde_json's derived deserializer also accepts the fields in any order, ignores unknown fields, and accepts the array form. The model accepts only the three fields in declaration order, with any JSON whitespace. A line using one of those other forms makes the model stop with a parse panic. The published stream never contains such lines.
- Subscriber.ForwardValid: the subscriber's `count` is an `i32`. The model counts with an unbounded `nat`, so overflow after 2^31 − 1 lines is not modelled (the count is only logged).
- Subscriber.ForwardValid: the error paths of `write_all` and of `serde_json::to_string` (both `expect`) are left out. Writes to the output file and to the pipe always succeed.
- `Message::validate` takes `&mut self` but changes nothing. The model states it as a predicate, so "validation changes no field" holds by construction.
- `check_sum` is always a string. There is no unset-checksum state.
- The JSON key of the checksum is the field name `check_sum`.
- Concurrency and timing between the two processes are left out. The subscriber reads the complete bytes the publisher wrote, and only after the publisher has finished.
- `tests/` and `benches/` are not part of this model.
