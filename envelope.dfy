/**
  The message envelope: a content string, the lowercase hex MD5 digest of
  its UTF-8 bytes taken when the envelope was built, and an advisory
  creation timestamp. The digest algorithm itself is a parameter of every
  member (`md5`), so each property holds for whatever 128-bit hash is used.
 */
module Envelope {
  import opened Wrappers
  import opened Encoding

  /** A 128-bit digest: exactly sixteen bytes. */
  type Digest = d: seq<byte> | |d| == 16
    witness [0, 0, 0, 0, 0, 0, 0, 0, 0, 0, 0, 0, 0, 0, 0, 0]

  /** The hash the envelope uses, fed with a whole byte string at once. */
  type Hasher = seq<byte> -> Digest

  datatype Message = Message(content: string, checkSum: string, createdAt: string)

  /** The checksum string of a content: hex of the digest of its bytes. */
  function CheckSumOf(md5: Hasher, content: string): (r: string)
    ensures |r| == 32 && IsLowerHexString(r)
    ensures HexDecode(r) == Some(md5(Utf8Encode(content)))
  {
    var d := md5(Utf8Encode(content));
    HexEncodeShape(d);
    HexRoundTrip(d);
    HexEncode(d)
  }

  /** `Message::new`: the wall-clock reading `now` is an input of the model. */
  function New(md5: Hasher, content: string, now: string): (m: Message)
    ensures m.content == content && m.createdAt == now
    ensures |m.checkSum| == 32 && IsLowerHexString(m.checkSum)
    ensures HexDecode(m.checkSum) == Some(md5(Utf8Encode(content)))
  {
    Message(content, CheckSumOf(md5, content), now)
  }

  /** `Message::validate`: recompute the checksum of the content and compare. */
  predicate Validate(md5: Hasher, m: Message)
    ensures Validate(md5, m) ==> |m.checkSum| == 32 && IsLowerHexString(m.checkSum)
  {
    m.checkSum == CheckSumOf(md5, m.content)
  }

  /** A message is valid exactly when its checksum decodes to the digest of its content. */
  lemma ValidateMeansDigestMatches(md5: Hasher, m: Message)
    ensures Validate(md5, m) <==> HexDecode(m.checkSum) == Some(md5(Utf8Encode(m.content)))
  {
    if HexDecode(m.checkSum) == Some(md5(Utf8Encode(m.content))) {
      HexDecodeExact(m.checkSum, md5(Utf8Encode(m.content)));
    }
  }

  /** Every freshly built message validates. */
  lemma ValidateNew(md5: Hasher, content: string, now: string)
    ensures Validate(md5, New(md5, content, now))
  {
  }

  /** Replacing the checksum by any other string makes the message fail validation. */
  lemma TamperedCheckSumRejected(md5: Hasher, content: string, now: string, forged: string)
    requires forged != New(md5, content, now).checkSum
    ensures !Validate(md5, New(md5, content, now).(checkSum := forged))
  {
  }

  /** The concrete tampering of the unit test: "invalid" is never a valid checksum. */
  lemma InvalidLiteralRejected(md5: Hasher, content: string, now: string)
    ensures !Validate(md5, New(md5, content, now).(checkSum := "invalid"))
  {
    assert |"invalid"| == 7;
  }

  /**
    Changing the content after the checksum was taken is detected, unless the
    hash collides on the two byte strings.
   */
  lemma TamperedContentRejected(md5: Hasher, content: string, now: string, altered: string)
    requires md5(Utf8Encode(altered)) != md5(Utf8Encode(content))
    ensures !Validate(md5, New(md5, content, now).(content := altered))
  {
    var m := New(md5, content, now).(content := altered);
    if Validate(md5, m) {
      HexInjective(md5(Utf8Encode(altered)), md5(Utf8Encode(content)));
    }
  }

  /** The MD5 digest of the eleven bytes of "Hello World". */
  const HelloWorldDigest: Digest :=
    [0xb1, 0x0a, 0x8d, 0xb1, 0x64, 0xe0, 0x75, 0x41, 0x05, 0xb7, 0xa9, 0x9b, 0xe7, 0x2e, 0x3f, 0xe5]

  /**
    The unit-test scenario: given that the hash maps the bytes of "Hello World"
    to its MD5 digest, the envelope keeps the content and carries the
    expected 32-character checksum.
   */
  lemma HelloWorldCheckSum(md5: Hasher, now: string)
    requires md5([72, 101, 108, 108, 111, 32, 87, 111, 114, 108, 100]) == HelloWorldDigest
    ensures New(md5, "Hello World", now).content == "Hello World"
    ensures New(md5, "Hello World", now).checkSum == "b10a8db164e0754105b7a99be72e3fe5"
  {
    HelloWorldBytes("Hello World");
    HelloWorldHex();
  }

  lemma HelloWorldBytes(s: string)
    requires s == "Hello World"
    ensures Utf8Encode(s) == [72, 101, 108, 108, 111, 32, 87, 111, 114, 108, 100]
  {
    Utf8EncodeAscii(s);
  }

  lemma HelloWorldHex()
    ensures HexEncode(HelloWorldDigest) == "b10a8db164e0754105b7a99be72e3fe5"
  {
    HexOfSplitDigest();
    HelloWorldDigestSplit();
    HelloWorldCheckSumSplit();
  }

  // The digest and its hex text are each cut into four parts of four bytes
  // (eight hex characters), so that each part is evaluated on its own.

  /** The reference digest is the concatenation of its four 4-byte parts. */
  lemma HelloWorldDigestSplit()
    ensures [0xb1, 0x0a, 0x8d, 0xb1] + [0x64, 0xe0, 0x75, 0x41] + [0x05, 0xb7, 0xa9, 0x9b] + [0xe7, 0x2e, 0x3f, 0xe5]
         == HelloWorldDigest
  {
  }

  /** The reference checksum is the concatenation of its four 8-character parts. */
  lemma HelloWorldCheckSumSplit()
    ensures "b10a8db1" + "64e07541" + "05b7a99b" + "e72e3fe5" == "b10a8db164e0754105b7a99be72e3fe5"
  {
  }

  /** The hex text of the split digest is the split checksum. */
  lemma HexOfSplitDigest()
    ensures HexEncode([0xb1, 0x0a, 0x8d, 0xb1] + [0x64, 0xe0, 0x75, 0x41] + [0x05, 0xb7, 0xa9, 0x9b] + [0xe7, 0x2e, 0x3f, 0xe5])
         == "b10a8db1" + "64e07541" + "05b7a99b" + "e72e3fe5"
  {
    HexOfDigestFirstHalf();
    HexOfDigestSecondHalf();
    HexEncodeOfFourParts([0xb1, 0x0a, 0x8d, 0xb1], [0x64, 0xe0, 0x75, 0x41], [0x05, 0xb7, 0xa9, 0x9b], [0xe7, 0x2e, 0x3f, 0xe5],
                         "b10a8db1", "64e07541", "05b7a99b", "e72e3fe5");
  }

  /** Hex-encoding four concatenated byte strings concatenates their hex texts. */
  lemma HexEncodeOfFourParts(a: seq<byte>, b: seq<byte>, c: seq<byte>, d: seq<byte>,
                             ha: string, hb: string, hc: string, hd: string)
    requires HexEncode(a) == ha && HexEncode(b) == hb && HexEncode(c) == hc && HexEncode(d) == hd
    ensures HexEncode(a + b + c + d) == ha + hb + hc + hd
  {
    HexEncodeAppend(a + b + c, d);
    HexEncodeAppend(a + b, c);
    HexEncodeAppend(a, b);
  }

  /** The hex text of bytes 0 to 7 of the reference digest, four bytes at a time. */
  lemma HexOfDigestFirstHalf()
    ensures HexEncode([0xb1, 0x0a, 0x8d, 0xb1]) == "b10a8db1"
    ensures HexEncode([0x64, 0xe0, 0x75, 0x41]) == "64e07541"
  {
  }

  /** The hex text of bytes 8 to 15 of the reference digest, four bytes at a time. */
  lemma HexOfDigestSecondHalf()
    ensures HexEncode([0x05, 0xb7, 0xa9, 0x9b]) == "05b7a99b"
    ensures HexEncode([0xe7, 0x2e, 0x3f, 0xe5]) == "e72e3fe5"
  {
  }
}
