/**
  The wire format of an envelope: one JSON object with the string fields
  `content`, `check_sum` and `created_at`, as `serde_json::to_string`
  writes the derived serialization (no whitespace, fields in declaration
  order), and the matching `serde_json::from_str` deserialization.
 */
module Json {
  import opened Wrappers
  import opened Encoding
  import opened Envelope

  // ---------------------------------------------------------------------
  // Serialization
  // ---------------------------------------------------------------------

  /** serde_json's string escaping: quote, backslash and control characters; nothing else. */
  function EscapeChar(c: char): string {
    if c == '"' then "\\\""
    else if c == '\\' then "\\\\"
    else if c == '\n' then "\\n"
    else if c == '\r' then "\\r"
    else if c == '\t' then "\\t"
    else if c as int == 0x08 then "\\b"
    else if c as int == 0x0C then "\\f"
    else if c as int < 0x20 then "\\u00" + [HexDigit(c as int / 16), HexDigit(c as int % 16)]
    else [c]
  }

  function Escape(s: string): string {
    if s == [] then [] else EscapeChar(s[0]) + Escape(s[1..])
  }

  /** A JSON string literal. */
  function Quote(s: string): string {
    "\"" + Escape(s) + "\""
  }

  /** One `"name":"value"` member of an object. */
  function Member(name: string, value: string): string {
    Quote(name) + ":" + Quote(value)
  }

  /** The member names: the field names of the Rust struct. */
  const ContentKey: string := "content"
  const CheckSumKey: string := "check_sum"
  const CreatedAtKey: string := "created_at"

  /** A JSON object of three string members, written without whitespace. */
  function Object3(k1: string, v1: string, k2: string, v2: string, k3: string, v3: string): string {
    "{" + (Member(k1, v1) + ("," + (Member(k2, v2) + ("," + (Member(k3, v3) + "}")))))
  }

  /** `serde_json::to_string(&message)`: the fields in declaration order. */
  function Serialize(m: Message): string {
    Object3(ContentKey, m.content, CheckSumKey, m.checkSum, CreatedAtKey, m.createdAt)
  }

  // ---------------------------------------------------------------------
  // Deserialization
  // ---------------------------------------------------------------------

  predicate IsJsonWhitespace(c: char) {
    c == ' ' || c == '\t' || c == '\n' || c == '\r'
  }

  function SkipWhitespace(s: string): (r: string)
    ensures |r| <= |s|
  {
    if s != [] && IsJsonWhitespace(s[0]) then SkipWhitespace(s[1..]) else s
  }

  /** The structural character `c`, after optional whitespace; gives what follows it. */
  function Expect(s: string, c: char): (r: Option<string>)
    ensures r.Some? ==> |r.value| < |s|
  {
    var t := SkipWhitespace(s);
    if t != [] && t[0] == c then Some(t[1..]) else None
  }

  /** A hex digit of either case, as a `\u` escape admits. */
  function HexDigitValue(c: char): Option<nat> {
    if '0' <= c <= '9' then Some(c as int - '0' as int)
    else if 'a' <= c <= 'f' then Some(c as int - 'a' as int + 10)
    else if 'A' <= c <= 'F' then Some(c as int - 'A' as int + 10)
    else None
  }

  /** The code unit of the four hex digits at the start of `s`. */
  function Hex4(s: string): Option<nat>
    requires |s| >= 4
  {
    var a :- HexDigitValue(s[0]);
    var b :- HexDigitValue(s[1]);
    var c :- HexDigitValue(s[2]);
    var d :- HexDigitValue(s[3]);
    Some(((a * 16 + b) * 16 + c) * 16 + d)
  }

  /**
    The escape sequence after a backslash at the start of `s`: the character
    it stands for and how many characters of `s` it occupies. A `\u` escape
    of a leading surrogate must be followed by one of a trailing surrogate.
   */
  function Unescape(s: string): (r: Option<(char, nat)>)
    ensures r.Some? ==> 1 <= r.value.1 <= |s|
  {
    if s == [] then None
    else if s[0] == '"' then Some(('"', 1))
    else if s[0] == '\\' then Some(('\\', 1))
    else if s[0] == '/' then Some(('/', 1))
    else if s[0] == 'b' then Some((8 as char, 1))
    else if s[0] == 'f' then Some((12 as char, 1))
    else if s[0] == 'n' then Some(('\n', 1))
    else if s[0] == 'r' then Some(('\r', 1))
    else if s[0] == 't' then Some(('\t', 1))
    else if s[0] == 'u' && |s| >= 5 then
      var n :- Hex4(s[1..5]);
      if n < 0xD800 || 0xE000 <= n then Some((n as char, 5))
      else if n < 0xDC00 && |s| >= 11 && s[5] == '\\' && s[6] == 'u' then
        var lo :- Hex4(s[7..11]);
        if 0xDC00 <= lo < 0xE000 then Some(((0x10000 + (n - 0xD800) * 0x400 + (lo - 0xDC00)) as char, 11))
        else None
      else None
    else None
  }

  /** The body of a string literal up to its closing quote: the decoded text and what follows. */
  function StringBody(s: string): (r: Option<(string, string)>)
    ensures r.Some? ==> |r.value.1| < |s|
    decreases |s|
  {
    if s == [] then None
    else if s[0] == '"' then Some(([], s[1..]))
    else if s[0] == '\\' then
      var (c, n) :- Unescape(s[1..]);
      var (t, rest) :- StringBody(s[1 + n..]);
      Some(([c] + t, rest))
    else if s[0] as int < 0x20 then None
    else
      var (t, rest) :- StringBody(s[1..]);
      Some(([s[0]] + t, rest))
  }

  /** A string literal after optional whitespace. */
  function StringToken(s: string): (r: Option<(string, string)>)
    ensures r.Some? ==> |r.value.1| < |s|
  {
    var t :- Expect(s, '"');
    StringBody(t)
  }

  /** A member named `name` with a string value; gives the value and what follows. */
  function ParseMember(s: string, name: string): (r: Option<(string, string)>)
    ensures r.Some? ==> |r.value.1| < |s|
  {
    var (key, afterKey) :- StringToken(s);
    if key != name then None
    else
      var afterColon :- Expect(afterKey, ':');
      StringToken(afterColon)
  }

  /** The separator `sep`, then a member named `name`. */
  function MemberAfter(s: string, sep: char, name: string): (r: Option<(string, string)>)
    ensures r.Some? ==> |r.value.1| < |s|
  {
    var afterSep :- Expect(s, sep);
    ParseMember(afterSep, name)
  }

  /**
    An object whose three members carry the names `k1`, `k2`, `k3` in this
    order and string values, then nothing but whitespace.
   */
  function ParseObject3(line: string, k1: string, k2: string, k3: string): Option<(string, string, string)> {
    var (v1, s1) :- MemberAfter(line, '{', k1);
    var (v2, s2) :- MemberAfter(s1, ',', k2);
    var (v3, s3) :- MemberAfter(s2, ',', k3);
    var s4 :- Expect(s3, '}');
    if SkipWhitespace(s4) == [] then Some((v1, v2, v3)) else None
  }

  /** `serde_json::from_str::<Message>`. */
  function Deserialize(line: string): (r: Option<Message>)
    ensures line == [] ==> r.None?
  {
    var (content, checkSum, createdAt) :- ParseObject3(line, ContentKey, CheckSumKey, CreatedAtKey);
    Some(Message(content, checkSum, createdAt))
  }

  // ---------------------------------------------------------------------
  // Round trip
  // ---------------------------------------------------------------------

  lemma UnescapeOfEscapeChar(c: char)
    requires |EscapeChar(c)| > 1
    ensures EscapeChar(c)[0] == '\\'
    ensures Unescape(EscapeChar(c)[1..]) == Some((c, |EscapeChar(c)| - 1))
  {
    var v := c as int;
    if v < 0x20 && c != '\n' && c != '\r' && c != '\t' && v != 0x08 && v != 0x0C {
      var e := EscapeChar(c);
      var hi, lo := v / 16, v % 16;
      assert e[1..] == ['u', '0', '0', HexDigit(hi), HexDigit(lo)];
      assert HexDigitValue(HexDigit(hi)) == Some(hi) && HexDigitValue(HexDigit(lo)) == Some(lo);
      assert Hex4(e[1..][1..5]) == Some(v);
    }
  }

  /** Decoding one escaped character, then the rest of the body. */
  lemma StringBodyStep(c: char, t: string)
    ensures StringBody(EscapeChar(c) + t) ==
      (match StringBody(t) case None => None case Some(p) => Some(([c] + p.0, p.1)))
  {
    if |EscapeChar(c)| == 1 {
      StringBodyPlain(c, t);
    } else {
      StringBodyEscaped(c, t);
    }
  }

  lemma StringBodyPlain(c: char, t: string)
    requires |EscapeChar(c)| == 1
    ensures StringBody(EscapeChar(c) + t) ==
      (match StringBody(t) case None => None case Some(p) => Some(([c] + p.0, p.1)))
  {
    assert EscapeChar(c) == [c];
    var s := [c] + t;
    assert s[0] == c && s[1..] == t;
  }

  lemma StringBodyEscaped(c: char, t: string)
    requires |EscapeChar(c)| > 1
    ensures StringBody(EscapeChar(c) + t) ==
      (match StringBody(t) case None => None case Some(p) => Some(([c] + p.0, p.1)))
  {
    var e := EscapeChar(c);
    var s := e + t;
    UnescapeOfEscapeChar(c);
    assert s[0] == '\\';
    assert s[1..] == e[1..] + t;
    UnescapePrefix(e[1..], t);
    assert s[1 + (|e| - 1)..] == t;
  }

  /** An escape sequence is decoded the same whatever follows it. */
  lemma UnescapePrefix(e: string, t: string)
    requires Unescape(e).Some? && Unescape(e).value.1 == |e|
    ensures Unescape(e + t) == Unescape(e)
  {
    var et := e + t;
    assert et[..|e|] == e;
    if |e| >= 5 {
      assert et[1..5] == e[1..5];
    }
    if |e| >= 11 {
      assert et[7..11] == e[7..11];
    }
  }

  lemma {:induction false} StringBodyOfEscape(x: string, rest: string)
    ensures StringBody(Escape(x) + ("\"" + rest)) == Some((x, rest))
  {
    if x == [] {
      assert Escape(x) + ("\"" + rest) == "\"" + rest;
    } else {
      var t := Escape(x[1..]) + ("\"" + rest);
      StringBodyOfEscape(x[1..], rest);
      EscapeFirst(x, "\"" + rest);
      StringBodyStep(x[0], t);
      assert [x[0]] + x[1..] == x;
    }
  }

  lemma EscapeFirst(x: string, t: string)
    requires x != []
    ensures Escape(x) + t == EscapeChar(x[0]) + (Escape(x[1..]) + t)
  {
  }

  lemma StringTokenOfQuote(x: string, rest: string)
    ensures StringToken(Quote(x) + rest) == Some((x, rest))
  {
    var q := Quote(x) + rest;
    assert q == "\"" + (Escape(x) + ("\"" + rest));
    assert SkipWhitespace(q) == q;
    StringBodyOfEscape(x, rest);
  }

  lemma ParseMemberOfMember(name: string, value: string, rest: string)
    ensures ParseMember(Member(name, value) + rest, name) == Some((value, rest))
  {
    var tail := Quote(value) + rest;
    var afterKey := [':'] + tail;
    assert Member(name, value) + rest == Quote(name) + afterKey;
    StringTokenOfQuote(name, afterKey);
    ExpectFirst(':', tail);
    StringTokenOfQuote(value, rest);
  }

  lemma ExpectFirst(c: char, rest: string)
    requires !IsJsonWhitespace(c)
    ensures Expect([c] + rest, c) == Some(rest)
  {
    assert ([c] + rest)[1..] == rest;
  }

  lemma {:induction false} ParseObject3OfObject3(k1: string, v1: string, k2: string, v2: string, k3: string, v3: string)
    ensures ParseObject3(Object3(k1, v1, k2, v2, k3, v3), k1, k2, k3) == Some((v1, v2, v3))
  {
    var s3 := "}";
    var s2 := "," + (Member(k3, v3) + s3);
    var s1 := "," + (Member(k2, v2) + s2);
    MemberAfterOf('{', k1, v1, s1);
    MemberAfterOf(',', k2, v2, s2);
    MemberAfterOf(',', k3, v3, s3);
    ExpectFirst('}', []);
    assert s3 == ['}'] + [];
  }

  /** Deserializing what the serializer wrote gives back the same message, field by field. */
  lemma DeserializeSerialize(m: Message)
    ensures Deserialize(Serialize(m)) == Some(m)
  {
    ParseObject3OfObject3(ContentKey, m.content, CheckSumKey, m.checkSum, CreatedAtKey, m.createdAt);
  }

  lemma MemberAfterOf(sep: char, name: string, value: string, rest: string)
    requires !IsJsonWhitespace(sep)
    ensures MemberAfter([sep] + (Member(name, value) + rest), sep, name) == Some((value, rest))
  {
    ExpectFirst(sep, Member(name, value) + rest);
    ParseMemberOfMember(name, value, rest);
  }

  /** Two messages with the same serialization are the same message. */
  lemma SerializeInjective(m: Message, n: Message)
    requires Serialize(m) == Serialize(n)
    ensures m == n
  {
    DeserializeSerialize(m);
    DeserializeSerialize(n);
  }

  // ---------------------------------------------------------------------
  // Framing safety
  // ---------------------------------------------------------------------

  /** No newline or carriage return character occurs in `s`. */
  predicate HasNoLineBreak(s: string) {
    '\n' !in s && '\r' !in s
  }

  lemma {:induction false} EscapeHasNoLineBreak(s: string)
    ensures HasNoLineBreak(Escape(s))
  {
    if s != [] {
      EscapeHasNoLineBreak(s[1..]);
    }
  }

  /**
    A serialized message never contains a raw line break, whatever its
    fields hold: the escaping removes them. This is what makes a newline a
    safe frame delimiter.
   */
  lemma SerializeHasNoLineBreak(m: Message)
    ensures HasNoLineBreak(Serialize(m))
    ensures |Serialize(m)| > 0 && Serialize(m)[|Serialize(m)| - 1] == '}'
  {
    EscapeHasNoLineBreak(ContentKey);
    EscapeHasNoLineBreak(CheckSumKey);
    EscapeHasNoLineBreak(CreatedAtKey);
    EscapeHasNoLineBreak(m.content);
    EscapeHasNoLineBreak(m.checkSum);
    EscapeHasNoLineBreak(m.createdAt);
    MemberHasNoLineBreak(ContentKey, m.content);
    MemberHasNoLineBreak(CheckSumKey, m.checkSum);
    MemberHasNoLineBreak(CreatedAtKey, m.createdAt);
    ObjectHasNoLineBreak(Member(ContentKey, m.content), Member(CheckSumKey, m.checkSum), Member(CreatedAtKey, m.createdAt));
    assert Serialize(m) == "{" + (Member(ContentKey, m.content) + ("," + (Member(CheckSumKey, m.checkSum) + ("," + (Member(CreatedAtKey, m.createdAt) + "}")))));
  }

  lemma MemberHasNoLineBreak(name: string, value: string)
    requires HasNoLineBreak(Escape(name)) && HasNoLineBreak(Escape(value))
    ensures HasNoLineBreak(Member(name, value))
  {
  }

  lemma ObjectHasNoLineBreak(a: string, b: string, c: string)
    requires HasNoLineBreak(a) && HasNoLineBreak(b) && HasNoLineBreak(c)
    ensures var o := "{" + (a + ("," + (b + ("," + (c + "}")))));
      HasNoLineBreak(o) && |o| > 0 && o[|o| - 1] == '}'
  {
  }

}
