// Escaping and framing of replies, and the client at the other end of the wire.
module GdbPackets {
  import opened Bytes
  import opened GdbCodec
  import opened Wrappers

  // ---- Escaping ----

  predicate NeedsEscape(c: Byte) {
    c == HASH || c == DOLLAR || c == BRACE || c == STAR
  }

  /** c xor 0x20 */
  function Toggle(c: Byte): Byte {
    if c / 0x20 % 2 == 1 then c - 0x20 else c + 0x20
  }

  function EscapeByte(c: Byte): Text {
    if NeedsEscape(c) then [BRACE, Toggle(c)] else [c]
  }

  function Escaped(d: seq<Byte>): (s: Text)
    ensures |d| <= |s|
  {
    if d == [] then [] else EscapeByte(d[0]) + Escaped(d[1..])
  }

  /** The four bytes that are escaped, and what stands for them: the brace and the byte xor 0x20. */
  lemma EscapeTable(c: Byte)
    ensures EscapeByte(0x23) == [0x7d, 0x03] && EscapeByte(0x24) == [0x7d, 0x04]
    ensures EscapeByte(0x7d) == [0x7d, 0x5d] && EscapeByte(0x2a) == [0x7d, 0x0a]
    ensures c !in {0x23, 0x24, 0x7d, 0x2a} ==> EscapeByte(c) == [c]
  {
  }

  /** Both sides toggle bit five. */
  lemma ToggleIsXor(b: bv8)
    ensures Toggle(b as int) == (b ^ 0x20) as int
  {
    BitFive(b);
    if (b & 0x20) != 0 {
      assert b ^ 0x20 == b - 0x20 && b >= 0x20;
    } else {
      assert b ^ 0x20 == b + 0x20 && b <= 0xdf;
    }
  }

  lemma BitFive(b: bv8)
    ensures (b & 0x20) != 0 <==> b as int / 0x20 % 2 == 1
  {
    assert ((b >> 5) & 1) as int == ((b >> 5) as int) % 2;
  }

  lemma {:induction false} EscapedAppend(d: seq<Byte>, c: Byte)
    ensures Escaped(d + [c]) == Escaped(d) + EscapeByte(c)
  {
    hide EscapeByte;
    if d == [] {
      assert [c][1..] == [];
    } else {
      EscapedAppend(d[1..], c);
      assert (d + [c])[1..] == d[1..] + [c];
      var head, tail := EscapeByte(d[0]), Escaped(d[1..]);
      assert head + (tail + EscapeByte(c)) == (head + tail) + EscapeByte(c);
    }
  }

  method Escape(d: seq<Byte>) returns (response: Text)
    ensures response == Escaped(d)
  {
    response := [];
    for i := 0 to |d|
      invariant response == Escaped(d[..i])
    {
      var c := d[i];
      EscapedAppend(d[..i], c);
      assert d[..i + 1] == d[..i] + [c];
      if c == 0x23 || c == 0x24 || c == 0x7d || c == 0x2a {
        response := response + [BRACE];
        response := response + [Toggle(c)];
      } else {
        response := response + [c];
      }
    }
    assert d[..|d|] == d;
  }

  /** The client's side: a brace announces a toggled byte; one at the very end is dropped. */
  function Unescape(s: Text): (d: seq<Byte>)
    ensures |d| <= |s|
  {
    if s == [] then []
    else if s[0] != BRACE then [s[0]] + Unescape(s[1..])
    else if |s| == 1 then []
    else [Toggle(s[1])] + Unescape(s[2..])
  }

  /** The four special bytes never appear plainly in escaped text, and the client gets the bytes back. */
  lemma {:induction false} EscapeRoundTrip(d: seq<Byte>)
    ensures Unescape(Escaped(d)) == d
    ensures HASH !in Escaped(d) && DOLLAR !in Escaped(d) && STAR !in Escaped(d)
  {
    if d != [] {
      EscapeRoundTrip(d[1..]);
      var s, head := Escaped(d), EscapeByte(d[0]);
      assert s[|head|..] == Escaped(d[1..]);
      assert NeedsEscape(d[0]) ==> Toggle(Toggle(d[0])) == d[0];
    }
  }

  /** Text passes the client's unescaping unchanged exactly when it has no brace. */
  lemma {:induction false} UnescapeExact(s: Text)
    ensures Unescape(s) == s <==> BRACE !in s
  {
    if s != [] && s[0] != BRACE {
      UnescapeExact(s[1..]);
      assert s == [s[0]] + s[1..];
    }
  }

  /** Every proper prefix of an escaped text yields fewer bytes. */
  lemma {:induction false} PrefixYieldsLess(d: seq<Byte>, m: nat)
    requires m < |Escaped(d)|
    ensures |Unescape(Escaped(d)[..m])| < |d|
  {
    var s, head := Escaped(d), EscapeByte(d[0]);
    if m >= |head| {
      PrefixYieldsLess(d[1..], m - |head|);
      assert s[..m][|head|..] == Escaped(d[1..])[..m - |head|];
    } else if m == 1 {
      assert s[..m] == [BRACE];
    }
  }

  // ---- Packets ----

  function Sum(s: Text): nat {
    if s == [] then 0 else Sum(s[..|s| - 1]) + s[|s| - 1]
  }

  /** The checksum of a text is made of its bytes: that of one byte is the byte, and those of two parts add up. */
  lemma {:induction false} ChecksumAdds(a: Text, b: Text, c: Byte)
    ensures Sum([c]) % 256 == c
    ensures Sum(a + b) % 256 == (Sum(a) % 256 + Sum(b) % 256) % 256
  {
    assert [c][..0] == [];
    SumOfParts(a, b);
    ModAdd(Sum(a), Sum(b));
    ModAdd(Sum(b), Sum(a) % 256);
  }

  lemma {:induction false} SumOfParts(a: Text, b: Text)
    ensures Sum(a + b) == Sum(a) + Sum(b)
  {
    if b == [] {
      assert a + b == a;
    } else {
      var n := |b| - 1;
      assert (a + b)[..|a + b| - 1] == a + b[..n];
      SumOfParts(a, b[..n]);
    }
  }

  /** The text of a string of ASCII characters. */
  function Ascii(s: string): Text
    requires forall k :: 0 <= k < |s| ==> s[k] < 128 as char
  {
    seq(|s|, k requires 0 <= k < |s| => s[k] as int)
  }

  /** The punctuation of the protocol. */
  lemma Punctuation()
    ensures HASH as char == '#' && DOLLAR as char == '$' && STAR as char == '*' && PLUS as char == '+' && MINUS as char == '-'
    ensures SEMICOLON as char == ';' && BRACE as char == '}' && ZERO as char == '0'
    ensures LETTER_L as char == 'l' && LETTER_M as char == 'm' && LETTER_F as char == 'F'
  {
  }

  /** Two replies as they go over the wire: "+$OK#9a" and "$l#6c". */
  lemma SomePackets()
    ensures Packet(Ascii("OK"), true) == Ascii("+$OK#9a")
    ensures Packet(Ascii("l"), false) == Ascii("$l#6c")
  {
    var ok, l := Ascii("OK"), Ascii("l");
    assert ok == [0x4f, 0x4b] && l == [0x6c];
    assert [0x4f, 0x4b][..1] == [0x4f] && [0x4f][..0] == [] && [0x6c][..0] == [];
    assert Sum([0x4f, 0x4b]) == 0x9a && Sum([0x6c]) == 0x6c;
    assert [0x9a][1..] == [] && [0x6c][1..] == [];
    assert HexOf([0x9a]) == [0x39, 0x61] && HexOf([0x6c]) == [0x36, 0x63];
  }

  /** The byte sum, modulo 256. */
  method Checksum(message: Text) returns (checksum: Byte)
    ensures checksum == Sum(message) % 256
  {
    checksum := 0;
    for i := 0 to |message|
      invariant checksum == Sum(message[..i]) % 256
    {
      assert message[..i + 1][..i] == message[..i];
      ModAdd(Sum(message[..i]), message[i]);
      checksum := (checksum + message[i]) % 256;
    }
    assert message[..|message|] == message;
  }

  function Packet(payload: Text, ack: bool): (packet: Text)
    ensures packet != []
    ensures packet[0] == if ack then PLUS else DOLLAR
  {
    (if ack then [PLUS] else []) + [DOLLAR] + payload + [HASH] + HexOf([Sum(payload) % 256])
  }

  method CreateResponse(response: Text, ack: bool) returns (result: Text)
    ensures result == Packet(response, ack)
  {
    result := [];
    if ack {
      result := result + [PLUS];
    }
    var sum := Checksum(response);
    var digits := Encode([sum]);
    result := result + ([DOLLAR] + response + [HASH] + digits);
  }

  function FirstHash(s: Text): (i: nat)
    ensures i <= |s|
    ensures forall k :: 0 <= k < i ==> s[k] != HASH
    ensures i < |s| ==> s[i] == HASH
  {
    if s == [] || s[0] == HASH then 0 else 1 + FirstHash(s[1..])
  }

  /** The client: skip the acknowledgement, cut at the first '#', verify the two checksum digits. */
  function Receive(packet: Text): Option<Text> {
    var p := if packet != [] && packet[0] == PLUS then packet[1..] else packet;
    if p == [] || p[0] != DOLLAR then None
    else
      var body := p[1..];
      var i := FirstHash(body);
      if |body| != i + 3 || body[i + 1..] != HexOf([Sum(body[..i]) % 256]) then None else Some(body[..i])
  }

  lemma FirstHashOf(payload: Text, tail: Text)
    requires HASH !in payload
    ensures FirstHash(payload + [HASH] + tail) == |payload|
  {
    var s := payload + [HASH] + tail;
    assert s[|payload|] == HASH;
    assert forall k :: 0 <= k < |payload| ==> s[k] == payload[k];
  }

  /** A reply reaches the client as it was sent exactly when its payload has no '#'. */
  lemma FramingExact(payload: Text, ack: bool)
    ensures Receive(Packet(payload, ack)) == Some(payload) <==> HASH !in payload
  {
    var digits := HexOf([Sum(payload) % 256]);
    var body := payload + [HASH] + digits;
    var packet := Packet(payload, ack);
    assert (if packet[0] == PLUS then packet[1..] else packet) == [DOLLAR] + body;
    assert ([DOLLAR] + body)[1..] == body;
    if HASH !in payload {
      FirstHashOf(payload, digits);
      assert body[..|payload|] == payload && body[|payload| + 1..] == digits;
    } else {
      var i := FirstHash(body);
      assert HASH !in body[..i];
    }
  }

  /** What the client makes of a payload after unescaping it. */
  function Delivered(payload: Text, ack: bool): Option<seq<Byte>> {
    match Receive(Packet(payload, ack))
    case None => None
    case Some(text) => Some(Unescape(text))
  }

  /** Escaped data always arrives. */
  lemma EscapedDataArrives(d: seq<Byte>, ack: bool)
    ensures Delivered(Escaped(d), ack) == Some(d)
  {
    EscapeRoundTrip(d);
    FramingExact(Escaped(d), ack);
  }

  /** Data sent without escaping arrives exactly when it contains neither '#' nor '}'. */
  lemma PlainDataExact(d: seq<Byte>, ack: bool)
    ensures Delivered(d, ack) == Some(d) <==> HASH !in d && BRACE !in d
  {
    FramingExact(d, ack);
    UnescapeExact(d);
    if HASH in d {
      ReceivedIsShorter(d, ack);
    }
  }

  lemma ReceivedIsShorter(payload: Text, ack: bool)
    requires HASH in payload
    ensures Receive(Packet(payload, ack)).Some? ==> |Receive(Packet(payload, ack)).value| < |payload|
  {
    var digits := HexOf([Sum(payload) % 256]);
    var body := payload + [HASH] + digits;
    var packet := Packet(payload, ack);
    assert (if packet[0] == PLUS then packet[1..] else packet) == [DOLLAR] + body;
    assert ([DOLLAR] + body)[1..] == body;
    var k :| 0 <= k < |payload| && payload[k] == HASH;
    assert body[k] == HASH;
  }

  // ---- vFile:pread ----

  const LETTER_F: Byte := 0x46

  /** The reply to a read of `count` bytes that returned buf: its size in hex, then the escaped bytes. */
  method PreadReply(buf: seq<Byte>, ack: bool) returns (reply: Text)
    requires |buf| <= 0x7FFF_FFFF
    ensures reply == Packet([LETTER_F] + EncodeInt(|buf|, 4) + [SEMICOLON] + Escaped(buf), ack)
  {
    var response := [LETTER_F];
    response := response + EncodeInt(|buf|, 4);
    var data := Escape(buf);
    response := response + ([SEMICOLON] + data);
    assert response == [LETTER_F] + EncodeInt(|buf|, 4) + [SEMICOLON] + Escaped(buf);
    reply := CreateResponse(response, ack);
  }

  function FirstSemicolon(s: Text): (i: nat)
    ensures i <= |s|
    ensures forall k :: 0 <= k < i ==> s[k] != SEMICOLON
    ensures i < |s| ==> s[i] == SEMICOLON
  {
    if s == [] || s[0] == SEMICOLON then 0 else 1 + FirstSemicolon(s[1..])
  }

  datatype Read = Read(count: nat, data: seq<Byte>)

  /** The client: F, a hex count, a semicolon, and the rest unescaped. */
  function ReadOf(payload: Text): Option<Read> {
    if payload == [] || payload[0] != LETTER_F then None
    else
      var rest := payload[1..];
      var i := FirstSemicolon(rest);
      if i == |rest| || i == 0 || !AllLowerHex(rest[..i]) then None
      else Some(Read(HexValue(rest[..i]), Unescape(rest[i + 1..])))
  }

  lemma EncodeIntIsHex(n: nat)
    requires n < Bound(4)
    ensures AllLowerHex(EncodeInt(n, 4)) && EncodeInt(n, 4) != [] && HexValue(EncodeInt(n, 4)) == n
  {
    ReversedLE(n, 4);
    BigEndianValue(n, 4);
    TrimKeepsValue(HexOf(ToBE(n, 4)));
  }

  /** The client's parser takes a count and escaped data apart again. */
  lemma ReadOfParts(count: Text, data: Text)
    requires AllLowerHex(count) && count != []
    ensures ReadOf([LETTER_F] + count + [SEMICOLON] + data) == Some(Read(HexValue(count), Unescape(data)))
  {
    hide HexValue, Unescape;
    var rest := count + [SEMICOLON] + data;
    assert ([LETTER_F] + count + [SEMICOLON] + data)[1..] == rest;
    assert rest[|count|] == SEMICOLON;
    assert forall k :: 0 <= k < |count| ==> rest[k] == count[k] && IsLowerHex(count[k]);
    assert rest[..|count|] == count && rest[|count| + 1..] == data;
  }

  lemma HexHasNoHash(s: Text)
    requires AllLowerHex(s)
    ensures HASH !in s
  {
    assert forall k :: 0 <= k < |s| ==> IsLowerHex(s[k]);
  }

  /** The client of pread gets exactly the bytes read, and the announced count is their number. */
  lemma PreadArrives(buf: seq<Byte>, ack: bool)
    requires |buf| <= 0x7FFF_FFFF
    ensures var payload := [LETTER_F] + EncodeInt(|buf|, 4) + [SEMICOLON] + Escaped(buf);
            && Receive(Packet(payload, ack)) == Some(payload)
            && ReadOf(payload) == Some(Read(|buf|, buf))
  {
    hide Receive, Packet, ReadOf, HexValue, AllLowerHex, Escaped, Unescape, EncodeInt;
    var count, data := EncodeInt(|buf|, 4), Escaped(buf);
    Bounds();
    EncodeIntIsHex(|buf|);
    EscapeRoundTrip(buf);
    HexHasNoHash(count);
    var payload := [LETTER_F] + count + [SEMICOLON] + data;
    assert HASH !in payload;
    FramingExact(payload, ack);
    ReadOfParts(count, data);
  }
}
