// qXfer: an object is fetched in chunks, by offset and length, until an 'l' or an empty reply.
module GdbXfer {
  import opened Bytes
  import opened Division
  import opened GdbCodec
  import opened GdbPackets
  import opened Wrappers

  /** size_t addition. */
  function Plus(a: U64, b: U64): U64 {
    (a + b) % (U64_MAX + 1)
  }

  /** std::string::substr */
  function Substr(s: Text, offset: nat, length: nat): Text
    requires offset <= |s|
  {
    if length < |s| - offset then s[offset..offset + length] else s[offset..]
  }

  /** One reply: `text` is what is sliced, `size` the size the offsets are compared with. */
  function Slice(text: Text, size: nat, offset: U64, length: U64): Text
    requires size <= |text|
  {
    if offset >= size then []
    else [if Plus(offset, length) <= size then LETTER_M else LETTER_L] + Substr(text, offset, length)
  }

  /** features and exec-file objects are sliced as they are. */
  function ReadObject(target: Text, offset: U64, length: U64): Text {
    Slice(target, |target|, offset, length)
  }

  /** auxv is escaped first, but offsets are still compared with the raw size. */
  function ReadAuxv(auxv: seq<Byte>, offset: U64, length: U64): Text {
    Slice(Escaped(auxv), |auxv|, offset, length)
  }

  /** The two shapes of a reply: a full chunk that lies within the size, or the last one. */
  lemma SliceShape(text: Text, size: nat, offset: U64, length: U64)
    requires offset < size <= |text| && offset + length <= U64_MAX
    ensures offset + length <= size ==> Slice(text, size, offset, length) == [0x6d] + text[offset..offset + length]
    ensures size < offset + length ==>
              Slice(text, size, offset, length)
              == [0x6c] + text[offset..if offset + length < |text| then offset + length else |text|]
  {
  }

  /** 'm' is 0x6d and 'l' is 0x6c. A length that makes the sum wrap around brings the rest of the text, marked 'm'. */
  lemma SliceWraps(text: Text, size: nat, offset: U64, length: U64)
    requires offset < size <= |text| && size <= U64_MAX < offset + length && |text| <= U64_MAX
    ensures Slice(text, size, offset, length) == [0x6d] + text[offset..]
  {
    assert (offset + length) % (U64_MAX + 1) == offset + length - (U64_MAX + 1);
  }

  /** A client that advances by the bytes received gets exactly the object, in exactly size/L + 1 requests. */
  method Download(target: Text, chunk: U64) returns (data: Text, requests: nat)
    requires chunk >= 1 && |target| + chunk <= U64_MAX
    ensures data == target
    ensures requests == |target| / chunk + 1
  {
    hide Slice;
    data, requests := [], 0;
    var more := true;
    while more
      invariant |data| <= |target| && data == target[..|data|]
      invariant more ==> |data| == requests * chunk
      invariant !more ==> data == target && requests == |target| / chunk + 1
      decreases more, |target| - |data|
    {
      var reply := ReadObject(target, |data|, chunk);
      assert reply == [] <==> |data| == |target| by { SliceEmpty(target, |data|, chunk); }
      requests := requests + 1;
      if reply == [] {
        Quotient(|target|, chunk, requests - 1);
        more := false;
      } else {
        SliceShape(target, |target|, |data|, chunk);
        Extend(target, |data|, |reply| - 1);
        data := data + reply[1..];
        if reply[0] == LETTER_L {
          Quotient(|target|, chunk, requests - 1);
          more := false;
        } else {
          assert (requests - 1) * chunk + chunk == requests * chunk;
        }
      }
    }
  }

  /** n items in chunks of d: q full chunks and a shorter rest. */
  lemma Quotient(n: nat, d: nat, q: nat)
    requires d > 0 && q * d <= n < q * d + d
    ensures n / d == q && n % d == n - q * d
  {
    DivModUnique(n, d, q, n - q * d);
  }

  lemma SliceEmpty(target: Text, offset: U64, length: U64)
    requires offset <= |target|
    ensures Slice(target, |target|, offset, length) == [] <==> offset == |target|
  {
  }

  lemma Extend(s: Text, have: nat, more: nat)
    requires have + more <= |s|
    ensures s[..have] + s[have..have + more] == s[..have + more]
  {
  }

  // ---- Over the wire ----

  /** What the client has after at most `rounds` requests: every reply is framed, received and unescaped, and the
      next request starts after the bytes obtained. None: a reply did not arrive, or the end is not reached yet. */
  function WireDownload(text: Text, size: nat, chunk: U64, ack: bool, have: seq<Byte>, rounds: nat): Option<seq<Byte>>
    requires size <= |text| && |have| <= size && size + chunk <= U64_MAX
    decreases rounds
  {
    if rounds == 0 then None
    else match Receive(Packet(Slice(text, size, |have|, chunk), ack))
      case None => None
      case Some(received) =>
        var payload := Unescape(received);
        if payload == [] then Some(have)
        else if payload[0] == LETTER_L then Some(have + payload[1..])
        else
          PayloadFits(text, size, |have|, chunk, ack);
          WireDownload(text, size, chunk, ack, have + payload[1..], rounds - 1)
  }

  lemma FirstHashInside(s: Text, k: nat)
    requires k < |s| && s[k] == HASH
    ensures FirstHash(s) <= k
  {
  }

  /** What arrives is never longer than what was sent, and starts as it did. */
  lemma {:induction false} ReceivedIsPrefix(payload: Text, ack: bool)
    ensures Receive(Packet(payload, ack)).Some? ==> Receive(Packet(payload, ack)).value <= payload
  {
    var digits := HexOf([Sum(payload) % 256]);
    var body := payload + [HASH] + digits;
    var packet := Packet(payload, ack);
    assert (if packet[0] == PLUS then packet[1..] else packet) == [DOLLAR] + body;
    assert ([DOLLAR] + body)[1..] == body;
    FirstHashInside(body, |payload|);
    assert body[..FirstHash(body)] == payload[..FirstHash(body)];
  }

  /** A chunk that is not the last never takes the client past the size. */
  lemma PayloadFits(text: Text, size: nat, offset: nat, chunk: U64, ack: bool)
    requires offset <= size <= |text| && size + chunk <= U64_MAX
    ensures var received := Receive(Packet(Slice(text, size, offset, chunk), ack));
            received.Some? && Unescape(received.value) != [] && Unescape(received.value)[0] != LETTER_L
            ==> offset + |Unescape(received.value)| - 1 <= size
  {
    hide Receive, Packet;
    var reply := Slice(text, size, offset, chunk);
    ReceivedIsPrefix(reply, ack);
    if offset < size {
      SliceShape(text, size, offset, chunk);
      if size < offset + chunk {
        LetterStays(reply, ack);
      }
    }
  }

  /** The mark in front of a chunk arrives as it is. */
  lemma LetterStays(reply: Text, ack: bool)
    requires reply != [] && reply[0] != BRACE
    ensures Receive(Packet(reply, ack)).Some? && Receive(Packet(reply, ack)).value != [] ==>
              Unescape(Receive(Packet(reply, ack)).value) != [] && Unescape(Receive(Packet(reply, ack)).value)[0] == reply[0]
  {
    hide Receive, Packet;
    ReceivedIsPrefix(reply, ack);
  }

  /** The client's loop, for at most `rounds` requests. */
  method DownloadOverWire(text: Text, size: nat, chunk: U64, ack: bool, rounds: nat) returns (data: Option<seq<Byte>>)
    requires size <= |text| && size + chunk <= U64_MAX
    ensures data == WireDownload(text, size, chunk, ack, [], rounds)
  {
    hide Packet, Unescape, Receive, Slice;
    var have, left := [], rounds;
    while left > 0
      invariant 0 <= left && |have| <= size
      invariant WireDownload(text, size, chunk, ack, have, left) == WireDownload(text, size, chunk, ack, [], rounds)
    {
      var packet := CreateResponse(Slice(text, size, |have|, chunk), ack);
      var received := Receive(packet);
      if received.None? { return None; }
      var payload := Unescape(received.value);
      if payload == [] { return Some(have); }
      if payload[0] == LETTER_L { return Some(have + payload[1..]); }
      PayloadFits(text, size, |have|, chunk, ack);
      have, left := have + payload[1..], left - 1;
    }
    data := None;
  }

  /** With enough requests the client ends up with exactly this. */
  ghost predicate Delivers(text: Text, size: nat, chunk: U64, ack: bool, wanted: seq<Byte>)
    requires size <= |text| && size + chunk <= U64_MAX
  {
    exists rounds: nat :: WireDownload(text, size, chunk, ack, [], rounds) == Some(wanted)
  }

  predicate Clean(text: Text) {
    HASH !in text && BRACE !in text
  }

  /** A chunk of clean text arrives as it was sent. */
  lemma ChunkArrives(target: Text, offset: U64, chunk: U64, ack: bool)
    requires Clean(target)
    ensures Delivered(ReadObject(target, offset, chunk), ack) == Some(ReadObject(target, offset, chunk))
  {
    hide Delivered;
    var reply := ReadObject(target, offset, chunk);
    assert forall k :: 1 <= k < |reply| ==> reply[k] == target[offset + k - 1];
    PlainDataExact(reply, ack);
  }

  /** The three replies a client of clean text can get. */
  lemma CleanReply(target: Text, chunk: U64, ack: bool, have: nat)
    requires chunk >= 1 && |target| + chunk <= U64_MAX && Clean(target) && have <= |target|
    ensures var got := Delivered(Slice(target, |target|, have, chunk), ack);
            if have == |target| then got == Some([])
            else if have + chunk <= |target| then got == Some([LETTER_M] + target[have..have + chunk])
            else got == Some([LETTER_L] + target[have..])
  {
    hide Delivered, Slice, Clean;
    ChunkArrives(target, have, chunk, ack);
    SliceEmpty(target, have, chunk);
    if have < |target| { SliceShape(target, |target|, have, chunk); }
    assert target[have..|target|] == target[have..];
  }

  /** Clean text is downloaded from any point on. */
  lemma {:induction false} CleanDownload(target: Text, chunk: U64, ack: bool, have: nat) returns (rounds: nat)
    requires chunk >= 1 && |target| + chunk <= U64_MAX && Clean(target) && have <= |target|
    ensures WireDownload(target, |target|, chunk, ack, target[..have], rounds) == Some(target)
    decreases |target| - have
  {
    hide Delivered, Slice, Clean, WireDownload;
    CleanReply(target, chunk, ack, have);
    if have == |target| {
      rounds := 1;
      assert target[..have] == target;
      EmptyRound(target, |target|, chunk, ack, target, 0);
    } else if have + chunk <= |target| {
      rounds := CleanDownload(target, chunk, ack, have + chunk);
      MiddleRound(target, |target|, chunk, ack, target[..have], target[have..have + chunk], rounds);
      Extend(target, have, chunk);
      rounds := rounds + 1;
    } else {
      rounds := 1;
      LastRound(target, |target|, chunk, ack, target[..have], target[have..], 0);
      assert target[..have] + target[have..] == target;
    }
  }

  lemma MiddleRound(text: Text, size: nat, chunk: U64, ack: bool, have: seq<Byte>, got: seq<Byte>, rounds: nat)
    requires size <= |text| && |have| + |got| <= size && size + chunk <= U64_MAX
    requires Delivered(Slice(text, size, |have|, chunk), ack) == Some([LETTER_M] + got)
    ensures WireDownload(text, size, chunk, ack, have, rounds + 1) == WireDownload(text, size, chunk, ack, have + got, rounds)
  {
    hide Slice, Packet, Receive, Unescape;
    assert ([LETTER_M] + got)[1..] == got;
  }

  lemma LastRound(text: Text, size: nat, chunk: U64, ack: bool, have: seq<Byte>, got: seq<Byte>, rounds: nat)
    requires size <= |text| && |have| <= size && size + chunk <= U64_MAX
    requires Delivered(Slice(text, size, |have|, chunk), ack) == Some([LETTER_L] + got)
    ensures WireDownload(text, size, chunk, ack, have, rounds + 1) == Some(have + got)
  {
    hide Slice, Packet, Receive, Unescape;
    assert ([LETTER_L] + got)[1..] == got;
  }

  lemma EmptyRound(text: Text, size: nat, chunk: U64, ack: bool, have: seq<Byte>, rounds: nat)
    requires size <= |text| && |have| <= size && size + chunk <= U64_MAX
    requires Delivered(Slice(text, size, |have|, chunk), ack) == Some([])
    ensures WireDownload(text, size, chunk, ack, have, rounds + 1) == Some(have)
  {
    hide Slice, Packet, Receive, Unescape;
  }

  /** Byte by byte, the client stops making progress at the first byte that does not survive the wire. */
  lemma {:induction false} StuckAt(text: Text, size: nat, ack: bool, have: nat, p: nat, rounds: nat)
    requires have <= p < size <= |text| && size < U64_MAX
    requires Clean(text[..p]) && (text[p] == HASH || text[p] == BRACE)
    ensures WireDownload(text, size, 1, ack, text[..have], rounds) == None
    decreases rounds
  {
    hide Receive, Packet, Unescape, Slice, Clean;
    if rounds > 0 {
      OneByteReply(text, size, have);
      assert |text[..have]| == have;
      if have < p {
        CleanByte(text, have, p);
        PlainDataExact([LETTER_M, text[have]], ack);
        assert [LETTER_M] + [text[have]] == [LETTER_M, text[have]];
        MiddleRound(text, size, 1, ack, text[..have], [text[have]], rounds - 1);
        GrowByOne(text, have);
        StuckAt(text, size, ack, have + 1, p, rounds - 1);
      } else if text[p] == HASH {
        HashIsNotReceived([LETTER_M, HASH], ack);
      } else {
        FramingExact([LETTER_M, BRACE], ack);
        BraceIsDropped();
        assert [LETTER_M] + [] == [LETTER_M];
        MiddleRound(text, size, 1, ack, text[..have], [], rounds - 1);
        assert text[..have] + [] == text[..have];
        StuckAt(text, size, ack, have, p, rounds - 1);
      }
    }
  }

  lemma GrowByOne(s: Text, have: nat)
    requires have < |s|
    ensures s[..have] + [s[have]] == s[..have + 1]
  {
  }

  lemma OneByteReply(text: Text, size: nat, have: nat)
    requires have < size <= |text| && size < U64_MAX
    ensures Slice(text, size, have, 1) == [LETTER_M, text[have]]
  {
    SliceShape(text, size, have, 1);
    hide Slice;
    assert text[have..have + 1] == [text[have]];
  }

  lemma CleanByte(text: Text, have: nat, p: nat)
    requires have < p <= |text| && Clean(text[..p])
    ensures text[have] != HASH && text[have] != BRACE
  {
    assert text[..p][have] == text[have];
  }

  /** A payload with a '#' is cut there, and then has no checksum. */
  lemma HashIsNotReceived(payload: Text, ack: bool)
    requires HASH in payload
    ensures Receive(Packet(payload, ack)) == None
  {
    var digits := HexOf([Sum(payload) % 256]);
    var body := payload + [HASH] + digits;
    var packet := Packet(payload, ack);
    assert (if packet[0] == PLUS then packet[1..] else packet) == [DOLLAR] + body;
    assert ([DOLLAR] + body)[1..] == body;
    var k :| 0 <= k < |payload| && payload[k] == HASH;
    assert body[k] == HASH;
    FirstHashInside(body, k);
  }

  lemma BraceIsDropped()
    ensures Unescape([LETTER_M, BRACE]) == [LETTER_M]
  {
    assert [LETTER_M, BRACE][1..] == [BRACE];
  }

  /** The first byte that does not survive the wire. */
  lemma FirstDirty(text: Text) returns (p: nat)
    requires !Clean(text)
    ensures p < |text| && Clean(text[..p]) && (text[p] == HASH || text[p] == BRACE)
  {
    p := 0;
    while text[p] != HASH && text[p] != BRACE
      invariant p < |text| && Clean(text[..p]) && !Clean(text[p..])
      decreases |text| - p
    {
      assert text[..p + 1] == text[..p] + [text[p]] && text[p..] == [text[p]] + text[p + 1..];
      p := p + 1;
    }
  }

  /** features and exec-file objects reach the client for every chunk length exactly when they contain neither
      '#' nor '}': they are sent without escaping. */
  lemma PlainDownloadExact(target: Text, ack: bool)
    requires |target| < U64_MAX
    ensures (forall chunk: U64 :: 1 <= chunk && |target| + chunk <= U64_MAX ==> Delivers(target, |target|, chunk, ack, target))
            <==> Clean(target)
  {
    if Clean(target) {
      forall chunk: U64 | 1 <= chunk && |target| + chunk <= U64_MAX ensures Delivers(target, |target|, chunk, ack, target) {
        var rounds := CleanDownload(target, chunk, ack, 0);
        assert target[..0] == [];
      }
    } else {
      var p := FirstDirty(target);
      DirtyIsNotDelivered(target, |target|, ack, p, target);
    }
  }

  lemma DirtyIsNotDelivered(text: Text, size: nat, ack: bool, p: nat, wanted: seq<Byte>)
    requires p < size <= |text| && size < U64_MAX
    requires Clean(text[..p]) && (text[p] == HASH || text[p] == BRACE)
    ensures !Delivers(text, size, 1, ack, wanted)
  {
    hide WireDownload;
    forall rounds: nat ensures WireDownload(text, size, 1, ack, [], rounds) == None {
      StuckAt(text, size, ack, 0, p, rounds);
      assert text[..0] == [];
    }
  }

  predicate NothingToEscape(d: seq<Byte>) {
    forall k :: 0 <= k < |d| ==> !NeedsEscape(d[k])
  }

  lemma {:induction false} EscapedPrefix(d: seq<Byte>, n: nat)
    requires n <= |d| && NothingToEscape(d[..n])
    ensures Escaped(d) == d[..n] + Escaped(d[n..])
  {
    if n == 0 {
      assert d[0..] == d;
    } else {
      assert d[1..][..n - 1] == d[..n][1..];
      assert !NeedsEscape(d[..n][0]);
      EscapedPrefix(d[1..], n - 1);
      assert d[1..][n - 1..] == d[n..];
      assert d[..n] == [d[0]] + d[1..][..n - 1];
    }
  }

  lemma FirstEscaped(d: seq<Byte>) returns (p: nat)
    requires !NothingToEscape(d)
    ensures p < |d| && NothingToEscape(d[..p]) && NeedsEscape(d[p])
  {
    p := 0;
    while !NeedsEscape(d[p])
      invariant p < |d| && NothingToEscape(d[..p])
      invariant exists k :: p <= k < |d| && NeedsEscape(d[k])
      decreases |d| - p
    {
      p := p + 1;
    }
  }

  /** A client that unescapes each auxv chunk and advances by the bytes obtained recovers auxv for every chunk
      length exactly when nothing in it needs escaping. */
  lemma AuxvDecodedExact(auxv: seq<Byte>, ack: bool)
    requires |auxv| < U64_MAX
    ensures (forall chunk: U64 :: 1 <= chunk && |auxv| + chunk <= U64_MAX ==>
               Delivers(Escaped(auxv), |auxv|, chunk, ack, auxv))
            <==> NothingToEscape(auxv)
  {
    if NothingToEscape(auxv) {
      EscapedPrefix(auxv, |auxv|);
      assert auxv[..|auxv|] == auxv && Escaped(auxv[|auxv|..]) == [] && Escaped(auxv) == auxv;
      assert Clean(auxv);
      PlainDownloadExact(auxv, ack);
    } else {
      var p := FirstEscaped(auxv);
      EscapedPrefix(auxv, p);
      var text := Escaped(auxv);
      assert text[..p] == auxv[..p];
      assert text[p] == Escaped(auxv[p..])[0] == BRACE;
      DirtyIsNotDelivered(text, |auxv|, ack, p, auxv);
    }
  }

  // ---- A single request ----

  /** What a request for more than the size is answered with. */
  function Whole(text: Text, chunk: nat): Text {
    if chunk < |text| then text[..chunk] else text
  }

  /** A client that asks for more than there is makes one request, and has what that brings. */
  lemma OneRequest(text: Text, size: nat, chunk: U64, ack: bool, wanted: seq<Byte>)
    requires 0 < size < chunk && size <= |text| && size + chunk <= U64_MAX
    ensures Delivers(text, size, chunk, ack, wanted) <==> HASH !in Whole(text, chunk) && Unescape(Whole(text, chunk)) == wanted
  {
    var sent, reply := Whole(text, chunk), Slice(text, size, 0, chunk);
    SliceShape(text, size, 0, chunk);
    assert reply == [LETTER_L] + sent by { assert text[0..|sent|] == sent; }
    hide Whole, Slice;
    if HASH in sent {
      assert reply[1..] == sent;
      HashIsNotReceived(reply, ack);
      forall rounds: nat ensures WireDownload(text, size, chunk, ack, [], rounds) == None {
        hide Receive, Packet, Unescape;
      }
    } else {
      FramingExact(reply, ack);
      MarkStays(sent);
      hide Receive, Packet, Unescape;
      forall rounds: nat | rounds > 0 ensures WireDownload(text, size, chunk, ack, [], rounds) == Some(Unescape(sent)) {
        LastRound(text, size, chunk, ack, [], Unescape(sent), rounds - 1);
        assert [] + Unescape(sent) == Unescape(sent);
      }
      assert WireDownload(text, size, chunk, ack, [], 1) == Some(Unescape(sent));
    }
  }

  lemma MarkStays(sent: Text)
    ensures Unescape([LETTER_L] + sent) == [LETTER_L] + Unescape(sent)
  {
    assert ([LETTER_L] + sent)[1..] == sent;
  }

  /** In one request an object is delivered exactly when it has neither '#' nor '}'. */
  lemma PlainInOneRequest(target: Text, chunk: U64, ack: bool)
    requires |target| < chunk && |target| + chunk <= U64_MAX
    ensures Delivers(target, |target|, chunk, ack, target) <==> Clean(target)
  {
    if target == [] {
      var rounds := CleanDownload(target, chunk, ack, 0);
      assert target[..0] == [];
    } else {
      OneRequest(target, |target|, chunk, ack, target);
      UnescapeExact(target);
    }
  }

  /** In one request auxv is delivered exactly when its escaped form fits into the chunk. */
  lemma AuxvInOneRequest(auxv: seq<Byte>, chunk: U64, ack: bool)
    requires |auxv| < chunk && |auxv| + chunk <= U64_MAX
    ensures Delivers(Escaped(auxv), |auxv|, chunk, ack, auxv) <==> |Escaped(auxv)| <= chunk
  {
    var text := Escaped(auxv);
    EscapeRoundTrip(auxv);
    if auxv == [] {
      PlainInOneRequest([], chunk, ack);
    } else {
      OneRequest(text, |auxv|, chunk, ack, auxv);
      if chunk < |text| {
        PrefixYieldsLess(auxv, chunk);
      }
    }
  }

  // ---- Joining the text of all chunks ----

  /** All the escaped auxv text a client collects from `offset` on, however leniently it joins the chunks. */
  function Collected(auxv: seq<Byte>, chunk: U64, offset: nat): Text
    requires chunk >= 1 && |auxv| + chunk <= U64_MAX
    decreases |auxv| - offset
  {
    if offset >= |auxv| then []
    else
      var reply := ReadAuxv(auxv, offset, chunk);
      reply[1..] + if reply[0] == LETTER_M then Collected(auxv, chunk, offset + chunk) else []
  }

  /** How much text the last chunk has room for beyond the raw size. */
  function Slack(size: nat, chunk: nat): nat
    requires chunk >= 1
  {
    if size % chunk == 0 then 0 else chunk - size % chunk
  }

  function Reach(auxv: seq<Byte>, chunk: nat): (r: nat)
    requires chunk >= 1
    ensures r <= |Escaped(auxv)|
  {
    var last := |auxv| + Slack(|auxv|, chunk);
    if last < |Escaped(auxv)| then last else |Escaped(auxv)|
  }

  lemma ReachIsPast(auxv: seq<Byte>, chunk: nat)
    requires chunk >= 1
    ensures |auxv| <= Reach(auxv, chunk) <= |Escaped(auxv)|
  {
    hide Escaped;
  }

  /** A chunk that lies within the raw size is followed by the next one. */
  lemma CollectMiddle(auxv: seq<Byte>, chunk: U64, offset: nat)
    requires chunk >= 1 && |auxv| + chunk <= U64_MAX && offset + chunk <= |auxv|
    requires Collected(auxv, chunk, offset + chunk) == Escaped(auxv)[offset + chunk..Reach(auxv, chunk)]
    ensures Collected(auxv, chunk, offset) == Escaped(auxv)[offset..Reach(auxv, chunk)]
  {
    hide Escaped, Slice, Reach;
    var text, r := Escaped(auxv), Reach(auxv, chunk);
    ReachIsPast(auxv, chunk);
    if offset < |auxv| {
      SliceShape(text, |auxv|, offset, chunk);
      assert text[offset..offset + chunk] + text[offset + chunk..r] == text[offset..r];
    }
  }

  /** The chunk that reaches past the raw size is the last. */
  lemma CollectLast(auxv: seq<Byte>, chunk: U64, offset: nat)
    requires chunk >= 1 && |auxv| + chunk <= U64_MAX && offset <= |auxv| < offset + chunk
    requires |auxv| % chunk == |auxv| - offset
    ensures Collected(auxv, chunk, offset) == Escaped(auxv)[offset..Reach(auxv, chunk)]
  {
    hide Escaped, Slice;
    var text, r := Escaped(auxv), Reach(auxv, chunk);
    if offset < |auxv| {
      SliceShape(text, |auxv|, offset, chunk);
      assert r == if offset + chunk < |text| then offset + chunk else |text|;
      assert ReadAuxv(auxv, offset, chunk)[1..] == text[offset..r];
    }
  }

  /** After k full chunks, what is still collected is the escaped text from there on. */
  lemma CollectedIs(auxv: seq<Byte>, chunk: U64, k: nat)
    requires chunk >= 1 && |auxv| + chunk <= U64_MAX && k * chunk <= |auxv|
    ensures k * chunk <= Reach(auxv, chunk)
    ensures Collected(auxv, chunk, k * chunk) == Escaped(auxv)[k * chunk..Reach(auxv, chunk)]
  {
    ReachIsPast(auxv, chunk);
    hide Collected, Escaped, Reach;
    CollectedFrom(auxv, chunk, k, k * chunk);
  }

  lemma {:induction false} CollectedFrom(auxv: seq<Byte>, chunk: U64, k: nat, offset: nat)
    requires chunk >= 1 && |auxv| + chunk <= U64_MAX && offset == k * chunk <= |auxv|
    ensures Collected(auxv, chunk, offset) == Escaped(auxv)[offset..Reach(auxv, chunk)]
    decreases |auxv| - offset
  {
    hide Collected, Escaped, Reach;
    ReachIsPast(auxv, chunk);
    if offset + chunk <= |auxv| {
      OneMore(k, chunk);
      CollectedFrom(auxv, chunk, k + 1, offset + chunk);
      CollectMiddle(auxv, chunk, offset);
    } else {
      Quotient(|auxv|, chunk, k);
      CollectLast(auxv, chunk, offset);
    }
  }

  lemma OneMore(k: nat, chunk: nat)
    ensures (k + 1) * chunk == k * chunk + chunk
  {
  }

  /** Even the most lenient client recovers auxv exactly when the escapes fit into the last chunk's slack;
      with no escapes needed, that is always. */
  lemma AuxvExact(auxv: seq<Byte>, chunk: U64)
    requires chunk >= 1 && |auxv| + chunk <= U64_MAX
    ensures Unescape(Collected(auxv, chunk, 0)) == auxv
            <==> |Escaped(auxv)| - |auxv| <= Slack(|auxv|, chunk)
  {
    CollectedIs(auxv, chunk, 0);
    var text, r := Escaped(auxv), Reach(auxv, chunk);
    assert Collected(auxv, chunk, 0) == text[..r];
    if r < |text| {
      PrefixYieldsLess(auxv, r);
    } else {
      assert text[..r] == text;
      EscapeRoundTrip(auxv);
    }
  }
}
