/**
 The length-prefixed protocol of P3/JDA: a header of three big-endian words
 (target port, shift, text length) and the text; the reply is a status, a length
 and, from the one server whose port is the target, the encrypted text.
 */
module BinaryProtocol {
  import opened CText
  import opened Caesar
  import opened Sockets

  // ----- network byte order (Appendix B of RFC 791) -----

  /** The low `k` bytes of a number, the most significant first. */
  function BigEndian(x: nat, k: nat): (b: seq<byte>)
    ensures |b| == k
  {
    if k == 0 then [] else BigEndian(x / 256, k - 1) + [x % 256]
  }

  function FromBigEndian(b: seq<byte>): (x: nat)
    ensures x < Pow256(|b|)
  {
    if |b| == 0 then 0 else 256 * FromBigEndian(b[..|b| - 1]) + b[|b| - 1]
  }

  function Pow256(k: nat): nat { if k == 0 then 1 else 256 * Pow256(k - 1) }

  lemma {:induction false} NumberRoundTrip(x: nat, k: nat)
    requires x < Pow256(k)
    ensures FromBigEndian(BigEndian(x, k)) == x
  {
    if k == 0 {
    } else {
      NumberRoundTrip(x / 256, k - 1);
      assert BigEndian(x, k)[..k - 1] == BigEndian(x / 256, k - 1);
    }
  }

  lemma {:induction false} BytesRoundTrip(b: seq<byte>)
    ensures BigEndian(FromBigEndian(b), |b|) == b
  {
    if |b| == 0 {
    } else {
      var x, last: int := FromBigEndian(b[..|b| - 1]), b[|b| - 1];
      BytesRoundTrip(b[..|b| - 1]);
      assert (256 * x + last) / 256 == x && (256 * x + last) % 256 == last;
      assert b == b[..|b| - 1] + [last];
    }
  }

  lemma WordSize()
    ensures Pow256(4) == TWO32
  {
    assert Pow256(2) == 0x1_0000;
  }

  /** A word in network order. */
  function BE32(x: uint32): seq<byte> { BigEndian(x, 4) }

  function FromBE32(b: seq<byte>): uint32
    requires |b| == 4
  {
    WordSize();
    FromBigEndian(b)
  }

  lemma WordRoundTrip(x: uint32)
    ensures FromBE32(BE32(x)) == x
  {
    WordSize();
    NumberRoundTrip(x, 4);
  }

  /** The first byte weighs most. */
  lemma NetworkOrder(b: seq<byte>)
    requires |b| == 4
    ensures FromBE32(b) ==
            0x100_0000 * (b[0] as int) + 0x1_0000 * (b[1] as int) + 0x100 * (b[2] as int) + (b[3] as int)
  {
    FromBigEndianStep(b);
    FromBigEndianStep(b[..3]);
    FromBigEndianStep(b[..2]);
    FromBigEndianStep(b[..1]);
    assert b[..3][..2] == b[..2] && b[..2][..1] == b[..1];
  }

  lemma FromBigEndianStep(b: seq<byte>)
    requires |b| > 0
    ensures FromBigEndian(b) == 256 * FromBigEndian(b[..|b| - 1]) + b[|b| - 1]
  {
  }

  /** A negative shift travels as a large word and comes back as itself. */
  lemma ShiftRoundTrip(shift: int32)
    ensures ToI32(FromBE32(BE32(ToU32(shift)))) == shift
  {
    WordRoundTrip(ToU32(shift));
  }

  // ----- reading and writing exactly n bytes -----

  /** `readn`: the next `n` bytes, or all that is left at the end of the stream, however they arrive. */
  method ReadN(s: Socket, buf: array<byte>, n: nat) returns (r: int)
    requires n <= buf.Length
    modifies s`input, s`interrupts, s`hits, buf
    ensures r == -1 ==> !s.reliable && |s.input| <= |old(s.input)|
    ensures r == -1 ==> s.input == old(s.input)[|old(s.input)| - |s.input|..]
    ensures r != -1 ==> r == Min(n, |old(s.input)|) && s.input == old(s.input)[r..]
    ensures r != -1 ==> buf[..] == old(s.input)[..r] + old(buf[r..])
    ensures s.interrupts <= old(s.interrupts)
  {
    var left, p := n, 0;
    while left > 0
      invariant 0 <= p && 0 <= left == n - p && p <= |old(s.input)|
      invariant s.input == old(s.input)[p..]
      invariant forall j :: 0 <= j < p ==> buf[j] == old(s.input)[j]
      invariant forall j :: p <= j < buf.Length ==> buf[j] == old(buf[j])
      invariant s.interrupts <= old(s.interrupts)
      decreases left, s.interrupts
    {
      var k, errno := s.Recv(buf, p, left);
      if k < 0 {
        if errno == Interrupted { continue; }
        return -1;
      } else if k == 0 {
        break;
      }
      left, p := left - k, p + k;
    }
    return n - left;
  }

  /** `writen`: the buffer, whole and in order, however the stream takes it. */
  method WriteN(s: Socket, buf: seq<byte>) returns (r: int)
    modifies s`output, s`interrupts
    ensures r == -1 ==> !s.reliable && old(s.output) <= s.output <= old(s.output) + buf
    ensures r != -1 ==> r == |buf| && s.output == old(s.output) + buf
    ensures s.interrupts <= old(s.interrupts)
  {
    var left, p := |buf|, 0;
    while left > 0
      invariant 0 <= p && 0 <= left == |buf| - p
      invariant s.output == old(s.output) + buf[..p]
      invariant s.interrupts <= old(s.interrupts)
      decreases left, s.interrupts
    {
      var w, errno := s.Send(buf[p..]);
      if w <= 0 {
        if w < 0 && errno == Interrupted { continue; }
        assert s.output <= old(s.output) + buf;
        return -1;
      }
      assert buf[..p] + buf[p..][..w] == buf[..p + w];
      left, p := left - w, p + w;
    }
    return |buf|;
  }

  // ----- the messages -----

  /** What the client puts on the stream; `htonl` keeps the length modulo 2^32. */
  function Request(target: int32, shift: int32, text: seq<byte>): seq<byte> {
    BE32(ToU32(target)) + (BE32(ToU32(shift)) + (BE32(|text| % TWO32) + text))
  }

  /** The answer to a header and what follows it, nothing when the text is cut short. */
  function ReplyToHeader(target: uint32, shift: uint32, len: uint32, rest: seq<byte>, port: int32): seq<byte> {
    if |rest| < len then []
    else if target == ToU32(port) then BE32(1) + BE32(len) + Cipher(rest[..len], ToI32(shift))
    else BE32(0) + BE32(0) + []
  }

  /** What a server listening on `port` answers to a stream, nothing when the stream ends too early. */
  function Reply(req: seq<byte>, port: int32): seq<byte> {
    if |req| < 12 then [] else
      ReplyToHeader(FromBE32(req[..4]), FromBE32(req[4..8]), FromBE32(req[8..12]), req[12..], port)
  }

  lemma ThreeWords(a: seq<byte>, b: seq<byte>, c: seq<byte>, rest: seq<byte>)
    requires |a| == |b| == |c| == 4
    ensures var s := a + (b + (c + rest));
            |s| == 12 + |rest| && s[..4] == a && s[4..8] == b && s[8..12] == c && s[12..] == rest
  {
  }

  /** The server sees in a stream the three words the header was made of. */
  lemma ReplyToWords(target: uint32, shift: uint32, len: uint32, rest: seq<byte>, port: int32)
    ensures Reply(BE32(target) + (BE32(shift) + (BE32(len) + rest)), port)
            == ReplyToHeader(target, shift, len, rest, port)
  {
    ThreeWords(BE32(target), BE32(shift), BE32(len), rest);
    WordRoundTrip(target);
    WordRoundTrip(shift);
    WordRoundTrip(len);
  }

  /** What a server on `port` should answer to a request. */
  function ExpectedReply(target: int32, shift: int32, text: seq<byte>, port: int32): seq<byte> {
    var len := |text| % TWO32;
    if target == port then BE32(1) + BE32(len) + Cipher(text[..len], shift) else BE32(0) + BE32(0) + []
  }

  /** A request is answered by the Caesar image of its text exactly on the port it names. */
  lemma ReplyToRequest(target: int32, shift: int32, text: seq<byte>, port: int32)
    ensures Reply(Request(target, shift, text), port) == ExpectedReply(target, shift, text, port)
  {
    ReplyToWords(ToU32(target), ToU32(shift), |text| % TWO32, text, port);
    ReplyToNamedPort(target, shift, |text| % TWO32, text, port);
  }

  lemma ReplyToNamedPort(target: int32, shift: int32, len: uint32, text: seq<byte>, port: int32)
    requires len <= |text|
    ensures ReplyToHeader(ToU32(target), ToU32(shift), len, text, port) ==
            if target == port then BE32(1) + BE32(len) + Cipher(text[..len], shift)
            else BE32(0) + BE32(0) + []
  {
    assert ToI32(ToU32(shift)) == shift;
    assert ToU32(target) == ToU32(port) <==> target == port;
  }

  /** Where the four parts of a request stand, each word with its first byte the heaviest. */
  lemma RequestLayout(target: int32, shift: int32, text: seq<byte>)
    ensures var req := Request(target, shift, text);
            && |req| == 12 + |text| && req[12..] == text
            && FromBE32(req[..4]) == target % 0x1_0000_0000
            && FromBE32(req[4..8]) == shift % 0x1_0000_0000
            && FromBE32(req[8..12]) == |text| % 0x1_0000_0000
  {
    ThreeWords(BE32(ToU32(target)), BE32(ToU32(shift)), BE32(|text| % TWO32), text);
    WordRoundTrip(ToU32(target));
    WordRoundTrip(ToU32(shift));
    WordRoundTrip(|text| % TWO32);
  }

  /** A reply with status 1, the length of a text, and the text. */
  ghost predicate Carries(reply: seq<byte>, text: seq<byte>) {
    && |reply| == 8 + |text| && reply[8..] == text
    && reply[..4] == [0, 0, 0, 1] && FromBE32(reply[4..8]) == |text|
  }

  /** The answer on the wire from the server that is named. */
  lemma AnswerOnPort(target: int32, shift: int32, text: seq<byte>)
    requires |text| < 0x1_0000_0000
    ensures Carries(Reply(Request(target, shift, text), target), Cipher(text, shift))
  {
    ReplyToRequest(target, shift, text, target);
    WholeTextExpected(target, shift, text);
    AnswerLayout(Cipher(text, shift));
  }

  lemma WholeTextExpected(target: int32, shift: int32, text: seq<byte>)
    requires |text| < TWO32
    ensures ExpectedReply(target, shift, text, target) ==
            BE32(1) + BE32(|text|) + Cipher(text, shift)
  {
    var len := |text| % TWO32;
    assert len == |text| && text[..len] == text;
  }

  /** The answer on the wire from every other server: two zero words. */
  lemma AnswerElsewhere(target: int32, shift: int32, text: seq<byte>, port: int32)
    requires target != port
    ensures Reply(Request(target, shift, text), port) == [0, 0, 0, 0, 0, 0, 0, 0]
  {
    ReplyToRequest(target, shift, text, port);
    SmallWord(0);
  }

  lemma AnswerLayout(text: seq<byte>)
    requires |text| < 0x1_0000_0000
    ensures Carries(BE32(1) + BE32(|text|) + text, text)
  {
    SmallWord(1);
    WordRoundTrip(|text|);
    TwoWords(BE32(1), BE32(|text|), text);
  }

  lemma SmallWord(x: uint32)
    requires x < 256
    ensures BE32(x) == [0, 0, 0, x]
  {
    assert BigEndian(0, 1) == [0] && BigEndian(0, 2) == [0, 0] && BigEndian(0, 3) == [0, 0, 0];
  }

  // ----- the server -----

  method ReadWord(s: Socket) returns (r: int, word: uint32)
    modifies s`input, s`interrupts, s`hits
    ensures s.interrupts <= old(s.interrupts)
    ensures r == 4 ==> |old(s.input)| >= 4 && s.input == old(s.input)[4..] && word == FromBE32(old(s.input)[..4])
    ensures s.reliable ==> r == Min(4, |old(s.input)|)
  {
    var net := new byte[4];
    r := ReadN(s, net, 4);
    word := 0;
    if r == 4 {
      assert net[..] == old(s.input)[..4];
      word := FromBE32(net[..]);
    }
  }

  /** The accept loop's body once the header is in. */
  method Respond(s: Socket, target: uint32, shift: uint32, len: uint32, port: int32)
    modifies s`input, s`output, s`interrupts, s`hits
    ensures |old(s.input)| < len ==> s.output == old(s.output)
    ensures s.reliable ==> s.output == old(s.output) + ReplyToHeader(target, shift, len, old(s.input), port)
  {
    var buffer := new byte[len];
    if len > 0 {
      var r := ReadN(s, buffer, len);
      if r != len { return; }
    }
    assert buffer[..] == old(s.input)[..len];
    var process := target == ToU32(port);
    if process && len > 0 {
      CipherCounted(buffer, len, ToI32(shift));
    }
    assert process ==> buffer[..] == Cipher(old(s.input)[..len], ToI32(shift));
    var status := if process then 1 else 0;
    var replyLen := if process then len else 0;
    SendReply(s, BE32(status), BE32(replyLen), if process then buffer[..] else []);
  }

  /** The three writes of a reply; there is no write for an empty text. */
  method SendReply(s: Socket, status: seq<byte>, len: seq<byte>, text: seq<byte>)
    modifies s`output, s`interrupts
    ensures s.reliable ==> s.output == old(s.output) + (status + len + text)
  {
    var _ := WriteN(s, status);
    var _ := WriteN(s, len);
    if text != [] {
      var _ := WriteN(s, text);
    }
    Regroup(old(s.output), status, len);
    Regroup(old(s.output), status + len, text);
  }

  /** A stream that ends before its header does, or before the text that the header announces. */
  ghost predicate CutShort(req: seq<byte>) { |req| < 12 || |req| - 12 < FromBE32(req[8..12]) }

  /** Nothing is answered to such a stream, and these are the streams that get nothing. */
  lemma CutShortExactly(req: seq<byte>, port: int32)
    ensures Reply(req, port) == [] <==> CutShort(req)
  {
  }

  lemma RequestStart(target: int32, shift: int32, text: seq<byte>, n: nat)
    requires n < 12 + |text| % TWO32
    ensures n <= |Request(target, shift, text)| && CutShort(Request(target, shift, text)[..n])
  {
    var req := Request(target, shift, text);
    ThreeWords(BE32(ToU32(target)), BE32(ToU32(shift)), BE32(|text| % TWO32), text);
    WordRoundTrip(|text| % TWO32);
    if n >= 12 {
      assert req[..n][8..12] == req[8..12];
    }
  }

  /** No request that breaks off before the text it announces is answered, on any port. */
  lemma NoReplyToPart(target: int32, shift: int32, text: seq<byte>, n: nat, port: int32)
    requires n < 12 + |text| % TWO32
    ensures n <= |Request(target, shift, text)| && Reply(Request(target, shift, text)[..n], port) == []
  {
    RequestStart(target, shift, text, n);
    CutShortExactly(Request(target, shift, text)[..n], port);
  }

  /** Nor is anything sent for one, however the stream is cut and whatever fails. */
  method ServePart(s: Socket, target: int32, shift: int32, text: seq<byte>, n: nat, port: int32)
    requires n < 12 + |text| % TWO32 && n <= |Request(target, shift, text)|
    requires s.input == Request(target, shift, text)[..n]
    modifies s`input, s`output, s`interrupts, s`hits
    ensures s.output == old(s.output)
  {
    RequestStart(target, shift, text, n);
    Serve(s, port);
  }

  /** The body of the accept loop, for one connection. */
  method Serve(s: Socket, port: int32)
    modifies s`input, s`output, s`interrupts, s`hits
    ensures CutShort(old(s.input)) ==> s.output == old(s.output)
    ensures s.reliable ==> s.output == old(s.output) + Reply(old(s.input), port)
  {
    ghost var req := s.input;
    var r, target := ReadWord(s);
    if r != 4 { return; }
    var shift;
    r, shift := ReadWord(s);
    if r != 4 { return; }
    var len;
    r, len := ReadWord(s);
    if r != 4 { return; }
    assert s.input == req[12..] && req[4..][4..][..4] == req[8..12] && req[4..][..4] == req[4..8];
    Respond(s, target, shift, len, port);
  }

  // ----- the client -----

  datatype Outcome =
    | Processed(text: seq<byte>)
    | Rejected
    | NoReply      // the stream ended inside the reply's header
    | Overrun      // the reply does not fit the buffer allocated for it
    | Unreachable

  /** What the client is told about one server. */
  function Expected(target: int32, shift: int32, text: seq<byte>, port: int32): Outcome {
    if target != port then Rejected
    else if |text| % TWO32 == TWO32 - 1 then Overrun
    else Processed(Cipher(text[..|text| % TWO32], shift))
  }

  /**
   How the client takes a reply. It ignores how much of the text `readn` got, so
   of a text cut short only the part that came is known.
   */
  ghost predicate Understood(reply: seq<byte>, o: Outcome) {
    if |reply| < 8 then o == NoReply
    else if FromBE32(reply[..4]) != 1 then o == Rejected
    else
      var len := FromBE32(reply[4..8]);
      if len + 1 == TWO32 then o == Overrun
      else o.Processed? && |o.text| == len && reply[8..8 + Min(len, |reply| - 8)] <= o.text
  }

  method SendRequest(s: Socket, target: int32, shift: int32, text: seq<byte>)
    modifies s`output, s`interrupts
    ensures s.reliable ==> s.output == old(s.output) + Request(target, shift, text)
  {
    var _ := WriteN(s, BE32(ToU32(target)));
    var _ := WriteN(s, BE32(ToU32(shift)));
    var _ := WriteN(s, BE32(|text| % TWO32));
    if |text| > 0 {
      var _ := WriteN(s, text);
    }
  }

  method ReceiveReply(s: Socket) returns (o: Outcome)
    modifies s`input, s`interrupts, s`hits
    ensures s.reliable ==> Understood(old(s.input), o)
  {
    ghost var reply := s.input;
    var r, status := ReadWord(s);
    if r != 4 { return NoReply; }
    var len;
    r, len := ReadWord(s);
    if r != 4 { return NoReply; }
    assert reply[4..][..4] == reply[4..8] && s.input == reply[8..];
    if status != 1 { return Rejected; }
    // the size is computed on unsigned 32-bit words
    var resp := new byte[(len + 1) % TWO32];
    if len + 1 == TWO32 { return Overrun; }
    if len > 0 {
      r := ReadN(s, resp, len);
      assert r != -1 ==> resp[..r] == reply[8..8 + r];
    }
    resp[len] := NUL;
    return Processed(resp[..len]);
  }

  lemma TwoWords(a: seq<byte>, b: seq<byte>, rest: seq<byte>)
    requires |a| == |b| == 4
    ensures var s := a + b + rest; |s| == 8 + |rest| && s[..4] == a && s[4..8] == b && s[8..] == rest
  {
  }

  /** A reply that carries as much text as it says is understood by its two words. */
  lemma UnderstoodWords(status: uint32, len: uint32, rest: seq<byte>, o: Outcome)
    requires Understood(BE32(status) + BE32(len) + rest, o) && |rest| == len
    ensures o == if status != 1 then Rejected else if len + 1 == TWO32 then Overrun else Processed(rest)
  {
    TwoWords(BE32(status), BE32(len), rest);
    WordRoundTrip(status);
    WordRoundTrip(len);
    var reply := BE32(status) + BE32(len) + rest;
    assert reply[8..8 + Min(len, |reply| - 8)] == rest;
  }

  /** The server's reply to a request can be understood in one way only: the expected one. */
  lemma UnderstoodReply(target: int32, shift: int32, text: seq<byte>, port: int32, o: Outcome)
    requires Understood(ExpectedReply(target, shift, text, port), o)
    ensures o == Expected(target, shift, text, port)
  {
    var len := |text| % TWO32;
    if target == port {
      UnderstoodWords(1, len, Cipher(text[..len], shift), o);
    } else {
      UnderstoodWords(0, 0, [], o);
    }
  }

  /**
   A reply that breaks off: in its header it is none, later the text that came is
   known and the length is the announced one.
   */
  lemma CutReply(target: int32, shift: int32, text: seq<byte>, n: nat, o: Outcome)
    requires |text| < TWO32 - 1 && n <= |Reply(Request(target, shift, text), target)|
    requires Understood(Reply(Request(target, shift, text), target)[..n], o)
    ensures n < 8 ==> o == NoReply
    ensures n <= 8 + |text|
    ensures n >= 8 ==> o.Processed? && |o.text| == |text| && o.text[..n - 8] == Cipher(text, shift)[..n - 8]
  {
    var reply := Reply(Request(target, shift, text), target);
    AnswerOnPort(target, shift, text);
    if n >= 8 {
      NetworkOrder([0, 0, 0, 1]);
      assert reply[..n][..4] == reply[..4] && reply[..n][4..8] == reply[4..8];
      assert reply[..n][8..8 + Min(|text|, n - 8)] == reply[8..][..n - 8];
    }
  }

  /** One connection of the client's loop, with the server that answers it. */
  method Exchange(target: int32, shift: int32, text: seq<byte>, port: int32, clientSignals: nat, serverSignals: nat)
    returns (o: Outcome)
    ensures o == Expected(target, shift, text, port)
  {
    var s := new Socket([], clientSignals, true);
    SendRequest(s, target, shift, text);
    assert s.output == Request(target, shift, text);
    var peer := new Socket(s.output, serverSignals, true);
    Serve(peer, port);
    assert peer.output == Reply(Request(target, shift, text), port);
    s.input := peer.output;
    ReplyToRequest(target, shift, text, port);
    o := ReceiveReply(s);
    UnderstoodReply(target, shift, text, port, o);
  }

  /** The client's loop over the servers. */
  method RunClient(target: int32, shift: int32, text: seq<byte>, ports: seq<int32>, reachable: seq<bool>, signals: nat)
    returns (outcomes: seq<Outcome>)
    requires |reachable| == |ports|
    ensures |outcomes| == |ports|
    ensures forall i :: 0 <= i < |ports| ==>
      outcomes[i] == if reachable[i] then Expected(target, shift, text, ports[i]) else Unreachable
  {
    outcomes := [];
    for i := 0 to |ports|
      invariant |outcomes| == i
      invariant forall j :: 0 <= j < i ==>
        outcomes[j] == if reachable[j] then Expected(target, shift, text, ports[j]) else Unreachable
    {
      if !reachable[i] {
        outcomes := outcomes + [Unreachable];
        continue;
      }
      var o := Exchange(target, shift, text, ports[i], signals, signals);
      outcomes := outcomes + [o];
    }
  }

  /** The whole text comes back encrypted from the server it names exactly when its length is below 2^32 - 1. */
  lemma DeliveredExactly(target: int32, shift: int32, text: seq<byte>, port: int32)
    ensures Expected(target, shift, text, port) == Processed(Cipher(text, shift))
            <==> target == port && |text| < TWO32 - 1
  {
    if |text| < TWO32 {
      assert text[..|text|] == text;
    }
  }

  /**
   What the loop's outcomes say about servers on different ports: no server but the
   target's processes, and the target's gives the whole text back encrypted exactly
   when it can be reached and the text is shorter than 2^32 - 1 bytes.
   */
  lemma OneServerProcesses(target: int32, shift: int32, text: seq<byte>, ports: seq<int32>,
                           reachable: seq<bool>, outcomes: seq<Outcome>)
    requires forall i, j :: 0 <= i < j < |ports| ==> ports[i] != ports[j]
    requires |outcomes| == |ports| == |reachable|
    requires forall i :: 0 <= i < |ports| ==>
      outcomes[i] == if reachable[i] then Expected(target, shift, text, ports[i]) else Unreachable
    ensures forall i :: 0 <= i < |ports| && ports[i] != target ==>
      outcomes[i] == if reachable[i] then Rejected else Unreachable
    ensures target in ports ==> exists i ::
      && 0 <= i < |ports| && ports[i] == target
      && (outcomes[i] == Processed(Cipher(text, shift)) <==> reachable[i] && |text| < TWO32 - 1)
      && (forall j :: 0 <= j < |ports| && j != i ==> !outcomes[j].Processed?)
  {
    if target in ports {
      var i :| 0 <= i < |ports| && ports[i] == target;
      DeliveredExactly(target, shift, text, target);
      assert outcomes[i] == Processed(Cipher(text, shift)) <==> reachable[i] && |text| < TWO32 - 1;
    }
  }
}
