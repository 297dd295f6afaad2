/**
 The text-framed protocol of P3/HAJA: one header line with the target port, the
 shift and the length, then the body. The server answers with a line and, on the
 port that was named, the encrypted body as a C string.
 */
module TextProtocol {
  import opened CText
  import opened Caesar
  import opened Sockets

  const LINE_MAX := 256     // the server's header buffer
  const HEADER_MAX := 128   // the client's header buffer

  const PORTO: seq<byte> := [80, 79, 82, 84, 79, 61]                       // "PORTO="
  const SHIFT: seq<byte> := [59, 83, 72, 73, 70, 84, 61]                   // ";SHIFT="
  const LEN: seq<byte> := [59, 76, 69, 78, 61]                             // ";LEN="
  const DONE: seq<byte> := [80, 82, 79, 67, 69, 83, 65, 68, 79, 10, 0]     // "PROCESADO\n" with its terminator
  const REFUSED: seq<byte> := [82, 69, 67, 72, 65, 90, 65, 68, 79, 10]     // "RECHAZADO\n"

  // ----- the header -----

  /** What the client prints: `PORTO=%d;SHIFT=%d;LEN=%zu\n`. */
  function Header(porto: int32, shift: int32, len: nat): seq<byte> {
    PORTO + (Dec(porto) + (SHIFT + (Dec(shift) + (LEN + (Digits(len) + [NEWLINE])))))
  }

  datatype Fields = Fields(porto: int32, shift: int32, len: nat) | Unreadable

  /** `sscanf(line, "PORTO=%d;SHIFT=%d;LEN=%zu", …) == 3`; `%zu` takes a sign and wraps. */
  function ParseHeader(line: seq<byte>): Fields {
    var a := Field(PORTO, line);
    var b := if a.Match? then Field(SHIFT, a.rest) else NoMatch;
    var c := if b.Match? then Field(LEN, b.rest) else NoMatch;
    if c.Match? then Fields(Narrow(a.value), Narrow(b.value), c.value % TWO64) else Unreadable
  }

  /** Parsing recovers the three numbers, for every port and shift and every 64-bit length. */
  lemma HeaderRoundTrip(porto: int32, shift: int32, len: nat)
    requires len < TWO64
    ensures ParseHeader(Header(porto, shift, len)) == Fields(porto, shift, len)
  {
    var r3 := LEN + (Dec(len) + [NEWLINE]);
    var r2 := SHIFT + (Dec(shift) + r3);
    FieldRoundTrip(PORTO, porto, r2);
    FieldRoundTrip(SHIFT, shift, r3);
    FieldRoundTrip(LEN, len, [NEWLINE]);
    FieldsCombine(Header(porto, shift, len), r2, r3, [NEWLINE], porto, shift, len);
  }

  lemma FieldsCombine(line: seq<byte>, r2: seq<byte>, r3: seq<byte>, r4: seq<byte>, porto: int32, shift: int32,
                      len: nat)
    requires Field(PORTO, line) == Match(porto, r2)
    requires Field(SHIFT, r2) == Match(shift, r3)
    requires Field(LEN, r3) == Match(len, r4) && len < TWO64
    ensures ParseHeader(line) == Fields(porto, shift, len)
  {
    NarrowExact(porto);
    NarrowExact(shift);
  }

  /** Bytes that neither end a line nor a string. */
  ghost predicate Plain(s: seq<byte>) { forall i :: 0 <= i < |s| ==> s[i] != NEWLINE && s[i] != NUL }

  ghost predicate OneLine(s: seq<byte>) {
    |s| > 0 && s[|s| - 1] == NEWLINE && Plain(s[..|s| - 1])
  }

  lemma OneLinePrepend(a: seq<byte>, s: seq<byte>)
    requires Plain(a) && OneLine(s)
    ensures OneLine(a + s)
  {
    assert (a + s)[..|a + s| - 1] == a + s[..|s| - 1];
  }

  lemma FieldLine(name: seq<byte>, n: int, s: seq<byte>)
    requires Plain(name) && OneLine(s)
    ensures OneLine(name + (Dec(n) + s))
  {
    OneLinePrepend(Dec(n), s);
    OneLinePrepend(name, Dec(n) + s);
  }

  /** The header is one line without NUL and fits the buffers of both sides. */
  lemma HeaderShape(porto: int32, shift: int32, len: nat)
    requires len < TWO64
    ensures var h := Header(porto, shift, len); |h| < HEADER_MAX && |h| < LINE_MAX && OneLine(h)
  {
    HeaderLength(porto, shift, len);
    FieldLine(LEN, len, [NEWLINE]);
    FieldLine(SHIFT, shift, LEN + (Dec(len) + [NEWLINE]));
    FieldLine(PORTO, porto, SHIFT + (Dec(shift) + (LEN + (Dec(len) + [NEWLINE]))));
  }

  lemma HeaderLength(porto: int32, shift: int32, len: nat)
    requires len < TWO64
    ensures |Header(porto, shift, len)| <= 61
  {
    DecLength(porto);
    DecLength(shift);
    TwentyDigits();
    DigitsLength(len, 20);
  }

  lemma TwentyDigits()
    ensures TWO64 <= Pow10(20)
  {
    assert Pow10(4) == 10_000;
    assert Pow10(8) == 10_000 * Pow10(4);
    assert Pow10(12) == 10_000 * Pow10(8);
    assert Pow10(16) == 10_000 * Pow10(12);
    assert Pow10(20) == 10_000 * Pow10(16);
  }

  // ----- server side reading and writing -----

  /** After `n` bytes of a stream the header line has not ended yet. */
  ghost predicate LineOpen(s: seq<byte>, n: nat, limit: nat) {
    n <= |s| && n < limit && NEWLINE !in s[..n]
  }

  /** What is left of a stream at some point. */
  ghost predicate LeftOf(before: seq<byte>, after: seq<byte>) {
    |after| <= |before| && after == before[|before| - |after|..]
  }

  /** A stream was left when it had been read from `before` to `after`, with the line still open. */
  ghost predicate CutInLine(before: seq<byte>, after: seq<byte>, limit: nat) {
    LeftOf(before, after) && LineOpen(before, |before| - |after|, limit)
  }

  /** Some signal came while the header line of the stream was being read. */
  ghost predicate HitInLine(stream: seq<byte>, hits: seq<seq<byte>>) {
    exists i :: 0 <= i < |hits| && CutInLine(stream, hits[i], LINE_MAX - 1)
  }

  /** The first `n` bytes of the line have been read and it has not ended. */
  ghost predicate Reading(s: seq<byte>, n: nat, limit: nat) {
    && n <= |s| && n <= limit && (forall j :: 0 <= j < n ==> s[j] != NEWLINE)
    && LineEnd(s, n, limit) == LineEnd(s, 0, limit)
  }

  /** The line ends here or with the next byte, or it is still open after that byte; a cut here leaves it open. */
  lemma ReadingOn(s: seq<byte>, n: nat, limit: nat)
    requires Reading(s, n, limit) && n < limit
    ensures CutInLine(s, s[n..], limit)
    ensures if n == |s| then n == LineEnd(s, 0, limit)
            else if s[n] == NEWLINE then n + 1 == LineEnd(s, 0, limit)
            else Reading(s, n + 1, limit)
  {
  }

  /**
   `read_line`: byte by byte, through the newline. It gives up when a call fails, in
   the middle of the line, and at the first signal.
   */
  method ReadLine(s: Socket, buf: array<byte>) returns (r: int)
    requires buf.Length > 0
    modifies s`input, s`interrupts, s`hits, buf
    ensures s.interrupts <= old(s.interrupts)
    ensures s.hits == old(s.hits) + (if s.interrupts < old(s.interrupts) then [s.input] else [])
    ensures r != -1 ==> s.interrupts == old(s.interrupts)
    ensures s.reliable ==> (r == -1 <==> s.interrupts < old(s.interrupts))
    ensures r == -1 ==> CutInLine(old(s.input), s.input, buf.Length - 1)
    ensures r != -1 ==> r == LineEnd(old(s.input), 0, buf.Length - 1) && s.input == old(s.input)[r..]
    ensures r != -1 ==> buf[..r] == old(s.input)[..r] && buf[r] == NUL
  {
    var n := 0;
    var cell := new byte[1];
    ghost var line := s.input;
    while n + 1 < buf.Length
      invariant n < buf.Length && Reading(line, n, buf.Length - 1) && s.input == line[n..]
      invariant forall j :: 0 <= j < n ==> buf[j] == line[j]
      invariant s.interrupts == old(s.interrupts) && s.hits == old(s.hits)
      decreases buf.Length - n
    {
      var k, errno := s.Recv(cell, 0, 1);
      ReadingOn(line, n, buf.Length - 1);
      if k == 0 { break; }
      if k < 0 { return -1; }
      var c := cell[0];
      assert c == line[n];
      buf[n] := c;
      n := n + 1;
      if c == NEWLINE { break; }
    }
    buf[n] := NUL;
    return n;
  }

  /** The signals since `before` came while the stream was being read on. */
  ghost predicate HitsOf(stream: seq<byte>, before: seq<seq<byte>>, after: seq<seq<byte>>) {
    before <= after && forall i :: |before| <= i < |after| ==> LeftOf(stream, after[i])
  }

  /** `read_nbytes`: exactly `n` bytes or failure. */
  method ReadBytes(s: Socket, buf: array<byte>, n: nat) returns (r: int)
    requires n <= buf.Length
    modifies s`input, s`interrupts, s`hits, buf
    ensures s.interrupts <= old(s.interrupts)
    ensures HitsOf(old(s.input), old(s.hits), s.hits) && (n == 0 ==> s.hits == old(s.hits))
    ensures s.hits == old(s.hits) || s.interrupts < old(s.interrupts)
    ensures r == 0 ==> n <= |old(s.input)| && s.input == old(s.input)[n..]
    ensures r == 0 ==> buf[..] == old(s.input)[..n] + old(buf[n..])
    ensures r == 0 || r == -1
    ensures s.reliable ==> (r == 0 <==> n <= |old(s.input)|)
  {
    var got := 0;
    while got < n
      invariant got <= n && got <= |old(s.input)| && s.interrupts <= old(s.interrupts)
      invariant HitsOf(old(s.input), old(s.hits), s.hits) && (n == 0 ==> s.hits == old(s.hits))
      invariant s.hits == old(s.hits) || s.interrupts < old(s.interrupts)
      invariant s.input == old(s.input)[got..]
      invariant forall j :: 0 <= j < got ==> buf[j] == old(s.input)[j]
      invariant forall j :: got <= j < buf.Length ==> buf[j] == old(buf[j])
      decreases n - got, s.interrupts
    {
      var k, errno := s.Recv(buf, got, n - got);
      if k == 0 { return -1; }
      if k < 0 {
        if errno == Interrupted { continue; }
        return -1;
      }
      got := got + k;
    }
    return 0;
  }

  /** `send_all`: the whole buffer or failure. */
  method SendAll(s: Socket, buf: seq<byte>) returns (r: int)
    modifies s`output, s`interrupts
    ensures s.interrupts <= old(s.interrupts)
    ensures r == 0 || (r == -1 && !s.reliable)
    ensures r == 0 ==> s.output == old(s.output) + buf
  {
    var sent := 0;
    while sent < |buf|
      invariant sent <= |buf| && s.interrupts <= old(s.interrupts)
      invariant s.output == old(s.output) + buf[..sent]
      decreases |buf| - sent, s.interrupts
    {
      var w, errno := s.Send(buf[sent..]);
      if w <= 0 {
        if errno == Interrupted { continue; }
        return -1;
      }
      assert buf[..sent] + buf[sent..][..w] == buf[..sent + w];
      sent := sent + w;
    }
    return 0;
  }

  // ----- the server -----

  /**
   The answer of a server on `port` to a header and what follows it, when blocks
   of up to `memory` bytes can be allocated; empty when the connection is dropped.
   */
  function ReplyToFields(f: Fields, rest: seq<byte>, port: int32, memory: nat): seq<byte> {
    if f.Unreadable? then REFUSED
    else if f.len + 1 > memory || f.len > |rest| then []
    else if f.porto != port then REFUSED
    else DONE + CStr(Cipher(rest[..f.len], f.shift)) + [NEWLINE]
  }

  /** The answer to a stream. */
  function Reply(req: seq<byte>, port: int32, memory: nat): seq<byte> {
    var n := LineEnd(req, 0, LINE_MAX - 1);
    if n == 0 then [] else ReplyToFields(ParseHeader(CStr(req[..n])), req[n..], port, memory)
  }

  /** The answer of the server whose port was named. */
  method Answer(s: Socket, body: array<byte>, len: nat, shift: int32)
    requires body.Length == len + 1 && body[len] == NUL
    modifies s`output, s`interrupts, body
    ensures s.interrupts <= old(s.interrupts)
    ensures s.reliable ==>
      s.output == old(s.output) + (DONE + CStr(Cipher(old(body[..len]), shift)) + [NEWLINE])
  {
    ghost var before := body[..];
    EncryptString(body, shift);
    assert before == before[..len] + [NUL];
    EncryptedInPlace(before[..len], shift, before, body[..]);
    SendAnswer(s, DONE, CStr(body[..]));
  }

  method SendAnswer(s: Socket, status: seq<byte>, text: seq<byte>)
    modifies s`output, s`interrupts
    ensures s.interrupts <= old(s.interrupts)
    ensures s.reliable ==> s.output == old(s.output) + (status + text + [NEWLINE])
  {
    var r := SendAll(s, status);
    if r == 0 {
      r := SendAll(s, text);
      r := SendAll(s, [NEWLINE]);
    }
    Regroup(old(s.output), status, text);
    Regroup(old(s.output), status + text, [NEWLINE]);
  }

  /** `handle_client` from its `sscanf` on. */
  method Respond(s: Socket, f: Fields, port: int32, memory: nat)
    modifies s`input, s`output, s`interrupts, s`hits
    ensures s.interrupts <= old(s.interrupts)
    ensures HitsOf(old(s.input), old(s.hits), s.hits)
    ensures s.hits == old(s.hits) || s.interrupts < old(s.interrupts)
    ensures s.hits == old(s.hits) || old(s.input) != [] || ReplyToFields(f, old(s.input), port, memory) == []
    ensures s.reliable ==> s.output == old(s.output) + ReplyToFields(f, old(s.input), port, memory)
  {
    if f.Unreadable? {
      var _ := SendAll(s, REFUSED);
      return;
    }
    if f.len + 1 > memory { return; }
    var body := new byte[f.len + 1];
    var r := ReadBytes(s, body, f.len);
    if r != 0 { return; }
    body[f.len] := NUL;
    assert body[..f.len] == old(s.input)[..f.len];
    if f.porto == port {
      Answer(s, body, f.len, f.shift);
    } else {
      var _ := SendAll(s, REFUSED);
    }
  }

  /**
   `handle_client`: on a sound connection a signal while the header line is being
   read drops the connection without a reply, and otherwise the reply is sent whole.
   */
  method HandleClient(s: Socket, port: int32, memory: nat)
    modifies s`input, s`output, s`interrupts, s`hits
    ensures s.interrupts <= old(s.interrupts)
    ensures old(s.hits) <= s.hits && (s.hits == old(s.hits) || s.interrupts < old(s.interrupts))
    ensures s.reliable ==>
      s.output == old(s.output) +
      if HitInLine(old(s.input), s.hits[|old(s.hits)|..]) then [] else Reply(old(s.input), port, memory)
  {
    ghost var stream, before := s.input, s.hits;
    var line := new byte[LINE_MAX];
    var n := ReadLine(s, line);
    if n < 0 {
      assert s.reliable ==> s.hits[|before|..] == [s.input] && s.hits[|before|..][0] == s.input;
      return;
    }
    if n == 0 {
      assert s.hits[|before|..] == [];
      return;
    }
    CStrOfPrefix(line[..n], line[..]);
    Respond(s, ParseHeader(CStr(line[..])), port, memory);
    LineClosed(stream, n, before, s.hits);
  }

  /** Where the header line has been read, it is still open only at the end of the stream. */
  lemma OpenAtEnd(stream: seq<byte>, n: nat, m: nat)
    requires n == LineEnd(stream, 0, LINE_MAX - 1) && n <= m && LineOpen(stream, m, LINE_MAX - 1)
    ensures n == |stream|
  {
    LineEndStops(stream, 0, LINE_MAX - 1);
    assert forall j :: 0 <= j < m ==> stream[..m][j] == stream[j];
  }

  /** No signal after the header line has been read came in the header, unless the stream ended there. */
  lemma LineClosed(stream: seq<byte>, n: nat, before: seq<seq<byte>>, after: seq<seq<byte>>)
    requires n == LineEnd(stream, 0, LINE_MAX - 1) && HitsOf(stream[n..], before, after)
    ensures HitInLine(stream, after[|before|..]) ==> n == |stream| && before != after
  {
    if HitInLine(stream, after[|before|..]) {
      var i :| 0 <= i < |after[|before|..]| && CutInLine(stream, after[|before|..][i], LINE_MAX - 1);
      var left := after[|before| + i];
      assert LeftOf(stream[n..], left);
      OpenAtEnd(stream, n, |stream| - |left|);
    }
  }

  /** Encrypting the string in a terminated buffer encrypts the string that the text is. */
  lemma EncryptedInPlace(text: seq<byte>, shift: int, before: seq<byte>, after: seq<byte>)
    requires before == text + [NUL]
    requires after == Cipher(before[..StrLen(before)], shift) + before[StrLen(before)..]
    ensures CStr(after) == CStr(Cipher(text, shift))
  {
    var n := StrLen(before);
    CStrOfPrefix(text, before);
    assert before[..n] == CStr(text);
    CipherKeepsStrLen(text, shift);
    CipherKeepsClass(CStr(text), shift);
    StrLenUnique(after, n);
    assert after[..n] == Cipher(CStr(text), shift);
  }

  // ----- the client and the whole exchange -----

  /** The body loop of `mandar`, which gives up at the first call that fails. */
  method SendBody(s: Socket, msg: seq<byte>) returns (r: int)
    modifies s`output, s`interrupts
    ensures r == 0 || r == -1
    ensures s.interrupts <= old(s.interrupts)
    ensures r == 0 ==> s.output == old(s.output) + msg
    ensures r == -1 ==> old(s.output) <= s.output <= old(s.output) + msg
    ensures r == 0 ==> s.interrupts == old(s.interrupts)
    ensures s.reliable ==> (r == -1 <==> s.interrupts < old(s.interrupts))
    ensures s.interrupts >= old(s.interrupts) - 1
  {
    var sent := 0;
    while sent < |msg|
      invariant sent <= |msg| && s.interrupts == old(s.interrupts)
      invariant s.output == old(s.output) + msg[..sent]
    {
      var w, errno := s.Send(msg[sent..]);
      if w <= 0 { return -1; }
      assert msg[..sent] + msg[sent..][..w] == msg[..sent + w];
      sent := sent + w;
    }
    return 0;
  }

  /** Some bytes of a header, but not all, were put on a stream. */
  ghost predicate TakenShort(before: seq<byte>, header: seq<byte>, after: seq<byte>) {
    exists w :: 0 < w < |header| && after == before + header[..w]
  }

  /**
   The sending half of `mandar`: success means that header and body are on the
   stream, whole and in order. It fails at the first call that fails, and when the
   connection takes only a part of the header.
   */
  method SendRequest(s: Socket, porto: int32, shift: int32, msg: seq<byte>) returns (r: int)
    modifies s`output, s`interrupts
    ensures r == 0 || r == -1
    ensures s.interrupts <= old(s.interrupts)
    ensures r == 0 ==> s.output == old(s.output) + (Header(porto, shift, |msg|) + msg)
    ensures r == -1 ==> old(s.output) <= s.output <= old(s.output) + (Header(porto, shift, |msg|) + msg)
    ensures r == 0 ==> s.interrupts == old(s.interrupts)
    ensures s.reliable ==>
      (r == -1 <==> s.interrupts < old(s.interrupts) ||
                    TakenShort(old(s.output), Header(porto, shift, |msg|), s.output))
    ensures s.reliable && |Header(porto, shift, |msg|)| <= s.room ==> (r == -1 <==> s.interrupts < old(s.interrupts))
  {
    r := SendBoth(s, Header(porto, shift, |msg|), msg);
  }

  method SendBoth(s: Socket, header: seq<byte>, msg: seq<byte>) returns (r: int)
    requires header != []
    modifies s`output, s`interrupts
    ensures r == 0 || r == -1
    ensures s.interrupts <= old(s.interrupts)
    ensures r == 0 ==> s.output == old(s.output) + (header + msg)
    ensures r == -1 ==> old(s.output) <= s.output <= old(s.output) + (header + msg)
    ensures r == 0 ==> s.interrupts == old(s.interrupts)
    ensures s.reliable ==>
      (r == -1 <==> s.interrupts < old(s.interrupts) || TakenShort(old(s.output), header, s.output))
    ensures s.reliable && |header| <= s.room ==> (r == -1 <==> s.interrupts < old(s.interrupts))
  {
    var w, errno := s.Send(header);
    if w != |header| {
      assert w > 0 ==> 0 < w < |header| && s.output == old(s.output) + header[..w];
      return -1;
    }
    assert header[..w] == header;
    Regroup(old(s.output), header, msg);
    r := SendBody(s, msg);
  }

  /** A header line, whatever its spelling, cuts the stream where it ends. */
  lemma ReplyToLine(line: seq<byte>, msg: seq<byte>, port: int32, memory: nat)
    requires |line| < LINE_MAX && OneLine(line)
    ensures Reply(line + msg, port, memory) == ReplyToFields(ParseHeader(line), msg, port, memory)
  {
    var req, k := line + msg, |line| - 1;
    assert req[..k] == line[..k];
    LineEndAt(req, 0, k, LINE_MAX - 1);
    assert req[..|line|] == line;
    assert NUL !in line by {
      assert forall i :: 0 <= i < k ==> line[i] == line[..k][i];
    }
    CStrWhole(line);
    assert req[|line|..] == msg;
  }

  /** The reply to a request of the client, for every body that fits the server's memory. */
  lemma ReplyToRequest(porto: int32, shift: int32, msg: seq<byte>, port: int32, memory: nat)
    requires |msg| < memory < TWO64
    ensures Reply(Header(porto, shift, |msg|) + msg, port, memory) ==
            if porto == port then DONE + Cipher(CStr(msg), shift) + [NEWLINE] else REFUSED
  {
    HeaderShape(porto, shift, |msg|);
    HeaderRoundTrip(porto, shift, |msg|);
    ReplyToLine(Header(porto, shift, |msg|), msg, port, memory);
    assert msg[..|msg|] == msg;
    CipherKeepsStrLen(msg, shift);
  }

  /** The whole ciphertext comes back exactly when the named port is the server's and the body holds no NUL. */
  lemma WholeReply(porto: int32, shift: int32, msg: seq<byte>, port: int32, memory: nat)
    requires |msg| < memory < TWO64
    ensures Reply(Header(porto, shift, |msg|) + msg, port, memory) == DONE + Cipher(msg, shift) + [NEWLINE]
            <==> porto == port && NUL !in msg
  {
    ReplyToRequest(porto, shift, msg, port, memory);
    var reply := DONE + Cipher(CStr(msg), shift) + [NEWLINE];
    if porto == port && NUL !in msg {
      CStrWhole(msg);
    } else if porto == port {
      assert StrLen(msg) < |msg|;
      assert |reply| < |DONE + Cipher(msg, shift) + [NEWLINE]|;
    } else {
      assert REFUSED[0] == 82 && (DONE + Cipher(msg, shift) + [NEWLINE])[0] == 80;
    }
  }

  /**
   One connection of the client with the server that answers it. A request sent
   whole gets the expected reply. Without signals on a connection with room for the
   header the request is sent whole and answered; a reply fails to come only when a
   signal reaches the server.
   */
  method Exchange(porto: int32, shift: int32, msg: seq<byte>, port: int32, memory: nat,
                  clientSignals: nat, serverSignals: nat, room: nat)
    returns (sent: int, reply: seq<byte>)
    requires |msg| < memory < TWO64
    ensures sent == 0 && reply != [] ==>
      reply == if porto == port then DONE + Cipher(CStr(msg), shift) + [NEWLINE] else REFUSED
    ensures clientSignals == 0 && |Header(porto, shift, |msg|)| <= room ==> sent == 0
    ensures sent == 0 && serverSignals == 0 ==> reply != []
  {
    var s := new Socket([], clientSignals, true, room);
    sent := SendRequest(s, porto, shift, msg);
    if sent != 0 { return sent, []; }
    assert s.output == Header(porto, shift, |msg|) + msg;
    var peer := new Socket(s.output, serverSignals, true);
    ReplyToRequest(porto, shift, msg, port, memory);
    HandleClient(peer, port, memory);
    reply := peer.output;
  }
}
