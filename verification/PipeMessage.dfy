/**
 The message of P3/CCVM: the file's text, the port and the shift, separated by
 `|`. The server finds the last two separators from the right, so the text itself
 may hold any number of them.
 */
module PipeMessage {
  import opened CText
  import opened Caesar
  import opened Numerals

  const CAPACITY := 10239   // BUFFER_SIZE * 10 with the terminator taken off, on both sides

  // ----- the server's reading -----

  /** `strrchr`: the last place of a byte in a string, -1 when it is not there. */
  function LastIndex(s: seq<byte>, c: byte): (i: int)
    ensures -1 <= i < |s|
    ensures i >= 0 ==> s[i] == c
    ensures forall j :: i < j < |s| ==> s[j] != c
  {
    if |s| == 0 then -1
    else if s[|s| - 1] == c then |s| - 1
    else LastIndex(s[..|s| - 1], c)
  }

  lemma LastIndexUnique(s: seq<byte>, c: byte, i: nat)
    requires i < |s| && s[i] == c && forall j :: i < j < |s| ==> s[j] != c
    ensures LastIndex(s, c) == i
  {
  }

  datatype Request = Request(content: seq<byte>, port: int32, shift: int32) | Malformed

  /** A message without two separators makes `strrchr` return NULL, on which the program relies nonetheless. */
  function Parse(s: seq<byte>): Request {
    var last := LastIndex(s, PIPE);
    if last < 0 then Malformed else
      var second := LastIndex(s[..last], PIPE);
      if second < 0 then Malformed
      else Request(s[..second], Atoi(s[second + 1..last]), Atoi(s[last + 1..]))
  }

  /** The last two separators part a message, whatever stands before them. */
  lemma ParseParts(content: seq<byte>, a: seq<byte>, b: seq<byte>)
    requires PIPE !in a && PIPE !in b
    ensures Parse(content + [PIPE] + a + [PIPE] + b) == Request(content, Atoi(a), Atoi(b))
  {
    var m, p := content + [PIPE] + a + [PIPE] + b, |content| + 1 + |a|;
    LastIndexUnique(m, PIPE, p);
    assert m[..p] == content + [PIPE] + a;
    LastIndexUnique(m[..p], PIPE, |content|);
    assert m[..|content|] == content && m[|content| + 1..p] == a && m[p + 1..] == b;
  }

  /**
   A message of printed numbers is read as these, also when a newline or anything
   but a digit or a separator follows.
   */
  lemma ParsePrinted(content: seq<byte>, port: int32, shift: int32, rest: seq<byte>)
    requires Stops(rest) && PIPE !in rest
    ensures Parse(content + [PIPE] + Dec(port) + [PIPE] + (Dec(shift) + rest)) == Request(content, port, shift)
  {
    ParseParts(content, Dec(port), Dec(shift) + rest);
    AtoiOfDec(port);
    AtoiOfDecThen(shift, rest);
  }

  /** The messages without a request are exactly those with fewer than two separators. */
  lemma MalformedExactly(s: seq<byte>)
    ensures Parse(s).Malformed? <==> multiset(s)[PIPE] < 2
  {
    var last := LastIndex(s, PIPE);
    if last >= 0 {
      PipesBefore(s, last);
      var second := LastIndex(s[..last], PIPE);
      assert second >= 0 ==> s[..last][second] in multiset(s[..last]);
    }
  }

  lemma PipesBefore(s: seq<byte>, last: nat)
    requires last < |s| && s[last] == PIPE && forall j :: last < j < |s| ==> s[j] != PIPE
    ensures multiset(s)[PIPE] == multiset(s[..last])[PIPE] + 1
  {
    assert s == s[..last] + [PIPE] + s[last + 1..];
    assert PIPE !in s[last + 1..];
  }

  datatype Verdict = Encrypted(text: seq<byte>) | Rejected | Crash

  /** What a server does with a request, on the connection of the given port. */
  function Judge(r: Request, port: int32): Verdict {
    if r.Malformed? then Crash
    else if r.port == port then Encrypted(BareCipher(r.content, r.shift))
    else Rejected
  }

  /** What it does with the string in its buffer. */
  function Decide(s: seq<byte>, port: int32): Verdict { Judge(Parse(s), port) }

  /** The two cuts made in the buffer, which leave the text as a C string at its start. */
  method SplitInPlace(buffer: array<byte>) returns (r: Request)
    requires NUL in buffer[..]
    modifies buffer
    ensures r == Parse(CStr(old(buffer[..])))
    ensures r.Request? ==> |r.content| < buffer.Length && buffer[|r.content|] == NUL
    ensures r.Request? ==> buffer[..|r.content|] == r.content && NUL !in r.content
  {
    ghost var s := CStr(buffer[..]);
    var last := LastIndex(CStr(buffer[..]), PIPE);
    if last < 0 { return Malformed; }
    var shift := Atoi(CStr(buffer[..])[last + 1..]);
    buffer[last] := NUL;
    assert buffer[..last] == s[..last];
    StrLenUnique(buffer[..], last);
    var second := LastIndex(CStr(buffer[..]), PIPE);
    if second < 0 { return Malformed; }
    var port := Atoi(CStr(buffer[..])[second + 1..]);
    assert CStr(buffer[..])[second + 1..] == s[second + 1..last];
    buffer[second] := NUL;
    assert buffer[..second] == s[..second];
    return Request(buffer[..second], port, shift);
  }

  /** The handling of one message, up to the reply. */
  method DecideInPlace(buffer: array<byte>, port: int32) returns (v: Verdict)
    requires NUL in buffer[..]
    modifies buffer
    ensures v == Decide(CStr(old(buffer[..])), port)
  {
    var r := SplitInPlace(buffer);
    if r.Malformed? { return Crash; }
    if r.port != port { return Rejected; }
    var n := |r.content|;
    StrLenUnique(buffer[..], n);
    EncryptBare(buffer, r.shift);
    return Encrypted(buffer[..n]);
  }

  /** The handling of what `recv` put into the server's buffer. */
  method DecideReceived(bytes: seq<byte>, port: int32) returns (v: Verdict)
    requires |bytes| <= 10239
    ensures v == Decide(CStr(bytes), port)
  {
    var buffer := new byte[CAPACITY + 1];
    forall j | 0 <= j < |bytes| { buffer[j] := bytes[j]; }
    buffer[|bytes|] := NUL;
    assert buffer[..|bytes|] == bytes && buffer[..][|bytes|] == NUL;
    CStrOfPrefix(bytes, buffer[..]);
    v := DecideInPlace(buffer, port);
  }

  // ----- the client's writing -----

  /** `snprintf(message, …, "%s|%d|%s", …)` before it is cut to the buffer. */
  function FullMessage(content: seq<byte>, port: int32, shift: seq<byte>): seq<byte> {
    content + [PIPE] + Dec(port) + [PIPE] + shift
  }

  /** What is sent. */
  function Message(content: seq<byte>, port: int32, shift: seq<byte>): seq<byte> {
    Take(FullMessage(content, port, shift), CAPACITY)
  }

  /** Where the separator before the shift stands. */
  function ShiftPipe(content: seq<byte>, port: int32): nat { |content| + 1 + |Dec(port)| }

  /** The part of the shift's text that is sent. */
  function SentShift(content: seq<byte>, port: int32, shift: seq<byte>): seq<byte>
    requires ShiftPipe(content, port) < CAPACITY
  {
    Take(shift, CAPACITY - ShiftPipe(content, port) - 1)
  }

  lemma MessageShape(content: seq<byte>, port: int32, shift: seq<byte>)
    requires ShiftPipe(content, port) < CAPACITY
    ensures Message(content, port, shift) == FullMessage(content, port, SentShift(content, port, shift))
  {
    var m, sent := FullMessage(content, port, shift), SentShift(content, port, shift);
    if |m| > CAPACITY {
      assert m[..CAPACITY] == FullMessage(content, port, sent);
    }
  }

  lemma ParseFull(content: seq<byte>, port: int32, shift: seq<byte>)
    requires PIPE !in shift
    ensures Parse(FullMessage(content, port, shift)) == Request(content, port, Atoi(shift))
  {
    ParseParts(content, Dec(port), shift);
    AtoiOfDec(port);
  }

  lemma ParseFullWithPipe(content: seq<byte>, port: int32, shift: seq<byte>)
    requires PIPE in shift
    ensures var r := Parse(FullMessage(content, port, shift)); r.Request? && |r.content| > |content|
  {
    var m, p := FullMessage(content, port, shift), ShiftPipe(content, port);
    var j :| 0 <= j < |shift| && shift[j] == PIPE;
    assert m[p] == PIPE && m[p + 1 + j] == PIPE;
    var last := LastIndex(m, PIPE);
    assert last > p;
    assert m[..last][p] == PIPE;
  }

  /**
   The server recovers the text exactly when the separator before the shift still
   fits the client's buffer and what is sent of the shift holds no separator. It
   then recovers the port too, and the number that the sent part of the shift spells.
   */
  lemma MessageRoundTrip(content: seq<byte>, port: int32, shift: seq<byte>)
    ensures var r := Parse(Message(content, port, shift));
            r.Request? && r.content == content
            <==> ShiftPipe(content, port) < 10239 && PIPE !in SentShift(content, port, shift)
    ensures ShiftPipe(content, port) < 10239 && PIPE !in SentShift(content, port, shift) ==>
            Parse(Message(content, port, shift)) == Request(content, port, Atoi(SentShift(content, port, shift)))
  {
    if ShiftPipe(content, port) < CAPACITY {
      var sent := SentShift(content, port, shift);
      MessageShape(content, port, shift);
      if PIPE in sent {
        ParseFullWithPipe(content, port, sent);
      } else {
        ParseFull(content, port, sent);
      }
    } else {
      CutBeforeShift(content, port, shift);
    }
  }

  /** What is sent then has no separator after the first. */
  lemma CutTail(content: seq<byte>, port: int32, shift: seq<byte>, m: seq<byte>)
    requires ShiftPipe(content, port) >= CAPACITY && m == Message(content, port, shift)
    ensures |m| == CAPACITY && forall j :: |content| < j < |m| ==> m[j] != PIPE
  {
    assert forall j :: |content| < j < |m| ==> m[j] == Dec(port)[j - |content| - 1];
  }

  lemma ParsePart(m: seq<byte>, n: nat)
    requires forall j :: n < j < |m| ==> m[j] != PIPE
    ensures Parse(m).Request? ==> |Parse(m).content| < n
  {
    assert LastIndex(m, PIPE) <= n;
  }

  /** When the second separator is lost, whatever is taken for the text is shorter than the text. */
  lemma CutBeforeShift(content: seq<byte>, port: int32, shift: seq<byte>)
    requires ShiftPipe(content, port) >= CAPACITY
    ensures var r := Parse(Message(content, port, shift)); r.Request? ==> |r.content| < |content|
  {
    var m := Message(content, port, shift);
    CutTail(content, port, shift, m);
    ParsePart(m, |content|);
  }

  /** What the client sends is a C string that fits the server's buffer. */
  lemma MessageIsString(content: seq<byte>, port: int32, shift: seq<byte>)
    requires NUL !in content && NUL !in shift
    ensures var m := Message(content, port, shift); |m| <= 10239 && CStr(m) == m
  {
    CStrWhole(Message(content, port, shift));
  }

  /** A message that can be taken apart again: its separators fit the buffer, and the shift, as typed, has none. */
  ghost predicate Readable(content: seq<byte>, port: int32, shift: seq<byte>) {
    && NUL !in content && NUL !in shift
    && ShiftPipe(content, port) < 10239 && PIPE !in SentShift(content, port, shift)
  }

  lemma MessageRead(content: seq<byte>, port: int32, shift: seq<byte>)
    requires Readable(content, port, shift)
    ensures Parse(CStr(Message(content, port, shift))) == Request(content, port, Atoi(SentShift(content, port, shift)))
  {
    MessageIsString(content, port, shift);
    MessageRoundTrip(content, port, shift);
  }

  /**
   The exchange on the port asked for: what is saved is the Caesar image of the text
   under the shift exactly when no letter of it underflows.
   */
  lemma MessageEncrypted(content: seq<byte>, port: int32, shift: int32)
    requires NUL !in content && ShiftPipe(content, port) + 1 + |Dec(shift)| <= 10239
    ensures var s := CStr(Message(content, port, Dec(shift)));
            && Decide(s, port) == Encrypted(BareCipher(content, shift))
            && (Decide(s, port) == Encrypted(Cipher(content, shift)) <==> NoUnderflow(content, shift))
            && (forall other: int32 :: other != port ==> Decide(s, other) == Rejected)
  {
    assert SentShift(content, port, Dec(shift)) == Dec(shift);
    MessageRead(content, port, Dec(shift));
    AtoiOfDec(shift);
    BareCipherExact(content, shift);
  }
}
