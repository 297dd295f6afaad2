/**
 What the server of P3/HAJA answers, told on the bytes that it receives: which
 header lines are understood, and what each of them gets.
 */
module TextReply {
  import opened CText
  import opened Caesar
  import opened Numerals
  import opened Sockets
  import opened TextProtocol

  /** The bytes of an ASCII text. */
  function Ascii(text: string): seq<byte>
    requires forall i :: 0 <= i < |text| ==> text[i] < '\U{80}'
  {
    seq(|text|, i requires 0 <= i < |text| => text[i] as int)
  }

  /** The words of the protocol. */
  lemma Wording()
    ensures PORTO == Ascii("PORTO=") && SHIFT == Ascii(";SHIFT=") && LEN == Ascii(";LEN=")
    ensures DONE == Ascii("PROCESADO\n") + [0] && REFUSED == Ascii("RECHAZADO\n")
  {
  }

  /** A header: the three names, each followed by a number, and then anything. */
  datatype Parts = Parts(a: seq<byte>, x: int, b: seq<byte>, y: int, c: seq<byte>, z: int, rest: seq<byte>)

  ghost predicate HeaderText(t: seq<byte>, p: Parts) {
    && t == PORTO + (p.a + (SHIFT + (p.b + (LEN + (p.c + p.rest)))))
    && Spells(p.a, p.x) && Spells(p.b, p.y) && Spells(p.c, p.z) && Stops(p.rest)
  }

  /** A name and the number after it. */
  lemma FieldBegun(name: seq<byte>, w: seq<byte>, v: int, rest: seq<byte>)
    requires Spells(w, v) && Stops(rest)
    ensures Field(name, name + (w + rest)) == Match(v, rest)
  {
    assert (name + (w + rest))[|name|..] == w + rest;
    ScanBegun(w + rest, w, v, rest);
  }

  lemma FieldFinds(name: seq<byte>, s: seq<byte>) returns (w: seq<byte>)
    requires Field(name, s).Match?
    ensures s == name + (w + Field(name, s).rest) && Spells(w, Field(name, s).value) && Stops(Field(name, s).rest)
  {
    w := ScanFinds(s[|name|..]);
    assert s == name + s[|name|..];
  }

  lemma ParseHeaderText(t: seq<byte>, p: Parts)
    requires HeaderText(t, p)
    ensures ParseHeader(t) == Fields(Narrow(p.x), Narrow(p.y), p.z % TWO64)
  {
    var after := LEN + (p.c + p.rest);
    FieldBegun(PORTO, p.a, p.x, SHIFT + (p.b + after));
    FieldBegun(SHIFT, p.b, p.y, after);
    FieldBegun(LEN, p.c, p.z, p.rest);
  }

  lemma HeaderFound(t: seq<byte>) returns (p: Parts)
    requires ParseHeader(t).Fields?
    ensures HeaderText(t, p)
  {
    var first := Field(PORTO, t);
    var second := Field(SHIFT, first.rest);
    var third := Field(LEN, second.rest);
    var a := FieldFinds(PORTO, t);
    var b := FieldFinds(SHIFT, first.rest);
    var c := FieldFinds(LEN, second.rest);
    p := Parts(a, first.value, b, second.value, c, third.value, third.rest);
  }

  /** A header is understood exactly when it has the three names with their numbers, and then as these. */
  lemma HeaderExactly(t: seq<byte>)
    ensures ParseHeader(t).Unreadable? <==> !exists p: Parts :: HeaderText(t, p)
    ensures forall p: Parts :: HeaderText(t, p) ==>
              ParseHeader(t) == Fields(Narrow(p.x), Narrow(p.y), p.z % TWO64)
  {
    forall p: Parts | HeaderText(t, p)
      ensures ParseHeader(t) == Fields(Narrow(p.x), Narrow(p.y), p.z % TWO64)
    {
      ParseHeaderText(t, p);
    }
    if ParseHeader(t).Fields? {
      var p := HeaderFound(t);
    }
  }

  /** The header line of a stream, of at most 255 bytes, and what follows it. */
  ghost predicate FirstLine(req: seq<byte>, line: seq<byte>, rest: seq<byte>) {
    && req == line + rest && |line| <= 255
    && (forall i :: 0 <= i < |line| - 1 ==> line[i] != NEWLINE)
    && (rest == [] || |line| == 255 || (|line| > 0 && line[|line| - 1] == NEWLINE))
  }

  lemma FirstLineEnd(req: seq<byte>, line: seq<byte>, rest: seq<byte>)
    requires FirstLine(req, line, rest)
    ensures LineEnd(req, 0, LINE_MAX - 1) == |line| && req[..|line|] == line && req[|line|..] == rest
  {
    var n := |line|;
    assert forall i :: 0 <= i < n ==> req[i] == line[i];
    if n > 0 && line[n - 1] == NEWLINE {
      LineEndAt(req, 0, n - 1, LINE_MAX - 1);
    } else {
      LineEndOpen(req, 0, n, LINE_MAX - 1);
    }
  }

  /** Every stream has its header line. */
  lemma FirstLineExists(req: seq<byte>)
    ensures var n := LineEnd(req, 0, LINE_MAX - 1); FirstLine(req, req[..n], req[n..])
  {
    LineEndStops(req, 0, LINE_MAX - 1);
    NoEarlierEnd(req, 0, LINE_MAX - 1);
    var n := LineEnd(req, 0, LINE_MAX - 1);
    assert req == req[..n] + req[n..];
  }

  lemma {:induction false} NoEarlierEnd(s: seq<byte>, n: nat, limit: nat)
    requires n <= limit && n <= |s|
    ensures forall i :: n <= i < LineEnd(s, n, limit) - 1 ==> s[i] != NEWLINE
    decreases limit - n
  {
    if n == limit || n == |s| || s[n] == NEWLINE {
    } else {
      NoEarlierEnd(s, n + 1, limit);
    }
  }

  /**
   An understood header is answered by nothing when the body cannot be held or is cut
   short; otherwise by the encrypted body on the port of its first number, and by a
   refusal on every other port.
   */
  lemma UnderstoodLine(req: seq<byte>, line: seq<byte>, rest: seq<byte>, p: Parts, port: int32, memory: nat)
    requires FirstLine(req, line, rest) && HeaderText(CStr(line), p)
    ensures var len := p.z % TWO64;
            Reply(req, port, memory) ==
              if len + 1 > memory || |rest| < len then []
              else if Narrow(p.x) == port then
                Ascii("PROCESADO\n") + [0] + Cipher(CStr(rest[..len]), Narrow(p.y)) + [NEWLINE]
              else Ascii("RECHAZADO\n")
  {
    FirstLineEnd(req, line, rest);
    ParseHeaderText(CStr(line), p);
    Wording();
    if |rest| >= p.z % TWO64 {
      CipherKeepsStrLen(rest[..p.z % TWO64], Narrow(p.y));
    }
  }

  /** A line that is not such a header is refused on every port, whatever follows it. */
  lemma RefusedLine(req: seq<byte>, line: seq<byte>, rest: seq<byte>, port: int32, memory: nat)
    requires FirstLine(req, line, rest) && line != [] && !exists p: Parts :: HeaderText(CStr(line), p)
    ensures Reply(req, port, memory) == Ascii("RECHAZADO\n")
  {
    FirstLineEnd(req, line, rest);
    HeaderExactly(CStr(line));
    Wording();
  }

  /** What starts like an answer with a ciphertext is no refusal. */
  ghost predicate Processed(reply: seq<byte>) { |reply| > 0 && reply[0] == DONE[0] }

  lemma StartsProcessed(reply: seq<byte>)
    requires Ascii("PROCESADO") <= reply
    ensures Processed(reply)
  {
    assert Ascii("PROCESADO")[0] == DONE[0];
  }

  lemma ProcessedRead(req: seq<byte>, line: seq<byte>, rest: seq<byte>, port: int32, memory: nat)
    requires FirstLine(req, line, rest) && Processed(Reply(req, port, memory))
    ensures ParseHeader(CStr(line)).Fields?
  {
    FirstLineEnd(req, line, rest);
    assert REFUSED[0] != DONE[0];
  }

  lemma ProcessedNamed(req: seq<byte>, line: seq<byte>, rest: seq<byte>, p: Parts, port: int32, memory: nat)
    requires FirstLine(req, line, rest) && HeaderText(CStr(line), p)
    ensures Processed(Reply(req, port, memory)) ==> Narrow(p.x) == port && |rest| >= p.z % TWO64
  {
    FirstLineEnd(req, line, rest);
    ParseHeaderText(CStr(line), p);
    assert REFUSED[0] != DONE[0];
  }

  /** Only a header that names the port, and has its body, is answered with a ciphertext. */
  lemma DoneOnlyWhenNamed(req: seq<byte>, port: int32, memory: nat)
    returns (line: seq<byte>, rest: seq<byte>, p: Parts)
    requires Ascii("PROCESADO") <= Reply(req, port, memory)
    ensures FirstLine(req, line, rest) && HeaderText(CStr(line), p)
    ensures Narrow(p.x) == port && |rest| >= p.z % TWO64
  {
    var n := LineEnd(req, 0, LINE_MAX - 1);
    line, rest := req[..n], req[n..];
    FirstLineExists(req);
    StartsProcessed(Reply(req, port, memory));
    ProcessedRead(req, line, rest, port, memory);
    p := HeaderFound(CStr(line));
    ProcessedNamed(req, line, rest, p, port, memory);
  }

  /** A line that starts otherwise than with the first name is refused. */
  lemma RefusedStart(req: seq<byte>, line: seq<byte>, rest: seq<byte>, port: int32, memory: nat)
    requires FirstLine(req, line, rest) && line != [] && !(Ascii("PORTO=") <= CStr(line))
    ensures Reply(req, port, memory) == Ascii("RECHAZADO\n")
  {
    Wording();
    RefusedLine(req, line, rest, port, memory);
  }

  /** So is a line that breaks off anywhere before its third number. */
  lemma RefusedBroken(req: seq<byte>, line: seq<byte>, rest: seq<byte>, p: Parts, port: int32, memory: nat)
    requires FirstLine(req, line, rest) && line != []
    requires Spells(p.a, p.x) && Spells(p.b, p.y)
    requires CStr(line) <= PORTO + (p.a + (SHIFT + (p.b + LEN)))
    ensures Reply(req, port, memory) == Ascii("RECHAZADO\n")
  {
    forall q: Parts ensures !HeaderText(CStr(line), q) {
      BrokenOff(CStr(line), p, q);
    }
    RefusedLine(req, line, rest, port, memory);
  }

  /** Whatever follows the second number and its name is the same in both readings. */
  lemma SameTail(p: Parts, q: Parts, last: seq<byte>, tail: seq<byte>)
    requires Spells(p.a, p.x) && Spells(p.b, p.y) && Spells(q.a, q.x) && Spells(q.b, q.y)
    requires Stops(last) && Stops(tail)
    requires PORTO + (p.a + (SHIFT + (p.b + last))) == PORTO + (q.a + (SHIFT + (q.b + tail)))
    ensures last == tail
  {
    FieldBegun(PORTO, p.a, p.x, SHIFT + (p.b + last));
    FieldBegun(PORTO, q.a, q.x, SHIFT + (q.b + tail));
    FieldBegun(SHIFT, p.b, p.y, last);
    FieldBegun(SHIFT, q.b, q.y, tail);
  }

  lemma LongerText(t: seq<byte>, q: Parts, more: seq<byte>)
    requires HeaderText(t, q)
    ensures t + more == PORTO + (q.a + (SHIFT + (q.b + (LEN + (q.c + (q.rest + more))))))
  {
  }

  /** A text that breaks off before its third number has no third number. */
  lemma BrokenOff(t: seq<byte>, p: Parts, q: Parts)
    requires Spells(p.a, p.x) && Spells(p.b, p.y) && t <= PORTO + (p.a + (SHIFT + (p.b + LEN)))
    ensures !HeaderText(t, q)
  {
    if HeaderText(t, q) {
      var whole := PORTO + (p.a + (SHIFT + (p.b + LEN)));
      var more := whole[|t|..];
      var tail := LEN + (q.c + (q.rest + more));
      SpellsSome(q.c, q.z);
      assert |tail| > |LEN|;
      assert whole == t + more;
      LongerText(t, q, more);
      SameTail(p, q, LEN, tail);
      assert false;
    }
  }

  lemma SpellsSome(w: seq<byte>, v: int)
    requires Spells(w, v)
    ensures |w| > 0
  {
  }

  /** A body that is cut short gets no reply at all. */
  lemma CutBody(porto: int32, shift: int32, msg: seq<byte>, n: nat, port: int32, memory: nat)
    requires n < |msg| < TWO64
    ensures Reply(Header(porto, shift, |msg|) + msg[..n], port, memory) == []
  {
    HeaderShape(porto, shift, |msg|);
    HeaderRoundTrip(porto, shift, |msg|);
    ReplyToLine(Header(porto, shift, |msg|), msg[..n], port, memory);
  }
}
