/**
 The client of P3/HAJA beyond a single connection: its loop over the servers, and
 what it shows of a reply that arrives in parts.
 */
module TextClient {
  import opened CText
  import opened Caesar
  import opened Sockets
  import opened TextProtocol

  // ----- the client's loop over the servers -----

  /** What became of one connection: it failed, or the server answered with these bytes, which may be none. */
  datatype Outcome = Failed | Answered(reply: seq<byte>)

  /** What a server on `port` is expected to answer to a text without NUL. */
  function Expected(porto: int32, shift: int32, msg: seq<byte>, port: int32): seq<byte> {
    if porto == port then DONE + Cipher(CStr(msg), shift) + [NEWLINE] else REFUSED
  }

  /** What the loop may report of a server. Without signals, and with room for the header, nothing is lost. */
  ghost predicate Possible(o: Outcome, expected: seq<byte>, reachable: bool, sendable: bool, calm: bool) {
    && (o.Answered? && o.reply != [] ==> reachable && o.reply == expected)
    && (reachable && sendable ==> o.Answered?)
    && (reachable && sendable && calm ==> o == Answered(expected))
  }

  ghost predicate Sendable(porto: int32, shift: int32, msg: seq<byte>, clientSignals: nat, room: nat) {
    clientSignals == 0 && |Header(porto, shift, |msg|)| <= room
  }

  /** `mandar` for one server. */
  method Attempt(porto: int32, shift: int32, msg: seq<byte>, port: int32, reachable: bool, memory: nat,
                 clientSignals: nat, serverSignals: nat, room: nat)
    returns (o: Outcome)
    requires |msg| < memory < TWO64
    ensures Possible(o, Expected(porto, shift, msg, port), reachable,
                     Sendable(porto, shift, msg, clientSignals, room), serverSignals == 0)
  {
    if !reachable { return Failed; }
    var sent, reply := Exchange(porto, shift, msg, port, memory, clientSignals, serverSignals, room);
    return if sent == 0 then Answered(reply) else Failed;
  }

  /** The loop of the client's `main`: a server that fails is passed over. */
  method RunClient(porto: int32, shift: int32, msg: seq<byte>, ports: seq<int32>, reachable: seq<bool>, memory: nat,
                   clientSignals: nat, serverSignals: nat, room: nat)
    returns (outcomes: seq<Outcome>)
    requires |msg| < memory < TWO64 && |reachable| == |ports|
    ensures |outcomes| == |ports|
    ensures forall i :: 0 <= i < |ports| ==>
      Possible(outcomes[i], Expected(porto, shift, msg, ports[i]), reachable[i],
               Sendable(porto, shift, msg, clientSignals, room), serverSignals == 0)
  {
    outcomes := [];
    for i := 0 to |ports|
      invariant |outcomes| == i
      invariant forall j :: 0 <= j < i ==>
        Possible(outcomes[j], Expected(porto, shift, msg, ports[j]), reachable[j],
                 Sendable(porto, shift, msg, clientSignals, room), serverSignals == 0)
    {
      var o := Attempt(porto, shift, msg, ports[i], reachable[i], memory, clientSignals, serverSignals, room);
      outcomes := outcomes + [o];
    }
  }

  /**
   What the loop's outcomes say about servers on different ports: whatever signals
   come, no server but the target's answers with a ciphertext; without any, the
   target's answers with the whole of it exactly when it can be reached and the text
   holds no NUL.
   */
  lemma OneServerEncrypts(porto: int32, shift: int32, msg: seq<byte>, ports: seq<int32>, reachable: seq<bool>,
                          sendable: bool, calm: bool, outcomes: seq<Outcome>, i: nat)
    requires forall k, j :: 0 <= k < j < |ports| ==> ports[k] != ports[j]
    requires |outcomes| == |ports| == |reachable| && i < |ports| && ports[i] == porto
    requires forall j :: 0 <= j < |ports| ==>
      Possible(outcomes[j], Expected(porto, shift, msg, ports[j]), reachable[j], sendable, calm)
    ensures forall j :: 0 <= j < |ports| && j != i ==> RefusedAt(outcomes[j])
    ensures outcomes[i] == Answered(DONE + Cipher(msg, shift) + [NEWLINE]) ==> reachable[i] && NUL !in msg
    ensures sendable && calm && reachable[i] && NUL !in msg ==>
      outcomes[i] == Answered(DONE + Cipher(msg, shift) + [NEWLINE])
  {
    WholeText(shift, msg);
    forall j | 0 <= j < |ports| && j != i ensures RefusedAt(outcomes[j]) {
      assert ports[j] != ports[i];
      assert Possible(outcomes[j], REFUSED, reachable[j], sendable, calm);
    }
    assert Possible(outcomes[i], Expected(porto, shift, msg, ports[i]), reachable[i], sendable, calm);
    assert |DONE + Cipher(msg, shift) + [NEWLINE]| > 0;
  }

  ghost predicate RefusedAt(o: Outcome) { o.Answered? ==> o.reply == [] || o.reply == REFUSED }

  lemma WholeText(shift: int32, msg: seq<byte>)
    ensures DONE + Cipher(CStr(msg), shift) + [NEWLINE] == DONE + Cipher(msg, shift) + [NEWLINE] <==> NUL !in msg
  {
    if NUL !in msg {
      CStrWhole(msg);
    } else {
      assert |CStr(msg)| < |msg|;
      assert |DONE + Cipher(CStr(msg), shift) + [NEWLINE]| < |DONE + Cipher(msg, shift) + [NEWLINE]|;
    }
  }

  // ----- what the client shows of a reply -----

  const SHOWN_MAX := 1024   // the client's receive buffer

  /** Each part is printed as a string of its own, up to its first NUL. */
  function Shown(parts: seq<seq<byte>>): seq<byte> {
    if |parts| == 0 then [] else CStr(parts[0]) + Shown(parts[1..])
  }

  lemma {:induction false} JoinLast(parts: seq<seq<byte>>, part: seq<byte>)
    ensures Join(parts + [part]) == Join(parts) + part && Shown(parts + [part]) == Shown(parts) + CStr(part)
  {
    if |parts| == 0 {
      assert (parts + [part])[1..] == [];
    } else {
      assert (parts + [part])[1..] == parts[1..] + [part];
      JoinLast(parts[1..], part);
      Regroup(parts[0], Join(parts[1..]), part);
      Regroup(CStr(parts[0]), Shown(parts[1..]), CStr(part));
    }
  }

  /** The parts that have arrived, none of them empty, and what is left make up the stream. */
  ghost predicate Showing(stream: seq<byte>, parts: seq<seq<byte>>, left: seq<byte>) {
    && stream == Join(parts) + left
    && forall i :: 0 <= i < |parts| ==> 0 < |parts[i]| <= SHOWN_MAX
  }

  lemma ShowingNext(stream: seq<byte>, parts: seq<seq<byte>>, left: seq<byte>, part: seq<byte>, after: seq<byte>)
    requires Showing(stream, parts, left) && left == part + after && 0 < |part| <= SHOWN_MAX
    ensures Showing(stream, parts + [part], after) && Shown(parts + [part]) == Shown(parts) + CStr(part)
  {
    JoinLast(parts, part);
    Regroup(Join(parts), part, after);
  }

  /** The loop that prints what arrives, until the stream ends or a call fails. */
  method ShowReply(s: Socket) returns (shown: seq<byte>, ghost parts: seq<seq<byte>>)
    modifies s`input, s`interrupts, s`hits
    ensures Showing(old(s.input), parts, s.input) && shown == Shown(parts)
    ensures s.reliable && s.interrupts == old(s.interrupts) ==> s.input == []
    ensures s.hits == old(s.hits) + (if s.interrupts < old(s.interrupts) then [s.input] else [])
  {
    shown, parts := [], [];
    var buf := new byte[SHOWN_MAX + 1];
    while true
      invariant Showing(old(s.input), parts, s.input) && shown == Shown(parts)
      invariant s.interrupts == old(s.interrupts) && s.hits == old(s.hits)
      decreases |s.input|
    {
      ghost var left := s.input;
      var r, errno := s.Recv(buf, 0, SHOWN_MAX);
      if r <= 0 { break; }
      buf[r] := NUL;
      ghost var part := left[..r];
      assert buf[..r] == part && buf[..][r] == NUL;
      CStrOfPrefix(part, buf[..]);
      ShowingNext(old(s.input), parts, left, part, s.input);
      shown, parts := shown + CStr(buf[..]), parts + [part];
    }
  }

  /** How many bytes stand in the same part after place `at` of the stream. */
  function Hidden(parts: seq<seq<byte>>, at: nat): nat
    requires at < |Join(parts)|
  {
    if at < |parts[0]| then |parts[0]| - at - 1 else Hidden(parts[1..], at - |parts[0]|)
  }

  /** Some part ends after `n` bytes of the stream. */
  ghost predicate CutAt(parts: seq<seq<byte>>, n: nat) {
    exists i :: 0 <= i <= |parts| && |Join(parts[..i])| == n
  }

  lemma {:induction false} PlainShown(parts: seq<seq<byte>>)
    requires NUL !in Join(parts)
    ensures Shown(parts) == Join(parts)
  {
    if |parts| == 0 {
    } else {
      assert forall i :: 0 <= i < |parts[0]| ==> Join(parts)[i] == parts[0][i];
      assert forall i :: 0 <= i < |Join(parts[1..])| ==> Join(parts)[|parts[0]| + i] == Join(parts[1..])[i];
      CStrWhole(parts[0]);
      PlainShown(parts[1..]);
    }
  }

  /** A stream with one NUL. */
  ghost predicate OneNul(stream: seq<byte>, head: seq<byte>, tail: seq<byte>) {
    stream == head + [NUL] + tail && NUL !in head && NUL !in tail
  }

  /** A part that ends before the NUL. */
  lemma PartBefore(first: seq<byte>, rest: seq<byte>, head: seq<byte>, tail: seq<byte>)
    requires OneNul(first + rest, head, tail) && |first| <= |head|
    ensures CStr(first) == head[..|first|] && OneNul(rest, head[|first|..], tail)
  {
    var n, whole := |first|, head + [NUL] + tail;
    assert first == whole[..n] && rest == whole[n..];
    assert first == head[..n];
    CStrWhole(first);
  }

  /** The part that holds the NUL. */
  lemma PartAround(first: seq<byte>, rest: seq<byte>, head: seq<byte>, tail: seq<byte>)
    requires OneNul(first + rest, head, tail) && |first| > |head|
    ensures |first| - |head| - 1 <= |tail| && CStr(first) == head
    ensures rest == tail[|first| - |head| - 1..] && NUL !in rest
  {
    var n, whole := |first|, head + [NUL] + tail;
    assert first == whole[..n] && rest == whole[n..];
    assert first == head + [NUL] + tail[..n - |head| - 1];
    CStrTerminated(head, tail[..n - |head| - 1]);
  }

  lemma Rejoin(s: seq<byte>, n: nat, t: seq<byte>)
    requires n <= |s|
    ensures s[..n] + (s[n..] + t) == s + t
  {
  }

  /** All is shown but the NUL and what came after it in the same part. */
  ghost predicate ShownAs(parts: seq<seq<byte>>, head: seq<byte>, tail: seq<byte>) {
    && |head| < |Join(parts)| && Hidden(parts, |head|) <= |tail|
    && Shown(parts) == head + tail[Hidden(parts, |head|)..]
  }

  lemma ShownBefore(parts: seq<seq<byte>>, n: nat, head: seq<byte>, tail: seq<byte>)
    requires |parts| > 0 && n == |parts[0]| <= |head| && OneNul(Join(parts), head, tail)
    requires ShownAs(parts[1..], head[n..], tail)
    ensures ShownAs(parts, head, tail)
  {
    PartBefore(parts[0], Join(parts[1..]), head, tail);
    Rejoin(head, n, tail[Hidden(parts, |head|)..]);
  }

  lemma ShownHere(parts: seq<seq<byte>>, head: seq<byte>, tail: seq<byte>)
    requires |parts| > 0 && |parts[0]| > |head| && OneNul(Join(parts), head, tail)
    ensures ShownAs(parts, head, tail)
  {
    PartAround(parts[0], Join(parts[1..]), head, tail);
    PlainShown(parts[1..]);
  }

  lemma {:induction false} ShownAround(parts: seq<seq<byte>>, head: seq<byte>, tail: seq<byte>)
    requires OneNul(Join(parts), head, tail)
    ensures ShownAs(parts, head, tail)
  {
    var n := |parts[0]|;
    if n <= |head| {
      PartBefore(parts[0], Join(parts[1..]), head, tail);
      ShownAround(parts[1..], head[n..], tail);
      ShownBefore(parts, n, head, tail);
    } else {
      ShownHere(parts, head, tail);
    }
  }

  lemma JoinTake(parts: seq<seq<byte>>, i: nat)
    requires 0 < i <= |parts|
    ensures Join(parts[..i]) == parts[0] + Join(parts[1..][..i - 1])
  {
    assert parts[..i][1..] == parts[1..][..i - 1];
  }

  lemma {:induction false} HiddenNone(parts: seq<seq<byte>>, at: nat)
    requires at < |Join(parts)|
    ensures Hidden(parts, at) == 0 <==> CutAt(parts, at + 1)
  {
    var n := |parts[0]|;
    if at < n {
      JoinTake(parts, 1);
      if CutAt(parts, at + 1) {
        var i :| 0 <= i <= |parts| && |Join(parts[..i])| == at + 1;
        JoinTake(parts, i);
      }
    } else {
      HiddenNone(parts[1..], at - n);
      CutLater(parts, at + 1);
    }
  }

  lemma CutLater(parts: seq<seq<byte>>, n: nat)
    requires |parts| > 0 && n > |parts[0]|
    ensures CutAt(parts, n) <==> CutAt(parts[1..], n - |parts[0]|)
  {
    if CutAt(parts, n) {
      var i :| 0 <= i <= |parts| && |Join(parts[..i])| == n;
      JoinTake(parts, i);
    }
    if CutAt(parts[1..], n - |parts[0]|) {
      var i :| 0 <= i <= |parts[1..]| && |Join(parts[1..][..i])| == n - |parts[0]|;
      JoinTake(parts, i + 1);
    }
  }

  /**
   The status line carries its terminator, so the client shows the whole answer
   exactly when what it receives is cut right after it. Otherwise the beginning of
   the ciphertext that arrived together with the terminator is not shown.
   */
  lemma ShownAnswer(parts: seq<seq<byte>>, text: seq<byte>)
    requires NUL !in text && Join(parts) == DONE + text + [NEWLINE]
    ensures Hidden(parts, |DONE| - 1) <= |text| + 1
    ensures Shown(parts) == DONE[..|DONE| - 1] + (text + [NEWLINE])[Hidden(parts, |DONE| - 1)..]
    ensures Shown(parts) == DONE[..|DONE| - 1] + (text + [NEWLINE]) <==> CutAt(parts, |DONE|)
  {
    var head, tail := DONE[..|DONE| - 1], text + [NEWLINE];
    assert DONE == head + [NUL];
    assert OneNul(Join(parts), head, tail);
    ShownAround(parts, head, tail);
    HiddenNone(parts, |head|);
    ShorterTail(head, tail, Hidden(parts, |head|));
  }

  lemma ShorterTail(head: seq<byte>, tail: seq<byte>, k: nat)
    requires k <= |tail|
    ensures head + tail[k..] == head + tail <==> k == 0
  {
    assert |head + tail[k..]| == |head + tail| - k;
    assert tail[0..] == tail;
  }
}
