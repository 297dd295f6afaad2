/**
 The client and the poll server of P3/CCVM together: the client writes one message
 and sends it on all its connections.
 */
module PollDelivery {
  import opened CText
  import opened Caesar
  import PipeMessage
  import opened PollSpec
  import opened PollPass
  import opened PollHistory
  import PollServer

  /** Whoever sends anything in this pass makes the request `r`. */
  ghost predicate Says(p: Poll, r: PipeMessage.Request) {
    forall fd :: fd in p.requests ==> p.requests[fd] == r
  }

  /** All verdicts so far answer the request `r`. */
  ghost predicate Answering(s: Server, r: PipeMessage.Request) {
    forall k :: 0 <= k < |s.served| ==> s.served[k].request == r
  }

  lemma HandleAnswers(s: Server, fd: int, p: Poll, r: PipeMessage.Request)
    requires Answering(s, r) && Says(p, r)
    ensures Answering(Handle(s, fd, p), r)
  {
    if Descriptors(s) && |p.accepts| == |s.ports| && fd in Fds(s) {
      var i :| 0 <= i < |Fds(s)| && Fds(s)[i] == fd;
      HandleIsAt(s, i, p);
    }
  }

  lemma {:induction false} HandleAllAnswers(s: Server, todo: seq<int>, p: Poll, r: PipeMessage.Request)
    requires Answering(s, r) && Says(p, r)
    ensures Answering(HandleAll(s, todo, p), r)
    decreases |todo|
  {
    if |todo| == 0 {
    } else {
      HandleAnswers(s, todo[0], p, r);
      HandleAllAnswers(Handle(s, todo[0], p), todo[1..], p, r);
    }
  }

  lemma {:induction false} RunAnswers(s: Server, polls: seq<Poll>, r: PipeMessage.Request)
    requires LegalRun(s, polls) && Answering(s, r)
    requires forall k :: 0 <= k < |polls| ==> Says(polls[k], r)
    ensures Answering(Run(s, polls), r)
    decreases |polls|
  {
    if |polls| == 0 || s.status != Running {
    } else {
      HandleAllAnswers(s, Flagged(Fds(s), polls[0].ready), polls[0], r);
      RunAnswers(Pass(s, polls[0]), polls[1..], r);
    }
  }

  /** What arrives in this pass, on whatever connection, is the message `m`. */
  ghost predicate Carries(raw: PollServer.RawPoll, m: seq<byte>) {
    forall fd :: fd in raw.inbox && raw.inbox[fd] != [] ==> raw.inbox[fd] == m
  }

  lemma CarriedSays(raws: seq<PollServer.RawPoll>, m: seq<byte>, r: PipeMessage.Request)
    requires PipeMessage.Parse(CStr(m)) == r
    requires forall k :: 0 <= k < |raws| ==> Carries(raws[k], m)
    ensures forall k :: 0 <= k < |raws| ==> Says(PollServer.AbstractAll(raws)[k], r)
  {
    forall k | 0 <= k < |raws| ensures Says(PollServer.AbstractAll(raws)[k], r) {
      assert Carries(raws[k], m);
    }
  }

  /** A verdict for a text that was sent to all ports and names one of them. */
  ghost predicate Delivered(ports: seq<int32>, x: Served, content: seq<byte>, target: int32, shift: int32) {
    && x.conn.listener < |ports|
    && x.verdict == (if ports[x.conn.listener] == target then PipeMessage.Encrypted(BareCipher(content, shift))
                     else PipeMessage.Rejected)
    && (x.verdict == PipeMessage.Encrypted(Cipher(content, shift)) <==>
          ports[x.conn.listener] == target && NoUnderflow(content, shift))
  }

  /**
   When the client sends one message on all its connections, in every run the text is
   encrypted on each connection that the target's listener accepted and rejected on
   every other one, and what is saved is the Caesar image exactly when no letter of
   it underflows. The shift is what the sent part of its text spells.
   */
  lemma OneMessage(ports: seq<int32>, listeners: seq<int>, raws: seq<PollServer.RawPoll>,
                   content: seq<byte>, target: int32, shift: seq<byte>)
    requires |ports| == |listeners| > 0 && Distinct(listeners)
    requires LegalRun(Start(ports, listeners), PollServer.AbstractAll(raws))
    requires PipeMessage.Readable(content, target, shift)
    requires forall k :: 0 <= k < |raws| ==> Carries(raws[k], PipeMessage.Message(content, target, shift))
    ensures forall x :: x in Run(Start(ports, listeners), PollServer.AbstractAll(raws)).served ==>
              Delivered(ports, x, content, target, Atoi(PipeMessage.SentShift(content, target, shift)))
  {
    var key := Atoi(PipeMessage.SentShift(content, target, shift));
    var m, r := PipeMessage.Message(content, target, shift), PipeMessage.Request(content, target, key);
    var polls := PollServer.AbstractAll(raws);
    PipeMessage.MessageRead(content, target, shift);
    CarriedSays(raws, m, r);
    RunAnswers(Start(ports, listeners), polls, r);
    EveryRun(ports, listeners, polls);
    BareCipherExact(content, key);
    forall x | x in Run(Start(ports, listeners), polls).served ensures Delivered(ports, x, content, target, key) {
      assert x.request == r;
    }
  }

  /** Every connection that is ready has something in its inbox. */
  ghost predicate Arrived(s: Server, raw: PollServer.RawPoll)
    requires |raw.ready| == |Fds(s)|
  {
    forall k :: 0 <= k < |s.active| && raw.ready[|s.listeners| + k] ==>
      s.active[k].fd in raw.inbox && raw.inbox[s.active[k].fd] != []
  }

  lemma AbstractTail(raws: seq<PollServer.RawPoll>)
    requires |raws| > 0
    ensures PollServer.AbstractAll(raws)[0] == PollServer.Abstract(raws[0])
    ensures PollServer.AbstractAll(raws)[1..] == PollServer.AbstractAll(raws[1..])
  {
  }

  ghost predicate ArrivedRun(s: Server, raws: seq<PollServer.RawPoll>)
    requires LegalRun(s, PollServer.AbstractAll(raws))
    decreases |raws|
  {
    |raws| > 0 && s.status == Running ==>
      (AbstractTail(raws);
       Arrived(s, raws[0]) && ArrivedRun(Pass(s, PollServer.Abstract(raws[0])), raws[1..]))
  }

  lemma ArrivedPoll(s: Server, raw: PollServer.RawPoll, m: seq<byte>)
    requires |raw.ready| == |Fds(s)| && Arrived(s, raw) && Carries(raw, m)
    requires PipeMessage.Parse(CStr(m)).Request?
    ensures ReadablePoll(s, PollServer.Abstract(raw))
  {
  }

  lemma {:induction false} ArrivedReadable(s: Server, raws: seq<PollServer.RawPoll>, m: seq<byte>)
    requires LegalRun(s, PollServer.AbstractAll(raws)) && ArrivedRun(s, raws)
    requires PipeMessage.Parse(CStr(m)).Request?
    requires forall k :: 0 <= k < |raws| ==> Carries(raws[k], m)
    ensures ReadableRun(s, PollServer.AbstractAll(raws))
    decreases |raws|
  {
    if |raws| == 0 || s.status != Running {
    } else {
      AbstractTail(raws);
      ArrivedPoll(s, raws[0], m);
      ArrivedReadable(Pass(s, PollServer.Abstract(raws[0])), raws[1..], m);
    }
  }

  /**
   When, besides, something useful is ready in each of at least 3n - 1 passes and the
   message has arrived wherever a connection is ready, the program ends by itself with
   n such verdicts.
   */
  lemma OneMessageFinishes(ports: seq<int32>, listeners: seq<int>, raws: seq<PollServer.RawPoll>,
                           content: seq<byte>, target: int32, shift: seq<byte>)
    requires |ports| == |listeners| > 0 && Distinct(listeners)
    requires LegalRun(Start(ports, listeners), PollServer.AbstractAll(raws))
    requires PipeMessage.Readable(content, target, shift)
    requires forall k :: 0 <= k < |raws| ==> Carries(raws[k], PipeMessage.Message(content, target, shift))
    requires UsefulRun(Start(ports, listeners), PollServer.AbstractAll(raws)) && |raws| >= 3 * |ports| - 1
    requires ArrivedRun(Start(ports, listeners), raws)
    ensures var t := Run(Start(ports, listeners), PollServer.AbstractAll(raws));
            && t.status == Finished && |t.served| == |ports|
            && forall x :: x in t.served ==>
                 Delivered(ports, x, content, target, Atoi(PipeMessage.SentShift(content, target, shift)))
  {
    var m, s := PipeMessage.Message(content, target, shift), Start(ports, listeners);
    PipeMessage.MessageRead(content, target, shift);
    ArrivedReadable(s, raws, m);
    RunFinishes(ports, listeners, PollServer.AbstractAll(raws));
    OneMessage(ports, listeners, raws, content, target, shift);
  }
}
