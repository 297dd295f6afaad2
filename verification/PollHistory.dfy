/**
 What every run of the poll server comes to: which descriptor brought the request
 that a connection was judged on, which listener it came from, and how the
 verdicts are shared out.
 */
module PollHistory {
  import opened CText
  import Caesar
  import PipeMessage
  import opened PollSpec
  import opened PollPass

  // ----- one pass -----

  /** In this pass the connection was open and ready, and its own descriptor brought the request. */
  ghost predicate Read(s: Server, p: Poll, x: Served, j: nat) {
    && j < |s.active| && s.active[j] == x.conn
    && |s.listeners| + j < |p.ready| && p.ready[|s.listeners| + j]
    && x.conn.fd in p.requests && x.request == p.requests[x.conn.fd]
  }

  /** In this pass the listener was ready and idle, and its own `accept` gave the descriptor. */
  ghost predicate Taken(s: Server, p: Poll, c: Conn) {
    && c.listener < |p.ready| && c.listener < |p.accepts|
    && p.ready[c.listener] && !Busy(s, c.listener) && c.fd == p.accepts[c.listener]
  }

  lemma AnswerRead(s: Server, p: Poll, i: nat, x: Served) returns (j: nat)
    requires LegalPoll(s, p) && |p.ready[|s.listeners|..]| == |s.active|
    requires i < |Select(s.active, p.ready[|s.listeners|..], true)|
    requires x == Answers(s.ports, Select(s.active, p.ready[|s.listeners|..], true), p)[i] && x.request.Request?
    ensures Read(s, p, x, j)
  {
    j := SelectedReady(s.active, p.ready[|s.listeners|..], i);
    assert p.ready[|s.listeners|..][j] == p.ready[|s.listeners| + j];
  }

  lemma NotInFront<T>(a: seq<T>, b: seq<T>, k: nat)
    requires k < |a + b| && (a + b)[k] !in a
    ensures k >= |a| && (a + b)[k] == b[k - |a|]
  {
  }

  lemma ServedReadable(t: Server, x: Served)
    requires Valid(t) && x in t.served
    ensures x.request.Request?
  {
    var k :| 0 <= k < |t.served| && t.served[k] == x;
    VerdictsRight(t, k);
  }

  lemma NewAnswer(s: Server, answers: seq<Served>, t: Server, x: Served) returns (i: nat)
    requires Places(s) > 0 && Answered(s, answers, t) && x in t.served && x !in s.served
    ensures i < |answers| && x == answers[i]
  {
    var k :| 0 <= k < |t.served| && t.served[k] == x;
    NotInFront(s.served, answers[..|t.served| - |s.served|], k);
    i := k - |s.served|;
  }

  /** Every verdict of a pass answers what came on the connection's own descriptor. */
  lemma PassReads(s: Server, p: Poll, x: Served) returns (j: nat)
    requires Valid(s) && LegalPoll(s, p) && s.status == Running
    requires x in Pass(s, p).served && x !in s.served
    ensures Read(s, p, x, j)
  {
    PassOutcome(s, p);
    PassKeeps(s, p);
    ServedReadable(Pass(s, p), x);
    var i := NewAnswer(s, Answers(s.ports, Select(s.active, p.ready[|s.listeners|..], true), p), Pass(s, p), x);
    j := AnswerRead(s, p, i, x);
  }

  lemma {:induction false} NewConnsTaken(s: Server, p: Poll, l: nat, k: nat)
    requires Shaped(s, p) && l <= |s.listeners| && k < |NewConns(s, p, l)|
    ensures Taken(s, p, NewConns(s, p, l)[k])
  {
    if l == 0 {
    } else if k < |NewConns(s, p, l - 1)| {
      NewConnsTaken(s, p, l - 1, k);
    }
  }

  /** Every connection accepted in a pass came from its own listener. */
  lemma PassTakes(s: Server, p: Poll, c: Conn)
    requires Valid(s) && LegalPoll(s, p) && s.status == Running
    requires c in Pass(s, p).accepted && c !in s.accepted
    ensures Taken(s, p, c)
  {
    var n := |s.listeners|;
    PassOutcome(s, p);
    var k :| 0 <= k < |Pass(s, p).accepted| && Pass(s, p).accepted[k] == c;
    NewConnsTaken(s, p, n, k - |s.accepted|);
  }

  // ----- all passes of a run -----

  /** The state before pass `k`. */
  ghost function Before(s: Server, polls: seq<Poll>, k: nat): Server
    requires k <= |polls| && LegalRun(s, polls[..k])
  {
    Run(s, polls[..k])
  }

  ghost predicate Reached(s: Server, polls: seq<Poll>, k: nat) {
    k < |polls| && LegalRun(s, polls[..k]) && Before(s, polls, k).status == Running
  }

  lemma ReachedFirst(s: Server, polls: seq<Poll>)
    requires |polls| > 0 && s.status == Running
    ensures Reached(s, polls, 0) && Before(s, polls, 0) == s
  {
    assert polls[..0] == [];
  }

  lemma ReachedLater(s: Server, polls: seq<Poll>, k: nat)
    requires |polls| > 0 && s.status == Running && LegalPoll(s, polls[0])
    requires Reached(Pass(s, polls[0]), polls[1..], k)
    ensures Reached(s, polls, k + 1) && Before(s, polls, k + 1) == Before(Pass(s, polls[0]), polls[1..], k)
  {
    var some := polls[..k + 1];
    assert some[0] == polls[0] && some[1..] == polls[1..][..k];
  }

  /** Some pass of the run read this request on the connection's own descriptor. */
  lemma {:induction false} RunReads(s: Server, polls: seq<Poll>, x: Served) returns (k: nat, j: nat)
    requires Valid(s) && LegalRun(s, polls) && x in Run(s, polls).served && x !in s.served
    ensures Reached(s, polls, k) && Read(Before(s, polls, k), polls[k], x, j)
    decreases |polls|
  {
    var t := Pass(s, polls[0]);
    PassKeeps(s, polls[0]);
    if x in t.served {
      ReachedFirst(s, polls);
      k := 0;
      j := PassReads(s, polls[0], x);
    } else {
      k, j := RunReads(t, polls[1..], x);
      ReachedLater(s, polls, k);
      k := k + 1;
    }
  }

  /** Some pass of the run took this connection from its own listener. */
  lemma {:induction false} RunTakes(s: Server, polls: seq<Poll>, c: Conn) returns (k: nat)
    requires Valid(s) && LegalRun(s, polls) && c in Run(s, polls).accepted && c !in s.accepted
    ensures Reached(s, polls, k) && Taken(Before(s, polls, k), polls[k], c)
    decreases |polls|
  {
    var t := Pass(s, polls[0]);
    PassKeeps(s, polls[0]);
    if c in t.accepted {
      ReachedFirst(s, polls);
      k := 0;
      PassTakes(s, polls[0], c);
    } else {
      k := RunTakes(t, polls[1..], c);
      ReachedLater(s, polls, k);
      k := k + 1;
    }
  }

  /** Before some pass, the connection was open, and in it ready, and its own descriptor brought the request. */
  ghost predicate ReadInRun(s: Server, polls: seq<Poll>, x: Served) {
    exists k: nat, j: nat :: Reached(s, polls, k) && Read(Before(s, polls, k), polls[k], x, j)
  }

  ghost predicate TakenInRun(s: Server, polls: seq<Poll>, c: Conn) {
    exists k: nat :: Reached(s, polls, k) && Taken(Before(s, polls, k), polls[k], c)
  }

  /** The verdicts and connections of a run from the start have their origin in it. */
  ghost predicate Traced(s: Server, polls: seq<Poll>, t: Server) {
    && (forall x :: x in t.served ==> ReadInRun(s, polls, x))
    && (forall c :: c in t.accepted ==> TakenInRun(s, polls, c))
  }

  lemma RunTraced(ports: seq<int32>, listeners: seq<int>, polls: seq<Poll>)
    requires |ports| == |listeners| > 0 && Distinct(listeners) && LegalRun(Start(ports, listeners), polls)
    ensures Traced(Start(ports, listeners), polls, Run(Start(ports, listeners), polls))
  {
    var s := Start(ports, listeners);
    StartValid(ports, listeners);
    forall x | x in Run(s, polls).served ensures ReadInRun(s, polls, x) {
      var k, j := RunReads(s, polls, x);
    }
    forall c | c in Run(s, polls).accepted ensures TakenInRun(s, polls, c) {
      var k := RunTakes(s, polls, c);
    }
  }

  /**
   In every run: each connection accepted came from its own listener and has exactly
   one verdict once it is closed and none before; every verdict answers the message
   that came on the connection's own descriptor and is the right one for the listener
   that accepted the connection; and the program stops by itself exactly at the
   verdict that makes as many as there are listeners.
   */
  lemma EveryRun(ports: seq<int32>, listeners: seq<int>, polls: seq<Poll>)
    requires |ports| == |listeners| > 0 && Distinct(listeners) && LegalRun(Start(ports, listeners), polls)
    ensures var s := Start(ports, listeners); var t := Run(s, polls);
      && (forall c :: c in t.accepted ==>
            TakenInRun(s, polls, c) && Verdicts(t, c) == if c in t.active then 0 else 1)
      && (forall x :: x in t.served ==>
            && ReadInRun(s, polls, x)
            && x.conn in t.accepted && x.conn.listener < |ports| && x.request.Request?
            && x.verdict == if x.request.port == ports[x.conn.listener]
                            then PipeMessage.Encrypted(Caesar.BareCipher(x.request.content, x.request.shift))
                            else PipeMessage.Rejected)
      && |t.accepted| == |t.active| + |t.served|
      && |t.served| <= |ports| && (t.status == Finished <==> |t.served| == |ports|)
      && |Fds(t)| <= 2 * |ports|
  {
    var t := Run(Start(ports, listeners), polls);
    StartValid(ports, listeners);
    RunKeeps(Start(ports, listeners), polls);
    RunTraced(ports, listeners, polls);
    Conservation(t);
    forall c | c in t.accepted ensures Verdicts(t, c) == if c in t.active then 0 else 1 {
      OneVerdictEach(t, c);
    }
    forall k | 0 <= k < |t.served| ensures t.served[k].conn in t.accepted && RightVerdict(t, t.served[k]) {
      VerdictsRight(t, k);
    }
  }
}
