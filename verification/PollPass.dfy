/**
 What one pass of the poll server comes to, told without the order of its steps,
 and how many passes the program can take.
 */
module PollPass {
  import opened CText
  import PipeMessage
  import opened PollSpec

  /** The parts of a pass fit together. */
  ghost predicate Shaped(s: Server, p: Poll) { |s.listeners| == |s.ports| == |p.accepts| <= |p.ready| }

  /** The connections that the listeners below `l` take in: one for each that is ready and not busy. */
  ghost function NewConns(s: Server, p: Poll, l: nat): seq<Conn>
    requires Shaped(s, p) && l <= |s.listeners|
  {
    if l == 0 then [] else
      var before := NewConns(s, p, l - 1);
      if p.ready[l - 1] && !Busy(s, l - 1)
      then before + [Conn(|s.accepted| + |before|, p.accepts[l - 1], l - 1)]
      else before
  }

  /** The connections whose flag is `b`, in order. */
  function Select(conns: seq<Conn>, flags: seq<bool>, b: bool): seq<Conn>
    requires |conns| == |flags|
  {
    if |conns| == 0 then []
    else (if flags[0] == b then [conns[0]] else []) + Select(conns[1..], flags[1..], b)
  }

  function Answer(ports: seq<int32>, c: Conn, p: Poll): Served {
    var port := if c.listener < |ports| then ports[c.listener] else 0;
    var request := if c.fd in p.requests then p.requests[c.fd] else PipeMessage.Malformed;
    Served(c, request, PipeMessage.Judge(request, port))
  }

  function Answers(ports: seq<int32>, conns: seq<Conn>, p: Poll): (a: seq<Served>)
    ensures |a| == |conns|
  {
    seq(|conns|, i requires 0 <= i < |conns| => Answer(ports, conns[i], p))
  }

  // ----- the listeners' half -----

  ghost function WithNew(s: Server, p: Poll, l: nat): Server
    requires Shaped(s, p) && l <= |s.listeners|
  {
    s.(accepted := s.accepted + NewConns(s, p, l), active := s.active + NewConns(s, p, l))
  }

  lemma {:induction false} NewConnsListeners(s: Server, p: Poll, l: nat)
    requires Shaped(s, p) && l <= |s.listeners|
    ensures forall k :: 0 <= k < |NewConns(s, p, l)| ==> NewConns(s, p, l)[k].listener < l
  {
    if l == 0 {
    } else {
      NewConnsListeners(s, p, l - 1);
    }
  }

  lemma BusyWithNew(s: Server, p: Poll, l: nat)
    requires Shaped(s, p) && l < |s.listeners|
    ensures Busy(WithNew(s, p, l), l) <==> Busy(s, l)
  {
    var t := WithNew(s, p, l);
    NewConnsListeners(s, p, l);
    if Busy(s, l) {
      var k :| 0 <= k < |s.active| && s.active[k].listener == l;
      assert t.active[k].listener == l;
    }
  }

  ghost function HandleHead(s: Server, head: seq<int>, p: Poll): Server
    requires |head| <= 1
  {
    if |head| == 1 then Handle(s, head[0], p) else s
  }

  function Head(fd: int, flag: bool): seq<int> { if flag then [fd] else [] }

  lemma HandleAllNext(s: Server, head: seq<int>, rest: seq<int>, p: Poll)
    requires |head| <= 1
    ensures HandleAll(s, head + rest, p) == HandleAll(HandleHead(s, head, p), rest, p)
  {
    if |head| == 1 {
      assert (head + rest)[1..] == rest;
    } else {
      assert head + rest == rest;
    }
  }

  lemma FlaggedNext(fds: seq<int>, flags: seq<bool>, l: nat, n: nat)
    requires l < n == |fds| <= |flags|
    ensures Flagged(fds[l..], flags[l..n]) == Head(fds[l], flags[l]) + Flagged(fds[l + 1..], flags[l + 1..n])
  {
    assert fds[l..][1..] == fds[l + 1..] && flags[l..n][1..] == flags[l + 1..n];
  }

  /** The state after the first `l` listeners is a sound state of this pass. */
  ghost predicate AcceptedUpTo(s: Server, p: Poll, l: nat)
    requires Shaped(s, p) && l <= |s.listeners|
  {
    Valid(WithNew(s, p, l)) && Within(s, WithNew(s, p, l), p)
  }

  lemma AcceptStep(s: Server, p: Poll, l: nat)
    requires LegalPoll(s, p) && s.status == Running && l < |s.listeners| == |s.ports|
    requires AcceptedUpTo(s, p, l)
    ensures HandleHead(WithNew(s, p, l), Head(s.listeners[l], p.ready[l]), p) == WithNew(s, p, l + 1)
  {
    var t := WithNew(s, p, l);
    BusyWithNew(s, p, l);
    assert Fds(t)[l] == s.listeners[l];
    HandleIsAt(t, l, p);
    if p.ready[l] && !Busy(s, l) {
      var c := Conn(|t.accepted|, p.accepts[l], l);
      Regroup(s.accepted, NewConns(s, p, l), [c]);
      Regroup(s.active, NewConns(s, p, l), [c]);
    }
  }

  lemma AcceptsBegin(s: Server, p: Poll)
    requires Valid(s) && LegalPoll(s, p)
    ensures AcceptedUpTo(s, p, 0)
  {
    assert WithNew(s, p, 0) == s;
  }

  lemma {:induction false} AcceptsKeep(s: Server, p: Poll, l: nat)
    requires LegalPoll(s, p) && s.status == Running && l <= |s.listeners| == |s.ports|
    requires AcceptedUpTo(s, p, 0)
    ensures AcceptedUpTo(s, p, l)
  {
    if l == 0 {
    } else {
      AcceptsKeep(s, p, l - 1);
      AcceptStepKeeps(s, p, l - 1, l);
    }
  }

  lemma AcceptStepKeeps(s: Server, p: Poll, l: nat, next: nat)
    requires LegalPoll(s, p) && s.status == Running && l < |s.listeners| == |s.ports|
    requires AcceptedUpTo(s, p, l) && next == l + 1
    ensures AcceptedUpTo(s, p, next)
  {
    var t := WithNew(s, p, l);
    AcceptStep(s, p, l);
    if p.ready[l] {
      assert Fds(t)[l] == s.listeners[l];
      HandleIsAt(t, l, p);
      HandleKeeps(s, t, l, p);
    }
  }

  /** Each listener in turn takes the state to the next. */
  ghost predicate Steps(s: Server, p: Poll)
    requires Shaped(s, p)
  {
    forall l :: 0 <= l < |s.listeners| ==>
      HandleHead(WithNew(s, p, l), Head(s.listeners[l], p.ready[l]), p) == WithNew(s, p, l + 1)
  }

  lemma AcceptSteps(s: Server, p: Poll)
    requires Valid(s) && LegalPoll(s, p) && s.status == Running
    ensures Steps(s, p)
  {
    forall l | 0 <= l < |s.listeners|
      ensures HandleHead(WithNew(s, p, l), Head(s.listeners[l], p.ready[l]), p) == WithNew(s, p, l + 1)
    {
      AcceptsBegin(s, p);
      AcceptsKeep(s, p, l);
      AcceptStep(s, p, l);
    }
  }

  lemma {:induction false} AcceptPhase(s: Server, p: Poll, l: nat)
    requires Shaped(s, p) && Steps(s, p) && l <= |s.listeners|
    ensures HandleAll(WithNew(s, p, l), Flagged(s.listeners[l..], p.ready[l..|s.listeners|]), p)
            == WithNew(s, p, |s.listeners|)
    decreases |s.listeners| - l
  {
    var n := |s.listeners|;
    if l >= n {
    } else {
      var head, rest := Head(s.listeners[l], p.ready[l]), Flagged(s.listeners[l + 1..], p.ready[l + 1..n]);
      FlaggedNext(s.listeners, p.ready, l, n);
      HandleAllNext(WithNew(s, p, l), head, rest, p);
      AcceptPhase(s, p, l + 1);
    }
  }

  // ----- the connections' half -----

  /** How many answers come before the first one that ends the program. */
  function Sound(answers: seq<Served>): (n: nat)
    ensures n <= |answers|
  {
    if |answers| == 0 || answers[0].verdict == PipeMessage.Crash then 0 else 1 + Sound(answers[1..])
  }

  /** How many more verdicts the program gives. */
  function Places(s: Server): int { |s.ports| - |s.served| }

  /**
   From `s`, with these answers due, the program comes to `t`: it fails at the first
   unsound answer, ends at the one that fills the quota, and otherwise gives them all.
   */
  ghost predicate Answered(s: Server, answers: seq<Served>, t: Server)
    requires Places(s) > 0
  {
    var n, m := Sound(answers), Places(s);
    && (t.status == Failed <==> n < |answers| && n < m)
    && (t.status == Finished <==> m <= n)
    && t.served == s.served + answers[..if n < m then n else m]
  }

  /** `t` is what is left of `s` after the flagged connections among `rest` were answered. */
  ghost predicate AnsweredAll(s: Server, kept: seq<Conn>, rest: seq<Conn>, news: seq<Conn>, flags: seq<bool>,
                              p: Poll, t: Server)
    requires |rest| == |flags| && Places(s) > 0
  {
    && Answered(s, Answers(s.ports, Select(rest, flags, true), p), t)
    && t.accepted == s.accepted
    && (t.status == Running ==> t.active == kept + Select(rest, flags, false) + news)
  }

  ghost predicate AnsweredOne(s: Server, c: Conn, p: Poll, t: Server) {
    var a := Answer(s.ports, c, p);
    && t.accepted == s.accepted && t.ports == s.ports
    && (if a.verdict == PipeMessage.Crash then t.status == Failed && t.served == s.served
        else t.served == s.served + [a] && t.status == if |s.served| + 1 >= |s.ports| then Finished else Running)
  }

  lemma AnswerStep(s: Server, kept: seq<Conn>, rest: seq<Conn>, news: seq<Conn>, p: Poll)
    requires Valid(s) && s.status == Running && |p.accepts| == |s.ports|
    requires |rest| > 0 && s.active == kept + rest + news
    ensures rest[0].fd in Fds(s) && AnsweredOne(s, rest[0], p, Handle(s, rest[0].fd, p))
    ensures Handle(s, rest[0].fd, p).status != Failed ==> Handle(s, rest[0].fd, p).active == kept + rest[1..] + news
  {
    var i := |s.listeners| + |kept|;
    assert s.active[|kept|] == rest[0];
    assert Fds(s)[i] == rest[0].fd;
    HandleIsAt(s, i, p);
    assert Remove(s.active, |kept|) == kept + rest[1..] + news;
  }

  lemma {:induction false} ServePhase(s0: Server, s: Server, kept: seq<Conn>, rest: seq<Conn>, news: seq<Conn>,
                                      flags: seq<bool>, p: Poll)
    requires Valid(s) && LegalPoll(s0, p) && Within(s0, s, p) && s.status == Running && |s.ports| == |p.accepts|
    requires |rest| == |flags| && s.active == kept + rest + news
    ensures AnsweredAll(s, kept, rest, news, flags, p, HandleAll(s, Flagged(ConnFds(rest), flags), p))
    decreases |rest|
  {
    var todo := Flagged(ConnFds(rest), flags);
    if |rest| == 0 {
      assert kept + [] + news == s.active && Answers(s.ports, [], p) == [];
    } else {
      assert ConnFds(rest)[1..] == ConnFds(rest[1..]);
      var tail := Flagged(ConnFds(rest[1..]), flags[1..]);
      if flags[0] {
        assert todo == [rest[0].fd] + tail && todo[1..] == tail;
        ServeFlagged(s0, s, kept, rest, news, flags, p);
      } else {
        assert todo == tail;
        assert (kept + [rest[0]]) + rest[1..] + news == s.active;
        ServePhase(s0, s, kept + [rest[0]], rest[1..], news, flags[1..], p);
        SkipKept(s, kept, rest, news, flags, p, HandleAll(s, todo, p));
      }
    }
  }

  lemma SkipKept(s: Server, kept: seq<Conn>, rest: seq<Conn>, news: seq<Conn>, flags: seq<bool>, p: Poll, t: Server)
    requires |rest| == |flags| > 0 && !flags[0] && Places(s) > 0
    requires AnsweredAll(s, kept + [rest[0]], rest[1..], news, flags[1..], p, t)
    ensures AnsweredAll(s, kept, rest, news, flags, p, t)
  {
    assert (kept + [rest[0]]) + Select(rest[1..], flags[1..], false) == kept + Select(rest, flags, false);
    assert Select(rest, flags, true) == Select(rest[1..], flags[1..], true);
  }

  lemma {:induction false} ServeFlagged(s0: Server, s: Server, kept: seq<Conn>, rest: seq<Conn>,
                                        news: seq<Conn>, flags: seq<bool>, p: Poll)
    requires Valid(s) && LegalPoll(s0, p) && Within(s0, s, p) && s.status == Running && |s.ports| == |p.accepts|
    requires |rest| == |flags| > 0 && s.active == kept + rest + news && flags[0]
    ensures AnsweredAll(s, kept, rest, news, flags, p,
              HandleAll(Handle(s, rest[0].fd, p), Flagged(ConnFds(rest[1..]), flags[1..]), p))
    decreases |rest|, 0
  {
    var t, tail := Handle(s, rest[0].fd, p), Flagged(ConnFds(rest[1..]), flags[1..]);
    AnswerStep(s, kept, rest, news, p);
    if t.status == Running {
      var i :| 0 <= i < |Fds(s)| && Fds(s)[i] == rest[0].fd;
      HandleIsAt(s, i, p);
      HandleKeeps(s0, s, i, p);
      ServePhase(s0, t, kept, rest[1..], news, flags[1..], p);
    } else {
      HandleAllStopped(t, tail, p);
    }
    AnswerFirst(s, t, kept, rest, news, flags, p, HandleAll(t, tail, p));
  }

  /** The answer to the first flagged connection comes before the answers to the others. */
  lemma AnswerFirst(s: Server, t: Server, kept: seq<Conn>, rest: seq<Conn>, news: seq<Conn>, flags: seq<bool>,
                    p: Poll, end: Server)
    requires |rest| == |flags| > 0 && flags[0] && Places(s) > 0 && AnsweredOne(s, rest[0], p, t)
    requires t.status == Running ==> Places(t) > 0
    requires if t.status == Running then AnsweredAll(t, kept, rest[1..], news, flags[1..], p, end) else end == t
    ensures AnsweredAll(s, kept, rest, news, flags, p, end)
  {
    var a, more := Answer(s.ports, rest[0], p), Answers(s.ports, Select(rest[1..], flags[1..], true), p);
    assert Select(rest, flags, true) == [rest[0]] + Select(rest[1..], flags[1..], true);
    assert Select(rest, flags, false) == Select(rest[1..], flags[1..], false);
    assert Answers(s.ports, Select(rest, flags, true), p) == [a] + more;
    AnsweredCons(s, a, more, t, end);
  }

  lemma AnsweredCons(s: Server, a: Served, more: seq<Served>, t: Server, end: Server)
    requires Places(s) > 0 && t.ports == s.ports
    requires if a.verdict == PipeMessage.Crash then t.status == Failed && t.served == s.served
             else t.served == s.served + [a] && t.status == if Places(s) <= 1 then Finished else Running
    requires t.status == Running ==> Places(t) > 0
    requires if t.status == Running then Answered(t, more, end) else end == t
    ensures Answered(s, [a] + more, end)
  {
    var answers := [a] + more;
    assert answers[1..] == more;
    if t.status == Running {
      var m := if Sound(more) < Places(t) then Sound(more) else Places(t);
      assert answers[..m + 1] == [a] + more[..m];
      assert (s.served + [a]) + more[..m] == s.served + ([a] + more[..m]);
    } else if t.status == Finished {
      assert answers[..1] == [a];
    }
  }

  // ----- the pass -----

  lemma {:induction false} FlaggedConcat(a: seq<int>, b: seq<int>, fa: seq<bool>, fb: seq<bool>)
    requires |a| == |fa| && |b| == |fb|
    ensures Flagged(a + b, fa + fb) == Flagged(a, fa) + Flagged(b, fb)
  {
    if |a| == 0 {
      assert a + b == b && fa + fb == fb;
    } else {
      assert (a + b)[1..] == a[1..] + b && (fa + fb)[1..] == fa[1..] + fb;
      FlaggedConcat(a[1..], b, fa[1..], fb);
      var head := if fa[0] then [a[0]] else [];
      assert head + (Flagged(a[1..], fa[1..]) + Flagged(b, fb)) == (head + Flagged(a[1..], fa[1..])) + Flagged(b, fb);
    }
  }

  /** A pass handles the ready listeners first and then the ready connections. */
  lemma PassHalves(s: Server, p: Poll)
    requires LegalPoll(s, p)
    ensures var n := |s.listeners|;
            Pass(s, p) == HandleAll(HandleAll(s, Flagged(s.listeners, p.ready[..n]), p),
                                    Flagged(ConnFds(s.active), p.ready[n..]), p)
  {
    var n := |s.listeners|;
    assert p.ready == p.ready[..n] + p.ready[n..];
    FlaggedConcat(s.listeners, ConnFds(s.active), p.ready[..n], p.ready[n..]);
    HandleAllConcat(s, Flagged(s.listeners, p.ready[..n]), Flagged(ConnFds(s.active), p.ready[n..]), p);
  }

  lemma ListenersHalf(s: Server, p: Poll)
    requires Valid(s) && LegalPoll(s, p) && s.status == Running
    ensures var n := |s.listeners|;
            HandleAll(s, Flagged(s.listeners, p.ready[..n]), p) == WithNew(s, p, n) && AcceptedUpTo(s, p, n)
  {
    var n := |s.listeners|;
    assert WithNew(s, p, 0) == s;
    assert s.listeners[0..] == s.listeners && p.ready[0..n] == p.ready[..n];
    AcceptSteps(s, p);
    AcceptPhase(s, p, 0);
    AcceptsBegin(s, p);
    AcceptsKeep(s, p, n);
  }

  lemma ConnectionsHalf(s: Server, p: Poll)
    requires LegalPoll(s, p) && s.status == Running && |s.listeners| == |s.ports|
    requires AcceptedUpTo(s, p, |s.listeners|)
    ensures Places(s) > 0
    ensures var n := |s.listeners|;
            AnsweredAll(WithNew(s, p, n), [], s.active, NewConns(s, p, n), p.ready[n..], p,
                        HandleAll(WithNew(s, p, n), Flagged(ConnFds(s.active), p.ready[n..]), p))
  {
    var n := |s.listeners|;
    var mid := WithNew(s, p, n);
    assert mid.active == [] + s.active + NewConns(s, p, n);
    ServePhase(s, mid, [], s.active, NewConns(s, p, n), p.ready[n..], p);
  }

  /**
   What a pass does. The answers due are those to the connections that were ready,
   in order. They are given up to the first that ends the program, or up to the
   quota. When the program goes on, all have been given, the connections that were
   not ready are still open, in their order, and they are followed by one new
   connection for each listener that was ready and idle.
   */
  lemma PassOutcome(s: Server, p: Poll)
    requires Valid(s) && LegalPoll(s, p) && s.status == Running
    ensures var n := |s.listeners|; var t := Pass(s, p);
            && Answered(s, Answers(s.ports, Select(s.active, p.ready[n..], true), p), t)
            && t.accepted == s.accepted + NewConns(s, p, n)
            && (t.status == Running ==>
                  && t.active == Select(s.active, p.ready[n..], false) + NewConns(s, p, n)
                  && t.served == s.served + Answers(s.ports, Select(s.active, p.ready[n..], true), p))
  {
    var n := |s.listeners|;
    PassHalves(s, p);
    ListenersHalf(s, p);
    ConnectionsHalf(s, p);
    BothHalves(s, p, n, Pass(s, p));
  }

  lemma BothHalves(s: Server, p: Poll, n: nat, t: Server)
    requires LegalPoll(s, p) && Places(s) > 0 && n == |s.listeners| == |s.ports| <= |p.ready|
    requires |p.ready[n..]| == |s.active|
    requires AnsweredAll(WithNew(s, p, n), [], s.active, NewConns(s, p, n), p.ready[n..], p, t)
    ensures Answered(s, Answers(s.ports, Select(s.active, p.ready[n..], true), p), t)
    ensures t.accepted == s.accepted + NewConns(s, p, n)
    ensures t.status == Running ==>
      && t.active == Select(s.active, p.ready[n..], false) + NewConns(s, p, n)
      && t.served == s.served + Answers(s.ports, Select(s.active, p.ready[n..], true), p)
  {
    assert [] + Select(s.active, p.ready[n..], false) == Select(s.active, p.ready[n..], false);
    AllGiven(s, Answers(s.ports, Select(s.active, p.ready[n..], true), p), t);
  }

  lemma AllGiven(s: Server, answers: seq<Served>, t: Server)
    requires Places(s) > 0 && Answered(s, answers, t)
    ensures t.status == Running ==> t.served == s.served + answers
  {
    assert answers[..|answers|] == answers;
  }

  // ----- how long a run can be -----

  /** Some ready entry is not a listener that is waiting for its connection to end. */
  ghost predicate Useful(s: Server, p: Poll) {
    exists i :: 0 <= i < |p.ready| && p.ready[i] && (i >= |s.listeners| || !Busy(s, i))
  }

  lemma {:induction false} NewConnsGrow(s: Server, p: Poll, l: nat, m: nat)
    requires LegalPoll(s, p) && l < m <= |s.listeners| == |s.ports|
    requires p.ready[l] && !Busy(s, l)
    ensures |NewConns(s, p, m)| > 0
    decreases m
  {
    if l + 1 >= m {
    } else {
      NewConnsGrow(s, p, l, m - 1);
    }
  }

  lemma {:induction false} SelectSome(conns: seq<Conn>, flags: seq<bool>, k: nat)
    requires |conns| == |flags| && k < |flags| && flags[k]
    ensures |Select(conns, flags, true)| > 0
    decreases |conns|
  {
    if flags[0] {
    } else {
      SelectSome(conns[1..], flags[1..], k - 1);
    }
  }

  lemma SomethingNew(s: Server, p: Poll)
    requires LegalPoll(s, p) && |s.listeners| == |s.ports| && Useful(s, p)
    ensures var n := |s.listeners|;
            |NewConns(s, p, n)| + |Select(s.active, p.ready[n..], true)| > 0
  {
    var n := |s.listeners|;
    var i :| 0 <= i < |p.ready| && p.ready[i] && (i >= n || !Busy(s, i));
    if i < n {
      NewConnsGrow(s, p, i, n);
    } else {
      assert p.ready[n..][i - n];
      SelectSome(s.active, p.ready[n..], i - n);
    }
  }

  /** A useful pass ends the program or adds an accept or a verdict. */
  lemma UsefulPass(s: Server, p: Poll)
    requires Valid(s) && LegalPoll(s, p) && s.status == Running && Useful(s, p)
    ensures var t := Pass(s, p);
            t.status == Running ==> |t.accepted| + |t.served| > |s.accepted| + |s.served|
  {
    PassOutcome(s, p);
    SomethingNew(s, p);
  }

  ghost predicate UsefulRun(s: Server, polls: seq<Poll>)
    requires LegalRun(s, polls)
    decreases |polls|
  {
    |polls| > 0 && s.status == Running ==>
      Useful(s, polls[0]) && UsefulRun(Pass(s, polls[0]), polls[1..])
  }

  lemma {:induction false} UsefulRunGrows(s: Server, polls: seq<Poll>)
    requires Valid(s) && LegalRun(s, polls) && UsefulRun(s, polls)
    ensures var t := Run(s, polls);
            t.status == Running ==> |t.accepted| + |t.served| >= |s.accepted| + |s.served| + |polls|
    decreases |polls|
  {
    if |polls| == 0 || s.status != Running {
    } else {
      UsefulPass(s, polls[0]);
      PassKeeps(s, polls[0]);
      UsefulRunGrows(Pass(s, polls[0]), polls[1..]);
    }
  }

  /** With n listeners the program is over after at most 3n - 1 passes in which something useful was ready. */
  lemma RunEnds(ports: seq<int32>, listeners: seq<int>, polls: seq<Poll>)
    requires |ports| == |listeners| > 0 && Distinct(listeners)
    requires LegalRun(Start(ports, listeners), polls) && UsefulRun(Start(ports, listeners), polls)
    requires |polls| >= 3 * |ports| - 1
    ensures Run(Start(ports, listeners), polls).status != Running
  {
    var s := Start(ports, listeners);
    StartValid(ports, listeners);
    UsefulRunGrows(s, polls);
    RunKeeps(s, polls);
    Conservation(Run(s, polls));
  }

  /** Every ready connection brings a message that can be read. */
  ghost predicate ReadablePoll(s: Server, p: Poll)
    requires |p.ready| == |Fds(s)|
  {
    forall k :: 0 <= k < |s.active| && p.ready[|s.listeners| + k] ==> Received(p, s.active[k].fd).Request?
  }

  lemma {:induction false} SelectedReady(conns: seq<Conn>, flags: seq<bool>, i: nat) returns (k: nat)
    requires |conns| == |flags| && i < |Select(conns, flags, true)|
    ensures k < |conns| && flags[k] && Select(conns, flags, true)[i] == conns[k]
    decreases |conns|
  {
    if flags[0] && i == 0 {
      k := 0;
    } else {
      k := SelectedReady(conns[1..], flags[1..], if flags[0] then i - 1 else i);
      k := k + 1;
    }
  }

  lemma {:induction false} SoundAll(answers: seq<Served>)
    requires forall i :: 0 <= i < |answers| ==> answers[i].verdict != PipeMessage.Crash
    ensures Sound(answers) == |answers|
  {
    if |answers| == 0 {
    } else {
      SoundAll(answers[1..]);
    }
  }

  /** A pass in which all that is ready can be read does not make the program fail. */
  lemma ReadablePass(s: Server, p: Poll)
    requires Valid(s) && LegalPoll(s, p) && s.status == Running && ReadablePoll(s, p)
    ensures Pass(s, p).status != Failed
  {
    var n := |s.listeners|;
    var due := Select(s.active, p.ready[n..], true);
    var answers := Answers(s.ports, due, p);
    forall i | 0 <= i < |answers| ensures answers[i].verdict != PipeMessage.Crash {
      var k := SelectedReady(s.active, p.ready[n..], i);
      assert p.ready[n + k];
    }
    SoundAll(answers);
    PassOutcome(s, p);
  }

  ghost predicate ReadableRun(s: Server, polls: seq<Poll>)
    requires LegalRun(s, polls)
    decreases |polls|
  {
    |polls| > 0 && s.status == Running ==>
      ReadablePoll(s, polls[0]) && ReadableRun(Pass(s, polls[0]), polls[1..])
  }

  lemma {:induction false} ReadableRunSound(s: Server, polls: seq<Poll>)
    requires Valid(s) && LegalRun(s, polls) && ReadableRun(s, polls) && s.status != Failed
    ensures Run(s, polls).status != Failed
    decreases |polls|
  {
    if |polls| == 0 || s.status != Running {
    } else {
      ReadablePass(s, polls[0]);
      PassKeeps(s, polls[0]);
      ReadableRunSound(Pass(s, polls[0]), polls[1..]);
    }
  }

  /** A long enough useful run whose messages can all be read ends by itself, with as many verdicts as listeners. */
  lemma RunFinishes(ports: seq<int32>, listeners: seq<int>, polls: seq<Poll>)
    requires |ports| == |listeners| > 0 && Distinct(listeners)
    requires LegalRun(Start(ports, listeners), polls) && UsefulRun(Start(ports, listeners), polls)
    requires ReadableRun(Start(ports, listeners), polls)
    requires |polls| >= 3 * |ports| - 1
    ensures Run(Start(ports, listeners), polls).status == Finished
    ensures |Run(Start(ports, listeners), polls).served| == |ports|
  {
    var s := Start(ports, listeners);
    StartValid(ports, listeners);
    RunEnds(ports, listeners, polls);
    ReadableRunSound(s, polls);
    RunKeeps(s, polls);
  }
}
