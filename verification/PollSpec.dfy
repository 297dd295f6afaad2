/**
 The poll server of P3/CCVM without its arrays: listeners, live connections in
 the order they were accepted, and a history. A pass over the poll set is the
 handling of the descriptors that were ready, one after the other.
 */
module PollSpec {
  import opened CText
  import PipeMessage

  /** A connection, with its place in the history of accepts and the listener that accepted it. */
  datatype Conn = Conn(id: nat, fd: int, listener: nat)

  datatype Served = Served(conn: Conn, request: PipeMessage.Request, verdict: PipeMessage.Verdict)

  datatype Status = Running | Finished | Failed

  datatype Server = Server(
    ports: seq<int32>,       // the port of each listener
    listeners: seq<int>,     // their descriptors
    accepted: seq<Conn>,     // every connection so far
    active: seq<Conn>,       // those still open
    served: seq<Served>,     // those that got their verdict, in order
    status: Status)

  /**
   What the environment does in one pass: which entries of the poll set are
   ready, which descriptor `accept` gives on each listener, and which request each
   connection sends (none when `recv` fails or the peer has gone).
   */
  datatype Poll = Poll(ready: seq<bool>, accepts: seq<int>, requests: map<int, PipeMessage.Request>)

  /** Nothing received ends the program like a malformed message. */
  function Received(p: Poll, fd: int): PipeMessage.Request {
    if fd in p.requests then p.requests[fd] else PipeMessage.Malformed
  }

  ghost predicate Distinct<T>(s: seq<T>) { forall i, j :: 0 <= i < j < |s| ==> s[i] != s[j] }

  function ConnFds(conns: seq<Conn>): (f: seq<int>)
    ensures |f| == |conns|
  {
    seq(|conns|, i requires 0 <= i < |conns| => conns[i].fd)
  }

  /** The descriptors of the poll set, in order. */
  function Fds(s: Server): seq<int> { s.listeners + ConnFds(s.active) }

  function ServedConns(served: seq<Served>): (c: seq<Conn>)
    ensures |c| == |served|
  {
    seq(|served|, i requires 0 <= i < |served| => served[i].conn)
  }

  ghost predicate Busy(s: Server, l: nat) { exists k :: 0 <= k < |s.active| && s.active[k].listener == l }

  function Remove<T>(s: seq<T>, k: nat): seq<T>
    requires k < |s|
  {
    s[..k] + s[k + 1..]
  }

  // ----- the invariant -----

  /** Open descriptors are all different, and a listener has at most one open connection. */
  ghost predicate Descriptors(s: Server) {
    && |s.listeners| == |s.ports| > 0
    && (forall k :: 0 <= k < |s.active| ==> s.active[k].fd >= 0 && s.active[k].listener < |s.ports|)
    && Distinct(Fds(s))
    && (forall i, j :: 0 <= i < j < |s.active| ==> s.active[i].listener != s.active[j].listener)
  }

  /** A verdict answers its own message, by the port of the listener that accepted the connection. */
  ghost predicate RightVerdict(s: Server, x: Served) {
    && x.conn.listener < |s.ports|
    && x.verdict == PipeMessage.Judge(x.request, s.ports[x.conn.listener])
    && x.verdict != PipeMessage.Crash
  }

  /** Every connection accepted so far is either open or has been served, and not both. */
  ghost predicate History(s: Server) {
    && (forall k :: 0 <= k < |s.accepted| ==> s.accepted[k].id == k)
    && multiset(s.accepted) == multiset(s.active) + multiset(ServedConns(s.served))
    && (forall k :: 0 <= k < |s.served| ==> RightVerdict(s, s.served[k]))
  }

  ghost predicate Quota(s: Server) {
    && |s.served| <= |s.ports|
    && (s.status == Finished <==> |s.served| == |s.ports|)
  }

  ghost predicate Valid(s: Server) { Descriptors(s) && History(s) && Quota(s) }

  function Start(ports: seq<int32>, listeners: seq<int>): Server {
    Server(ports, listeners, [], [], [], Running)
  }

  // ----- handling one ready descriptor -----

  function Accept(s: Server, fd: int, l: nat): Server {
    var c := Conn(|s.accepted|, fd, l);
    s.(accepted := s.accepted + [c], active := s.active + [c])
  }

  function Close(s: Server, k: nat, x: Served): Server
    requires k < |s.active|
  {
    s.(active := Remove(s.active, k), served := s.served + [x],
       status := if |s.served| + 1 >= |s.ports| then Finished else s.status)
  }

  /**
   The connection at place `k` is read, answered and closed; a failed read or a
   malformed message ends the program.
   */
  function Serve(s: Server, k: nat, r: PipeMessage.Request): Server
    requires k < |s.active| && s.active[k].listener < |s.ports|
  {
    var c := s.active[k];
    var v := PipeMessage.Judge(r, s.ports[c.listener]);
    if v == PipeMessage.Crash then s.(status := Failed) else Close(s, k, Served(c, r, v))
  }

  /** The descriptor at place `i` of the poll set is ready. */
  ghost function HandleAt(s: Server, i: nat, p: Poll): Server
    requires Descriptors(s) && |p.accepts| == |s.ports|
    requires i < |Fds(s)|
  {
    if s.status != Running then s
    else if i >= |s.listeners| then
      var k := i - |s.listeners|;
      Serve(s, k, Received(p, s.active[k].fd))
    else if Busy(s, i) then s
    else Accept(s, p.accepts[i], i)
  }

  /** The descriptor `fd` is ready. */
  ghost function Handle(s: Server, fd: int, p: Poll): Server {
    if Descriptors(s) && |p.accepts| == |s.ports| && fd in Fds(s) then
      var i :| 0 <= i < |Fds(s)| && Fds(s)[i] == fd;
      HandleAt(s, i, p)
    else s
  }

  lemma HandleIsAt(s: Server, i: nat, p: Poll)
    requires Descriptors(s) && |p.accepts| == |s.ports| && i < |Fds(s)|
    ensures Handle(s, Fds(s)[i], p) == HandleAt(s, i, p)
  {
  }

  ghost function HandleAll(s: Server, todo: seq<int>, p: Poll): Server
    decreases |todo|
  {
    if |todo| == 0 then s else HandleAll(Handle(s, todo[0], p), todo[1..], p)
  }

  lemma {:induction false} HandleAllStopped(s: Server, todo: seq<int>, p: Poll)
    requires s.status != Running
    ensures HandleAll(s, todo, p) == s
    decreases |todo|
  {
    if |todo| == 0 {
    } else {
      HandleAllStopped(s, todo[1..], p);
    }
  }

  lemma {:induction false} HandleAllConcat(s: Server, a: seq<int>, b: seq<int>, p: Poll)
    ensures HandleAll(s, a + b, p) == HandleAll(HandleAll(s, a, p), b, p)
    decreases |a|
  {
    if |a| == 0 {
      assert a + b == b;
    } else {
      assert (a + b)[1..] == a[1..] + b;
      HandleAllConcat(Handle(s, a[0], p), a[1..], b, p);
    }
  }

  // ----- one pass -----

  /** The descriptors that are flagged, in order. */
  function Flagged(fds: seq<int>, flags: seq<bool>): (f: seq<int>)
    requires |fds| == |flags|
  {
    if |fds| == 0 then []
    else (if flags[0] then [fds[0]] else []) + Flagged(fds[1..], flags[1..])
  }

  /** `poll` flags entries of the set, and `accept` gives descriptors that are not open. */
  ghost predicate LegalPoll(s: Server, p: Poll) {
    && |p.ready| == |Fds(s)| && |p.accepts| == |s.ports|
    && (forall l :: 0 <= l < |p.accepts| ==> p.accepts[l] >= 0 && p.accepts[l] !in Fds(s))
    && Distinct(p.accepts)
  }

  ghost function Pass(s: Server, p: Poll): Server
    requires LegalPoll(s, p)
  {
    HandleAll(s, Flagged(Fds(s), p.ready), p)
  }

  /** During a pass, every open connection was open when it began or came from an accept of this pass. */
  ghost predicate Within(s0: Server, s: Server, p: Poll) {
    && s.listeners == s0.listeners && s.ports == s0.ports
    && (forall k :: 0 <= k < |s.active| ==>
          || s.active[k] in s0.active
          || (s.active[k].listener < |p.accepts| && s.active[k].fd == p.accepts[s.active[k].listener]))
  }

  // ----- one step keeps the invariant -----

  lemma ServedConnsAppend(served: seq<Served>, x: Served)
    ensures ServedConns(served + [x]) == ServedConns(served) + [x.conn]
  {
  }

  lemma MultisetRemove<T>(s: seq<T>, k: nat)
    requires k < |s|
    ensures multiset(s) == multiset(Remove(s, k)) + multiset{s[k]}
  {
    assert s == s[..k] + [s[k]] + s[k + 1..];
  }

  lemma FdsAccept(s: Server, fd: int, l: nat)
    ensures Fds(Accept(s, fd, l)) == Fds(s) + [fd]
  {
  }

  lemma FdsClose(s: Server, k: nat, x: Served)
    requires k < |s.active|
    ensures Fds(Close(s, k, x)) == Remove(Fds(s), |s.listeners| + k)
  {
  }

  lemma AcceptKeeps(s: Server, fd: int, l: nat)
    requires Valid(s) && s.status == Running
    requires l < |s.ports| && !Busy(s, l) && fd >= 0 && fd !in Fds(s)
    ensures Valid(Accept(s, fd, l))
  {
    var t := Accept(s, fd, l);
    FdsAccept(s, fd, l);
    assert Descriptors(t);
  }

  lemma DistinctRemove<T>(s: seq<T>, k: nat)
    requires Distinct(s) && k < |s|
    ensures Distinct(Remove(s, k))
  {
  }

  lemma CloseDescriptors(s: Server, k: nat, x: Served)
    requires Descriptors(s) && k < |s.active|
    ensures Descriptors(Close(s, k, x))
  {
    FdsClose(s, k, x);
    DistinctRemove(Fds(s), |s.listeners| + k);
  }

  lemma CloseHistory(s: Server, k: nat, x: Served)
    requires History(s)
    requires k < |s.active| && x.conn == s.active[k] && RightVerdict(s, x)
    ensures History(Close(s, k, x))
  {
    MultisetRemove(s.active, k);
    ServedConnsAppend(s.served, x);
    forall j | 0 <= j <= |s.served| ensures RightVerdict(Close(s, k, x), (s.served + [x])[j]) {
      assert j < |s.served| ==> RightVerdict(s, s.served[j]);
    }
  }

  lemma CloseKeeps(s: Server, k: nat, x: Served)
    requires Valid(s) && s.status == Running
    requires k < |s.active| && x.conn == s.active[k] && RightVerdict(s, x)
    ensures Valid(Close(s, k, x))
  {
    CloseDescriptors(s, k, x);
    CloseHistory(s, k, x);
  }

  /** What `accept` would give on a listener without connection is still free. */
  lemma StillFree(s0: Server, s: Server, l: nat, p: Poll)
    requires LegalPoll(s0, p) && Within(s0, s, p) && l < |s.ports| == |s.listeners| && !Busy(s, l)
    ensures p.accepts[l] !in Fds(s)
  {
    var fd := p.accepts[l];
    assert forall j :: 0 <= j < |s.listeners| ==> Fds(s0)[j] == s.listeners[j];
    forall k | 0 <= k < |s.active| ensures s.active[k].fd != fd {
      var c := s.active[k];
      if c in s0.active {
        var m :| 0 <= m < |s0.active| && s0.active[m] == c;
        assert Fds(s0)[|s0.listeners| + m] == c.fd;
      }
    }
  }

  /** Handling one ready descriptor keeps the invariant. */
  lemma HandleKeeps(s0: Server, s: Server, i: nat, p: Poll)
    requires Valid(s) && i < |Fds(s)| && LegalPoll(s0, p) && Within(s0, s, p)
    ensures Valid(HandleAt(s, i, p)) && Within(s0, HandleAt(s, i, p), p)
  {
    if s.status == Running && i < |s.listeners| && !Busy(s, i) {
      ListenKeeps(s0, s, i, p);
    } else if s.status == Running && i >= |s.listeners| {
      ServeKeeps(s0, s, i - |s.listeners|, p);
    }
  }

  lemma ListenKeeps(s0: Server, s: Server, l: nat, p: Poll)
    requires Valid(s) && s.status == Running && LegalPoll(s0, p) && Within(s0, s, p)
    requires l < |s.listeners| && !Busy(s, l)
    ensures var t := Accept(s, p.accepts[l], l); Valid(t) && Within(s0, t, p)
  {
    StillFree(s0, s, l, p);
    AcceptKeeps(s, p.accepts[l], l);
  }

  lemma ServeKeeps(s0: Server, s: Server, k: nat, p: Poll)
    requires Valid(s) && s.status == Running && k < |s.active| && Within(s0, s, p)
    ensures var t := Serve(s, k, Received(p, s.active[k].fd)); Valid(t) && Within(s0, t, p)
  {
    var c, r := s.active[k], Received(p, s.active[k].fd);
    var v := PipeMessage.Judge(r, s.ports[c.listener]);
    if v != PipeMessage.Crash {
      CloseKeeps(s, k, Served(c, r, v));
    }
  }

  lemma {:induction false} HandleAllKeeps(s0: Server, s: Server, todo: seq<int>, p: Poll)
    requires Valid(s) && LegalPoll(s0, p) && Within(s0, s, p)
    ensures Valid(HandleAll(s, todo, p)) && Within(s0, HandleAll(s, todo, p), p)
    decreases |todo|
  {
    if |todo| == 0 {
    } else {
      if todo[0] in Fds(s) {
        var i :| 0 <= i < |Fds(s)| && Fds(s)[i] == todo[0];
        HandleIsAt(s, i, p);
        HandleKeeps(s0, s, i, p);
      }
      HandleAllKeeps(s0, Handle(s, todo[0], p), todo[1..], p);
    }
  }

  /** A pass keeps the invariant, whatever is ready. */
  lemma PassKeeps(s: Server, p: Poll)
    requires Valid(s) && LegalPoll(s, p)
    ensures Valid(Pass(s, p))
    ensures Pass(s, p).ports == s.ports && Pass(s, p).listeners == s.listeners
  {
    HandleAllKeeps(s, s, Flagged(Fds(s), p.ready), p);
  }

  // ----- runs -----

  /** The program after a number of passes; it stops reading polls when it is over. */
  ghost predicate LegalRun(s: Server, polls: seq<Poll>)
    decreases |polls|
  {
    |polls| > 0 && s.status == Running ==>
      LegalPoll(s, polls[0]) && LegalRun(Pass(s, polls[0]), polls[1..])
  }

  ghost function Run(s: Server, polls: seq<Poll>): Server
    requires LegalRun(s, polls)
    decreases |polls|
  {
    if |polls| == 0 || s.status != Running then s else Run(Pass(s, polls[0]), polls[1..])
  }

  /** The invariant holds in every reachable state. */
  lemma {:induction false} RunKeeps(s: Server, polls: seq<Poll>)
    requires Valid(s) && LegalRun(s, polls)
    ensures Valid(Run(s, polls))
    ensures Run(s, polls).ports == s.ports && Run(s, polls).listeners == s.listeners
    decreases |polls|
  {
    if |polls| == 0 || s.status != Running {
    } else {
      PassKeeps(s, polls[0]);
      RunKeeps(Pass(s, polls[0]), polls[1..]);
    }
  }

  lemma StartValid(ports: seq<int32>, listeners: seq<int>)
    requires |ports| == |listeners| > 0 && Distinct(listeners)
    ensures Valid(Start(ports, listeners))
  {
    assert Fds(Start(ports, listeners)) == listeners;
  }

  // ----- what the invariant means -----

  /** How often a connection stands in the history of verdicts. */
  ghost function Verdicts(s: Server, c: Conn): nat { multiset(ServedConns(s.served))[c] }

  /** Every connection accepted is either open and without verdict, or closed with exactly one. */
  lemma OneVerdictEach(s: Server, c: Conn)
    requires Valid(s) && c in s.accepted
    ensures Verdicts(s, c) == if c in s.active then 0 else 1
  {
    var k :| 0 <= k < |s.accepted| && s.accepted[k] == c;
    MultisetRemove(s.accepted, k);
    assert c !in Remove(s.accepted, k);
    assert multiset(s.accepted)[c] == 1;
    assert c in s.active <==> c in multiset(s.active);
  }

  /**
   Verdicts go to connections that were accepted, and say "encrypted" exactly when the
   message names the listener's port.
   */
  lemma VerdictsRight(s: Server, k: nat)
    requires Valid(s) && k < |s.served|
    ensures s.served[k].conn in s.accepted
    ensures s.served[k].conn.listener < |s.ports|
    ensures s.served[k].request.Request?
    ensures s.served[k].verdict.Encrypted? <==> s.served[k].request.port == s.ports[s.served[k].conn.listener]
    ensures s.served[k].verdict.Encrypted? || s.served[k].verdict == PipeMessage.Rejected
  {
    assert ServedConns(s.served)[k] == s.served[k].conn;
    assert s.served[k].conn in multiset(ServedConns(s.served));
    assert s.served[k].conn in multiset(s.accepted);
    assert RightVerdict(s, s.served[k]);
  }

  lemma MultisetSize<T>(s: seq<T>)
    ensures |multiset(s)| == |s|
  {
  }

  /** Connections are conserved, and the poll set never outgrows twice the number of listeners. */
  lemma Conservation(s: Server)
    requires Valid(s)
    ensures |s.accepted| == |s.active| + |s.served|
    ensures |Fds(s)| <= 2 * |s.ports|
  {
    MultisetSize(s.accepted);
    MultisetSize(s.active);
    MultisetSize(ServedConns(s.served));
    var owners := seq(|s.active|, i requires 0 <= i < |s.active| => s.active[i].listener);
    DistinctBound(owners, |s.ports|);
  }

  /** Different numbers below n are at most n. */
  lemma {:induction false} DistinctBound(xs: seq<nat>, n: nat)
    requires Distinct(xs) && forall i :: 0 <= i < |xs| ==> xs[i] < n
    ensures |xs| <= n
    decreases n
  {
    if n > 0 && n - 1 in xs {
      var k :| 0 <= k < |xs| && xs[k] == n - 1;
      DistinctRemove(xs, k);
      DistinctBound(Remove(xs, k), n - 1);
    } else if n > 0 {
      forall i | 0 <= i < |xs| ensures xs[i] < n - 1 {
        assert xs[i] in xs;
      }
      DistinctBound(xs, n - 1);
    } else if |xs| > 0 {
      HeadIn(xs);
      assert false;
    }
  }

  lemma HeadIn<T>(s: seq<T>)
    requires |s| > 0
    ensures s[0] in s
  {
  }
}
