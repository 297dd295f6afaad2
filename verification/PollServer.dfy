/**
 The poll loop of P3/CCVM/serverOpt.c with its arrays: `fds`, which holds the
 listeners and then the live connections and is compacted under the running
 index, and `clients`, which maps each listener to its live connection. The
 program has three ports; here their number n is that of the `ports` given.
 */
module PollServer {
  import opened CText
  import PipeMessage
  import opened PollSpec
  import opened PollHistory

  datatype PollFd = PollFd(fd: int, revents: bool)

  /** The environment of one pass; a connection without bytes in its inbox has a failing `recv`. */
  datatype RawPoll = RawPoll(ready: seq<bool>, accepts: seq<int>, inbox: map<int, seq<byte>>)

  ghost function Requests(inbox: map<int, seq<byte>>): map<int, PipeMessage.Request> {
    map fd | fd in inbox && inbox[fd] != [] :: PipeMessage.Parse(CStr(inbox[fd]))
  }

  ghost function Abstract(raw: RawPoll): Poll { Poll(raw.ready, raw.accepts, Requests(raw.inbox)) }

  ghost function AbstractAll(raws: seq<RawPoll>): (polls: seq<Poll>)
    ensures |polls| == |raws|
  {
    seq(|raws|, i requires 0 <= i < |raws| => Abstract(raws[i]))
  }

  /** `recv` gives no more than its buffer holds. */
  ghost predicate Fits(raw: RawPoll) {
    forall fd :: fd in raw.inbox ==> |raw.inbox[fd]| <= 10239
  }

  /** The descriptors of the entries that are ready, in order. */
  ghost function ReadyFrom(entries: seq<PollFd>): seq<int> {
    if |entries| == 0 then []
    else (if entries[0].revents then [entries[0].fd] else []) + ReadyFrom(entries[1..])
  }

  lemma {:induction false} ReadyIsFlagged(entries: seq<PollFd>, fds: seq<int>, flags: seq<bool>)
    requires |entries| == |fds| == |flags|
    requires forall j :: 0 <= j < |fds| ==> entries[j] == PollFd(fds[j], flags[j])
    ensures ReadyFrom(entries) == Flagged(fds, flags)
  {
    if |entries| == 0 {
    } else {
      ReadyIsFlagged(entries[1..], fds[1..], flags[1..]);
    }
  }

  /** An entry appended without events is not ready. */
  lemma {:induction false} ReadyAppend(entries: seq<PollFd>, fd: int)
    ensures ReadyFrom(entries + [PollFd(fd, false)]) == ReadyFrom(entries)
  {
    if |entries| == 0 {
      assert (entries + [PollFd(fd, false)])[1..] == [];
    } else {
      assert (entries + [PollFd(fd, false)])[1..] == entries[1..] + [PollFd(fd, false)];
      ReadyAppend(entries[1..], fd);
    }
  }

  ghost function Replies(served: seq<Served>): (r: seq<(int, PipeMessage.Verdict)>) {
    seq(|served|, i requires 0 <= i < |served| => (served[i].conn.fd, served[i].verdict))
  }

  lemma RepliesAppend(served: seq<Served>, x: Served)
    ensures Replies(served + [x]) == Replies(served) + [(x.conn.fd, x.verdict)]
  {
  }

  /** `fds` holds the poll set in order. */
  ghost predicate EntriesMatch(s: Server, entries: seq<PollFd>) {
    && |entries| == |Fds(s)|
    && (forall j :: 0 <= j < |entries| ==> entries[j].fd == Fds(s)[j])
  }

  /** `clients` holds at each listener its open connection. */
  ghost predicate OwnersMatch(s: Server, clients: seq<int>) {
    && |clients| == |s.ports|
    && (forall k :: 0 <= k < |s.active| ==>
          s.active[k].listener < |clients| && clients[s.active[k].listener] == s.active[k].fd)
    && (forall l :: 0 <= l < |clients| && clients[l] != -1 ==> Busy(s, l))
  }

  ghost predicate Matches(s: Server, entries: seq<PollFd>, clients: seq<int>) {
    EntriesMatch(s, entries) && OwnersMatch(s, clients)
  }

  lemma MatchesAccept(s: Server, entries: seq<PollFd>, clients: seq<int>, fd: int, l: nat)
    requires Matches(s, entries, clients) && l < |clients| && !Busy(s, l)
    ensures Matches(Accept(s, fd, l), entries + [PollFd(fd, false)], clients[l := fd])
  {
    var t := Accept(s, fd, l);
    FdsAccept(s, fd, l);
    assert t.active[|s.active|].listener == l;
    forall m | 0 <= m < |clients| && clients[l := fd][m] != -1 ensures Busy(t, m) {
      if m != l {
        var k :| 0 <= k < |s.active| && s.active[k].listener == m;
        assert t.active[k].listener == m;
      }
    }
  }

  /** The connections that stay open keep their listeners busy. */
  lemma BusyAfterClose(s: Server, k: nat, x: Served, l: nat)
    requires k < |s.active| && Busy(s, l) && l != s.active[k].listener
    ensures Busy(Close(s, k, x), l)
  {
    var j :| 0 <= j < |s.active| && s.active[j].listener == l;
    assert Close(s, k, x).active[if j < k then j else j - 1].listener == l;
  }

  lemma EntriesClose(s: Server, entries: seq<PollFd>, k: nat, x: Served)
    requires EntriesMatch(s, entries) && k < |s.active|
    ensures EntriesMatch(Close(s, k, x), Remove(entries, |s.listeners| + k))
  {
    FdsClose(s, k, x);
  }

  lemma OwnersClose(s: Server, clients: seq<int>, k: nat, x: Served)
    requires OwnersMatch(s, clients) && Descriptors(s) && k < |s.active|
    ensures OwnersMatch(Close(s, k, x), clients[s.active[k].listener := -1])
  {
    var l := s.active[k].listener;
    forall m | 0 <= m < |clients| && clients[l := -1][m] != -1 ensures Busy(Close(s, k, x), m) {
      BusyAfterClose(s, k, x, m);
    }
  }

  lemma MatchesClose(s: Server, entries: seq<PollFd>, clients: seq<int>, k: nat, x: Served)
    requires Matches(s, entries, clients) && Descriptors(s) && k < |s.active|
    ensures var l := s.active[k].listener;
            Matches(Close(s, k, x), Remove(entries, |s.listeners| + k), clients[l := -1])
  {
    EntriesClose(s, entries, k, x);
    OwnersClose(s, clients, k, x);
  }

  /** A connection's descriptor stands at its listener and nowhere else. */
  lemma OwnerUnique(s: Server, clients: seq<int>, k: nat, l: nat)
    requires OwnersMatch(s, clients) && Descriptors(s) && k < |s.active|
    requires l < |clients| && clients[l] == s.active[k].fd
    ensures l == s.active[k].listener
  {
    assert Busy(s, l);
    var m :| 0 <= m < |s.active| && s.active[m].listener == l;
    assert Fds(s)[|s.listeners| + m] == Fds(s)[|s.listeners| + k];
  }

  lemma IdleListener(s: Server, entries: seq<PollFd>, clients: seq<int>, l: nat)
    requires Matches(s, entries, clients) && Descriptors(s) && l < |clients|
    ensures clients[l] == -1 <==> !Busy(s, l)
  {
  }

  /** A connection that can be accepted finds a free entry. */
  lemma Room(s: Server, fd: int, l: nat)
    requires PollSpec.Valid(Accept(s, fd, l))
    ensures |Fds(s)| < 2 * |s.ports|
  {
    Conservation(Accept(s, fd, l));
    FdsAccept(s, fd, l);
  }

  /** What the program makes of a connection's bytes, or of their absence. */
  method Consult(raw: RawPoll, client: int, port: int32) returns (v: PipeMessage.Verdict)
    requires Fits(raw)
    ensures v == PipeMessage.Judge(Received(Abstract(raw), client), port)
  {
    var bytes := if client in raw.inbox then raw.inbox[client] else [];
    if |bytes| == 0 { return PipeMessage.Crash; }
    v := PipeMessage.DecideReceived(bytes, port);
  }

  class PollServer {
    const ports: seq<int32>
    const fds: array<PollFd>
    const clients: array<int>
    var numFds: nat
    var count: nat
    var status: Status
    var replies: seq<(int, PipeMessage.Verdict)>   // the verdicts, and on which descriptor
    ghost var model: Server

    /** The fields say what the model says. */
    ghost predicate Synced()
      reads this, fds, clients
    {
      && model.ports == ports && |model.listeners| == |ports|
      && numFds <= fds.Length == 2 * |ports|
      && Matches(model, fds[..numFds], clients[..])
      && count == |model.served| && status == model.status && replies == Replies(model.served)
    }

    ghost predicate Valid()
      reads this, fds, clients
    {
      PollSpec.Valid(model) && Synced()
    }

    constructor (ports: seq<int32>, listeners: seq<int>)
      requires |ports| == |listeners| > 0
      requires Distinct(listeners)
      ensures Valid() && fresh(fds) && fresh(clients) && model == Start(ports, listeners)
    {
      this.ports := ports;
      fds := new PollFd[2 * |ports|](i => PollFd(if 0 <= i < |listeners| then listeners[i] else -1, false));
      clients := new int[|ports|](_ => -1);
      numFds, count, status, replies := |ports|, 0, Running, [];
      model := Start(ports, listeners);
      new;
      assert Fds(model) == listeners && forall j :: 0 <= j < numFds ==> fds[..numFds][j].fd == listeners[j];
    }

    /** `poll`: sets every entry's events and counts the entries that are ready. */
    method Poll(ready: seq<bool>) returns (eve: nat)
      requires Synced() && |ready| == numFds
      modifies fds
      ensures Synced()
      ensures forall j :: 0 <= j < numFds ==> fds[j] == PollFd(old(fds[j].fd), ready[j])
      ensures eve == |ReadyFrom(fds[..numFds])|
    {
      for j := 0 to numFds
        invariant forall m :: 0 <= m < j ==> fds[m] == PollFd(old(fds[m].fd), ready[m])
        invariant forall m :: j <= m < fds.Length ==> fds[m] == old(fds[m])
      {
        fds[j] := fds[j].(revents := ready[j]);
      }
      eve := 0;
      var i := numFds;
      assert fds[numFds..numFds] == [];
      while i > 0
        invariant 0 <= i <= numFds
        invariant eve == |ReadyFrom(fds[i..numFds])|
      {
        i := i - 1;
        assert fds[i..numFds][1..] == fds[i + 1..numFds];
        if fds[i].revents { eve := eve + 1; }
      }
      assert fds[0..numFds] == fds[..numFds];
      assert forall j :: 0 <= j < numFds ==> fds[..numFds][j].fd == old(fds[..numFds])[j].fd;
    }

    /** A new connection on listener `i`, put at the end of the poll set without events. */
    method AddClient(i: nat, client: int)
      requires Synced() && i < |ports| && numFds < fds.Length && !Busy(model, i)
      modifies this`numFds, this`model, fds, clients
      ensures Synced() && model == Accept(old(model), client, i)
      ensures numFds == old(numFds) + 1
      ensures fds[..numFds] == old(fds[..numFds]) + [PollFd(client, false)]
    {
      MatchesAccept(model, fds[..numFds], clients[..], client, i);
      clients[i] := client;
      fds[numFds] := PollFd(client, false);
      numFds := numFds + 1;
      model := Accept(model, client, i);
      assert fds[..numFds] == old(fds[..numFds]) + [PollFd(client, false)];
      assert clients[..] == old(clients[..])[i := client];
    }

    /** The search for the listener of a connection, which always succeeds. */
    method PortIndex(client: int, ghost k: nat) returns (l: nat)
      requires Synced() && Descriptors(model) && k < |model.active| && model.active[k].fd == client
      ensures l == model.active[k].listener
    {
      l := 0;
      while l < clients.Length && clients[l] != client
        invariant l <= model.active[k].listener
        invariant forall j :: 0 <= j < l ==> clients[j] != client
      {
        l := l + 1;
      }
      OwnerUnique(model, clients[..], k, l);
    }

    /** The connection at entry `i` leaves both arrays; the gap in `fds` is closed by a left shift. */
    method Detach(i: nat, l: nat)
      requires i < numFds <= fds.Length && l < clients.Length
      modifies this`numFds, fds, clients
      ensures numFds == old(numFds) - 1
      ensures fds[..numFds] == Remove(old(fds[..numFds]), i)
      ensures clients[..] == old(clients[..])[l := -1]
    {
      clients[l] := -1;
      for k := i to numFds - 1
        invariant forall j :: 0 <= j < i ==> fds[j] == old(fds[j])
        invariant forall j :: i <= j < k ==> fds[j] == old(fds[j + 1])
        invariant forall j :: k <= j < fds.Length ==> fds[j] == old(fds[j])
        invariant clients[..] == old(clients[..])[l := -1] && numFds == old(numFds)
      {
        fds[k] := fds[k + 1];
      }
      numFds := numFds - 1;
      assert forall j :: 0 <= j < numFds ==> fds[j] == Remove(old(fds[..numFds]), i)[j];
    }

    /** Closing the connection at entry `i` of the poll set, after its reply. */
    method CloseClient(i: nat, l: nat, reply: (int, PipeMessage.Verdict), ghost x: Served)
      requires Synced() && Descriptors(model) && status == Running && |ports| <= i < numFds
      requires model.active[i - |ports|].listener == l && reply == (x.conn.fd, x.verdict)
      modifies this`numFds, this`count, this`status, this`replies, this`model, fds, clients
      ensures Synced() && model == Close(old(model), i - |ports|, x)
      ensures numFds == old(numFds) - 1 && fds[..numFds] == Remove(old(fds[..numFds]), i)
    {
      ghost var k, entries, owners := i - |ports|, fds[..numFds], clients[..];
      ghost var after := Close(model, k, x);
      MatchesClose(model, entries, owners, k, x);
      RepliesAppend(model.served, x);
      assert Matches(after, Remove(entries, i), owners[l := -1]) && Replies(after.served) == replies + [reply];
      Detach(i, l);
      replies := replies + [reply];
      count := count + 1;
      model := after;
      if count >= |ports| { status := Finished; }
    }

    /** Entry `i`, a connection, is ready: read it, answer, close. */
    method ServeClient(i: nat, raw: RawPoll)
      requires Synced() && Descriptors(model) && status == Running && |ports| <= i < numFds
      requires |raw.accepts| == |ports| && Fits(raw)
      modifies this`numFds, this`count, this`status, this`replies, this`model, fds, clients
      ensures Synced() && model == HandleAt(old(model), i, Abstract(raw))
      ensures status != Failed ==> StillReady(old(fds[..numFds]), i + 1, fds[..numFds], i)
    {
      ghost var k := i - |ports|;
      ReadyConnection(model, i, Abstract(raw));
      ghost var r := Received(Abstract(raw), model.active[k].fd);
      var client := fds[i].fd;
      assert client == fds[..numFds][i].fd == model.active[k].fd;
      var l := PortIndex(client, k);
      var v := Consult(raw, client, ports[l]);
      if v == PipeMessage.Crash {
        status, model := Failed, model.(status := Failed);
        return;
      }
      AfterShift(fds[..numFds], i);
      CloseClient(i, l, (client, v), Served(model.active[k], r, v));
    }

    /** Entry `i`, a listener, is ready: accept, unless its connection is still open. */
    method ServeListener(i: nat, raw: RawPoll)
      requires Synced() && Descriptors(model) && status == Running && i < |ports| == |raw.accepts|
      requires i < numFds && (!Busy(model, i) ==> numFds < fds.Length)
      modifies this`numFds, this`model, fds, clients
      ensures Synced() && status == model.status
      ensures model == HandleAt(old(model), i, Abstract(raw))
      ensures StillReady(old(fds[..numFds]), i + 1, fds[..numFds], i + 1)
    {
      IdleListener(model, fds[..numFds], clients[..], i);
      ReadyListener(model, i, Abstract(raw));
      AfterAppend(fds[..numFds], i + 1, raw.accepts[i]);
      if clients[i] == -1 {
        AddClient(i, raw.accepts[i]);
      }
    }

    /**
     Entry `i` is ready. The scan goes on at `next`; the ready entries from there on
     are those that came after `i`, whatever was appended or shifted.
     */
    method HandleEntry(i: nat, raw: RawPoll) returns (next: nat)
      requires Synced() && Descriptors(model) && status == Running && i < numFds
      requires |raw.accepts| == |ports| && (i < |ports| && !Busy(model, i) ==> numFds < fds.Length)
      requires Fits(raw)
      modifies this`numFds, this`count, this`status, this`replies, this`model, fds, clients
      ensures Synced() && model == HandleAt(old(model), i, Abstract(raw))
      ensures status != Failed ==> StillReady(old(fds[..numFds]), i + 1, fds[..numFds], next)
    {
      if i < |ports| {
        ServeListener(i, raw);
        next := i + 1;
      } else {
        ServeClient(i, raw);
        next := i;
      }
    }

    /**
     The scan at entry `i`, where `todo` are the ready entries that remain of a pass
     from `s0`: a ready entry is handled, any other skipped.
     */
    method ScanEntry(i: nat, eve: nat, raw: RawPoll, ghost s0: Server, ghost todo: seq<int>)
      returns (next: nat, left: nat, ghost rest: seq<int>)
      requires Synced() && status == Running && i < numFds && 0 < eve == |todo| && Fits(raw)
      requires Scanning(s0, model, fds[..numFds], i, todo, Abstract(raw))
      modifies this`numFds, this`count, this`status, this`replies, this`model, fds, clients
      ensures Synced() && Completes(s0, model, rest, Abstract(raw)) && left == |rest|
      ensures status == Running ==> Scanning(s0, model, fds[..numFds], next, rest, Abstract(raw))
      ensures left < eve || (left == eve && next == i + 1 && numFds == old(numFds))
    {
      assert fds[..numFds][i] == fds[i];
      if fds[i].revents {
        ScanStep(s0, model, fds[..numFds], i, todo, Abstract(raw));
        left, rest := eve - 1, todo[1..];
        next := HandleEntry(i, raw);
      } else {
        ScanSkip(s0, model, fds[..numFds], i, todo, Abstract(raw));
        next, left, rest := i + 1, eve, todo;
      }
    }

    /** The body of the endless loop: one call of `poll` and the scan of its entries. */
    method Pass(raw: RawPoll) returns (eve: nat)
      requires Valid() && status == Running && LegalPoll(model, Abstract(raw)) && Fits(raw)
      modifies this`numFds, this`count, this`status, this`replies, this`model, fds, clients
      ensures Valid() && model == PollSpec.Pass(old(model), Abstract(raw))
      ensures status == Running ==> eve == 0
    {
      ghost var s0, p := model, Abstract(raw);
      eve := Poll(raw.ready);
      ScanStart(s0, p, fds[..numFds]);
      var i: nat := 0;
      ghost var todo := ReadyFrom(fds[..numFds]);
      while i < numFds && eve > 0
        invariant Synced() && status == Running && eve == |todo|
        invariant Scanning(s0, model, fds[..numFds], i, todo, p)
        decreases eve, numFds - i
      {
        i, eve, todo := ScanEntry(i, eve, raw, s0, todo);
        if status != Running {
          HandleAllStopped(model, todo, p);
          return;
        }
      }
      ScanEnd(s0, model, fds[..numFds], i, todo, p);
    }

    /** One turn of the endless loop, pass `k` of a run from `s0`. */
    method Turn(raw: RawPoll, ghost s0: Server, ghost polls: seq<Poll>, ghost k: nat)
      requires Valid() && status == Running && Fits(raw)
      requires LegalRun(s0, polls) && Replaying(s0, model, polls, k) && k < |polls| && polls[k] == Abstract(raw)
      modifies this`numFds, this`count, this`status, this`replies, this`model, fds, clients
      ensures Valid() && Replaying(s0, model, polls, k + 1)
    {
      ReplayStep(s0, model, polls, k);
      var _ := Pass(raw);
    }

    /** The endless loop, for as many passes as the environment brings before the program ends. */
    method Loop(raws: seq<RawPoll>)
      requires Valid() && LegalRun(model, AbstractAll(raws))
      requires forall k :: 0 <= k < |raws| ==> Fits(raws[k])
      modifies this`numFds, this`count, this`status, this`replies, this`model, fds, clients
      ensures Valid() && model == Run(old(model), AbstractAll(raws))
      ensures OwnMessages(old(model), raws, model) && OwnAccepts(old(model), raws, model)
      ensures |replies| == |model.served|
      ensures forall i :: 0 <= i < |replies| ==> replies[i] == (model.served[i].conn.fd, model.served[i].verdict)
    {
      ghost var s0, polls := model, AbstractAll(raws);
      var k := 0;
      ReplayStart(s0, polls);
      while k < |raws| && status == Running
        invariant Valid() && k <= |raws| && Replaying(s0, model, polls, k)
      {
        Turn(raws[k], s0, polls, k);
        k := k + 1;
      }
      ReplayEnd(s0, model, polls, k);
      OriginsInRun(s0, raws);
    }
  }

  // ----- the lists of ready entries -----

  /** The ready entries from `j` on are, after a change of the poll set, those from `m` on. */
  ghost predicate StillReady(before: seq<PollFd>, j: nat, after: seq<PollFd>, m: nat) {
    j <= |before| && m <= |after| && ReadyFrom(after[m..]) == ReadyFrom(before[j..])
  }

  lemma AfterAppend(entries: seq<PollFd>, j: nat, fd: int)
    requires j <= |entries|
    ensures StillReady(entries, j, entries, j) && StillReady(entries, j, entries + [PollFd(fd, false)], j)
  {
    assert (entries + [PollFd(fd, false)])[j..] == entries[j..] + [PollFd(fd, false)];
    ReadyAppend(entries[j..], fd);
  }

  lemma AfterShift(entries: seq<PollFd>, i: nat)
    requires i < |entries|
    ensures StillReady(entries, i + 1, Remove(entries, i), i)
  {
    assert Remove(entries, i)[i..] == entries[i + 1..];
  }

  lemma ReadyNext(entries: seq<PollFd>, i: nat)
    requires i < |entries|
    ensures ReadyFrom(entries[i..]) ==
            (if entries[i].revents then [entries[i].fd] else []) + ReadyFrom(entries[i + 1..])
  {
    assert entries[i..][1..] == entries[i + 1..];
  }

  // ----- in the middle of a pass -----

  lemma ReadyListener(s: Server, i: nat, p: Poll)
    requires Descriptors(s) && |p.accepts| == |s.ports| && i < |s.listeners| && s.status == Running
    ensures HandleAt(s, i, p) == if Busy(s, i) then s else Accept(s, p.accepts[i], i)
  {
  }

  lemma ReadyConnection(s: Server, i: nat, p: Poll)
    requires Descriptors(s) && |p.accepts| == |s.ports| && |s.listeners| <= i < |Fds(s)| && s.status == Running
    ensures var k := i - |s.listeners|; HandleAt(s, i, p) == Serve(s, k, Received(p, s.active[k].fd))
  {
  }

  /** In the state `s` of a pass that began in `s0`, handling `todo` completes the pass. */
  ghost predicate Completes(s0: Server, s: Server, todo: seq<int>, p: Poll) {
    && PollSpec.Valid(s) && LegalPoll(s0, p) && Within(s0, s, p)
    && HandleAll(s, todo, p) == PollSpec.Pass(s0, p)
  }

  /** The scan stands at entry `i`, and `todo` are the ready entries from there on. */
  ghost predicate Scanning(s0: Server, s: Server, entries: seq<PollFd>, i: nat, todo: seq<int>, p: Poll) {
    i <= |entries| && ReadyFrom(entries[i..]) == todo && Completes(s0, s, todo, p)
  }

  lemma ScanStart(s0: Server, p: Poll, entries: seq<PollFd>)
    requires PollSpec.Valid(s0) && LegalPoll(s0, p) && |entries| == |Fds(s0)|
    requires forall j :: 0 <= j < |entries| ==> entries[j] == PollFd(Fds(s0)[j], p.ready[j])
    ensures Scanning(s0, s0, entries, 0, ReadyFrom(entries), p)
  {
    ReadyIsFlagged(entries, Fds(s0), p.ready);
    assert entries[0..] == entries;
  }

  lemma ScanSkip(s0: Server, s: Server, entries: seq<PollFd>, i: nat, todo: seq<int>, p: Poll)
    requires Scanning(s0, s, entries, i, todo, p) && i < |entries| && !entries[i].revents
    ensures Scanning(s0, s, entries, i + 1, todo, p)
  {
    ReadyNext(entries, i);
    assert [] + ReadyFrom(entries[i + 1..]) == ReadyFrom(entries[i + 1..]);
  }

  lemma ScanEnd(s0: Server, s: Server, entries: seq<PollFd>, i: nat, todo: seq<int>, p: Poll)
    requires Scanning(s0, s, entries, i, todo, p) && (i == |entries| || todo == [])
    ensures todo == [] && s == PollSpec.Pass(s0, p)
  {
  }

  /** Handling the ready entry at `i` leaves the rest of `todo`, and a new connection finds a free entry. */
  lemma ScanStep(s0: Server, s: Server, entries: seq<PollFd>, i: nat, todo: seq<int>, p: Poll)
    requires Scanning(s0, s, entries, i, todo, p) && i < |entries| && entries[i].revents
    requires EntriesMatch(s, entries) && s.status == Running
    ensures |todo| > 0 && todo[1..] == ReadyFrom(entries[i + 1..])
    ensures Descriptors(s) && Completes(s0, HandleAt(s, i, p), todo[1..], p)
    ensures i < |s.ports| && !Busy(s, i) ==> |entries| < 2 * |s.ports|
  {
    ReadyNext(entries, i);
    assert todo == [Fds(s)[i]] + ReadyFrom(entries[i + 1..]);
    HandleIsAt(s, i, p);
    HandleKeeps(s0, s, i, p);
    if i < |s.ports| && !Busy(s, i) {
      Room(s, p.accepts[i], i);
    }
  }

  // ----- where the verdicts of a run come from, told on what arrived -----

  /**
   Pass `k` found the connection open, at place `j`, and ready; its own descriptor
   brought the bytes that make the request.
   */
  ghost predicate Brought(raw: RawPoll, s: Server, x: Served, j: nat) {
    && j < |s.active| && s.active[j] == x.conn
    && |s.listeners| + j < |raw.ready| && raw.ready[|s.listeners| + j]
    && x.conn.fd in raw.inbox && raw.inbox[x.conn.fd] != []
    && x.request == PipeMessage.Parse(CStr(raw.inbox[x.conn.fd]))
  }

  /** Every new verdict answers the message that came on the connection's own descriptor. */
  ghost predicate OwnMessages(s: Server, raws: seq<RawPoll>, t: Server) {
    forall x :: x in t.served && x !in s.served ==>
      exists k: nat, j: nat ::
        Reached(s, AbstractAll(raws), k) && Brought(raws[k], Before(s, AbstractAll(raws), k), x, j)
  }

  /** Every new connection came from the `accept` of its own listener, which was ready and idle. */
  ghost predicate OwnAccepts(s: Server, raws: seq<RawPoll>, t: Server) {
    forall c :: c in t.accepted && c !in s.accepted ==>
      exists k: nat ::
        Reached(s, AbstractAll(raws), k) && Opened(raws[k], Before(s, AbstractAll(raws), k), c)
  }

  ghost predicate Opened(raw: RawPoll, s: Server, c: Conn) {
    && c.listener < |raw.ready| && c.listener < |raw.accepts|
    && raw.ready[c.listener] && !Busy(s, c.listener) && c.fd == raw.accepts[c.listener]
  }

  lemma OriginsInRun(s: Server, raws: seq<RawPoll>)
    requires PollSpec.Valid(s) && LegalRun(s, AbstractAll(raws))
    ensures OwnMessages(s, raws, Run(s, AbstractAll(raws))) && OwnAccepts(s, raws, Run(s, AbstractAll(raws)))
  {
    var polls := AbstractAll(raws);
    var t := Run(s, polls);
    forall x | x in t.served && x !in s.served
      ensures exists k: nat, j: nat :: Reached(s, polls, k) && Brought(raws[k], Before(s, polls, k), x, j)
    {
      var k, j := RunReads(s, polls, x);
      BroughtRaw(raws[k], Before(s, polls, k), x, j);
    }
    forall c | c in t.accepted && c !in s.accepted
      ensures exists k: nat :: Reached(s, polls, k) && Opened(raws[k], Before(s, polls, k), c)
    {
      var k := RunTakes(s, polls, c);
      OpenedRaw(raws[k], Before(s, polls, k), c);
    }
  }

  lemma BroughtRaw(raw: RawPoll, s: Server, x: Served, j: nat)
    requires Read(s, Abstract(raw), x, j)
    ensures Brought(raw, s, x, j)
  {
  }

  lemma OpenedRaw(raw: RawPoll, s: Server, c: Conn)
    requires Taken(s, Abstract(raw), c)
    ensures Opened(raw, s, c)
  {
  }

  // ----- in the middle of a run -----

  /** In the state `s`, reached after `k` passes of a run from `s0`, the remaining passes complete the run. */
  ghost predicate Replaying(s0: Server, s: Server, polls: seq<Poll>, k: nat)
    requires LegalRun(s0, polls)
  {
    k <= |polls| && LegalRun(s, polls[k..]) && Run(s, polls[k..]) == Run(s0, polls)
  }

  lemma ReplayStart(s0: Server, polls: seq<Poll>)
    requires LegalRun(s0, polls)
    ensures Replaying(s0, s0, polls, 0)
  {
    assert polls[0..] == polls;
  }

  lemma ReplayStep(s0: Server, s: Server, polls: seq<Poll>, k: nat)
    requires LegalRun(s0, polls) && Replaying(s0, s, polls, k) && k < |polls| && s.status == Running
    ensures LegalPoll(s, polls[k]) && Replaying(s0, PollSpec.Pass(s, polls[k]), polls, k + 1)
  {
    assert polls[k..][0] == polls[k] && polls[k..][1..] == polls[k + 1..];
  }

  lemma ReplayEnd(s0: Server, s: Server, polls: seq<Poll>, k: nat)
    requires LegalRun(s0, polls) && Replaying(s0, s, polls, k) && (k == |polls| || s.status != Running)
    ensures s == Run(s0, polls)
  {
  }
}
