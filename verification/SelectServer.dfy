/**
 The one-shot select server of P3/CTAR: each port is decided once, by the first
 request it gets or by the timeout. `processed` and `remaining` are the program's
 own bookkeeping; the number of ports is that of `ports` (three in the program).
 */
module SelectServer {
  import opened CText
  import opened Caesar
  import opened Numerals

  const KEY := 34            // the only shift this server takes
  const BUFFER_SIZE := 1024   // of the request and of the text

  datatype Option<T> = None | Some(value: T)

  datatype Verdict = Encrypted(text: seq<byte>) | Rejected | TimedOut

  datatype Request = Request(port: int32, shift: int32, text: seq<byte>) | Invalid

  // ----- one request -----

  /** `sscanf(buffer, "%d|%d|%[^\n]", …) == 3`; the last conversion needs at least one byte. */
  function ParseRequest(s: seq<byte>): Request {
    var a := ScanInt(s);
    var b := if a.Match? then Field([PIPE], a.rest) else NoMatch;
    if b.Match? && [PIPE] <= b.rest && Line(b.rest[1..]) != []
    then Request(Narrow(a.value), Narrow(b.value), Line(b.rest[1..]))
    else Invalid
  }

  /** The verdict on what `recv` gave (nothing when it failed) at a port. */
  function Decide(bytes: seq<byte>, port: int32): Verdict {
    match ParseRequest(CStr(bytes))
    case Invalid => Rejected
    case Request(requested, shift, text) =>
      if bytes != [] && requested == port && shift == KEY then Encrypted(BareCipher(text, KEY)) else Rejected
  }

  lemma ParsedText(s: seq<byte>)
    requires ParseRequest(s).Request?
    ensures forall x :: x in ParseRequest(s).text ==> x in s
    ensures |ParseRequest(s).text| < |s|
  {
    var a := ScanInt(s);
    var b := ScanInt(a.rest[1..]);
    ScanIntRest(s);
    ScanIntRest(a.rest[1..]);
    LinePart(b.rest[1..]);
    LineShape(b.rest[1..]);
    assert forall x :: x in a.rest[1..] ==> x in a.rest;
    assert forall x :: x in b.rest[1..] ==> x in b.rest;
  }

  /** The handling of one accepted connection: the text is encrypted in its own buffer. */
  method Answer(bytes: seq<byte>, port: int32) returns (v: Verdict)
    requires |bytes| <= 1023
    ensures v == Decide(bytes, port)
  {
    if bytes == [] { return Rejected; }
    var r := ParseRequest(CStr(bytes));
    if r.Invalid? { return Rejected; }
    if r.port == port && r.shift == KEY {
      var n := |r.text|;
      ParsedText(CStr(bytes));
      var content := new byte[BUFFER_SIZE](i => if 0 <= i < n then r.text[i] else NUL);
      assert content[..n] == r.text && content[n] == NUL;
      StrLenUnique(content[..], n);
      EncryptBare(content, r.shift);
      return Encrypted(content[..n]);
    }
    return Rejected;
  }

  // ----- which requests are understood -----

  /** A number, a separator, a number, a separator, a line that is not empty, and what follows the line. */
  ghost predicate RequestText(s: seq<byte>, a: seq<byte>, x: int, b: seq<byte>, y: int, line: seq<byte>,
                              rest: seq<byte>) {
    && s == a + ([PIPE] + (b + ([PIPE] + (line + rest))))
    && Spells(a, x) && Spells(b, y)
    && line != [] && NEWLINE !in line && (rest == [] || rest[0] == NEWLINE)
  }

  lemma ParseText(s: seq<byte>, a: seq<byte>, x: int, b: seq<byte>, y: int, line: seq<byte>, rest: seq<byte>)
    requires RequestText(s, a, x, b, y, line, rest)
    ensures ParseRequest(s) == Request(Narrow(x), Narrow(y), line)
  {
    var second := b + ([PIPE] + (line + rest));
    ScanBegun(s, a, x, [PIPE] + second);
    assert ([PIPE] + second)[1..] == second;
    ScanBegun(second, b, y, [PIPE] + (line + rest));
    assert ([PIPE] + (line + rest))[1..] == line + rest;
    LineBefore(line, rest);
  }

  lemma TextFound(s: seq<byte>) returns (a: seq<byte>, x: int, b: seq<byte>, y: int, line: seq<byte>, rest: seq<byte>)
    requires ParseRequest(s).Request?
    ensures RequestText(s, a, x, b, y, line, rest)
  {
    var first := ScanInt(s);
    a := ScanFinds(s);
    var tail := first.rest[1..];
    var second := ScanInt(tail);
    b := ScanFinds(tail);
    x, y := first.value, second.value;
    var text := second.rest[1..];
    LineShape(text);
    line, rest := Line(text), text[|Line(text)|..];
    TextParts(s, a, first.rest, b, second.rest, line, rest);
  }

  lemma TextParts(s: seq<byte>, a: seq<byte>, r: seq<byte>, b: seq<byte>, q: seq<byte>, line: seq<byte>,
                  rest: seq<byte>)
    requires s == a + r && [PIPE] <= r && r[1..] == b + q && [PIPE] <= q && q[1..] == line + rest
    ensures s == a + ([PIPE] + (b + ([PIPE] + (line + rest))))
  {
    assert r == [PIPE] + r[1..] && q == [PIPE] + q[1..];
  }

  /** Only such a request that names the port and the key 34 is encrypted, and its line is. */
  lemma DecideUnderstood(bytes: seq<byte>, a: seq<byte>, x: int, b: seq<byte>, y: int, line: seq<byte>, rest: seq<byte>,
                         port: int32)
    requires RequestText(CStr(bytes), a, x, b, y, line, rest)
    ensures Decide(bytes, port) ==
            if Narrow(x) == port && Narrow(y) == 34 then Encrypted(Cipher(line, 8)) else Rejected
  {
    ParseText(CStr(bytes), a, x, b, y, line, rest);
    KeyIsEight(line);
    NotEmpty(bytes, a, x);
  }

  lemma NotEmpty(bytes: seq<byte>, a: seq<byte>, x: int)
    requires Spells(a, x) && a <= CStr(bytes)
    ensures bytes != []
  {
  }

  /** Every other request, and none at all, is rejected. */
  lemma DecideOther(bytes: seq<byte>, port: int32)
    requires !exists a: seq<byte>, x: int, b: seq<byte>, y: int, line: seq<byte>, rest: seq<byte> ::
      RequestText(CStr(bytes), a, x, b, y, line, rest)
    ensures Decide(bytes, port) == Rejected
  {
    if ParseRequest(CStr(bytes)).Request? {
      var a, x, b, y, line, rest := TextFound(CStr(bytes));
      assert false;
    }
  }

  /** A request as it is written. */
  function Written(port: int32, shift: int32, text: seq<byte>): seq<byte> {
    Dec(port) + ([PIPE] + (Dec(shift) + ([PIPE] + text)))
  }

  /** How much of a request's text `recv` takes. */
  function Room(port: int32, shift: int32): (n: nat)
    ensures n >= 999
  {
    DecLength(port);
    DecLength(shift);
    BUFFER_SIZE - 1 - (|Dec(port)| + |Dec(shift)| + 2)
  }

  /** `recv` cuts a request in its text, never before. */
  lemma ReceivedText(port: int32, shift: int32, text: seq<byte>)
    ensures Take(Written(port, shift, text), BUFFER_SIZE - 1) == Written(port, shift, Take(text, Room(port, shift)))
  {
    DecLength(port);
    DecLength(shift);
    TakeAfter(Dec(port), [PIPE] + (Dec(shift) + ([PIPE] + text)), BUFFER_SIZE - 1);
    TakeAfter([PIPE], Dec(shift) + ([PIPE] + text), BUFFER_SIZE - 1 - |Dec(port)|);
    TakeAfter(Dec(shift), [PIPE] + text, BUFFER_SIZE - 2 - |Dec(port)|);
    TakeAfter([PIPE], text, BUFFER_SIZE - 2 - |Dec(port)| - |Dec(shift)|);
  }

  lemma TakeAfter(a: seq<byte>, b: seq<byte>, n: nat)
    requires |a| <= n
    ensures Take(a + b, n) == a + Take(b, n - |a|)
  {
  }

  /** What the server makes of a request with this line. */
  function ReadAs(port: int32, shift: int32, line: seq<byte>): Request {
    if line != [] then Request(port, shift, line) else Invalid
  }

  lemma ParseWritten(port: int32, shift: int32, text: seq<byte>)
    ensures ParseRequest(Written(port, shift, text)) == ReadAs(port, shift, Line(text))
  {
    var tail := [PIPE] + text;
    ScanIntOfDec(port, [PIPE] + (Dec(shift) + tail));
    FieldRoundTrip([PIPE], shift, tail);
    assert tail[1..] == text;
    NarrowExact(port);
    NarrowExact(shift);
  }

  lemma DecideParsed(bytes: seq<byte>, r: Request, port: int32)
    requires bytes != [] && NUL !in bytes && ParseRequest(bytes) == r
    ensures Decide(bytes, port) == Judged(r, port)
  {
    CStrWhole(bytes);
    if r.Request? {
      KeyIsEight(r.text);
    }
  }

  function Judged(r: Request, port: int32): Verdict {
    if r.Request? && r.port == port && r.shift == KEY then Encrypted(Cipher(r.text, 8)) else Rejected
  }

  lemma WrittenSound(requested: int32, shift: int32, text: seq<byte>)
    requires NUL !in text
    ensures Written(requested, shift, text) != [] && NUL !in Written(requested, shift, text)
  {
    DecLength(requested);
    DecLength(shift);
  }

  lemma DecideReceived(requested: int32, shift: int32, text: seq<byte>, port: int32)
    requires NUL !in text
    ensures Decide(Written(requested, shift, text), port) == Judged(ReadAs(requested, shift, Line(text)), port)
  {
    ParseWritten(requested, shift, text);
    WrittenSound(requested, shift, text);
    DecideParsed(Written(requested, shift, text), ReadAs(requested, shift, Line(text)), port);
  }

  /**
   A request written `port|shift|text` is encrypted exactly when it names the port
   and the key 34 and its first line is not empty. What is printed is then the Caesar
   image of as much of that line as `recv` takes, which the bare formula gets right
   for this key.
   */
  lemma DecideWritten(requested: int32, shift: int32, text: seq<byte>, port: int32)
    requires NUL !in text
    ensures Decide(Take(Written(requested, shift, text), BUFFER_SIZE - 1), port) ==
            if requested == port && shift == KEY && Line(text) != []
            then Encrypted(Cipher(Take(Line(text), Room(requested, shift)), 8)) else Rejected
  {
    var room := Room(requested, shift);
    ReceivedText(requested, shift, text);
    DecideReceived(requested, shift, Take(text, room), port);
    LineTake(text, room);
  }

  /** The first line is encrypted whole exactly when, besides, it fits the buffer together with port and shift. */
  lemma WholeLineEncrypted(requested: int32, shift: int32, text: seq<byte>, port: int32)
    requires NUL !in text
    ensures Decide(Take(Written(requested, shift, text), BUFFER_SIZE - 1), port) == Encrypted(Cipher(Line(text), 8))
            <==> requested == port && shift == KEY && 0 < |Line(text)| <= Room(requested, shift)
  {
    DecideWritten(requested, shift, text, port);
    assert |Cipher(Take(Line(text), Room(requested, shift)), 8)| == |Take(Line(text), Room(requested, shift))|;
    assert |Cipher(Line(text), 8)| == |Line(text)|;
  }

  lemma KeyIsEight(text: seq<byte>)
    ensures KEY == 34 && BareCipher(text, KEY) == Cipher(text, 8)
  {
    BareCipherExact(text, KEY);
    CipherSame(text, KEY, 8);
  }

  // ----- what the environment does in one iteration -----

  /**
   `select` times out, fails, or flags ports; a connection of a flagged port is
   None when `accept` fails, and otherwise the bytes that `recv` gives.
   */
  datatype Activity =
    | Timeout
    | Failure
    | Ready(flags: seq<bool>, conns: seq<Option<seq<byte>>>)

  ghost predicate Fits(a: Activity, n: nat) {
    a.Ready? ==>
      && |a.flags| == |a.conns| == n
      && forall i :: 0 <= i < n && a.conns[i].Some? ==> |a.conns[i].value| <= 1023
  }

  /** What an activity decides about a port that is still open. */
  function Effect(a: Activity, i: nat, port: int32): Option<Verdict>
    requires a.Ready? ==> i < |a.flags| == |a.conns|
  {
    match a
    case Timeout => Some(TimedOut)
    case Failure => None
    case Ready(flags, conns) =>
      if flags[i] && conns[i].Some? then Some(Decide(conns[i].value, port)) else None
  }

  /** What a run decides about a port, looking at nothing but that port. */
  ghost function Decision(run: seq<Activity>, i: nat, n: nat, port: int32): Option<Verdict>
    requires i < n && forall k :: 0 <= k < |run| ==> Fits(run[k], n)
  {
    if |run| == 0 then None else
      assert Fits(run[0], n);
      var e := Effect(run[0], i, port);
      if e.Some? then e else Decision(run[1..], i, n, port)
  }

  /** The decision is that of the first activity with an effect on the port, and there is none without one. */
  lemma {:induction false} DecisionIsFirst(run: seq<Activity>, i: nat, n: nat, port: int32)
    requires i < n && forall k :: 0 <= k < |run| ==> Fits(run[k], n)
    ensures Decision(run, i, n, port).None? <==> forall k :: 0 <= k < |run| ==> Effect(run[k], i, port).None?
    ensures Decision(run, i, n, port).Some? ==> exists k ::
      && 0 <= k < |run| && Decision(run, i, n, port) == Effect(run[k], i, port)
      && forall m :: 0 <= m < k ==> Effect(run[m], i, port).None?
  {
    if |run| == 0 {
    } else {
      DecisionIsFirst(run[1..], i, n, port);
      if Effect(run[0], i, port).None? && Decision(run, i, n, port).Some? {
        var k :| 0 <= k < |run[1..]| && Decision(run, i, n, port) == Effect(run[1..][k], i, port)
          && forall m :: 0 <= m < k ==> Effect(run[1..][m], i, port).None?;
        assert run[k + 1] == run[1..][k];
        forall m | 0 <= m < k + 1 ensures Effect(run[m], i, port).None? {
          assert m > 0 ==> run[m] == run[1..][m - 1];
        }
      }
    }
  }

  // ----- what a port's decision depends on, told on the activities -----

  /** The activities show the same at port `i`. */
  predicate SameAt(a: Activity, b: Activity, i: nat)
    requires a.Ready? ==> i < |a.flags| == |a.conns|
    requires b.Ready? ==> i < |b.flags| == |b.conns|
  {
    match (a, b)
    case (Timeout, Timeout) => true
    case (Failure, Failure) => true
    case (Ready(f, c), Ready(g, d)) => f[i] == g[i] && (f[i] ==> c[i] == d[i])
    case _ => false
  }

  /** Nothing comes at port `i`: `select` failed, the port is not flagged, or its `accept` failed. */
  predicate Quiet(a: Activity, i: nat)
    requires a.Ready? ==> i < |a.flags| == |a.conns|
  {
    a.Failure? || (a.Ready? && (!a.flags[i] || a.conns[i].None?))
  }

  /** A connection at port `i` brings these bytes. */
  predicate Brings(a: Activity, i: nat, bytes: seq<byte>)
    requires a.Ready? ==> i < |a.flags| == |a.conns|
  {
    a.Ready? && a.flags[i] && a.conns[i] == Some(bytes)
  }

  /** Runs that show the same at a port decide it alike, whatever they show at the others. */
  lemma {:induction false} Independent(r: seq<Activity>, q: seq<Activity>, i: nat, n: nat, port: int32)
    requires i < n && |r| == |q|
    requires forall k :: 0 <= k < |r| ==> Fits(r[k], n) && Fits(q[k], n) && SameAt(r[k], q[k], i)
    ensures Decision(r, i, n, port) == Decision(q, i, n, port)
  {
    if |r| == 0 {
    } else {
      assert Fits(r[0], n) && Fits(q[0], n) && SameAt(r[0], q[0], i);
      Independent(r[1..], q[1..], i, n, port);
    }
  }

  lemma {:induction false} DecidedAt(run: seq<Activity>, k: nat, i: nat, n: nat, port: int32)
    requires i < n && k < |run| && forall m :: 0 <= m < |run| ==> Fits(run[m], n)
    requires forall m :: 0 <= m < k ==> Fits(run[m], n) && Quiet(run[m], i)
    ensures run[k] == Timeout ==> Decision(run, i, n, port) == Some(TimedOut)
    ensures forall bytes: seq<byte> :: Fits(run[k], n) && Brings(run[k], i, bytes) ==>
              Decision(run, i, n, port) == Some(Decide(bytes, port))
  {
    assert Fits(run[0], n);
    if k == 0 {
    } else {
      assert Quiet(run[0], i);
      forall m | 0 <= m < k - 1 ensures Fits(run[1..][m], n) && Quiet(run[1..][m], i) {
        assert Fits(run[m + 1], n) && Quiet(run[m + 1], i);
      }
      DecidedAt(run[1..], k - 1, i, n, port);
    }
  }

  /** Without anything at a port, and without a timeout, it stays undecided. */
  lemma {:induction false} QuietUndecided(run: seq<Activity>, i: nat, n: nat, port: int32)
    requires i < n && forall m :: 0 <= m < |run| ==> Fits(run[m], n) && Quiet(run[m], i)
    ensures Decision(run, i, n, port).None?
  {
    if |run| == 0 {
    } else {
      assert Fits(run[0], n) && Quiet(run[0], i);
      QuietUndecided(run[1..], i, n, port);
    }
  }

  lemma {:induction false} DecisionAppend(run: seq<Activity>, a: Activity, i: nat, n: nat, port: int32)
    requires i < n && Fits(a, n) && forall k :: 0 <= k < |run| ==> Fits(run[k], n)
    ensures Decision(run + [a], i, n, port) ==
            if Decision(run, i, n, port).Some? then Decision(run, i, n, port) else Effect(a, i, port)
  {
    if |run| == 0 {
    } else {
      assert (run + [a])[1..] == run[1..] + [a];
      DecisionAppend(run[1..], a, i, n, port);
    }
  }

  // ----- the bookkeeping -----

  /** How many ports are still open. */
  ghost function Pending(processed: seq<bool>): nat {
    if |processed| == 0 then 0 else (if processed[0] then 0 else 1) + Pending(processed[1..])
  }

  lemma {:induction false} PendingSet(processed: seq<bool>, i: nat)
    requires i < |processed| && !processed[i]
    ensures Pending(processed[i := true]) == Pending(processed) - 1
  {
    if i > 0 {
      assert processed[i := true][1..] == processed[1..][i - 1 := true];
      PendingSet(processed[1..], i - 1);
    } else {
      assert processed[i := true][1..] == processed[1..];
    }
  }

  lemma {:induction false} PendingZero(processed: seq<bool>)
    ensures Pending(processed) == 0 <==> forall i :: 0 <= i < |processed| ==> processed[i]
  {
    if |processed| == 0 {
    } else {
      PendingZero(processed[1..]);
    }
  }

  ghost predicate Consistent(processed: array<bool>, verdicts: array<Option<Verdict>>, remaining: int)
    reads processed, verdicts
  {
    && processed.Length == verdicts.Length
    && remaining == Pending(processed[..])
    && forall i :: 0 <= i < processed.Length ==> (processed[i] <==> verdicts[i].Some?)
  }

  /** A verdict once given stands. */
  function Once(v: Option<Verdict>, e: Option<Verdict>): Option<Verdict> { if v.Some? then v else e }

  /** The effect of an activity on every port: decided ports keep their verdict. */
  ghost predicate Applied(a: Activity, ports: seq<int32>, before: seq<Option<Verdict>>, after: seq<Option<Verdict>>)
    requires Fits(a, |ports|) && |before| == |after| == |ports|
  {
    forall i :: 0 <= i < |ports| ==> after[i] == Once(before[i], Effect(a, i, ports[i]))
  }

  /** Of ports that only go from open to processed, fewer are open exactly when some port went. */
  lemma {:induction false} PendingDrops(before: seq<bool>, after: seq<bool>)
    requires |before| == |after| && forall i :: 0 <= i < |before| && before[i] ==> after[i]
    ensures Pending(after) <= Pending(before)
    ensures Pending(after) < Pending(before) <==> exists i :: 0 <= i < |before| && !before[i] && after[i]
  {
    if |before| == 0 {
    } else {
      PendingDrops(before[1..], after[1..]);
      if i :| 0 <= i < |before[1..]| && !before[1..][i] && after[1..][i] {
        assert !before[i + 1] && after[i + 1];
      }
      if i :| 0 <= i < |before| && !before[i] && after[i] {
        assert i > 0 ==> !before[1..][i - 1] && after[1..][i - 1];
      }
    }
  }

  /** Gives port `i` its verdict. */
  method Settle(processed: array<bool>, verdicts: array<Option<Verdict>>, remaining: nat, i: nat, v: Verdict)
    returns (left: nat)
    requires Consistent(processed, verdicts, remaining) && i < processed.Length && !processed[i]
    modifies processed, verdicts
    ensures Consistent(processed, verdicts, left) && left == remaining - 1
    ensures verdicts[..] == old(verdicts[..])[i := Some(v)]
    ensures processed[..] == old(processed[..])[i := true]
  {
    PendingSet(processed[..], i);
    processed[i], verdicts[i] := true, Some(v);
    assert processed[..] == old(processed[..])[i := true];
    left := remaining - 1;
  }

  /** The body of the scan over the ports, at port `i`. */
  method Visit(ports: seq<int32>, processed: array<bool>, verdicts: array<Option<Verdict>>, remaining: nat,
               a: Activity, i: nat)
    returns (left: nat)
    requires Consistent(processed, verdicts, remaining) && processed.Length == |ports| && i < |ports|
    requires Fits(a, |ports|) && !a.Failure?
    modifies processed, verdicts
    ensures Consistent(processed, verdicts, left)
    ensures verdicts[..] == old(verdicts[..])[i := Once(old(verdicts[i]), Effect(a, i, ports[i]))]
  {
    left := remaining;
    if !processed[i] {
      if a.Timeout? {
        left := Settle(processed, verdicts, left, i, TimedOut);
      } else if a.flags[i] && a.conns[i].Some? {
        var v := Answer(a.conns[i].value, ports[i]);
        left := Settle(processed, verdicts, left, i, v);
      }
    }
  }

  /**
   One iteration. No port is decided twice, `remaining` keeps counting the open
   ports, and it goes down exactly when the activity has an effect on an open one.
   */
  method Iterate(ports: seq<int32>, processed: array<bool>, verdicts: array<Option<Verdict>>, remaining: nat,
                 a: Activity)
    returns (left: nat)
    requires Consistent(processed, verdicts, remaining) && processed.Length == |ports| && Fits(a, |ports|)
    modifies processed, verdicts
    ensures Consistent(processed, verdicts, left)
    ensures Applied(a, ports, old(verdicts[..]), verdicts[..])
    ensures left <= remaining
    ensures left < remaining <==> exists i ::
      0 <= i < |ports| && !old(processed[i]) && Effect(a, i, ports[i]).Some?
    ensures a.Timeout? ==> left == 0
  {
    left := remaining;
    if a.Failure? { return; }
    ghost var before, was := verdicts[..], processed[..];
    for i := 0 to |ports|
      invariant Consistent(processed, verdicts, left)
      invariant forall j :: 0 <= j < i ==> verdicts[j] == Once(before[j], Effect(a, j, ports[j]))
      invariant forall j :: i <= j < |ports| ==> verdicts[j] == before[j]
    {
      ghost var here := verdicts[..];
      left := Visit(ports, processed, verdicts, left, a, i);
      assert forall j :: 0 <= j < |ports| && j != i ==> verdicts[..][j] == here[j];
      assert verdicts[..][i] == Once(before[i], Effect(a, i, ports[i]));
    }
    PendingDrops(was, processed[..]);
    PendingZero(processed[..]);
    assert forall j :: 0 <= j < |ports| ==>
      (!was[j] && processed[..][j] <==> !was[j] && Effect(a, j, ports[j]).Some?);
  }

  /** The verdicts of a run so far. */
  ghost predicate Decided(run: seq<Activity>, ports: seq<int32>, verdicts: seq<Option<Verdict>>) {
    && |verdicts| == |ports| && (forall k :: 0 <= k < |run| ==> Fits(run[k], |ports|))
    && (forall i :: 0 <= i < |ports| ==> verdicts[i] == Decision(run, i, |ports|, ports[i]))
  }

  /**
   The first connection accepted at a port decides it by its own request, and a
   timeout before any gives that verdict, whatever the other ports get.
   */
  lemma FirstDecides(run: seq<Activity>, ports: seq<int32>, verdicts: seq<Option<Verdict>>, i: nat, k: nat)
    requires Decided(run, ports, verdicts) && i < |ports| && k < |run|
    requires forall m :: 0 <= m < k ==> Fits(run[m], |ports|) && Quiet(run[m], i)
    ensures run[k] == Timeout ==> verdicts[i] == Some(TimedOut)
    ensures forall bytes: seq<byte> :: Fits(run[k], |ports|) && Brings(run[k], i, bytes) ==>
              verdicts[i] == Some(Decide(bytes, ports[i]))
  {
    DecidedAt(run, k, i, |ports|, ports[i]);
  }

  /** A port at which nothing ever comes has no verdict before a timeout. */
  lemma NothingDecides(run: seq<Activity>, ports: seq<int32>, verdicts: seq<Option<Verdict>>, i: nat)
    requires Decided(run, ports, verdicts) && i < |ports|
    requires forall m :: 0 <= m < |run| ==> Fits(run[m], |ports|) && Quiet(run[m], i)
    ensures verdicts[i] == None
  {
    QuietUndecided(run, i, |ports|, ports[i]);
  }

  /**
   A request for its own port with the key 34, when it is the first to come, is
   encrypted as far as it is received.
   */
  lemma OwnRequestEncrypted(run: seq<Activity>, ports: seq<int32>, verdicts: seq<Option<Verdict>>, i: nat, k: nat,
                            text: seq<byte>)
    requires Decided(run, ports, verdicts) && i < |ports| && k < |run|
    requires forall m :: 0 <= m < k ==> Fits(run[m], |ports|) && Quiet(run[m], i)
    requires Fits(run[k], |ports|) && Brings(run[k], i, Take(Written(ports[i], 34, text), 1023))
    requires NUL !in text && Line(text) != []
    ensures verdicts[i] == Some(Encrypted(Cipher(Take(Line(text), Room(ports[i], 34)), 8)))
  {
    FirstDecides(run, ports, verdicts, i, k);
    DecideWritten(ports[i], 34, text, ports[i]);
  }

  lemma DecidedNext(run: seq<Activity>, a: Activity, ports: seq<int32>, before: seq<Option<Verdict>>,
                    after: seq<Option<Verdict>>)
    requires Decided(run, ports, before) && Fits(a, |ports|) && |after| == |ports| && Applied(a, ports, before, after)
    ensures Decided(run + [a], ports, after)
  {
    forall i | 0 <= i < |ports| ensures after[i] == Decision(run + [a], i, |ports|, ports[i]) {
      DecisionAppend(run, a, i, |ports|, ports[i]);
    }
  }

  /** When all ports are decided, what else might have happened does not matter. */
  lemma DecidedForGood(run: seq<Activity>, more: seq<Activity>, ports: seq<int32>, verdicts: seq<Option<Verdict>>)
    requires Decided(run, ports, verdicts) && forall k :: 0 <= k < |more| ==> Fits(more[k], |ports|)
    requires more == [] || forall i :: 0 <= i < |ports| ==> verdicts[i].Some?
    ensures Decided(run + more, ports, verdicts)
  {
    if more == [] {
      assert run + more == run;
    } else {
      forall i | 0 <= i < |ports| ensures verdicts[i] == Decision(run + more, i, |ports|, ports[i]) {
        DecisionSettled(run, more, i, |ports|, ports[i]);
      }
    }
  }

  lemma DecidedTurn(run: seq<Activity>, k: nat, ports: seq<int32>, before: seq<Option<Verdict>>,
                    after: seq<Option<Verdict>>)
    requires k < |run| && Decided(run[..k], ports, before)
    requires Fits(run[k], |ports|) && |after| == |ports| && Applied(run[k], ports, before, after)
    ensures Decided(run[..k + 1], ports, after)
    ensures Timeout in run[..k + 1] <==> Timeout in run[..k] || run[k] == Timeout
  {
    assert run[..k + 1] == run[..k] + [run[k]];
    DecidedNext(run[..k], run[k], ports, before, after);
  }

  lemma DecidedAll(run: seq<Activity>, k: nat, ports: seq<int32>, verdicts: seq<Option<Verdict>>)
    requires k <= |run| && Decided(run[..k], ports, verdicts) && forall m :: k <= m < |run| ==> Fits(run[m], |ports|)
    requires k == |run| || forall i :: 0 <= i < |ports| ==> verdicts[i].Some?
    ensures Decided(run, ports, verdicts)
  {
    assert run == run[..k] + run[k..];
    DecidedForGood(run[..k], run[k..], ports, verdicts);
  }

  /** After `k` iterations the verdicts are the decisions so far. */
  ghost predicate Underway(run: seq<Activity>, k: nat, ports: seq<int32>, processed: array<bool>,
                           verdicts: array<Option<Verdict>>, remaining: nat)
    requires k <= |run|
    reads processed, verdicts
  {
    && processed.Length == verdicts.Length == |ports|
    && Consistent(processed, verdicts, remaining)
    && Decided(run[..k], ports, verdicts[..])
    && (Timeout in run[..k] ==> remaining == 0)
  }

  /** Iteration `k` of a run. */
  method Turn(run: seq<Activity>, k: nat, ports: seq<int32>, processed: array<bool>,
              verdicts: array<Option<Verdict>>, remaining: nat)
    returns (left: nat)
    requires k < |run| && Fits(run[k], |ports|) && Underway(run, k, ports, processed, verdicts, remaining)
    modifies processed, verdicts
    ensures Underway(run, k + 1, ports, processed, verdicts, left)
  {
    ghost var before := verdicts[..];
    left := Iterate(ports, processed, verdicts, remaining, run[k]);
    DecidedTurn(run, k, ports, before, verdicts[..]);
  }

  /**
   The program: it stops when no port remains, which a timeout brings about at
   once. Each port's verdict is its own decision, independent of the other ports.
   */
  method Serve(ports: seq<int32>, run: seq<Activity>) returns (verdicts: array<Option<Verdict>>, remaining: nat)
    requires forall k :: 0 <= k < |run| ==> Fits(run[k], |ports|)
    ensures Decided(run, ports, verdicts[..])
    ensures remaining == 0 <==> forall i :: 0 <= i < |ports| ==> verdicts[..][i].Some?
    ensures Timeout in run ==> remaining == 0
  {
    var processed := new bool[|ports|](_ => false);
    verdicts := new Option<Verdict>[|ports|](_ => None);
    remaining := |ports|;
    NonePending(processed[..]);
    var k := 0;
    while k < |run| && remaining > 0
      invariant k <= |run| && fresh(processed) && fresh(verdicts)
      invariant Underway(run, k, ports, processed, verdicts, remaining)
    {
      remaining := Turn(run, k, ports, processed, verdicts, remaining);
      k := k + 1;
    }
    Concluded(run, k, ports, processed[..], verdicts[..], remaining);
  }

  /** When no activity is left or no port remains, the verdicts are those of the whole run. */
  lemma Concluded(run: seq<Activity>, k: nat, ports: seq<int32>, processed: seq<bool>,
                  verdicts: seq<Option<Verdict>>, remaining: nat)
    requires k <= |run| && Decided(run[..k], ports, verdicts) && forall m :: k <= m < |run| ==> Fits(run[m], |ports|)
    requires |processed| == |ports| && remaining == Pending(processed)
    requires forall i :: 0 <= i < |ports| ==> (processed[i] <==> verdicts[i].Some?)
    requires (k == |run| || remaining == 0) && (Timeout in run[..k] ==> remaining == 0)
    ensures Decided(run, ports, verdicts)
    ensures remaining == 0 <==> forall i :: 0 <= i < |ports| ==> verdicts[i].Some?
    ensures Timeout in run ==> remaining == 0
  {
    PendingZero(processed);
    DecidedAll(run, k, ports, verdicts);
    assert k == |run| ==> run[..k] == run;
  }

  lemma {:induction false} NonePending(processed: seq<bool>)
    requires forall i :: 0 <= i < |processed| ==> !processed[i]
    ensures Pending(processed) == |processed|
  {
    if |processed| == 0 {
    } else {
      NonePending(processed[1..]);
    }
  }

  /** A decision once taken stands. */
  lemma {:induction false} DecisionSettled(run: seq<Activity>, more: seq<Activity>, i: nat, n: nat, port: int32)
    requires i < n && (forall k :: 0 <= k < |run| ==> Fits(run[k], n))
    requires forall k :: 0 <= k < |more| ==> Fits(more[k], n)
    requires Decision(run, i, n, port).Some?
    ensures Decision(run + more, i, n, port) == Decision(run, i, n, port)
  {
    if Effect(run[0], i, port).Some? {
    } else {
      assert (run + more)[1..] == run[1..] + more;
      DecisionSettled(run[1..], more, i, n, port);
    }
  }
}
