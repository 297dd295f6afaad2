/**
 Stream sockets as the programs see them. A call may move any part of what was
 asked for, a signal may interrupt it, and on an unreliable connection it may
 fail. All of this is the environment's free choice, so whatever is proved about
 a caller holds for every way the stream can be cut.
 */
module Sockets {
  import opened CText

  datatype Errno = NoError | Interrupted | Broken

  class Socket {
    var input: seq<byte>    // what the peer sends, up to its end of stream
    var output: seq<byte>   // what has been put on the stream so far
    var interrupts: nat     // how many more calls a signal may interrupt
    ghost var hits: seq<seq<byte>>   // what was left to read at each Recv that a signal interrupted
    const reliable: bool
    const room: nat         // data of at most this many bytes is taken whole

    constructor (input: seq<byte>, interrupts: nat, reliable: bool, room: nat := 0)
      ensures this.input == input && output == [] && hits == []
      ensures this.interrupts == interrupts && this.reliable == reliable && this.room == room
    {
      this.input, output, hits := input, [], [];
      this.interrupts, this.reliable, this.room := interrupts, reliable, room;
    }

    /** `read`/`recv`: between one byte and `n` bytes, or zero exactly at the end of the stream. */
    method Recv(buf: array<byte>, at: nat, n: nat) returns (r: int, errno: Errno)
      requires n > 0 && at + n <= buf.Length
      modifies this`input, this`interrupts, this`hits, buf
      ensures -1 <= r <= Min(n, |old(input)|)
      ensures r == -1 <==> errno != NoError
      ensures errno == Broken ==> !reliable
      ensures interrupts == old(interrupts) - (if errno == Interrupted then 1 else 0)
      ensures hits == old(hits) + (if errno == Interrupted then [old(input)] else [])
      ensures r == 0 <==> errno == NoError && old(input) == []
      ensures r == -1 ==> input == old(input)
      ensures r >= 0 ==> input == old(input)[r..]
      ensures forall j :: at <= j < at + r ==> buf[j] == old(input)[j - at]
      ensures forall j :: 0 <= j < buf.Length && !(at <= j < at + r) ==> buf[j] == old(buf[j])
    {
      var signal: bool, fault: bool := *, *;
      if signal && interrupts > 0 {
        interrupts, hits := interrupts - 1, hits + [input];
        return -1, Interrupted;
      }
      if fault && !reliable {
        return -1, Broken;
      }
      if input == [] {
        return 0, NoError;
      }
      r :| 1 <= r && r <= n && r <= |input|;
      forall j | 0 <= j < r {
        buf[at + j] := input[j];
      }
      input := input[r..];
      errno := NoError;
    }

    /** `write`/`send`: at least one byte of the data, and all of it when there is room. */
    method Send(data: seq<byte>) returns (w: int, errno: Errno)
      requires data != []
      modifies this`output, this`interrupts
      ensures w == -1 <==> errno != NoError
      ensures errno == Broken ==> !reliable
      ensures interrupts == old(interrupts) - (if errno == Interrupted then 1 else 0)
      ensures w == -1 ==> output == old(output)
      ensures w != -1 ==> 1 <= w <= |data| && output == old(output) + data[..w]
      ensures w != -1 && |data| <= room ==> w == |data|
    {
      var signal: bool, fault: bool := *, *;
      if signal && interrupts > 0 {
        interrupts := interrupts - 1;
        return -1, Interrupted;
      }
      if fault && !reliable {
        return -1, Broken;
      }
      w :| 1 <= w <= |data| && (|data| <= room ==> w == |data|);
      output := output + data[..w];
      errno := NoError;
    }
  }
}
