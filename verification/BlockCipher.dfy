/**
 The receive loop of P3/JGAE: a file arrives in blocks of any size, each block is
 encrypted in the receive buffer and written out.
 */
module BlockCipher {
  import opened CText
  import opened Caesar
  import opened Sockets

  const BUFFER_SIZE := 1024

  /**
   The loop of `main`, in either direction of the cipher. It stops at the end of
   the stream or at the first call that fails, and reads no more; what is written is the image of what was read.
   */
  method ReceiveBlocks(s: Socket, shift: int32, encrypt: bool) returns (file: seq<byte>)
    requires !encrypt ==> shift != INT_MIN
    modifies s`input, s`interrupts, s`hits
    ensures file <= Cipher(old(s.input), if encrypt then shift else 0 - shift)
    ensures s.input == old(s.input)[|file|..]
    ensures old(s.interrupts) - 1 <= s.interrupts <= old(s.interrupts)
    ensures s.hits == old(s.hits) + (if s.interrupts < old(s.interrupts) then [s.input] else [])
    ensures s.reliable && s.interrupts == old(s.interrupts) ==> |file| == |old(s.input)|
  {
    ghost var signed := if encrypt then shift else 0 - shift;
    ghost var whole := s.input;
    var buffer := new byte[BUFFER_SIZE];
    file := [];
    ghost var read := 0;
    while true
      invariant read <= |whole| && s.input == whole[read..]
      invariant file == Cipher(whole[..read], signed)
      invariant s.interrupts == old(s.interrupts) && s.hits == old(s.hits)
      decreases |s.input|
    {
      var bytes, errno := s.Recv(buffer, 0, BUFFER_SIZE);
      if bytes <= 0 {
        PrefixImage(whole, read, signed);
        return;
      }
      assert buffer[..bytes] == whole[read..read + bytes];
      CipherBothWays(buffer, bytes, shift, encrypt);
      assert buffer[..bytes] == Cipher(whole[read..read + bytes], signed);
      NextBlock(whole, read, bytes, signed);
      file := file + buffer[..bytes];
      read := read + bytes;
    }
  }

  lemma PrefixImage(whole: seq<byte>, n: nat, shift: int)
    requires n <= |whole|
    ensures Cipher(whole[..n], shift) <= Cipher(whole, shift)
  {
  }

  lemma NextBlock(whole: seq<byte>, read: nat, bytes: nat, shift: int)
    requires read + bytes <= |whole|
    ensures Cipher(whole[..read], shift) + Cipher(whole[read..read + bytes], shift)
            == Cipher(whole[..read + bytes], shift)
  {
  }

  /** Cutting, encrypting, cutting again in another way and decrypting gives every file back. */
  method BlockRoundTrip(text: seq<byte>, shift: int32) returns (back: seq<byte>)
    requires shift != INT_MIN
    ensures back == text
  {
    var s := new Socket(text, 0, true);
    var encrypted := ReceiveBlocks(s, shift, true);
    assert encrypted == Cipher(text, shift);
    var t := new Socket(encrypted, 0, true);
    back := ReceiveBlocks(t, shift, false);
    CipherInverse(text, shift);
  }
}
