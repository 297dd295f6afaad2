/**
 The Caesar cipher. One mathematical definition, its laws, and the versions of
 the repository, each written in place over a buffer with C's truncating
 remainder, and each compared with that one definition.
 */
module Caesar {
  import opened CText

  /** The letter `k` places further round the alphabet, in the same case; other bytes stay. */
  function Rotate(c: byte, k: int): byte {
    if IsUpper(c) then UPPER_A + (c - UPPER_A + k) % 26
    else if IsLower(c) then LOWER_A + (c - LOWER_A + k) % 26
    else c
  }

  function Cipher(s: seq<byte>, k: int): (t: seq<byte>)
    ensures |t| == |s|
  {
    seq(|s|, i requires 0 <= i < |s| => Rotate(s[i], k))
  }

  ghost predicate HasLetter(s: seq<byte>) { exists i :: 0 <= i < |s| && IsAlpha(s[i]) }

  // ----- laws of the definition -----

  lemma RotateCompose(c: byte, a: int, b: int)
    ensures Rotate(Rotate(c, a), b) == Rotate(c, a + b)
  {
    if IsAlpha(c) {
      var o := Offset(c);
      assert ((o + a) % 26 + b) % 26 == (o + (a + b)) % 26;
    }
  }

  /** Two shifts act as their sum. */
  lemma CipherCompose(s: seq<byte>, a: int, b: int)
    ensures Cipher(Cipher(s, a), b) == Cipher(s, a + b)
  {
    forall i | 0 <= i < |s| ensures Cipher(Cipher(s, a), b)[i] == Cipher(s, a + b)[i] {
      RotateCompose(s[i], a, b);
    }
  }

  /** The shift by one: the next letter, after the last the first again, and nothing for other bytes. */
  lemma RotateByOne(c: byte)
    ensures c == 'Z' as int ==> Rotate(c, 1) == 'A' as int
    ensures c == 'z' as int ==> Rotate(c, 1) == 'a' as int
    ensures 'A' as int <= c < 'Z' as int || 'a' as int <= c < 'z' as int ==> Rotate(c, 1) == c + 1
    ensures !IsAlpha(c) ==> forall k: int :: Rotate(c, k) == c
  {
  }

  lemma CipherZero(s: seq<byte>)
    ensures Cipher(s, 0) == s
  {
    assert forall i :: 0 <= i < |s| ==> Cipher(s, 0)[i] == s[i];
  }

  /** Shifting back restores every text. */
  lemma CipherInverse(s: seq<byte>, k: int)
    ensures Cipher(Cipher(s, k), -k) == s
  {
    CipherCompose(s, k, -k);
    CipherZero(s);
  }

  lemma SameOffset(o: int, a: int, b: int)
    ensures (o + a) % 26 == (o + b) % 26 <==> (a - b) % 26 == 0
  {
    var p, q := (o + a) / 26, (o + b) / 26;
    if (a - b) % 26 == 0 {
      ModUnique(o + a, 26, q + (a - b) / 26, (o + b) % 26);
    } else if (o + a) % 26 == (o + b) % 26 {
      ModUnique(a - b, 26, p - q, 0);
      assert false;
    }
  }

  lemma RotateSame(c: byte, a: int, b: int)
    requires IsAlpha(c)
    ensures Rotate(c, a) == Rotate(c, b) <==> (a - b) % 26 == 0
  {
    SameOffset(Offset(c), a, b);
  }

  /** Two shifts give the same text exactly when they agree modulo 26 or there is no letter to move. */
  lemma CipherSame(s: seq<byte>, a: int, b: int)
    ensures Cipher(s, a) == Cipher(s, b) <==> (a - b) % 26 == 0 || !HasLetter(s)
  {
    forall i | 0 <= i < |s| && IsAlpha(s[i])
      ensures Rotate(s[i], a) == Rotate(s[i], b) <==> (a - b) % 26 == 0
    {
      RotateSame(s[i], a, b);
    }
    if Cipher(s, a) == Cipher(s, b) && HasLetter(s) {
      var i :| 0 <= i < |s| && IsAlpha(s[i]);
      assert Cipher(s, a)[i] == Cipher(s, b)[i];
    }
  }

  /** Letters go to letters of the same case and nothing else becomes a letter (nor a NUL). */
  lemma CipherKeepsClass(s: seq<byte>, k: int)
    ensures forall i :: 0 <= i < |s| ==>
      && (IsUpper(Cipher(s, k)[i]) <==> IsUpper(s[i]))
      && (IsLower(Cipher(s, k)[i]) <==> IsLower(s[i]))
      && (Cipher(s, k)[i] == NUL <==> s[i] == NUL)
  {
  }

  lemma CipherKeepsStrLen(s: seq<byte>, k: int)
    ensures StrLen(Cipher(s, k)) == StrLen(s)
    ensures CStr(Cipher(s, k)) == Cipher(CStr(s), k)
  {
    var n := StrLen(s);
    CipherKeepsClass(s, k);
    assert Cipher(s, k)[..n] == Cipher(s[..n], k);
    CipherKeepsClass(s[..n], k);
    StrLenUnique(Cipher(s, k), n);
  }

  // ----- the arithmetic of the code -----

  /** Adding 26 to a truncated remainder before the outer remainder always lands on the right letter. */
  lemma NormalisedOffset(o: int, k: int)
    requires 0 <= o < 26
    ensures Rem(o + Rem(k, 26) + 26, 26) == (o + k) % 26
  {
    var q := RemQuotient26(k);
    var x := o + Rem(k, 26) + 26;
    ModUnique(o + k, 26, q - 1 + x / 26, x % 26);
  }

  /** Normalising the key gives the Euclidean remainder. */
  lemma NormalisedKey(k: int)
    ensures Rem(Rem(k, 26) + 26, 26) == k % 26
    ensures (if Rem(k, 26) < 0 then Rem(k, 26) + 26 else Rem(k, 26)) == k % 26
  {
    var q := RemQuotient26(k);
    var r := Rem(k, 26);
    ModUnique(k, 26, if r < 0 then q - 1 else q, if r < 0 then r + 26 else r);
    ModUnique(r + 26, 26, if r < 0 then 0 else 1, if r < 0 then r + 26 else r);
  }

  /** A normalised key can be added, or taken away after adding 26, without leaving the alphabet. */
  lemma KeyOffset(o: int, k: int)
    requires 0 <= o < 26
    ensures Rem(o + k % 26, 26) == (o + k) % 26
    ensures Rem(o - k % 26 + 26, 26) == (o - k) % 26
  {
    var q, r := k / 26, k % 26;
    ModUnique(o + k, 26, q + (o + r) / 26, (o + r) % 26);
    ModUnique(o - k, 26, -q - 1 + (o - r + 26) / 26, (o - r + 26) % 26);
  }

  /** The two formulas with a letter and its alphabet. */
  lemma NormalisedByte(c: byte, k: int)
    ensures IsUpper(c) ==> Rem(c - UPPER_A + Rem(k, 26) + 26, 26) + UPPER_A == Rotate(c, k)
    ensures IsLower(c) ==> Rem(c - LOWER_A + Rem(k, 26) + 26, 26) + LOWER_A == Rotate(c, k)
    ensures Rem(0 - k, 26) == -Rem(k, 26)
  {
    if IsAlpha(c) {
      NormalisedOffset(Offset(c), k);
    }
  }

  lemma KeyedByte(c: byte, k: int)
    ensures IsUpper(c) ==> Rem(c - UPPER_A + k % 26, 26) + UPPER_A == Rotate(c, k)
    ensures IsLower(c) ==> Rem(c - LOWER_A + k % 26, 26) + LOWER_A == Rotate(c, k)
    ensures IsUpper(c) ==> Rem(c - UPPER_A - k % 26 + 26, 26) + UPPER_A == Rotate(c, 0 - k)
    ensures IsLower(c) ==> Rem(c - LOWER_A - k % 26 + 26, 26) + LOWER_A == Rotate(c, 0 - k)
  {
    if IsAlpha(c) {
      KeyOffset(Offset(c), k);
    }
  }

  /** Without it, the result is right exactly when the reduced shift does not carry the letter below its `A`. */
  lemma BareOffset(o: int, k: int)
    requires 0 <= o < 26
    ensures Rem(o + Rem(k, 26), 26) == (o + k) % 26 <==> o + Rem(k, 26) >= 0
  {
    var q := RemQuotient26(k);
    var x := o + Rem(k, 26);
    if x >= 0 {
      ModUnique(o + k, 26, q + x / 26, x % 26);
    } else {
      ModUnique(-x, 26, 0, -x);
    }
  }

  // ----- the version of the poll server, without the `+ 26` -----

  function BareRotate(c: byte, k: int): byte {
    if IsUpper(c) then Rem(c - UPPER_A + Rem(k, 26), 26) + UPPER_A
    else if IsLower(c) then Rem(c - LOWER_A + Rem(k, 26), 26) + LOWER_A
    else c
  }

  function BareCipher(s: seq<byte>, k: int): (t: seq<byte>)
    ensures |t| == |s|
  {
    seq(|s|, i requires 0 <= i < |s| => BareRotate(s[i], k))
  }

  /** No letter of the text is carried below the start of its alphabet by the reduced shift. */
  ghost predicate NoUnderflow(s: seq<byte>, k: int) {
    forall i :: 0 <= i < |s| && IsAlpha(s[i]) ==> Offset(s[i]) + Rem(k, 26) >= 0
  }

  /** The code is the Caesar cipher on exactly the texts whose letters do not underflow. */
  lemma BareCipherExact(s: seq<byte>, k: int)
    ensures BareCipher(s, k) == Cipher(s, k) <==> NoUnderflow(s, k)
  {
    forall i | 0 <= i < |s| && IsAlpha(s[i])
      ensures BareCipher(s, k)[i] == Cipher(s, k)[i] <==> Offset(s[i]) + Rem(k, 26) >= 0
    {
      BareOffset(Offset(s[i]), k);
    }
  }

  /** As a property of the shift alone: right on every text exactly for non-negative shifts and multiples of 26. */
  lemma BareCipherShifts(k: int)
    ensures (forall s: seq<byte> :: BareCipher(s, k) == Cipher(s, k)) <==> k >= 0 || (-k) % 26 == 0
  {
    if k >= 0 || (-k) % 26 == 0 {
      forall s: seq<byte> ensures BareCipher(s, k) == Cipher(s, k) { BareCipherExact(s, k); }
    } else {
      var s: seq<byte> := [65];
      BareCipherExact(s, k);
      assert IsAlpha(s[0]) && Offset(s[0]) + Rem(k, 26) < 0;
      assert BareCipher(s, k) != Cipher(s, k);
    }
  }

  lemma BareByte(c: byte, k: int)
    ensures IsUpper(c) ==> Rem(c - UPPER_A + Rem(k, 26), 26) + UPPER_A == BareRotate(c, k)
    ensures IsLower(c) ==> Rem(c - LOWER_A + Rem(k, 26), 26) + LOWER_A == BareRotate(c, k)
  {
  }

  /** `encryptCaesar` of the poll server and of the select server. */
  method EncryptBare(text: array<byte>, shift: int32)
    requires NUL in text[..]
    modifies text
    ensures var n := old(StrLen(text[..]));
            text[..] == BareCipher(old(text[..n]), shift) + old(text[n..])
  {
    ghost var n := StrLen(text[..]);
    var k := Rem(shift, 26);
    var i := 0;
    while text[i] != NUL
      invariant 0 <= i <= n < text.Length && old(text[n]) == NUL
      invariant forall j :: 0 <= j < i ==> text[j] == BareRotate(old(text[j]), shift)
      invariant forall j :: i <= j < text.Length ==> text[j] == old(text[j])
      decreases n - i
    {
      var c := text[i];
      BareByte(c, shift);
      if IsUpper(c) {
        text[i] := Rem(c - UPPER_A + k, 26) + UPPER_A;
      } else if IsLower(c) {
        text[i] := Rem(c - LOWER_A + k, 26) + LOWER_A;
      } else {
        text[i] := c;
      }
      i := i + 1;
    }
  }

  // ----- versions that are right for every shift -----

  /** `caesar` of the binary-protocol server: a counted buffer and a normalised key. */
  method CipherCounted(s: array<byte>, n: nat, shift: int32)
    requires n <= s.Length
    modifies s
    ensures s[..] == Cipher(old(s[..n]), shift) + old(s[n..])
  {
    var k := Rem(Rem(shift, 26) + 26, 26);
    NormalisedKey(shift);
    for i := 0 to n
      invariant forall j :: 0 <= j < i ==> s[j] == Rotate(old(s[j]), shift)
      invariant forall j :: i <= j < s.Length ==> s[j] == old(s[j])
    {
      KeyedByte(s[i], shift);
      if 65 <= s[i] <= 90 {
        s[i] := UPPER_A + Rem(s[i] - UPPER_A + k, 26);
      } else if 97 <= s[i] <= 122 {
        s[i] := LOWER_A + Rem(s[i] - LOWER_A + k, 26);
      }
    }
  }

  /** `encryptCaesar` of the text-protocol server: the key is brought into 0..25 by a conditional addition. */
  method EncryptString(s: array<byte>, shift: int32)
    requires NUL in s[..]
    modifies s
    ensures var n := old(StrLen(s[..]));
            s[..] == Cipher(old(s[..n]), shift) + old(s[n..])
  {
    ghost var n := StrLen(s[..]);
    var k := Rem(shift, 26);
    if k < 0 { k := k + 26; }
    NormalisedKey(shift);
    var i := 0;
    while s[i] != NUL
      invariant 0 <= i <= n < s.Length && old(s[n]) == NUL
      invariant forall j :: 0 <= j < i ==> s[j] == Rotate(old(s[j]), shift)
      invariant forall j :: i <= j < s.Length ==> s[j] == old(s[j])
      decreases n - i
    {
      var c := s[i];
      KeyedByte(c, shift);
      if IsUpper(c) {
        s[i] := Rem(c - UPPER_A + k, 26) + UPPER_A;
      } else if IsLower(c) {
        s[i] := Rem(c - LOWER_A + k, 26) + LOWER_A;
      }
      i := i + 1;
    }
  }

  /** `caesar` of the SGPY server: the sum of offset and shift is taken first, and must not overflow. */
  method CipherSumFirst(s: array<byte>, shift: int32)
    requires NUL in s[..]
    requires forall j :: 0 <= j < StrLen(s[..]) && IsAlpha(s[j]) ==> Offset(s[j]) + shift <= INT_MAX
    modifies s
    ensures var n := old(StrLen(s[..]));
            s[..] == Cipher(old(s[..n]), shift) + old(s[n..])
  {
    ghost var n := StrLen(s[..]);
    var p := 0;
    while s[p] != NUL
      invariant 0 <= p <= n < s.Length && old(s[n]) == NUL
      invariant forall j :: 0 <= j < p ==> s[j] == Rotate(old(s[j]), shift)
      invariant forall j :: p <= j < s.Length ==> s[j] == old(s[j])
      decreases n - p
    {
      if IsAlpha(s[p]) {
        var base := if IsLower(s[p]) then LOWER_A else UPPER_A;
        var sum: int32 := (s[p] - base) + shift;
        NormalisedKey(sum);
        s[p] := base + Rem(Rem(sum, 26) + 26, 26);
      }
      p := p + 1;
    }
  }

  /** `caesar` of the JGAE server: one function for both directions; -INT_MIN is not an int. */
  method CipherBothWays(text: array<byte>, bytes: nat, shift: int32, encrypt: bool)
    requires bytes <= text.Length
    requires !encrypt ==> shift != INT_MIN
    modifies text
    ensures text[..] == Cipher(old(text[..bytes]), if encrypt then shift else 0 - shift) + old(text[bytes..])
  {
    var signed: int32 := if encrypt then shift else 0 - shift;
    var d := Rem(signed, 26);
    for i := 0 to bytes
      invariant forall j :: 0 <= j < i ==> text[j] == Rotate(old(text[j]), signed)
      invariant forall j :: i <= j < text.Length ==> text[j] == old(text[j])
    {
      var c := text[i];
      NormalisedByte(c, signed);
      if IsUpper(c) {
        text[i] := Rem(c - UPPER_A + d + 26, 26) + UPPER_A;
      } else if IsLower(c) {
        text[i] := Rem(c - LOWER_A + d + 26, 26) + LOWER_A;
      }
    }
  }

  /** `encryptCaesar` of the IGG pair. */
  method EncryptPair(text: array<byte>, shift: int32)
    requires NUL in text[..]
    modifies text
    ensures var n := old(StrLen(text[..]));
            text[..] == Cipher(old(text[..n]), shift) + old(text[n..])
  {
    ghost var n := StrLen(text[..]);
    var k := Rem(shift, 26);
    var i := 0;
    while text[i] != NUL
      invariant 0 <= i <= n < text.Length && old(text[n]) == NUL
      invariant forall j :: 0 <= j < i ==> text[j] == Rotate(old(text[j]), shift)
      invariant forall j :: i <= j < text.Length ==> text[j] == old(text[j])
      decreases n - i
    {
      var c := text[i];
      NormalisedByte(c, shift);
      if IsUpper(c) {
        text[i] := Rem(c - UPPER_A + k + 26, 26) + UPPER_A;
      } else if IsLower(c) {
        text[i] := Rem(c - LOWER_A + k + 26, 26) + LOWER_A;
      } else {
        text[i] := c;
      }
      i := i + 1;
    }
  }

  /** `decryptCaesar` of the IGG pair: the truncated remainder of the shift is taken away, not added. */
  method DecryptPair(text: array<byte>, shift: int32)
    requires NUL in text[..]
    modifies text
    ensures var n := old(StrLen(text[..]));
            text[..] == Cipher(old(text[..n]), 0 - shift) + old(text[n..])
  {
    ghost var n := StrLen(text[..]);
    var k := Rem(shift, 26);
    var i := 0;
    while text[i] != NUL
      invariant 0 <= i <= n < text.Length && old(text[n]) == NUL
      invariant forall j :: 0 <= j < i ==> text[j] == Rotate(old(text[j]), 0 - shift)
      invariant forall j :: i <= j < text.Length ==> text[j] == old(text[j])
      decreases n - i
    {
      var c := text[i];
      NormalisedByte(c, 0 - shift);
      if IsUpper(c) {
        text[i] := Rem(c - UPPER_A - k + 26, 26) + UPPER_A;
      } else if IsLower(c) {
        text[i] := Rem(c - LOWER_A - k + 26, 26) + LOWER_A;
      } else {
        text[i] := c;
      }
      i := i + 1;
    }
  }

  /** `decryptCaesar` of the key server: the shift is normalised first and then taken away. */
  method DecryptString(text: array<byte>, shift: int32)
    requires NUL in text[..]
    modifies text
    ensures var n := old(StrLen(text[..]));
            text[..] == Cipher(old(text[..n]), 0 - shift) + old(text[n..])
  {
    ghost var n := StrLen(text[..]);
    var k := Rem(Rem(shift, 26) + 26, 26);
    NormalisedKey(shift);
    var i := 0;
    while text[i] != NUL
      invariant 0 <= i <= n < text.Length && old(text[n]) == NUL
      invariant forall j :: 0 <= j < i ==> text[j] == Rotate(old(text[j]), 0 - shift)
      invariant forall j :: i <= j < text.Length ==> text[j] == old(text[j])
      decreases n - i
    {
      var c := text[i];
      KeyedByte(c, shift);
      if IsUpper(c) {
        text[i] := UPPER_A + Rem(c - UPPER_A - k + 26, 26);
      } else if IsLower(c) {
        text[i] := LOWER_A + Rem(c - LOWER_A - k + 26, 26);
      }
      i := i + 1;
    }
  }

  // ----- round trips through the code -----

  /** Encrypting and then decrypting with the two-way function restores the buffer, for every shift with a negation. */
  method RoundTripBothWays(text: array<byte>, bytes: nat, shift: int32)
    requires bytes <= text.Length && shift != INT_MIN
    modifies text
    ensures text[..] == old(text[..])
  {
    CipherInverse(text[..bytes], shift);
    CipherBothWays(text, bytes, shift, true);
    assert text[..bytes] == Cipher(old(text[..bytes]), shift);
    CipherBothWays(text, bytes, shift, false);
  }

  /** The IGG pair restores every string, for every int shift. */
  method RoundTripPair(text: array<byte>, shift: int32)
    requires NUL in text[..]
    modifies text
    ensures text[..] == old(text[..])
  {
    ghost var n := StrLen(text[..]);
    CipherInverse(text[..n], shift);
    CipherKeepsClass(text[..n], shift);
    EncryptPair(text, shift);
    assert text[..n] == Cipher(old(text[..n]), shift) && text[n..] == old(text[n..]);
    assert text[n] == old(text[n..])[0];
    StrLenUnique(text[..], n);
    DecryptPair(text, shift);
  }
}
