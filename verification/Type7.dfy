/**
 The Cisco type 7 codec of P8/ciscodecript7.cpp: a two-digit decimal salt and a
 body of hexadecimal pairs, each the exclusive or of a byte with a key table that
 is walked cyclically from the salt on.
 */
module Type7 {
  import CText

  type octet = bv8

  const SIZE := 53

  type Table = t: seq<octet> | |t| == SIZE witness seq(SIZE, _ => 0)

  type salt = s: int | 0 <= s < SIZE

  /** The table of the program, with two entries more than its comment says. */
  const XLAT: seq<octet> :=
    [0x64, 0x73, 0x66, 0x64, 0x3b, 0x6b, 0x66, 0x6f, 0x41, 0x2c, 0x2e, 0x69]
    + [0x79, 0x65, 0x77, 0x72, 0x6b, 0x6c, 0x64, 0x4a, 0x4b, 0x44, 0x48, 0x53]
    + [0x55, 0x42, 0x73, 0x67, 0x76, 0x63, 0x61, 0x36, 0x39, 0x38, 0x33, 0x34]
    + [0x6e, 0x63, 0x78, 0x76, 0x39, 0x38, 0x37, 0x33, 0x32, 0x35, 0x34, 0x6b]
    + [0x3b, 0x66, 0x67, 0x38, 0x37]

  /** The salt after `n` more bytes. */
  function Advance(s: salt, n: nat): salt { (s + n) % SIZE }

  /** The exclusive or of a text with the key stream: byte `i` meets table entry `(s + i) % 53`. */
  function Mask(x: Table, s: salt, text: seq<octet>): (t: seq<octet>)
    ensures |t| == |text|
  {
    seq(|text|, i requires 0 <= i < |text| => text[i] ^ x[Advance(s, i)])
  }

  // ----- digits -----

  /** One lower-case hexadecimal digit, as the stream inserter with `hex` writes it. */
  function HexDigit(n: octet): char {
    if n == 0 then '0' else if n == 1 then '1' else if n == 2 then '2' else if n == 3 then '3'
    else if n == 4 then '4' else if n == 5 then '5' else if n == 6 then '6' else if n == 7 then '7'
    else if n == 8 then '8' else if n == 9 then '9' else if n == 10 then 'a' else if n == 11 then 'b'
    else if n == 12 then 'c' else if n == 13 then 'd' else if n == 14 then 'e' else 'f'
  }

  /** The value of a hexadecimal digit of either case; meaningful for digits only. */
  function HexValue(c: char): octet {
    if c == '0' then 0 else if c == '1' then 1 else if c == '2' then 2 else if c == '3' then 3
    else if c == '4' then 4 else if c == '5' then 5 else if c == '6' then 6 else if c == '7' then 7
    else if c == '8' then 8 else if c == '9' then 9 else if c == 'a' || c == 'A' then 10
    else if c == 'b' || c == 'B' then 11 else if c == 'c' || c == 'C' then 12
    else if c == 'd' || c == 'D' then 13 else if c == 'e' || c == 'E' then 14 else 15
  }

  predicate IsHex(c: char) { '0' <= c <= '9' || 'a' <= c <= 'f' || 'A' <= c <= 'F' }
  predicate IsDecimal(c: char) { '0' <= c <= '9' }

  function Lower(c: char): char {
    if c == 'A' then 'a' else if c == 'B' then 'b' else if c == 'C' then 'c'
    else if c == 'D' then 'd' else if c == 'E' then 'e' else if c == 'F' then 'f' else c
  }

  function High(b: octet): octet { b / 16 }
  function Low(b: octet): octet { b % 16 }
  function Join(high: octet, low: octet): octet { high * 16 + low }

  /** Two digits, zero-filled. */
  function HexPair(b: octet): string { [HexDigit(High(b)), HexDigit(Low(b))] }

  /** `stoi` in base 16 of the pair of digits number `k`, or of the single digit that ends an odd body. */
  function PairValue(h: string, k: nat): octet
    requires 2 * k < |h|
  {
    if 2 * k + 1 == |h| then HexValue(h[2 * k]) else Join(HexValue(h[2 * k]), HexValue(h[2 * k + 1]))
  }

  lemma DigitRoundTrip(n: octet)
    requires n < 16
    ensures HexValue(HexDigit(n)) == n
  {
  }

  lemma HexRoundTrip(b: octet)
    ensures Join(HexValue(HexDigit(High(b))), HexValue(HexDigit(Low(b)))) == b
  {
    DigitRoundTrip(High(b));
    DigitRoundTrip(Low(b));
  }

  lemma DigitOfValue(c: char)
    requires IsHex(c)
    ensures HexDigit(HexValue(c)) == Lower(c) && HexValue(c) < 16
  {
  }

  lemma PairOfDigits(c: char, d: char)
    requires IsHex(c) && IsHex(d)
    ensures var v := Join(HexValue(c), HexValue(d)); HexDigit(High(v)) == Lower(c) && HexDigit(Low(v)) == Lower(d)
  {
    DigitOfValue(c);
    DigitOfValue(d);
    Nibbles(HexValue(c), HexValue(d));
  }

  lemma Nibbles(h: octet, l: octet)
    requires h < 16 && l < 16
    ensures High(Join(h, l)) == h && Low(Join(h, l)) == l
  {
  }

  /** The value of a hexadecimal digit, as a number. */
  lemma DigitNumber(c: char)
    requires IsHex(c)
    ensures '0' <= c <= '9' ==> HexValue(c) as int == c as int - '0' as int
    ensures 'a' <= c <= 'f' ==> HexValue(c) as int == 10 + c as int - 'a' as int
    ensures 'A' <= c <= 'F' ==> HexValue(c) as int == 10 + c as int - 'A' as int
  {
  }

  /** The first digit of a pair counts sixteen times, and a last single digit once. */
  lemma PairNumber(h: string, k: nat)
    requires 2 * k < |h| && IsHex(h[2 * k]) && (2 * k + 1 < |h| ==> IsHex(h[2 * k + 1]))
    ensures PairValue(h, k) as int ==
            if 2 * k + 1 < |h| then 16 * (HexValue(h[2 * k]) as int) + HexValue(h[2 * k + 1]) as int
            else HexValue(h[2 * k]) as int
  {
    DigitOfValue(h[2 * k]);
    if 2 * k + 1 < |h| {
      DigitOfValue(h[2 * k + 1]);
      JoinNumber(HexValue(h[2 * k]), HexValue(h[2 * k + 1]));
    }
  }

  lemma JoinNumber(high: octet, low: octet)
    requires high < 16 && low < 16
    ensures Join(high, low) as int == 16 * (high as int) + low as int
  {
  }

  // ----- texts -----

  function HexBody(bytes: seq<octet>): (h: string)
    ensures |h| == 2 * |bytes|
  {
    seq(2 * |bytes|, i requires 0 <= i < 2 * |bytes| =>
      if i % 2 == 0 then HexDigit(High(bytes[i / 2])) else HexDigit(Low(bytes[i / 2])))
  }

  function BytesOf(h: string): (bytes: seq<octet>)
    ensures |bytes| == (|h| + 1) / 2
  {
    seq((|h| + 1) / 2, k requires 0 <= k < (|h| + 1) / 2 => PairValue(h, k))
  }

  function SaltText(s: salt): string
  {
    ['0' + (s / 10) as char, '0' + (s % 10) as char]
  }

  function SaltValue(t: string): nat
    requires |t| == 2 && IsDecimal(t[0]) && IsDecimal(t[1])
  {
    10 * ((t[0] - '0') as nat) + (t[1] - '0') as nat
  }

  lemma SaltRoundTrip(s: salt)
    ensures IsDecimal(SaltText(s)[0]) && IsDecimal(SaltText(s)[1]) && SaltValue(SaltText(s)) == s
  {
  }

  lemma SaltOfText(t: string)
    requires |t| == 2 && IsDecimal(t[0]) && IsDecimal(t[1])
    requires SaltValue(t) < SIZE
    ensures SaltText(SaltValue(t)) == t
  {
  }

  /** What `decrypt_type7` can read: too short to hold a salt, or a salt of the table and hexadecimal digits. */
  predicate WellFormed(enc: string) {
    |enc| < 2 ||
    (IsDecimal(enc[0]) && IsDecimal(enc[1]) && SaltValue(enc[..2]) < SIZE
     && forall i :: 2 <= i < |enc| ==> IsHex(enc[i]))
  }

  function Encrypt(x: Table, plain: seq<octet>, s: salt): string
  {
    SaltText(s) + HexBody(Mask(x, s, plain))
  }

  function Decrypt(x: Table, enc: string): seq<octet>
    requires WellFormed(enc)
  {
    if |enc| < 2 then [] else Mask(x, SaltValue(enc[..2]), BytesOf(enc[2..]))
  }

  function LowerText(t: string): (l: string)
    ensures |l| == |t|
  {
    seq(|t|, i requires 0 <= i < |t| => Lower(t[i]))
  }

  // ----- laws -----

  lemma MaskTwice(x: Table, s: salt, text: seq<octet>)
    ensures Mask(x, s, Mask(x, s, text)) == text
  {
    forall i | 0 <= i < |text| ensures Mask(x, s, Mask(x, s, text))[i] == text[i] {
      XorTwice(text[i], x[Advance(s, i)]);
    }
  }

  lemma XorTwice(b: octet, k: octet)
    ensures (b ^ k) ^ k == b
  {
  }

  lemma AdvanceTwice(s: salt, n: nat, i: nat)
    ensures Advance(Advance(s, n), i) == Advance(s, n + i)
  {
    var t := Advance(s, n);
    CText.ModUnique(s + (n + i), SIZE, (s + n) / SIZE + (t + i) / SIZE, (t + i) % SIZE);
  }

  /** The second part of a text is masked with the salt advanced by the length of the first. */
  lemma MaskConcat(x: Table, s: salt, a: seq<octet>, b: seq<octet>)
    ensures Mask(x, s, a + b) == Mask(x, s, a) + Mask(x, Advance(s, |a|), b)
  {
    forall j | |a| <= j < |a| + |b| ensures Mask(x, s, a + b)[j] == Mask(x, Advance(s, |a|), b)[j - |a|] {
      AdvanceTwice(s, |a|, j - |a|);
    }
  }

  function Xor(a: seq<octet>, b: seq<octet>): seq<octet>
    requires |a| == |b|
  {
    seq(|a|, i requires 0 <= i < |a| => a[i] ^ b[i])
  }

  lemma MaskCancels(x: Table, s: salt, a: seq<octet>, b: seq<octet>)
    requires |a| == |b|
    ensures Xor(Mask(x, s, a), Mask(x, s, b)) == Xor(a, b)
  {
    forall i | 0 <= i < |a| ensures (a[i] ^ x[Advance(s, i)]) ^ (b[i] ^ x[Advance(s, i)]) == a[i] ^ b[i] {
      XorCancel(a[i], b[i], x[Advance(s, i)]);
    }
  }

  lemma XorCancel(x: octet, y: octet, k: octet)
    ensures (x ^ k) ^ (y ^ k) == x ^ y
  {
  }

  lemma BytesOfHex(bytes: seq<octet>)
    ensures BytesOf(HexBody(bytes)) == bytes
  {
    forall k | 0 <= k < |bytes| ensures PairValue(HexBody(bytes), k) == bytes[k] {
      PairOfBody(bytes, k);
    }
  }

  lemma PairOfBody(bytes: seq<octet>, k: nat)
    requires k < |bytes|
    ensures PairValue(HexBody(bytes), k) == bytes[k]
  {
    var h := HexBody(bytes);
    assert (2 * k) / 2 == k && (2 * k + 1) / 2 == k;
    assert h[2 * k] == HexDigit(High(bytes[k])) && h[2 * k + 1] == HexDigit(Low(bytes[k]));
    HexRoundTrip(bytes[k]);
  }

  lemma HexOfPair(h: string, k: nat)
    requires 2 * k + 1 < |h| && IsHex(h[2 * k]) && IsHex(h[2 * k + 1])
    ensures HexPair(PairValue(h, k)) == [Lower(h[2 * k]), Lower(h[2 * k + 1])]
  {
    PairOfDigits(h[2 * k], h[2 * k + 1]);
  }

  lemma HexOfByte(h: string, i: nat)
    requires |h| % 2 == 0 && i < |h| && forall j :: 0 <= j < |h| ==> IsHex(h[j])
    ensures HexBody(BytesOf(h))[i] == Lower(h[i])
  {
    var k := i / 2;
    HexOfPair(h, k);
    assert HexBody(BytesOf(h))[i] == HexPair(PairValue(h, k))[i % 2];
  }

  lemma HexOfBytes(h: string)
    requires |h| % 2 == 0 && forall i :: 0 <= i < |h| ==> IsHex(h[i])
    ensures HexBody(BytesOf(h)) == LowerText(h)
  {
    forall i | 0 <= i < |h| ensures HexBody(BytesOf(h))[i] == LowerText(h)[i] {
      HexOfByte(h, i);
    }
  }

  /** A text put together from a salt of the table and hexadecimal digits. */
  lemma Assembled(x: Table, s: salt, h: string)
    requires forall i :: 0 <= i < |h| ==> IsHex(h[i])
    ensures var enc := SaltText(s) + h; WellFormed(enc) && Decrypt(x, enc) == Mask(x, s, BytesOf(h))
  {
    var enc := SaltText(s) + h;
    SaltRoundTrip(s);
    assert enc[..2] == SaltText(s) && enc[2..] == h;
    assert forall i :: 2 <= i < |enc| ==> enc[i] == h[i - 2];
  }

  /** Decoding undoes encoding, for every byte string and every salt of the table. */
  lemma DecryptEncrypt(x: Table, plain: seq<octet>, s: salt)
    ensures WellFormed(Encrypt(x, plain, s)) && Decrypt(x, Encrypt(x, plain, s)) == plain
  {
    HexDigits(Mask(x, s, plain));
    Assembled(x, s, HexBody(Mask(x, s, plain)));
    BytesOfHex(Mask(x, s, plain));
    MaskTwice(x, s, plain);
  }

  lemma HexDigits(bytes: seq<octet>)
    ensures forall i :: 0 <= i < |HexBody(bytes)| ==> IsHex(HexBody(bytes)[i])
  {
  }

  lemma HexLowered(digits: string, h: string)
    requires forall i :: 0 <= i < |digits| ==> IsDecimal(digits[i])
    requires forall i :: 0 <= i < |h| ==> IsHex(h[i])
    ensures digits + HexBody(BytesOf(h)) == LowerText(digits + h) <==> |h| % 2 == 0
  {
    if |h| % 2 == 0 {
      HexOfBytes(h);
      LowerConcat(digits, h);
    } else {
      assert |HexBody(BytesOf(h))| == |h| + 1;
      assert |digits + HexBody(BytesOf(h))| > |LowerText(digits + h)|;
    }
  }

  lemma Reencrypted(x: Table, s: salt, h: string, enc: string)
    requires enc == SaltText(s) + h && forall i :: 0 <= i < |h| ==> IsHex(h[i])
    ensures WellFormed(enc)
    ensures Encrypt(x, Decrypt(x, enc), s) == LowerText(enc) <==> |h| % 2 == 0
  {
    Assembled(x, s, h);
    MaskTwice(x, s, BytesOf(h));
    SaltRoundTrip(s);
    HexLowered(SaltText(s), h);
  }

  lemma Parts(enc: string, digits: string, h: string)
    requires |enc| >= 2 && WellFormed(enc) && digits == enc[..2] && h == enc[2..]
    ensures enc == SaltText(SaltValue(digits)) + h && forall i :: 0 <= i < |h| ==> IsHex(h[i])
  {
    SaltOfText(digits);
    forall i | 0 <= i < |h| ensures IsHex(h[i]) {
      assert h[i] == enc[i + 2];
    }
  }

  /** Encoding what was decoded, with its own salt, gives the text back in lower case exactly when no pair is cut. */
  lemma EncryptDecrypt(x: Table, enc: string)
    requires |enc| >= 2 && WellFormed(enc)
    ensures Encrypt(x, Decrypt(x, enc), SaltValue(enc[..2])) == LowerText(enc) <==> |enc| % 2 == 0
  {
    var digits, h := enc[..2], enc[2..];
    Parts(enc, digits, h);
    Reencrypted(x, SaltValue(digits), h, enc);
  }

  lemma LowerConcat(digits: string, h: string)
    requires forall i :: 0 <= i < |digits| ==> IsDecimal(digits[i])
    ensures LowerText(digits + h) == digits + LowerText(h)
  {
  }

  lemma BytesConcat(a: string, b: string)
    requires |a| % 2 == 0
    ensures BytesOf(a + b) == BytesOf(a) + BytesOf(b)
  {
    forall k | 0 <= k < |BytesOf(b)| ensures PairValue(a + b, |a| / 2 + k) == PairValue(b, k) {
      assert 2 * (|a| / 2 + k) == |a| + 2 * k;
    }
  }

  lemma MaskSplits(x: Table, s: salt, a: string, b: string)
    requires |a| % 2 == 0
    ensures Mask(x, s, BytesOf(a + b)) == Mask(x, s, BytesOf(a)) + Mask(x, Advance(s, |a| / 2), BytesOf(b))
  {
    var bytes, more := BytesOf(a), BytesOf(b);
    BytesConcat(a, b);
    assert |bytes| == |a| / 2;
    MaskConcat(x, s, bytes, more);
  }

  ghost predicate HexText(h: string) { forall i :: 0 <= i < |h| ==> IsHex(h[i]) }

  /**
   A text whose body is cut between pairs decodes part by part, the second part as
   a text of its own with the salt that has been reached.
   */
  lemma BodySplits(x: Table, s: salt, a: string, b: string)
    requires HexText(a) && HexText(b) && |a| % 2 == 0
    ensures WellFormed(SaltText(s) + (a + b)) && WellFormed(SaltText(s) + a)
    ensures WellFormed(SaltText(Advance(s, |a| / 2)) + b)
    ensures Decrypt(x, SaltText(s) + (a + b)) ==
            Decrypt(x, SaltText(s) + a) + Decrypt(x, SaltText(Advance(s, |a| / 2)) + b)
  {
    Assembled(x, s, a + b);
    Assembled(x, s, a);
    Assembled(x, Advance(s, |a| / 2), b);
    MaskSplits(x, s, a, b);
  }

  /** The bytes that the body of an encoded text stands for. */
  function BodyBytes(enc: string): seq<octet>
    requires |enc| >= 2
  {
    BytesOf(enc[2..])
  }

  lemma BodyOfText(x: Table, plain: seq<octet>, s: salt)
    ensures BodyBytes(Encrypt(x, plain, s)) == Mask(x, s, plain)
  {
    assert Encrypt(x, plain, s)[2..] == HexBody(Mask(x, s, plain));
    BytesOfHex(Mask(x, s, plain));
  }

  /**
   Of two texts of one length that were encoded under one salt, the exclusive or of
   the bodies is that of the plain texts.
   */
  lemma KeyCancels(x: Table, s: salt, a: seq<octet>, b: seq<octet>)
    requires |a| == |b|
    ensures |BodyBytes(Encrypt(x, a, s))| == |BodyBytes(Encrypt(x, b, s))|
    ensures Xor(BodyBytes(Encrypt(x, a, s)), BodyBytes(Encrypt(x, b, s))) == Xor(a, b)
  {
    BodyOfText(x, a, s);
    BodyOfText(x, b, s);
    MaskCancels(x, s, a, b);
  }

  /** A last single digit is read like the pair of a zero and that digit. */
  lemma LoneDigit(x: Table, s: salt, h: string, d: char)
    requires HexText(h) && IsHex(d) && |h| % 2 == 0
    ensures WellFormed(SaltText(s) + (h + [d])) && WellFormed(SaltText(s) + (h + ['0', d]))
    ensures Decrypt(x, SaltText(s) + (h + [d])) == Decrypt(x, SaltText(s) + (h + ['0', d]))
  {
    Assembled(x, s, h + [d]);
    Assembled(x, s, h + ['0', d]);
    BytesConcat(h, [d]);
    BytesConcat(h, ['0', d]);
    ZeroDigit(d);
  }

  lemma ZeroDigit(d: char)
    requires IsHex(d)
    ensures BytesOf([d]) == BytesOf(['0', d])
  {
    assert Join(0, HexValue(d)) == HexValue(d);
  }

  /** The salts are written 00, 01, 02, and so on. */
  lemma SaltCounts(s: salt)
    ensures s == 0 ==> SaltText(s) == "00"
    ensures s > 0 ==>
      SaltText(s) == if SaltText(s - 1)[1] < '9' then [SaltText(s - 1)[0], SaltText(s - 1)[1] + 1 as char]
                     else [SaltText(s - 1)[0] + 1 as char, '0']
  {
  }

  /** Digits 2k and 2k + 1 of the body are byte k of the text under the table entry that byte k meets. */
  lemma EncodedByte(x: Table, s: salt, plain: seq<octet>, k: nat)
    requires k < |plain|
    ensures var enc := Encrypt(x, plain, s);
            && |enc| == 2 + 2 * |plain| && IsHex(enc[2 + 2 * k]) && IsHex(enc[3 + 2 * k])
            && 16 * (HexValue(enc[2 + 2 * k]) as int) + HexValue(enc[3 + 2 * k]) as int
               == (plain[k] ^ x[(s + k) % 53]) as int
  {
    var m := Mask(x, s, plain);
    PairOfBody(m, k);
    HexDigits(m);
    PairNumber(HexBody(m), k);
    assert Encrypt(x, plain, s)[2..] == HexBody(m);
    assert m[k] == plain[k] ^ x[(s + k) % 53];
  }

  /** Byte k of what is decoded is the number of the k-th pair of digits under the table entry it meets. */
  lemma DecodedByte(x: Table, s: salt, h: string, k: nat)
    requires HexText(h) && 2 * k < |h|
    ensures WellFormed(SaltText(s) + h) && k < |Decrypt(x, SaltText(s) + h)|
    ensures Decrypt(x, SaltText(s) + h)[k] == PairValue(h, k) ^ x[(s + k) % 53]
  {
    Assembled(x, s, h);
    MaskedByte(x, s, h, k);
  }

  // ----- the loops of the program -----

  /** `encrypt_type7` with the salt that `rand() % 15` gave. */
  method EncryptType7(x: Table, plain: seq<octet>, salt0: salt) returns (enc: string)
    ensures enc == Encrypt(x, plain, salt0)
  {
    var s := salt0;
    enc := SaltText(s);
    ghost var body: string := [];
    for i := 0 to |plain|
      invariant s == Advance(salt0, i)
      invariant enc == SaltText(salt0) + body && body == HexBody(Mask(x, salt0, plain[..i]))
    {
      var pair := HexPair(plain[i] ^ x[s]);
      EncryptStep(x, salt0, plain, i);
      AdvanceTwice(salt0, i, 1);
      CText.Regroup(SaltText(salt0), body, pair);
      enc, body := enc + pair, body + pair;
      s := (s + 1) % SIZE;
    }
    assert plain[..|plain|] == plain;
  }

  lemma EncryptStep(x: Table, s: salt, plain: seq<octet>, i: nat)
    requires i < |plain|
    ensures HexBody(Mask(x, s, plain[..i + 1])) ==
            HexBody(Mask(x, s, plain[..i])) + HexPair(plain[i] ^ x[Advance(s, i)])
  {
    MaskNext(x, s, plain, i);
    HexBodyAppend(Mask(x, s, plain[..i]), plain[i] ^ x[Advance(s, i)]);
  }

  lemma MaskNext(x: Table, s: salt, text: seq<octet>, i: nat)
    requires i < |text|
    ensures Mask(x, s, text[..i + 1]) == Mask(x, s, text[..i]) + [text[i] ^ x[Advance(s, i)]]
  {
    var m := Mask(x, s, text[..i + 1]);
    assert m[..i] == Mask(x, s, text[..i]);
    assert m == m[..i] + [m[i]];
  }

  lemma HexBodyAppend(bytes: seq<octet>, b: octet)
    ensures HexBody(bytes + [b]) == HexBody(bytes) + HexPair(b)
  {
  }

  method DecryptType7(x: Table, enc: string) returns (result: seq<octet>)
    requires WellFormed(enc)
    ensures result == Decrypt(x, enc)
  {
    if |enc| < 2 { return []; }
    var salt0: salt := SaltValue(enc[..2]);
    var s: salt, h := salt0, enc[2..];
    result := [];
    var i := 0;
    while i < |h|
      invariant i == 2 * |result| && Decrypting(x, salt0, h, s, result)
    {
      DecryptStep(x, salt0, h, s, result, PairValue(h, i / 2) ^ x[s]);
      result := result + [PairValue(h, i / 2) ^ x[s]];
      s := (s + 1) % SIZE;
      i := i + 2;
    }
    DecryptEnd(x, salt0, h, s, result);
  }

  /** The beginning of the decoded text, and the salt that goes with the next byte. */
  ghost predicate Decrypting(x: Table, s0: salt, h: string, s: salt, result: seq<octet>) {
    && |result| <= |BytesOf(h)| && s == Advance(s0, |result|)
    && result == Mask(x, s0, BytesOf(h))[..|result|]
  }

  lemma DecryptStep(x: Table, s0: salt, h: string, s: salt, result: seq<octet>, b: octet)
    requires Decrypting(x, s0, h, s, result) && 2 * |result| < |h| && b == PairValue(h, |result|) ^ x[s]
    ensures Decrypting(x, s0, h, (s + 1) % SIZE, result + [b])
  {
    var k, whole := |result|, Mask(x, s0, BytesOf(h));
    AdvanceTwice(s0, k, 1);
    MaskedByte(x, s0, h, k);
    assert whole[..k + 1] == whole[..k] + [b];
  }

  lemma MaskedByte(x: Table, s: salt, h: string, k: nat)
    requires 2 * k < |h|
    ensures k < |BytesOf(h)| && Mask(x, s, BytesOf(h))[k] == PairValue(h, k) ^ x[Advance(s, k)]
  {
    assert BytesOf(h)[k] == PairValue(h, k);
  }

  lemma DecryptEnd(x: Table, s0: salt, h: string, s: salt, result: seq<octet>)
    requires Decrypting(x, s0, h, s, result) && 2 * |result| >= |h|
    ensures result == Mask(x, s0, BytesOf(h))
  {
    assert |result| == |BytesOf(h)|;
  }

  // ----- the program's own table -----

  /** The table is the key text of the published algorithm: first dsfd;kfoA,.iyewrkldJKDHS, */
  lemma KeyTextStart()
    ensures |XLAT| == 53
    ensures XLAT[0] as char == 'd' && XLAT[1] as char == 's' && XLAT[2] as char == 'f'
    ensures XLAT[3] as char == 'd' && XLAT[4] as char == ';' && XLAT[5] as char == 'k'
    ensures XLAT[6] as char == 'f' && XLAT[7] as char == 'o' && XLAT[8] as char == 'A'
    ensures XLAT[9] as char == ',' && XLAT[10] as char == '.' && XLAT[11] as char == 'i'
    ensures XLAT[12] as char == 'y' && XLAT[13] as char == 'e' && XLAT[14] as char == 'w'
    ensures XLAT[15] as char == 'r' && XLAT[16] as char == 'k' && XLAT[17] as char == 'l'
    ensures XLAT[18] as char == 'd' && XLAT[19] as char == 'J' && XLAT[20] as char == 'K'
    ensures XLAT[21] as char == 'D' && XLAT[22] as char == 'H' && XLAT[23] as char == 'S'
  {
  }

  /** and then UBsgvca69834ncxv9873254k;fg87. */
  lemma KeyTextEnd()
    ensures |XLAT| == 53
    ensures XLAT[24] as char == 'U' && XLAT[25] as char == 'B' && XLAT[26] as char == 's'
    ensures XLAT[27] as char == 'g' && XLAT[28] as char == 'v' && XLAT[29] as char == 'c'
    ensures XLAT[30] as char == 'a' && XLAT[31] as char == '6' && XLAT[32] as char == '9'
    ensures XLAT[33] as char == '8' && XLAT[34] as char == '3' && XLAT[35] as char == '4'
    ensures XLAT[36] as char == 'n' && XLAT[37] as char == 'c' && XLAT[38] as char == 'x'
    ensures XLAT[39] as char == 'v' && XLAT[40] as char == '9' && XLAT[41] as char == '8'
    ensures XLAT[42] as char == '7' && XLAT[43] as char == '3' && XLAT[44] as char == '2'
    ensures XLAT[45] as char == '5' && XLAT[46] as char == '4' && XLAT[47] as char == 'k'
    ensures XLAT[48] as char == ';' && XLAT[49] as char == 'f' && XLAT[50] as char == 'g'
    ensures XLAT[51] as char == '8' && XLAT[52] as char == '7'
  {
  }

  /** The codec of the program is lossless with its own table of 53 entries, for every salt of the table. */
  lemma ProgramRoundTrip(plain: seq<octet>, s: salt)
    ensures |XLAT| == SIZE && WellFormed(Encrypt(XLAT, plain, s))
    ensures Decrypt(XLAT, Encrypt(XLAT, plain, s)) == plain
  {
    DecryptEncrypt(XLAT, plain, s);
  }
}
