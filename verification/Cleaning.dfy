/**
 The cleaning step of the P3/HAJA client: from the bytes of a file it keeps the
 letters, folding the accented vowels and the eñe of UTF-8 text to plain letters.
 The byte loop is related to a reading of the file as Unicode code points.
 */
module Cleaning {
  import opened CText
  import opened Caesar
  import TextProtocol

  const LEAD: byte := 0xC3   // first byte of U+00C0 to U+00FF in UTF-8

  /** The plain letter for the byte after 0xC3, NUL when the pair is not one the program knows. */
  function FoldPair(d: byte): byte {
    if d == 0xA1 || d == 0x81 then 97
    else if d == 0xA9 || d == 0x89 then 101
    else if d == 0xAD || d == 0x8D then 105
    else if d == 0xB3 || d == 0x93 then 111
    else if d == 0xBA || d == 0x9A then 117
    else if d == 0xB1 || d == 0x91 then 110
    else NUL
  }

  /** Whether a folded pair stands at `i`. */
  predicate PairAt(s: seq<byte>, i: nat)
    requires i < |s|
  {
    s[i] == LEAD && i + 1 < |s| && FoldPair(s[i + 1]) != NUL
  }

  /** What stands at `i`, as a one-byte character. */
  function LetterAt(s: seq<byte>, i: nat): byte
    requires i < |s|
  {
    if PairAt(s, i) then FoldPair(s[i + 1]) else s[i]
  }

  function WidthAt(s: seq<byte>, i: nat): (w: nat)
    requires i < |s|
    ensures 1 <= w && i + w <= |s|
  {
    if PairAt(s, i) then 2 else 1
  }

  function Keep(c: byte): seq<byte> { if IsAlpha(c) then [c] else [] }

  function Clean(raw: seq<byte>): (clean: seq<byte>)
    ensures |clean| <= |raw|
    ensures forall i :: 0 <= i < |clean| ==> IsAlpha(clean[i])
  {
    if |raw| == 0 then [] else Keep(LetterAt(raw, 0)) + Clean(raw[WidthAt(raw, 0)..])
  }

  /** What is written and the cleaning of what is left make up the cleaned text. */
  ghost predicate Cleaned(raw: seq<byte>, i: nat, written: seq<byte>)
    requires i <= |raw|
  {
    |written| <= i && written + Clean(raw[i..]) == Clean(raw)
  }

  lemma CleanedStart(raw: seq<byte>)
    ensures Cleaned(raw, 0, [])
  {
    assert raw[0..] == raw;
  }

  lemma CleanedEnd(raw: seq<byte>, written: seq<byte>)
    requires Cleaned(raw, |raw|, written)
    ensures written == Clean(raw)
  {
    assert raw[|raw|..] == [];
  }

  ghost predicate CharacterAt(raw: seq<byte>, i: nat, c: byte, last: nat)
    requires i < |raw|
  {
    c == LetterAt(raw, i) && last + 1 == i + WidthAt(raw, i)
  }

  /** One turn of the loop: what is written grows by the character read. */
  lemma CleanedStep(raw: seq<byte>, i: nat, written: seq<byte>, c: byte, last: nat)
    requires i < |raw| && Cleaned(raw, i, written) && CharacterAt(raw, i, c, last)
    ensures i <= last < |raw| && Cleaned(raw, last + 1, written + Keep(c))
  {
    var tail := raw[i..];
    assert LetterAt(tail, 0) == LetterAt(raw, i) && WidthAt(tail, 0) == WidthAt(raw, i);
    assert tail[WidthAt(raw, i)..] == raw[last + 1..];
    Regroup(written, Keep(c), Clean(raw[last + 1..]));
  }

  /** The two-index loop of `leerSoloLetras`. */
  method CleanBytes(raw: seq<byte>) returns (clean: array<byte>, j: nat)
    ensures clean.Length == |raw| + 1 && j <= |raw|
    ensures clean[..j] == Clean(raw) && clean[j] == NUL
  {
    var n := |raw|;
    clean := new byte[n + 1];
    j := 0;
    var i := 0;
    CleanedStart(raw);
    assert clean[..0] == [];
    while i < n
      invariant j <= i <= n && Cleaned(raw, i, clean[..j])
    {
      var c, last := ReadCharacter(raw, i);
      CleanedStep(raw, i, clean[..j], c, last);
      j := WriteLetter(clean, j, c);
      i := last + 1;
    }
    ghost var written := clean[..j];
    CleanedEnd(raw, written);
    clean[j] := NUL;
    assert clean[..j] == written;
  }

  /** The end of the loop body: a letter is written at `j`, anything else dropped. */
  method WriteLetter(clean: array<byte>, j: nat, c: byte) returns (next: nat)
    requires j < clean.Length
    modifies clean
    ensures j <= next <= j + 1 && next <= clean.Length && clean[..next] == old(clean[..j]) + Keep(c)
  {
    next := j;
    if IsAlpha(c) {
      clean[j] := c;
      next := j + 1;
    }
  }

  /** The chain of tests in the loop: the character at `i`, and the index of its last byte. */
  method ReadCharacter(raw: seq<byte>, i: nat) returns (c: byte, last: nat)
    requires i < |raw|
    ensures CharacterAt(raw, i, c, last)
  {
    c, last := raw[i], i;
    if c == 0xC3 && i + 1 < |raw| {
      var d := raw[i + 1];
      if d == 0xA1 || d == 0x81 { c, last := 97, i + 1; }
      else if d == 0xA9 || d == 0x89 { c, last := 101, i + 1; }
      else if d == 0xAD || d == 0x8D { c, last := 105, i + 1; }
      else if d == 0xB3 || d == 0x93 { c, last := 111, i + 1; }
      else if d == 0xBA || d == 0x9A { c, last := 117, i + 1; }
      else if d == 0xB1 || d == 0x91 { c, last := 110, i + 1; }
    }
  }

  // ----- laws -----

  /** A cut between the two bytes of a pair the program folds. */
  ghost predicate CutsPair(a: seq<byte>, b: seq<byte>) {
    |a| > 0 && a[|a| - 1] == LEAD && |b| > 0 && FoldPair(b[0]) != NUL
  }

  /** The letter of a pair that a cut separates, if there is one. */
  ghost function LostLetter(a: seq<byte>, b: seq<byte>): seq<byte> {
    if CutsPair(a, b) then [FoldPair(b[0])] else []
  }

  /** What stands first in a text does not change when more text follows, unless the text is half a pair. */
  lemma FirstOfConcat(a: seq<byte>, b: seq<byte>)
    requires |a| > 0 && !(|a| == 1 && CutsPair(a, b))
    ensures LetterAt(a + b, 0) == LetterAt(a, 0) && WidthAt(a + b, 0) == WidthAt(a, 0)
    ensures CutsPair(a, b) <==> CutsPair(a[WidthAt(a, 0)..], b)
  {
  }

  /** A lead byte gives a letter together with the byte that follows, which gives none by itself. */
  lemma CleanHalfPair(lead: byte, b: seq<byte>)
    requires CutsPair([lead], b)
    ensures Clean([lead]) == [] && Clean([lead] + b) == [FoldPair(b[0])] + Clean(b)
  {
    var s := [lead] + b;
    PairSecond(b[0]);
    assert PairAt(s, 0) && s[2..] == b[1..];
    assert [lead][1..] == [];
    SkipByte(b);
  }

  /** The second byte of a folded pair is neither a letter nor a lead, and the pair gives a letter. */
  lemma PairSecond(d: byte)
    ensures FoldPair(d) != NUL ==> d >= 0x80 && d != LEAD && IsAlpha(FoldPair(d))
  {
  }

  lemma SkipByte(b: seq<byte>)
    requires |b| > 0 && b[0] >= 0x80 && b[0] != LEAD
    ensures Clean(b) == Clean(b[1..])
  {
    assert Clean(b) == [] + Clean(b[1..]);
  }

  /** Cleaning goes through concatenation, except that a pair cut in two loses its letter. */
  lemma {:induction false} CleanConcat(a: seq<byte>, b: seq<byte>)
    ensures Clean(a + b) == Clean(a) + (LostLetter(a, b) + Clean(b))
  {
    if |a| == 0 {
      assert a + b == b;
    } else if |a| == 1 && CutsPair(a, b) {
      assert a == [a[0]];
      CleanHalfPair(a[0], b);
    } else {
      FirstOfConcat(a, b);
      var w := WidthAt(a, 0);
      assert (a + b)[w..] == a[w..] + b;
      CleanConcat(a[w..], b);
      Regroup(Keep(LetterAt(a, 0)), Clean(a[w..]), LostLetter(a, b) + Clean(b));
    }
  }

  /** Cleaning piece by piece equals cleaning the whole exactly when no piece ends inside a folded pair. */
  lemma CleanDistributes(a: seq<byte>, b: seq<byte>)
    ensures Clean(a + b) == Clean(a) + Clean(b) <==> !CutsPair(a, b)
  {
    CleanConcat(a, b);
  }

  /** The texts that cleaning leaves alone are exactly those made of letters only. */
  lemma CleanFixed(s: seq<byte>)
    ensures Clean(s) == s <==> forall i :: 0 <= i < |s| ==> IsAlpha(s[i])
  {
    if forall i :: 0 <= i < |s| ==> IsAlpha(s[i]) {
      CleanLetters(s);
    }
  }

  lemma {:induction false} CleanLetters(s: seq<byte>)
    requires forall i :: 0 <= i < |s| ==> IsAlpha(s[i])
    ensures Clean(s) == s
  {
    if |s| == 0 {
    } else {
      assert !PairAt(s, 0) && Keep(s[0]) == [s[0]];
      CleanLetters(s[1..]);
    }
  }

  lemma CleanIdempotent(s: seq<byte>)
    ensures Clean(Clean(s)) == Clean(s)
  {
    CleanFixed(Clean(s));
  }

  // ----- what cleaning means for Unicode text (section 3 of RFC 3629) -----

  type CodePoint = x: int | 0 <= x <= 0x10_FFFF

  function Utf8(cp: CodePoint): (b: seq<byte>)
    ensures 1 <= |b| <= 4
  {
    if cp < 0x80 then [cp]
    else if cp < 0x800 then [0xC0 + cp / 64, 0x80 + cp % 64]
    else if cp < 0x1_0000 then [0xE0 + cp / 4096, 0x80 + cp / 64 % 64, 0x80 + cp % 64]
    else [0xF0 + cp / 262144, 0x80 + cp / 4096 % 64, 0x80 + cp / 64 % 64, 0x80 + cp % 64]
  }

  function EncodeText(text: seq<CodePoint>): seq<byte> {
    if |text| == 0 then [] else Utf8(text[0]) + EncodeText(text[1..])
  }

  /**
   What the program keeps of a character: á and Á read as a, and so on for the twelve
   folded letters; anything but these and the ASCII letters, ü and ç too, is dropped.
   */
  function FoldPoint(cp: CodePoint): seq<byte> {
    if 65 <= cp <= 90 || 97 <= cp <= 122 then [cp]
    else if cp == 0xE1 || cp == 0xC1 then [97]    // á Á
    else if cp == 0xE9 || cp == 0xC9 then [101]   // é É
    else if cp == 0xED || cp == 0xCD then [105]   // í Í
    else if cp == 0xF3 || cp == 0xD3 then [111]   // ó Ó
    else if cp == 0xFA || cp == 0xDA then [117]   // ú Ú
    else if cp == 0xF1 || cp == 0xD1 then [110]   // ñ Ñ
    else []
  }

  function FoldText(text: seq<CodePoint>): seq<byte> {
    if |text| == 0 then [] else FoldPoint(text[0]) + FoldText(text[1..])
  }

  /** Bytes from 0x80 up other than the lead leave no letter. */
  lemma {:induction false} CleanContinuation(s: seq<byte>)
    requires forall i :: 0 <= i < |s| ==> s[i] >= 0x80 && s[i] != LEAD
    ensures Clean(s) == []
  {
    if |s| == 0 {
    } else {
      CleanContinuation(s[1..]);
    }
  }

  /** The twelve letters that are folded, and some that are not. */
  lemma FoldedLetters()
    ensures FoldPoint('á' as int) == FoldPoint('Á' as int) == ['a' as int]
    ensures FoldPoint('é' as int) == FoldPoint('É' as int) == ['e' as int]
    ensures FoldPoint('í' as int) == FoldPoint('Í' as int) == ['i' as int]
    ensures FoldPoint('ó' as int) == FoldPoint('Ó' as int) == ['o' as int]
    ensures FoldPoint('ú' as int) == FoldPoint('Ú' as int) == ['u' as int]
    ensures FoldPoint('ñ' as int) == FoldPoint('Ñ' as int) == ['n' as int]
    ensures FoldPoint('ü' as int) == FoldPoint('ç' as int) == FoldPoint('à' as int) == FoldPoint(' ' as int) == []
    ensures forall cp: CodePoint :: cp < 128 && IsAlpha(cp) ==> FoldPoint(cp) == [cp]
  {
  }

  /** The block of code points whose encoding starts with the lead byte. */
  lemma CleanLatinPoint(cp: CodePoint)
    requires 0xC0 <= cp < 0x100
    ensures Utf8(cp) == [LEAD, 0x80 + (cp - 0xC0)]
    ensures Clean([LEAD, 0x80 + (cp - 0xC0)]) == FoldPoint(cp)
  {
    var d: byte := 0x80 + (cp - 0xC0);
    CleanContinuation([d]);
    assert [LEAD, d][1..] == [d] && [LEAD, d][2..] == [];
  }

  lemma CleanPoint(cp: CodePoint)
    ensures Clean(Utf8(cp)) == FoldPoint(cp)
  {
    if cp < 0x80 {
      assert Utf8(cp)[1..] == [];
    } else if 0xC0 <= cp < 0x100 {
      CleanLatinPoint(cp);
    } else {
      HighBytes(cp);
      CleanContinuation(Utf8(cp));
    }
  }

  lemma HighBytes(cp: CodePoint)
    requires cp >= 0x80 && !(0xC0 <= cp < 0x100)
    ensures forall i :: 0 <= i < |Utf8(cp)| ==> Utf8(cp)[i] >= 0x80 && Utf8(cp)[i] != LEAD
  {
  }

  lemma LastByte(cp: CodePoint)
    ensures Utf8(cp)[|Utf8(cp)| - 1] != LEAD
  {
  }

  lemma CleanPointThen(cp: CodePoint, b: seq<byte>)
    ensures Clean(Utf8(cp) + b) == FoldPoint(cp) + Clean(b)
  {
    CleanPoint(cp);
    LastByte(cp);
    CleanConcat(Utf8(cp), b);
    assert [] + Clean(b) == Clean(b);
  }

  /** On every Unicode text the byte loop keeps exactly the ASCII letters and the twelve folded ones, in order. */
  lemma {:induction false} CleanText(text: seq<CodePoint>)
    ensures Clean(EncodeText(text)) == FoldText(text)
  {
    if |text| == 0 {
    } else {
      CleanPointThen(text[0], EncodeText(text[1..]));
      CleanText(text[1..]);
    }
  }

  /** What the client puts on a connection for a cleaned file: nothing, not even a header, when no letter is left. */
  function ClientStream(msg: seq<byte>, porto: int32, shift: int32): seq<byte> {
    if msg == [] then [] else TextProtocol.Header(porto, shift, |msg|) + msg
  }

  /**
   A text file sent by the client comes back from the server it names as the
   Caesar image of all its folded letters: a cleaned text has no NUL, so nothing
   is lost to `strlen`. A file without letters is not sent.
   */
  lemma FileServed(text: seq<CodePoint>, porto: int32, shift: int32, port: int32, memory: nat)
    requires |FoldText(text)| < memory < TWO64
    ensures var msg := Clean(EncodeText(text));
            TextProtocol.Reply(ClientStream(msg, porto, shift), port, memory) ==
              if FoldText(text) == [] then []
              else if porto == port then TextProtocol.DONE + Cipher(FoldText(text), shift) + [NEWLINE]
              else TextProtocol.REFUSED
  {
    CleanText(text);
    var msg := FoldText(text);
    if msg != [] {
      TextProtocol.ReplyToRequest(porto, shift, msg, port, memory);
      CStrWhole(msg);
    }
  }
}
