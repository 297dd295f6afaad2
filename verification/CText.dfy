/**
 The C ground that every program of the repository stands on: bytes, machine
 integers, the truncating remainder, NUL-terminated strings, character classes
 of the C locale, and decimal text as printed by `%d`/`%zu` and read back by
 `atoi` and `sscanf`.
 */
module CText {

  type byte = b: int | 0 <= b < 256

  const INT_MIN := -0x8000_0000
  const INT_MAX := 0x7fff_ffff
  const TWO32 := 0x1_0000_0000
  const TWO64 := 0x1_0000_0000_0000_0000

  type int32 = x: int | INT_MIN <= x <= INT_MAX
  type uint32 = x: int | 0 <= x < TWO32

  /** C's `a % b` for a positive divisor (C11, section 6.5.5): the quotient truncates toward zero. */
  function Rem(a: int, b: int): (r: int)
    requires b > 0
    ensures -b < r < b
    ensures a >= 0 ==> r >= 0
    ensures a <= 0 ==> r <= 0
  {
    if a >= 0 then a % b else -((-a) % b)
  }

  /** The two remainders are congruent, whatever the sign of the dividend. */
  lemma RemCongruent26(a: int)
    ensures (a - Rem(a, 26)) % 26 == 0
  {
    var q := RemQuotient26(a);
  }

  lemma RemQuotient26(a: int) returns (q: int)
    ensures a == 26 * q + Rem(a, 26)
  {
    q := if a >= 0 then a / 26 else -((-a) / 26);
  }

  /** Quotient and remainder are determined by their equation. */
  lemma ModUnique(x: int, m: int, q: int, r: int)
    requires m > 0 && x == m * q + r && 0 <= r < m
    ensures x % m == r
  {
    var p, t := x / m, x % m;
    assert x == m * p + t;
    var d := p - q;
    assert m * d == r - t by {
      assert m * d == m * p - m * q;
    }
    if d >= 1 {
      MulGrows(m, d);
    } else if d <= -1 {
      MulGrows(m, -d);
    }
  }

  lemma MulGrows(m: int, d: int)
    requires m > 0 && d >= 1
    ensures m * d >= m
  {
  }

  function Min(a: nat, b: nat): (m: nat)
    ensures m <= a && m <= b && (m == a || m == b)
  {
    if a <= b then a else b
  }

  /** What fits of a sequence into `n` places. */
  function Take<T>(s: seq<T>, n: nat): (t: seq<T>)
    ensures t <= s && |t| <= n
  {
    if |s| <= n then s else s[..n]
  }

  function Join(parts: seq<seq<byte>>): seq<byte> {
    if |parts| == 0 then [] else parts[0] + Join(parts[1..])
  }

  lemma JoinCons(part: seq<byte>, parts: seq<seq<byte>>)
    ensures Join([part] + parts) == part + Join(parts)
  {
  }

  /** Concatenation is associative. */
  lemma Regroup<T>(a: seq<T>, b: seq<T>, c: seq<T>)
    ensures a + (b + c) == (a + b) + c
  {
  }

  /** The conversion of an `int` to `uint32_t`. */
  function ToU32(x: int): uint32 { x % TWO32 }

  /** The conversion of a `uint32_t` to a two's complement `int`. */
  function ToI32(x: uint32): int32 { if x <= INT_MAX then x else x - TWO32 }

  // ----- character classes of the C locale -----

  const NUL: byte := 0
  const NEWLINE: byte := 10
  const SPACE: byte := 32
  const PIPE: byte := 124   // '|'

  predicate IsUpper(c: byte) { 65 <= c <= 90 }
  predicate IsLower(c: byte) { 97 <= c <= 122 }
  predicate IsAlpha(c: byte) { IsUpper(c) || IsLower(c) }
  predicate IsDigit(c: byte) { 48 <= c <= 57 }
  predicate IsSpace(c: byte) { c == SPACE || 9 <= c <= 13 }

  /** The classes of `isupper`, `islower`, `isdigit` and `isspace`, by their characters. */
  lemma Classes(c: byte)
    ensures IsUpper(c) <==> 'A' as int <= c <= 'Z' as int
    ensures IsLower(c) <==> 'a' as int <= c <= 'z' as int
    ensures IsDigit(c) <==> '0' as int <= c <= '9' as int
    ensures IsSpace(c) <==> c in {' ' as int, '\t' as int, '\n' as int, 11, 12, '\r' as int}
  {
  }

  const UPPER_A := 65
  const LOWER_A := 97

  /** The place of a letter in its alphabet. */
  function Offset(c: byte): (o: int)
    requires IsAlpha(c)
    ensures 0 <= o < 26
  {
    if IsUpper(c) then c - UPPER_A else c - LOWER_A
  }

  function ToLower(c: byte): byte { if IsUpper(c) then c + 32 else c }

  /** An upper-case letter goes to the lower-case one at the same place of the alphabet; nothing else changes. */
  lemma ToLowerExactly(c: byte)
    ensures IsUpper(c) ==> IsLower(ToLower(c)) && Offset(ToLower(c)) == Offset(c)
    ensures !IsUpper(c) ==> ToLower(c) == c
  {
  }

  /** The same byte, or the same letter in either case. */
  predicate SameLetter(c: byte, d: byte) { c == d || (IsAlpha(c) && IsAlpha(d) && Offset(c) == Offset(d)) }

  /** Texts that differ in the case of their letters only. */
  ghost predicate Recased(s: seq<byte>, t: seq<byte>) {
    |s| == |t| && forall i :: 0 <= i < |s| ==> SameLetter(s[i], t[i])
  }

  /** Lowering forgets the case and nothing else. */
  lemma LowerForgetsCase(c: byte, d: byte)
    ensures ToLower(c) == ToLower(d) <==> SameLetter(c, d)
  {
  }

  // ----- NUL-terminated strings -----

  /** `strlen`: the position of the first NUL, or the whole length when there is none. */
  function StrLen(s: seq<byte>): (n: nat)
    ensures n <= |s|
    ensures forall i :: 0 <= i < n ==> s[i] != NUL
    ensures n < |s| ==> s[n] == NUL
  {
    if |s| == 0 || s[0] == NUL then 0 else 1 + StrLen(s[1..])
  }

  /** The string a C function sees when handed this memory. */
  function CStr(s: seq<byte>): (t: seq<byte>)
    ensures NUL !in t
  {
    s[..StrLen(s)]
  }

  lemma StrLenUnique(s: seq<byte>, n: nat)
    requires n <= |s| && (forall i :: 0 <= i < n ==> s[i] != NUL) && (n < |s| ==> s[n] == NUL)
    ensures StrLen(s) == n
  {
  }

  lemma CStrTerminated(a: seq<byte>, b: seq<byte>)
    requires NUL !in a
    ensures CStr(a + [NUL] + b) == a
  {
    var s := a + [NUL] + b;
    assert s[..|a|] == a;
    StrLenUnique(s, |a|);
  }

  lemma CStrWhole(a: seq<byte>)
    requires NUL !in a
    ensures CStr(a) == a
  {
    assert a[..|a|] == a;
    StrLenUnique(a, |a|);
  }

  /** Writing a NUL after some bytes leaves the string that the bytes already were. */
  lemma CStrOfPrefix(bytes: seq<byte>, buf: seq<byte>)
    requires |bytes| < |buf| && buf[..|bytes|] == bytes && buf[|bytes|] == NUL
    ensures CStr(buf) == CStr(bytes)
  {
    var n := StrLen(bytes);
    assert forall i :: 0 <= i < |bytes| ==> buf[i] == buf[..|bytes|][i];
    StrLenUnique(buf, n);
    assert buf[..n] == bytes[..n];
  }

  // ----- lines -----

  /** Where reading a line stops when it stands at `n`: after the next newline, at `limit`, or at the end. */
  function LineEnd(s: seq<byte>, n: nat, limit: nat): (end: nat)
    requires n <= limit && n <= |s|
    ensures n <= end <= limit && end <= |s|
    decreases limit - n
  {
    if n == limit || n == |s| then n
    else if s[n] == NEWLINE then n + 1
    else LineEnd(s, n + 1, limit)
  }

  lemma {:induction false} LineEndStops(s: seq<byte>, n: nat, limit: nat)
    requires n <= limit && n <= |s|
    ensures var end := LineEnd(s, n, limit);
            end == |s| || end == limit || (end > n && s[end - 1] == NEWLINE)
    decreases limit - n
  {
    if n == limit || n == |s| || s[n] == NEWLINE {
    } else {
      LineEndStops(s, n + 1, limit);
    }
  }

  lemma {:induction false} LineEndAt(s: seq<byte>, n: nat, k: nat, limit: nat)
    requires n <= k < |s| && k < limit && s[k] == NEWLINE
    requires forall i :: n <= i < k ==> s[i] != NEWLINE
    ensures LineEnd(s, n, limit) == k + 1
    decreases k - n
  {
    if n >= k {
    } else {
      LineEndAt(s, n + 1, k, limit);
    }
  }

  lemma {:induction false} LineEndOpen(s: seq<byte>, n: nat, k: nat, limit: nat)
    requires n <= k <= |s| && k <= limit && (k == |s| || k == limit)
    requires forall i :: n <= i < k ==> s[i] != NEWLINE
    ensures LineEnd(s, n, limit) == k
    decreases k - n
  {
    if n == k {
    } else {
      LineEndOpen(s, n + 1, k, limit);
    }
  }

  /** `%[^\n]`, or a cut at `strcspn(s, "\n")`: what comes before the newline. */
  function Line(s: seq<byte>): (t: seq<byte>)
    ensures NEWLINE !in t
  {
    if |s| == 0 || s[0] == NEWLINE then [] else [s[0]] + Line(s[1..])
  }

  /** A line is the longest beginning without a newline. */
  lemma {:induction false} LineShape(s: seq<byte>)
    ensures var n := |Line(s)|; n <= |s| && Line(s) == s[..n] && (n < |s| ==> s[n] == NEWLINE)
  {
    if |s| == 0 || s[0] == NEWLINE {
    } else {
      LineShape(s[1..]);
      assert s[..|Line(s)|] == [s[0]] + s[1..][..|Line(s[1..])|];
    }
  }

  /** The line of a text cut short is the cut line of the text. */
  lemma {:induction false} LineTake(s: seq<byte>, n: nat)
    ensures Line(Take(s, n)) == Take(Line(s), n)
  {
    if n == 0 || |s| == 0 || s[0] == NEWLINE {
    } else {
      assert Take(s, n) == [s[0]] + Take(s[1..], n - 1);
      LineTake(s[1..], n - 1);
    }
  }

  lemma {:induction false} LinePart(s: seq<byte>)
    ensures forall x :: x in Line(s) ==> x in s
  {
    if |s| == 0 || s[0] == NEWLINE {
    } else {
      LinePart(s[1..]);
    }
  }

  lemma {:induction false} LineBefore(s: seq<byte>, rest: seq<byte>)
    requires NEWLINE !in s && (rest == [] || rest[0] == NEWLINE)
    ensures Line(s + rest) == s
  {
    if |s| == 0 {
      assert s + rest == rest;
    } else {
      assert (s + rest)[1..] == s[1..] + rest;
      LineBefore(s[1..], rest);
    }
  }

  // ----- decimal text -----

  /** What `%d` prints for a non-negative number. */
  function Digits(n: nat): (s: seq<byte>)
    ensures |s| >= 1
    ensures forall i :: 0 <= i < |s| ==> IsDigit(s[i])
  {
    if n < 10 then [48 + n] else Digits(n / 10) + [48 + n % 10]
  }

  /** What `%d` prints. */
  function Dec(n: int): (s: seq<byte>)
    ensures |s| >= 1
    ensures forall i :: 0 <= i < |s| ==> IsDigit(s[i]) || (i == 0 && s[0] == 45)
  {
    if n < 0 then [45] + Digits(-n) else Digits(n)
  }

  function Pow10(k: nat): nat { if k == 0 then 1 else 10 * Pow10(k - 1) }

  lemma {:induction false} DigitsLength(n: nat, k: nat)
    requires k >= 1 && n < Pow10(k)
    ensures |Digits(n)| <= k
  {
    if n < 10 {
    } else {
      assert n / 10 < Pow10(k - 1);
      DigitsLength(n / 10, k - 1);
    }
  }

  lemma DecLength(n: int32)
    ensures |Dec(n)| <= 11
  {
    assert Pow10(4) == 10_000 && Pow10(7) == 10_000_000 && Pow10(10) == 10_000_000_000;
    DigitsLength(if n < 0 then 0 - n else n, 10);
  }

  datatype Scan = NoMatch | Match(value: int, rest: seq<byte>)

  function SkipSpace(s: seq<byte>): (t: seq<byte>)
    ensures |t| <= |s|
  {
    if |s| > 0 && IsSpace(s[0]) then SkipSpace(s[1..]) else s
  }

  /** Reads the longest run of digits, on top of what has been read already. */
  function ScanDigits(s: seq<byte>, acc: nat): (r: (nat, seq<byte>))
    ensures |r.1| <= |s|
  {
    if |s| > 0 && IsDigit(s[0]) then ScanDigits(s[1..], 10 * acc + s[0] - 48) else (acc, s)
  }

  /** One `%d` conversion: white space, an optional sign, at least one digit. */
  function ScanInt(s: seq<byte>): (r: Scan)
    ensures r.Match? ==> |r.rest| < |s|
  {
    var t := SkipSpace(s);
    var u := if |t| > 0 && (t[0] == 45 || t[0] == 43) then t[1..] else t;
    if |u| == 0 || !IsDigit(u[0]) then NoMatch else
      var (v: int, rest) := ScanDigits(u, 0);
      Match(if t[0] == 45 then -v else v, rest)
  }

  /** A number read into an `int`; one out of range, which C leaves undefined, keeps its low 32 bits. */
  function Narrow(v: int): int32 { ToI32(ToU32(v)) }

  lemma NarrowExact(x: int32)
    ensures Narrow(x) == x
  {
  }

  /** `atoi`: 0 when no number starts the string. */
  function Atoi(s: seq<byte>): int32 {
    match ScanInt(CStr(s))
    case NoMatch => 0
    case Match(v, _) => Narrow(v)
  }

  /** Digits are read back one for one, whatever follows them. */
  lemma {:induction false} ScanDigitsOfDigits(n: nat, rest: seq<byte>)
    ensures ScanDigits(Digits(n) + rest, 0) == ScanDigits(rest, n)
  {
    if n < 10 {
      assert (Digits(n) + rest)[1..] == rest;
    } else {
      var d: byte := 48 + n % 10;
      assert Digits(n) + rest == Digits(n / 10) + ([d] + rest);
      ScanDigitsOfDigits(n / 10, [d] + rest);
      assert ([d] + rest)[1..] == rest;
    }
  }

  /** Printing a number and scanning it gives the number back and stops exactly where the print stopped. */
  lemma ScanIntOfDec(n: int, rest: seq<byte>)
    requires |rest| > 0 ==> !IsDigit(rest[0])
    ensures ScanInt(Dec(n) + rest) == Match(n, rest)
  {
    var s := Dec(n) + rest;
    assert s[0] == Dec(n)[0];
    if n < 0 {
      assert s[1..] == Digits(-n) + rest;
      ScanDigitsOfDigits(-n, rest);
    } else {
      ScanDigitsOfDigits(n, rest);
    }
  }

  lemma AtoiOfDec(n: int32)
    ensures Atoi(Dec(n)) == n
  {
    NarrowExact(n);
    CStrWhole(Dec(n));
    ScanIntOfDec(n, []);
    assert Dec(n) + [] == Dec(n);
  }

  /** A scan leaves a part of the text it was given. */
  lemma {:induction false} ScanDigitsRest(s: seq<byte>, acc: nat)
    ensures forall x :: x in ScanDigits(s, acc).1 ==> x in s
  {
    if |s| == 0 || !IsDigit(s[0]) {
    } else {
      ScanDigitsRest(s[1..], 10 * acc + s[0] - 48);
    }
  }

  lemma {:induction false} SkipSpaceRest(s: seq<byte>)
    ensures forall x :: x in SkipSpace(s) ==> x in s
  {
    if |s| == 0 || !IsSpace(s[0]) {
    } else {
      SkipSpaceRest(s[1..]);
    }
  }

  lemma ScanIntRest(s: seq<byte>)
    ensures ScanInt(s).Match? ==> forall x :: x in ScanInt(s).rest ==> x in s
  {
    SkipSpaceRest(s);
    var t := SkipSpace(s);
    ScanDigitsRest(if |t| > 0 && (t[0] == 45 || t[0] == 43) then t[1..] else t, 0);
  }

  /** A literal followed by one number. */
  function Field(name: seq<byte>, s: seq<byte>): Scan {
    if name <= s then ScanInt(s[|name|..]) else NoMatch
  }

  lemma FieldRoundTrip(name: seq<byte>, n: int, rest: seq<byte>)
    requires |rest| > 0 && !IsDigit(rest[0])
    ensures Field(name, name + (Dec(n) + rest)) == Match(n, rest)
  {
    assert (name + (Dec(n) + rest))[|name|..] == Dec(n) + rest;
    ScanIntOfDec(n, rest);
  }
}
