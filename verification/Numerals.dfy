/**
 Numbers in texts, described without reading them: which bytes spell which number.
 What `scanf` and `atoi` read is compared with this description.
 */
module Numerals {
  import opened CText

  ghost predicate AllSpace(s: seq<byte>) { forall i :: 0 <= i < |s| ==> IsSpace(s[i]) }

  lemma {:induction false} SkipSpaceHead(s: seq<byte>)
    ensures |SkipSpace(s)| > 0 ==> !IsSpace(SkipSpace(s)[0])
  {
    if |s| == 0 || !IsSpace(s[0]) {
    } else {
      SkipSpaceHead(s[1..]);
    }
  }

  lemma {:induction false} SkipSpaceSplit(s: seq<byte>) returns (front: seq<byte>)
    ensures s == front + SkipSpace(s) && AllSpace(front)
  {
    front := [];
    if |s| == 0 || !IsSpace(s[0]) {
    } else {
      var more := SkipSpaceSplit(s[1..]);
      front := [s[0]] + more;
    }
  }

  ghost predicate AllDigits(s: seq<byte>) { forall i :: 0 <= i < |s| ==> IsDigit(s[i]) }

  /** The number that digits stand for: the last one counts once, the one before it ten times, and so on. */
  function Value(digits: seq<byte>): int {
    if |digits| == 0 then 0 else 10 * Value(digits[..|digits| - 1]) + digits[|digits| - 1] - 48
  }

  ghost predicate IsSign(sign: seq<byte>) { sign == [] || sign == [45] || sign == [43] }   // '-' and '+'

  /** White space, a sign or none, and at least one digit. */
  ghost predicate Spelled(w: seq<byte>, front: seq<byte>, sign: seq<byte>, digits: seq<byte>, v: int) {
    && w == front + (sign + digits)
    && AllSpace(front) && IsSign(sign) && |digits| > 0 && AllDigits(digits)
    && v == if sign == [45] then -Value(digits) else Value(digits)
  }

  ghost predicate Spells(w: seq<byte>, v: int) {
    exists front: seq<byte>, sign: seq<byte>, digits: seq<byte> :: Spelled(w, front, sign, digits, v)
  }

  /** The digits of a number end here. */
  ghost predicate Stops(rest: seq<byte>) { rest == [] || !IsDigit(rest[0]) }

  /** A text starts with a number, and its rest begins where the digits end. */
  ghost predicate Begins(s: seq<byte>, w: seq<byte>, v: int, rest: seq<byte>) {
    s == w + rest && Spells(w, v) && Stops(rest)
  }

  lemma {:induction false} ScanDigitsValue(digits: seq<byte>, rest: seq<byte>)
    requires AllDigits(digits)
    ensures Value(digits) >= 0 && ScanDigits(digits + rest, 0) == ScanDigits(rest, Value(digits))
  {
    if |digits| == 0 {
      assert digits + rest == rest;
    } else {
      var init, d := digits[..|digits| - 1], digits[|digits| - 1];
      ScanDigitsValue(init, [d] + rest);
      assert digits + rest == init + ([d] + rest);
      assert ([d] + rest)[1..] == rest;
    }
  }

  lemma {:induction false} SkipFront(front: seq<byte>, t: seq<byte>)
    requires AllSpace(front) && |t| > 0 && !IsSpace(t[0])
    ensures SkipSpace(front + t) == t
  {
    if |front| == 0 {
      assert front + t == t;
    } else {
      assert (front + t)[1..] == front[1..] + t;
      SkipFront(front[1..], t);
    }
  }

  lemma ScanSpelled(w: seq<byte>, front: seq<byte>, sign: seq<byte>, digits: seq<byte>, v: int, rest: seq<byte>)
    requires Spelled(w, front, sign, digits, v) && Stops(rest)
    ensures ScanInt(w + rest) == Match(v, rest)
  {
    var t, u := sign + (digits + rest), digits + rest;
    assert w + rest == front + t;
    SkipFront(front, t);
    assert u == if sign == [] then t else t[1..];
    ScanDigitsValue(digits, rest);
  }

  /** The run of digits at the start of a text. */
  lemma {:induction false} DigitRun(s: seq<byte>, acc: nat) returns (digits: seq<byte>)
    ensures AllDigits(digits) && s == digits + ScanDigits(s, acc).1 && Stops(ScanDigits(s, acc).1)
    ensures |s| > 0 && IsDigit(s[0]) ==> |digits| > 0
  {
    if |s| == 0 || !IsDigit(s[0]) {
      digits := [];
    } else {
      var more := DigitRun(s[1..], 10 * acc + s[0] - 48);
      digits := [s[0]] + more;
    }
  }

  lemma ScanFinds(s: seq<byte>) returns (w: seq<byte>)
    requires ScanInt(s).Match?
    ensures Begins(s, w, ScanInt(s).value, ScanInt(s).rest)
  {
    var front := SkipSpaceSplit(s);
    var t := SkipSpace(s);
    var sign: seq<byte> := if t[0] == 45 || t[0] == 43 then [t[0]] else [];
    var u := t[|sign|..];
    var digits := DigitRun(u, 0);
    var rest := ScanInt(s).rest;
    ScanDigitsValue(digits, rest);
    w := front + (sign + digits);
    assert s == w + rest;
    assert Spelled(w, front, sign, digits, ScanInt(s).value);
  }

  /** `%d` reads a number exactly when the text starts with one, and stops where its digits end. */
  lemma ScanIntExactly(s: seq<byte>, v: int, rest: seq<byte>)
    ensures ScanInt(s) == Match(v, rest) <==> exists w: seq<byte> :: Begins(s, w, v, rest)
  {
    if ScanInt(s) == Match(v, rest) {
      var w := ScanFinds(s);
    }
    if w: seq<byte> :| Begins(s, w, v, rest) {
      var front, sign, digits :| Spelled(w, front, sign, digits, v);
      ScanSpelled(w, front, sign, digits, v, rest);
    }
  }

  /** What follows a number is what a scan leaves. */
  lemma ScanBegun(s: seq<byte>, w: seq<byte>, v: int, rest: seq<byte>)
    requires Begins(s, w, v, rest)
    ensures ScanInt(s) == Match(v, rest)
  {
    ScanIntExactly(s, v, rest);
  }

  /** `%d` fails exactly when no number starts the text. */
  lemma ScanIntNone(s: seq<byte>)
    ensures ScanInt(s).NoMatch? <==>
            !exists w: seq<byte>, v: int, rest: seq<byte> :: Begins(s, w, v, rest)
  {
    if ScanInt(s).Match? {
      var w := ScanFinds(s);
    }
    if w: seq<byte>, v: int, rest: seq<byte> :| Begins(s, w, v, rest) {
      ScanBegun(s, w, v, rest);
    }
  }

  /** `%d` prints a text that spells the number. */
  lemma DecSpells(n: int)
    ensures Spells(Dec(n), n)
  {
    var digits := Digits(if n < 0 then -n else n);
    DigitsValue(if n < 0 then -n else n);
    assert Spelled(Dec(n), [], if n < 0 then [45] else [], digits, n);
  }

  lemma {:induction false} DigitsValue(n: nat)
    ensures Value(Digits(n)) == n
  {
    if n < 10 {
      assert Digits(n)[..0] == [];
    } else {
      DigitsValue(n / 10);
      assert Digits(n)[..|Digits(n)| - 1] == Digits(n / 10);
    }
  }

  /** `atoi` gives the number that starts the string, and 0 when none does. */
  lemma AtoiExactly(s: seq<byte>)
    ensures forall w: seq<byte>, v: int, rest: seq<byte> :: Begins(CStr(s), w, v, rest) ==> Atoi(s) == Narrow(v)
    ensures (!exists w: seq<byte>, v: int, rest: seq<byte> :: Begins(CStr(s), w, v, rest)) ==> Atoi(s) == 0
  {
    ScanIntNone(CStr(s));
    forall w: seq<byte>, v: int, rest: seq<byte> | Begins(CStr(s), w, v, rest) ensures Atoi(s) == Narrow(v) {
      ScanBegun(CStr(s), w, v, rest);
    }
  }

  /** A printed number is what `atoi` gives, whatever follows its digits. */
  lemma AtoiOfDecThen(n: int32, rest: seq<byte>)
    requires Stops(rest)
    ensures Atoi(Dec(n) + rest) == n
  {
    var m := StrLen(rest);
    StrLenUnique(Dec(n) + rest, |Dec(n)| + m);
    assert CStr(Dec(n) + rest) == Dec(n) + rest[..m];
    ScanIntOfDec(n, rest[..m]);
    NarrowExact(n);
  }
}
