/**
 The key server of P2/IGG: a request `key shift` is granted when the decrypted
 key stands in a file of words, where case and surrounding white space do not
 matter on either side.
 */
module WordList {
  import opened CText
  import opened Caesar
  import opened Numerals

  const BUFFER_SIZE := 1024

  // ----- normal forms -----

  function Lower(s: seq<byte>): (t: seq<byte>)
    ensures |t| == |s|
  {
    seq(|s|, i requires 0 <= i < |s| => ToLower(s[i]))
  }

  function TrimRight(s: seq<byte>): (t: seq<byte>)
    ensures t <= s
    ensures |t| > 0 ==> !IsSpace(t[|t| - 1])
  {
    if |s| > 0 && IsSpace(s[|s| - 1]) then TrimRight(s[..|s| - 1]) else s
  }

  function Trim(s: seq<byte>): seq<byte> { TrimRight(SkipSpace(s)) }

  /** What two words have in common when they differ in case and outer white space only. */
  function Norm(s: seq<byte>): seq<byte> { Lower(Trim(s)) }

  lemma TrimEnds(s: seq<byte>)
    ensures var t := Trim(s); |t| > 0 ==> !IsSpace(t[0]) && !IsSpace(t[|t| - 1])
  {
    SkipSpaceHead(s);
  }

  lemma {:induction false} TrimRightSplit(s: seq<byte>) returns (back: seq<byte>)
    ensures s == TrimRight(s) + back && AllSpace(back)
  {
    back := [];
    if |s| == 0 || !IsSpace(s[|s| - 1]) {
    } else {
      var more := TrimRightSplit(s[..|s| - 1]);
      back := more + [s[|s| - 1]];
    }
  }

  /** Trimming takes away white space at the two ends, all of it and nothing else. */
  lemma TrimExact(s: seq<byte>)
    ensures exists front: seq<byte>, back: seq<byte> ::
      s == front + Trim(s) + back && AllSpace(front) && AllSpace(back)
    ensures var t := Trim(s); |t| > 0 ==> !IsSpace(t[0]) && !IsSpace(t[|t| - 1])
  {
    TrimEnds(s);
    var front := SkipSpaceSplit(s);
    var back := TrimRightSplit(SkipSpace(s));
    assert s == front + Trim(s) + back;
  }

  lemma TrimIdempotent(s: seq<byte>)
    ensures Trim(Trim(s)) == Trim(s)
  {
    TrimEnds(s);
  }

  lemma LowerIdempotent(s: seq<byte>)
    ensures Lower(Lower(s)) == Lower(s)
  {
  }

  lemma {:induction false} LowerSkip(s: seq<byte>)
    ensures SkipSpace(Lower(s)) == Lower(SkipSpace(s))
  {
    if |s| == 0 || !IsSpace(s[0]) {
    } else {
      assert Lower(s)[1..] == Lower(s[1..]);
      LowerSkip(s[1..]);
    }
  }

  lemma {:induction false} LowerTrimRight(s: seq<byte>)
    ensures TrimRight(Lower(s)) == Lower(TrimRight(s))
  {
    if |s| == 0 || !IsSpace(s[|s| - 1]) {
    } else {
      assert Lower(s)[..|s| - 1] == Lower(s[..|s| - 1]);
      LowerTrimRight(s[..|s| - 1]);
    }
  }

  lemma LowerTrim(s: seq<byte>)
    ensures Trim(Lower(s)) == Lower(Trim(s))
  {
    LowerSkip(s);
    LowerTrimRight(SkipSpace(s));
  }

  /** The program lowers and trims the key, and then trims and lowers it once more. */
  lemma NormTwice(s: seq<byte>)
    ensures Norm(Trim(Lower(s))) == Norm(s)
  {
    LowerTrim(s);
    LowerTrim(Trim(s));
    TrimIdempotent(s);
    LowerIdempotent(Trim(s));
  }

  /** The same texts but for the case of letters and the white space around them. */
  ghost predicate AlikeTrimmed(s: seq<byte>, t: seq<byte>) { Recased(Trim(s), Trim(t)) }

  lemma LowerExactly(s: seq<byte>, t: seq<byte>)
    ensures Lower(s) == Lower(t) <==> Recased(s, t)
  {
    if |s| == |t| {
      forall i | 0 <= i < |s| ensures Lower(s)[i] == Lower(t)[i] <==> SameLetter(s[i], t[i]) {
        LowerForgetsCase(s[i], t[i]);
      }
    }
    assert |Lower(s)| == |s| && |Lower(t)| == |t|;
  }

  /** Normal forms are equal exactly for texts that differ in case and outer white space only. */
  lemma NormExactly(s: seq<byte>, t: seq<byte>)
    ensures Norm(s) == Norm(t) <==> AlikeTrimmed(s, t)
  {
    LowerExactly(Trim(s), Trim(t));
  }

  lemma RecasedNorm(s: seq<byte>, t: seq<byte>)
    requires Recased(s, t)
    ensures Norm(s) == Norm(t)
  {
    LowerExactly(s, t);
    LowerTrim(s);
    LowerTrim(t);
  }

  // ----- the two functions in place -----

  method ToLowerCase(s: array<byte>)
    requires NUL in s[..]
    modifies s
    ensures NUL in s[..] && CStr(s[..]) == Lower(old(CStr(s[..])))
  {
    ghost var n := StrLen(s[..]);
    var i := 0;
    while s[i] != NUL
      invariant 0 <= i <= n < s.Length && old(s[n]) == NUL
      invariant forall j :: 0 <= j < i ==> s[j] == ToLower(old(s[j]))
      invariant forall j :: i <= j < s.Length ==> s[j] == old(s[j])
      decreases n - i
    {
      s[i] := ToLower(s[i]);
      i := i + 1;
    }
    assert s[..][n] == NUL;
    StrLenUnique(s[..], n);
  }

  /** `trim`: the string is moved over its leading white space, and NULs are written over the trailing one. */
  method TrimInPlace(str: array<byte>)
    requires NUL in str[..]
    modifies str
    ensures NUL in str[..] && CStr(str[..]) == Trim(old(CStr(str[..])))
  {
    ghost var s := CStr(str[..]);
    var p := 0;
    assert s[0..] == s;
    while IsSpace(str[p])
      invariant 0 <= p <= |s| && SkipSpace(s) == SkipSpace(s[p..])
      decreases |s| - p
    {
      assert str[p] == s[p] && s[p..][1..] == s[p + 1..];
      p := p + 1;
    }
    assert p < |s| ==> s[p..][0] == str[p];
    ghost var t := s[p..];
    assert SkipSpace(s) == t;
    if p != 0 {
      forall j | 0 <= j <= StrLen(str[..]) - p { str[j] := str[p + j]; }
    }
    assert forall j :: 0 <= j < |t| ==> str[j] == t[j];
    StrLenUnique(str[..], |t|);
    TrimTail(str, t);
  }

  lemma TrimStep(t: seq<byte>, n: nat)
    requires 0 < n <= |t| && IsSpace(t[n - 1])
    ensures TrimRight(t[..n]) == TrimRight(t[..n - 1])
  {
    assert t[..n][..n - 1] == t[..n - 1];
  }

  method TrimTail(str: array<byte>, ghost t: seq<byte>)
    requires NUL in str[..] && CStr(str[..]) == t
    modifies str
    ensures NUL in str[..] && CStr(str[..]) == TrimRight(t)
  {
    var n := StrLen(str[..]);
    assert t[..n] == t;
    while n > 0 && IsSpace(str[n - 1])
      invariant 0 <= n <= |t| < str.Length && str[n] == NUL
      invariant forall j :: 0 <= j < n ==> str[j] == t[j]
      invariant TrimRight(t) == TrimRight(t[..n])
    {
      TrimStep(t, n);
      n := n - 1;
      str[n] := NUL;
    }
    assert str[..][n] == NUL && str[..n] == t[..n];
    StrLenUnique(str[..], n);
  }

  // ----- the file of words -----

  /** The word that one read of the file stands for. */
  function WordOf(chunk: seq<byte>): seq<byte> { Norm(Line(CStr(chunk))) }

  /** The words of the successive reads of `fgets` with a buffer of 1024 bytes. */
  function Words(file: seq<byte>): seq<seq<byte>> {
    if |file| == 0 then [] else
      var n := LineEnd(file, 0, BUFFER_SIZE - 1);
      [WordOf(file[..n])] + Words(file[n..])
  }

  ghost predicate Listed(file: seq<byte>, word: seq<byte>) { Norm(word) in Words(file) }

  /** A read that stops at a newline starts the next read after it, whatever came before. */
  lemma {:induction false} WordsAfterNewline(a: seq<byte>, b: seq<byte>)
    requires |a| > 0 ==> a[|a| - 1] == NEWLINE
    ensures Words(a + b) == Words(a) + Words(b)
    decreases |a|
  {
    if |a| == 0 {
      assert a + b == b;
    } else {
      var n := LineEnd(a, 0, BUFFER_SIZE - 1);
      SameLineEnd(a, b, 0);
      assert (a + b)[..n] == a[..n] && (a + b)[n..] == a[n..] + b;
      WordsAfterNewline(a[n..], b);
      Regroup([WordOf(a[..n])], Words(a[n..]), Words(b));
    }
  }

  lemma {:induction false} SameLineEnd(a: seq<byte>, b: seq<byte>, n: nat)
    requires n < |a| && a[|a| - 1] == NEWLINE && n <= BUFFER_SIZE - 1
    ensures LineEnd(a + b, n, BUFFER_SIZE - 1) == LineEnd(a, n, BUFFER_SIZE - 1)
    decreases |a| - n
  {
    if n >= BUFFER_SIZE - 1 || a[n] == NEWLINE {
    } else {
      SameLineEnd(a, b, n + 1);
    }
  }

  /** The chunk that starts a file is its first line, when that fits the buffer. */
  lemma FirstChunk(line: seq<byte>, after: seq<byte>)
    requires NEWLINE !in line && NUL !in line && |line| <= 1022
    requires if after == [] then line != [] else after[0] == NEWLINE
    ensures |Words(line + after)| > 0 && Words(line + after)[0] == Norm(line)
  {
    var file := line + after;
    LineBefore(line, after);
    CStrWhole(line);
    FirstRead(file);
    FirstWord(file, LineEnd(file, 0, BUFFER_SIZE - 1));
  }

  /** A word that stands on a line of the file is listed, whatever lines are before and after it. */
  lemma LineIsListed(before: seq<byte>, line: seq<byte>, after: seq<byte>, word: seq<byte>)
    requires |before| > 0 ==> before[|before| - 1] == NEWLINE
    requires NEWLINE !in line && NUL !in line && |line| <= 1022
    requires if after == [] then line != [] else after[0] == NEWLINE
    requires AlikeTrimmed(line, word)
    ensures Listed(before + (line + after), word)
  {
    WordsAfterNewline(before, line + after);
    FirstChunk(line, after);
    NormExactly(line, word);
    assert Words(before + (line + after))[|Words(before)|] == Words(line + after)[0];
  }

  /** The lines of a file, without their newlines. */
  function Lines(file: seq<byte>): seq<seq<byte>> {
    if |file| == 0 then [] else
      var n := |Line(file)|;
      [Line(file)] + (if n < |file| then Lines(file[n + 1..]) else [])
  }

  /** Some line of the file, as a C string, is the word up to case and outer white space. */
  ghost predicate OnLine(file: seq<byte>, word: seq<byte>) {
    exists i :: 0 <= i < |Lines(file)| && AlikeTrimmed(CStr(Lines(file)[i]), word)
  }

  ghost predicate LinesFit(file: seq<byte>) {
    forall i :: 0 <= i < |Lines(file)| ==> |Lines(file)[i]| <= 1022
  }

  ghost predicate Stands(file: seq<byte>, before: seq<byte>, line: seq<byte>, after: seq<byte>) {
    && file == before + (line + after) && NEWLINE !in line
    && (|before| > 0 ==> before[|before| - 1] == NEWLINE) && (|after| > 0 ==> after[0] == NEWLINE)
  }

  lemma StandsLater(file: seq<byte>, k: nat, before: seq<byte>, line: seq<byte>, after: seq<byte>)
    requires 0 < k <= |file| && file[k - 1] == NEWLINE && Stands(file[k..], before, line, after)
    ensures Stands(file, file[..k] + before, line, after)
  {
    assert file == file[..k] + file[k..];
    Regroup(file[..k], before, line + after);
    assert before == [] ==> file[..k] + before == file[..k];
  }

  lemma FirstStands(file: seq<byte>)
    ensures var n := |Line(file)|;
            n <= |file| && Stands(file, [], Line(file), file[n..]) && (n < |file| ==> file[n] == NEWLINE)
  {
    LineShape(file);
  }

  lemma LinesLater(file: seq<byte>, i: nat)
    requires 0 < i < |Lines(file)|
    ensures var n := |Line(file)|;
            && n < |file| && file[n] == NEWLINE && i - 1 < |Lines(file[n + 1..])|
            && Lines(file)[i] == Lines(file[n + 1..])[i - 1]
  {
    LineShape(file);
  }

  /** Every line stands in the file between two line boundaries. */
  lemma {:induction false} LineStands(file: seq<byte>, i: nat) returns (before: seq<byte>, after: seq<byte>)
    requires i < |Lines(file)|
    ensures Stands(file, before, Lines(file)[i], after)
    decreases |file|
  {
    var n := |Line(file)|;
    if i == 0 {
      FirstStands(file);
      before, after := [], file[n..];
    } else {
      LinesLater(file, i);
      before, after := LineStands(file[n + 1..], i - 1);
      StandsLater(file, n + 1, before, Lines(file)[i], after);
      before := file[..n + 1] + before;
    }
  }

  /** The first read of a file whose first line fits takes that line. */
  lemma FirstRead(file: seq<byte>)
    requires |file| > 0 && |Line(file)| <= BUFFER_SIZE - 2
    ensures var n := |Line(file)|;
            LineEnd(file, 0, BUFFER_SIZE - 1) == (if n < |file| then n + 1 else n)
  {
    var n := |Line(file)|;
    LineShape(file);
    assert forall i :: 0 <= i < n ==> file[i] == Line(file)[i];
    if n < |file| {
      LineEndAt(file, 0, n, BUFFER_SIZE - 1);
    } else {
      LineEndOpen(file, 0, |file|, BUFFER_SIZE - 1);
    }
  }

  lemma ReadWord(line: seq<byte>, rest: seq<byte>)
    requires NEWLINE !in line && (rest == [] || rest == [NEWLINE])
    ensures Line(CStr(line + rest)) == CStr(line)
  {
    var s, n := line + rest, StrLen(line);
    if n < |line| {
      StrLenUnique(s, n);
      assert s[..n] == line[..n] + [];
      LineBefore(line[..n], []);
    } else {
      CStrWhole(s);
      LineBefore(line, rest);
      assert line[..n] == line;
    }
  }

  lemma LinesFitTail(file: seq<byte>)
    requires LinesFit(file) && |Line(file)| < |file|
    ensures LinesFit(file[|Line(file)| + 1..])
  {
    var rest := file[|Line(file)| + 1..];
    assert forall i :: 0 <= i < |Lines(rest)| ==> Lines(rest)[i] == Lines(file)[i + 1];
  }

  /** Two lists agree when the one holds the normal forms of the other. */
  ghost predicate NormsOf(words: seq<seq<byte>>, lines: seq<seq<byte>>) {
    |words| == |lines| && forall i :: 0 <= i < |lines| ==> words[i] == Norm(CStr(lines[i]))
  }

  lemma NormsCons(word: seq<byte>, words: seq<seq<byte>>, line: seq<byte>, lines: seq<seq<byte>>)
    requires word == Norm(CStr(line)) && NormsOf(words, lines)
    ensures NormsOf([word] + words, [line] + lines)
  {
  }

  /** When every line fits the buffer, the reads are the lines, one for one. */
  lemma {:induction false} ReadsAreLines(file: seq<byte>)
    requires LinesFit(file)
    ensures NormsOf(Words(file), Lines(file))
    decreases |file|
  {
    if |file| == 0 {
    } else {
      var n := |Line(file)|;
      var end := LineEnd(file, 0, BUFFER_SIZE - 1);
      assert Lines(file)[0] == Line(file);
      FirstRead(file);
      FirstWord(file, end);
      if n < |file| {
        LinesFitTail(file);
        ReadsAreLines(file[n + 1..]);
        NormsCons(WordOf(file[..end]), Words(file[end..]), Line(file), Lines(file[n + 1..]));
      } else {
        NormsCons(WordOf(file[..end]), [], Line(file), []);
      }
    }
  }

  lemma FirstWord(file: seq<byte>, end: nat)
    requires end == |Line(file)| + (if |Line(file)| < |file| then 1 else 0)
    ensures end <= |file| && WordOf(file[..end]) == Norm(CStr(Line(file)))
  {
    var line, rest := Line(file), if |Line(file)| < |file| then [NEWLINE] else [];
    LineShape(file);
    assert file[..end] == line + rest;
    ReadWord(line, rest);
  }

  /** A word is found by the reads exactly when it stands on a line, in a file whose lines fit the buffer. */
  lemma ListedOnLine(file: seq<byte>, word: seq<byte>)
    requires LinesFit(file)
    ensures Listed(file, word) <==> OnLine(file, word)
  {
    ReadsAreLines(file);
    forall i | 0 <= i < |Lines(file)|
      ensures Words(file)[i] == Norm(word) <==> AlikeTrimmed(CStr(Lines(file)[i]), word)
    {
      NormExactly(CStr(Lines(file)[i]), word);
    }
  }

  /** A longer line is read in pieces, and what follows a full buffer is taken for a word of its own. */
  lemma LongLinePieces(head: seq<byte>, line: seq<byte>, after: seq<byte>)
    requires |head| == BUFFER_SIZE - 1 && NEWLINE !in head
    requires NEWLINE !in line && NUL !in line && 0 < |line| <= BUFFER_SIZE - 2
    requires after == [] || after[0] == NEWLINE
    ensures !LinesFit(head + (line + after)) && Listed(head + (line + after), line)
  {
    var file, rest := head + (line + after), line + after;
    LineShape(file);
    assert forall i :: 0 <= i < |head| ==> file[i] == head[i];
    LineNotBefore(file, |head|);
    assert Lines(file)[0] == Line(file);
    FullRead(file, 0);
    assert file[..|head|] == head && file[|head|..] == rest;
    FirstChunk(line, after);
    assert Words(file)[1] == Words(rest)[0];
  }

  lemma LineNotBefore(s: seq<byte>, n: nat)
    requires n <= |s| && forall i :: 0 <= i < n ==> s[i] != NEWLINE
    ensures |Line(s)| >= n
  {
    LineShape(s);
  }

  lemma {:induction false} FullRead(s: seq<byte>, n: nat)
    requires n <= BUFFER_SIZE - 1 <= |s| && forall i :: 0 <= i < BUFFER_SIZE - 1 ==> s[i] != NEWLINE
    ensures LineEnd(s, n, BUFFER_SIZE - 1) == BUFFER_SIZE - 1
    decreases BUFFER_SIZE - n
  {
    if n >= BUFFER_SIZE - 1 {
    } else {
      FullRead(s, n + 1);
    }
  }

  // ----- files with lines of any length -----

  /** The lines of a file with their newlines. */
  function Rows(file: seq<byte>): seq<seq<byte>> {
    if |file| == 0 then [] else
      var n := |Line(file)|;
      if n < |file| then [file[..n + 1]] + Rows(file[n + 1..]) else [file]
  }

  /** A line cut every 1023 bytes. */
  function Pieces(row: seq<byte>): seq<seq<byte>> {
    if |row| == 0 then [] else
      var n := Min(|row|, BUFFER_SIZE - 1);
      [row[..n]] + Pieces(row[n..])
  }

  /** Some piece of the line is taken for the word. */
  ghost predicate InPiece(row: seq<byte>, word: seq<byte>) {
    exists k :: 0 <= k < |Pieces(row)| && WordOf(Pieces(row)[k]) == Norm(word)
  }

  ghost predicate OnPiece(file: seq<byte>, word: seq<byte>) {
    exists i :: 0 <= i < |Rows(file)| && InPiece(Rows(file)[i], word)
  }

  /** No newline but at the end. */
  ghost predicate OneRow(row: seq<byte>) { forall j :: 0 <= j < |row| - 1 ==> row[j] != NEWLINE }

  /** Lines, of which all but the last end in their one newline. */
  ghost predicate AreRows(rows: seq<seq<byte>>) {
    && (forall i :: 0 <= i < |rows| ==> |rows[i]| > 0 && OneRow(rows[i]))
    && (forall i :: 0 <= i < |rows| - 1 ==> rows[i][|rows[i]| - 1] == NEWLINE)
  }

  lemma AreRowsCons(row: seq<byte>, rows: seq<seq<byte>>)
    requires AreRows(rows) && |row| > 0 && OneRow(row) && row[|row| - 1] == NEWLINE
    ensures AreRows([row] + rows)
  {
  }

  lemma {:induction false} RowsAreRows(file: seq<byte>)
    ensures AreRows(Rows(file))
    decreases |file|
  {
    if |file| == 0 {
    } else {
      var n := |Line(file)|;
      FirstRow(file);
      if n < |file| {
        RowsAreRows(file[n + 1..]);
        AreRowsCons(file[..n + 1], Rows(file[n + 1..]));
      }
    }
  }

  lemma {:induction false} RowsJoin(file: seq<byte>)
    ensures Join(Rows(file)) == file
    decreases |file|
  {
    if |file| == 0 {
    } else {
      var n := |Line(file)|;
      LineShape(file);
      if n < |file| {
        RowsJoin(file[n + 1..]);
        JoinCons(file[..n + 1], Rows(file[n + 1..]));
        assert file[..n + 1] + file[n + 1..] == file;
      } else {
        JoinCons(file, []);
      }
    }
  }

  /** The lines make up the file. */
  lemma RowsShape(file: seq<byte>)
    ensures AreRows(Rows(file)) && Join(Rows(file)) == file
  {
    RowsAreRows(file);
    RowsJoin(file);
  }

  /** Pieces, of which all but the last fill the buffer. */
  ghost predicate ArePieces(pieces: seq<seq<byte>>) {
    && (forall k :: 0 <= k < |pieces| ==> 0 < |pieces[k]| <= 1023)
    && (forall k :: 0 <= k < |pieces| - 1 ==> |pieces[k]| == 1023)
  }

  lemma ArePiecesCons(piece: seq<byte>, pieces: seq<seq<byte>>)
    requires ArePieces(pieces) && 0 < |piece| <= BUFFER_SIZE - 1
    requires pieces == [] || |piece| == BUFFER_SIZE - 1
    ensures ArePieces([piece] + pieces)
  {
  }

  /** The pieces make up the line. */
  lemma {:induction false} PiecesShape(row: seq<byte>)
    ensures ArePieces(Pieces(row)) && Join(Pieces(row)) == row
    decreases |row|
  {
    if |row| == 0 {
    } else {
      var n := Min(|row|, BUFFER_SIZE - 1);
      PiecesShape(row[n..]);
      ArePiecesCons(row[..n], Pieces(row[n..]));
      JoinCons(row[..n], Pieces(row[n..]));
      assert row[..n] + row[n..] == row;
    }
  }

  lemma FirstPiece(row: seq<byte>)
    requires OneRow(row) && |row| > 0
    ensures LineEnd(row, 0, BUFFER_SIZE - 1) == Min(|row|, BUFFER_SIZE - 1)
  {
    if |row| > BUFFER_SIZE - 1 {
      FullRead(row, 0);
    } else if row[|row| - 1] == NEWLINE {
      LineEndAt(row, 0, |row| - 1, BUFFER_SIZE - 1);
    } else {
      LineEndOpen(row, 0, |row|, BUFFER_SIZE - 1);
    }
  }

  /** The reads of one line are its pieces. */
  lemma {:induction false} ReadsOfRow(row: seq<byte>, word: seq<byte>)
    requires OneRow(row)
    ensures Norm(word) in Words(row) <==> InPiece(row, word)
    decreases |row|
  {
    if |row| == 0 {
    } else {
      FirstPiece(row);
      var n := Min(|row|, BUFFER_SIZE - 1);
      var rest := row[n..];
      ReadsOfRow(rest, word);
      assert Words(row) == [WordOf(row[..n])] + Words(rest);
      PiecesCons(row, n, word);
    }
  }

  lemma PiecesCons(row: seq<byte>, n: nat, word: seq<byte>)
    requires |row| > 0 && n == Min(|row|, BUFFER_SIZE - 1)
    ensures InPiece(row, word) <==> WordOf(row[..n]) == Norm(word) || InPiece(row[n..], word)
  {
    assert Pieces(row) == [row[..n]] + Pieces(row[n..]);
    if InPiece(row[n..], word) {
      var k :| 0 <= k < |Pieces(row[n..])| && WordOf(Pieces(row[n..])[k]) == Norm(word);
      assert Pieces(row)[k + 1] == Pieces(row[n..])[k];
    }
    if WordOf(row[..n]) == Norm(word) {
      assert Pieces(row)[0] == row[..n];
    }
    if InPiece(row, word) {
      var k :| 0 <= k < |Pieces(row)| && WordOf(Pieces(row)[k]) == Norm(word);
      assert k > 0 ==> Pieces(row)[k] == Pieces(row[n..])[k - 1];
    }
  }

  lemma RowsCons(row: seq<byte>, rest: seq<byte>, file: seq<byte>, word: seq<byte>)
    requires Rows(file) == [row] + Rows(rest)
    ensures OnPiece(file, word) <==> InPiece(row, word) || OnPiece(rest, word)
  {
    if OnPiece(rest, word) {
      var i :| 0 <= i < |Rows(rest)| && InPiece(Rows(rest)[i], word);
      assert Rows(file)[i + 1] == Rows(rest)[i];
    }
    if InPiece(row, word) {
      assert Rows(file)[0] == row;
    }
    if OnPiece(file, word) {
      var i :| 0 <= i < |Rows(file)| && InPiece(Rows(file)[i], word);
      assert i > 0 ==> Rows(file)[i] == Rows(rest)[i - 1];
    }
  }

  lemma FirstRow(file: seq<byte>)
    requires |file| > 0
    ensures var n := |Line(file)|;
            n <= |file| && (if n < |file| then OneRow(file[..n + 1]) && file[n] == NEWLINE else OneRow(file))
  {
    LineShape(file);
    assert forall j :: 0 <= j < |Line(file)| ==> Line(file)[j] == file[j] && Line(file)[j] in Line(file);
  }

  /** In every file, a word is found exactly when some piece of some line is taken for it. */
  lemma {:induction false} ListedInPieces(file: seq<byte>, word: seq<byte>)
    ensures Listed(file, word) <==> OnPiece(file, word)
    decreases |file|
  {
    if |file| == 0 {
    } else {
      var n := |Line(file)|;
      FirstRow(file);
      if n < |file| {
        var row, rest := file[..n + 1], file[n + 1..];
        assert file == row + rest;
        WordsAfterNewline(row, rest);
        ReadsOfRow(row, word);
        ListedInPieces(rest, word);
        RowsCons(row, rest, file, word);
      } else {
        ReadsOfRow(file, word);
        assert Rows(file) == [file] + Rows([]);
        RowsCons(file, [], file, word);
      }
    }
  }

  /** A copy of a string, trimmed and lowered. */
  method NormalCopy(s: seq<byte>) returns (t: seq<byte>)
    requires NUL !in s
    ensures t == Norm(s)
  {
    var buf := Terminated(s);
    TrimInPlace(buf);
    ToLowerCase(buf);
    t := CStr(buf[..]);
  }

  /** What `strncpy` leaves of a key in the search buffer. */
  function Kept(key: seq<byte>): seq<byte> { Take(key, BUFFER_SIZE - 1) }

  /** `isOnFile`: the search loop with its flag. */
  method IsOnFile(key: seq<byte>, file: seq<byte>) returns (found: bool)
    requires NUL !in key
    ensures found <==> Listed(file, Kept(key))
  {
    var needle := NormalCopy(Kept(key));
    var rest := file;
    ghost var i, words := 0, Words(file);
    found := false;
    assert words[0..] == words;
    while |rest| > 0
      invariant i <= |words| && Words(rest) == words[i..]
      invariant forall j :: 0 <= j < i ==> words[j] != needle
      decreases |rest|
    {
      var n := LineEnd(rest, 0, BUFFER_SIZE - 1);
      ReadStep(rest, words, i);
      NoNul(CStr(rest[..n]));
      var line := NormalCopy(Line(CStr(rest[..n])));
      if line == needle { return true; }
      rest, i := rest[n..], i + 1;
    }
    assert |words[i..]| == 0;
  }

  lemma ReadStep(rest: seq<byte>, words: seq<seq<byte>>, i: nat)
    requires |rest| > 0 && i <= |words| && Words(rest) == words[i..]
    ensures var n := LineEnd(rest, 0, BUFFER_SIZE - 1);
            n > 0 && i < |words| && words[i] == WordOf(rest[..n]) && Words(rest[n..]) == words[i + 1..]
  {
    var n := LineEnd(rest, 0, BUFFER_SIZE - 1);
    assert Words(rest)[0] == WordOf(rest[..n]) && Words(rest)[1..] == Words(rest[n..]);
  }

  lemma NoNul(s: seq<byte>)
    requires NUL !in s
    ensures NUL !in Line(s)
  {
    LinePart(s);
  }

  /** A buffer that holds a string. */
  method Terminated(s: seq<byte>) returns (buf: array<byte>)
    requires NUL !in s
    ensures fresh(buf) && NUL in buf[..] && CStr(buf[..]) == s
  {
    buf := new byte[|s| + 1](i => if 0 <= i < |s| then s[i] else NUL);
    assert buf[..] == s + [NUL] + [];
    CStrTerminated(s, []);
    assert buf[..][|s|] == NUL;
  }

  // ----- the request -----

  datatype Request = Request(key: seq<byte>, shift: int32) | Unreadable

  /** `%1023s`: the longest run of other bytes than white space, up to the limit. */
  function Word(s: seq<byte>, limit: nat): (w: seq<byte>)
    ensures w <= s && |w| <= limit
    ensures forall i :: 0 <= i < |w| ==> !IsSpace(w[i])
  {
    if limit == 0 || |s| == 0 || IsSpace(s[0]) then [] else [s[0]] + Word(s[1..], limit - 1)
  }

  /** `sscanf(buffer, "%1023s %d", …) == 2` */
  function ParseRequest(s: seq<byte>): Request {
    var t := SkipSpace(s);
    var w := Word(t, BUFFER_SIZE - 1);
    var n := ScanInt(t[|w|..]);
    if w != [] && n.Match? then Request(w, Narrow(n.value)) else Unreadable
  }

  /** White space, a key without any of at most 1023 bytes that ends there, and a number. */
  ghost predicate RequestText(s: seq<byte>, front: seq<byte>, key: seq<byte>, w: seq<byte>, v: int, rest: seq<byte>) {
    && s == front + (key + (w + rest))
    && AllSpace(front) && 0 < |key| <= 1023 && NoSpace(key)
    && Spells(w, v) && Stops(rest)
    && (|key| == 1023 || IsSpace(w[0]))
  }

  ghost predicate NoSpace(s: seq<byte>) { forall i :: 0 <= i < |s| ==> !IsSpace(s[i]) }

  lemma {:induction false} WordTaken(key: seq<byte>, tail: seq<byte>, limit: nat)
    requires NoSpace(key) && |key| <= limit && (|key| == limit || tail == [] || IsSpace(tail[0]))
    ensures Word(key + tail, limit) == key
  {
    if |key| == 0 {
      assert key + tail == tail;
    } else {
      assert (key + tail)[1..] == key[1..] + tail;
      WordTaken(key[1..], tail, limit - 1);
    }
  }

  lemma {:induction false} WordStops(s: seq<byte>, limit: nat)
    ensures var n := |Word(s, limit)|;
            n <= |s| && s == Word(s, limit) + s[n..] && (n == limit || n == |s| || IsSpace(s[n]))
  {
    if limit == 0 || |s| == 0 || IsSpace(s[0]) {
    } else {
      WordStops(s[1..], limit - 1);
    }
  }

  lemma ParseText(s: seq<byte>, front: seq<byte>, key: seq<byte>, w: seq<byte>, v: int, rest: seq<byte>)
    requires RequestText(s, front, key, w, v, rest)
    ensures ParseRequest(s) == Request(key, Narrow(v))
  {
    var tail := w + rest;
    SkipFront(front, key + tail);
    WordTaken(key, tail, BUFFER_SIZE - 1);
    assert (key + tail)[|key|..] == tail;
    ScanBegun(tail, w, v, rest);
  }

  lemma TextFound(s: seq<byte>) returns (front: seq<byte>, key: seq<byte>, w: seq<byte>, v: int, rest: seq<byte>)
    requires ParseRequest(s).Request?
    ensures RequestText(s, front, key, w, v, rest)
  {
    front := SkipSpaceSplit(s);
    var t := SkipSpace(s);
    key := Word(t, BUFFER_SIZE - 1);
    WordStops(t, BUFFER_SIZE - 1);
    var tail := t[|key|..];
    w := ScanFinds(tail);
    v, rest := ScanInt(tail).value, ScanInt(tail).rest;
    assert tail[0] == w[0];
  }

  /** A request is understood exactly when it has a key and a number, and then as these. */
  lemma RequestExactly(s: seq<byte>)
    ensures ParseRequest(s).Unreadable? <==>
            !exists front: seq<byte>, key: seq<byte>, w: seq<byte>, v: int, rest: seq<byte> ::
              RequestText(s, front, key, w, v, rest)
    ensures forall front: seq<byte>, key: seq<byte>, w: seq<byte>, v: int, rest: seq<byte> ::
              RequestText(s, front, key, w, v, rest) ==> ParseRequest(s) == Request(key, Narrow(v))
  {
    forall front: seq<byte>, key: seq<byte>, w: seq<byte>, v: int, rest: seq<byte>
      | RequestText(s, front, key, w, v, rest)
      ensures ParseRequest(s) == Request(key, Narrow(v))
    {
      ParseText(s, front, key, w, v, rest);
    }
    if ParseRequest(s).Request? {
      var front, key, w, v, rest := TextFound(s);
    }
  }

  ghost predicate GrantedRequest(r: Request, file: seq<byte>) {
    r.Request? && Listed(file, Cipher(r.key, 0 - r.shift))
  }

  /** A request is granted when the decrypted key is listed. */
  ghost predicate Granted(buffer: seq<byte>, file: seq<byte>) {
    GrantedRequest(ParseRequest(CStr(buffer)), file)
  }

  lemma {:induction false} WordPart(s: seq<byte>, limit: nat)
    ensures forall x :: x in Word(s, limit) ==> x in s
  {
    assert forall i :: 0 <= i < |Word(s, limit)| ==> Word(s, limit)[i] == s[i];
  }

  /** The decision of `main` on what `recv` put into the buffer. */
  method Decide(buffer: seq<byte>, file: seq<byte>) returns (granted: bool)
    requires |buffer| <= 1023
    ensures granted <==> Granted(buffer, file)
  {
    var r := ParseRequest(CStr(buffer));
    if r.Unreadable? { return false; }
    KeyHasNoNul(CStr(buffer));
    granted := DecideRequest(r, file);
  }

  method DecideRequest(r: Request, file: seq<byte>) returns (granted: bool)
    requires r.Request? && NUL !in r.key && |r.key| <= BUFFER_SIZE - 1
    ensures granted <==> GrantedRequest(r, file)
  {
    var key := Terminated(r.key);
    DecryptKey(key, r.key, r.shift);
    granted := DecideKey(key, file, Cipher(r.key, 0 - r.shift));
  }

  /** The decrypted key is lowered and trimmed before it is looked up. */
  method DecideKey(key: array<byte>, file: seq<byte>, ghost word: seq<byte>) returns (granted: bool)
    requires NUL in key[..] && CStr(key[..]) == word && |word| <= BUFFER_SIZE - 1
    modifies key
    ensures granted <==> Listed(file, word)
  {
    ToLowerCase(key);
    TrimInPlace(key);
    NormTwice(word);
    SkipSpaceShorter(Lower(word));
    granted := IsOnFile(CStr(key[..]), file);
  }

  lemma SkipSpaceShorter(s: seq<byte>)
    ensures |Trim(s)| <= |s|
  {
  }

  lemma KeyHasNoNul(s: seq<byte>)
    requires NUL !in s && ParseRequest(s).Request?
    ensures NUL !in ParseRequest(s).key && |ParseRequest(s).key| <= BUFFER_SIZE - 1
  {
    SkipSpaceRest(s);
    WordPart(SkipSpace(s), BUFFER_SIZE - 1);
  }

  /** Decrypting in place decrypts the string. */
  method DecryptKey(key: array<byte>, ghost word: seq<byte>, shift: int32)
    requires NUL in key[..] && CStr(key[..]) == word
    modifies key
    ensures NUL in key[..] && CStr(key[..]) == Cipher(word, 0 - shift)
  {
    ghost var before, n := key[..], StrLen(key[..]);
    DecryptString(key, shift);
    CipherKeepsClass(word, 0 - shift);
    assert key[..][n] == before[n..][0];
    StrLenUnique(key[..], n);
    assert key[..n] == Cipher(word, 0 - shift);
  }

  // ----- the server as a whole -----

  /** A word that `%s` can read: not empty, without white space. */
  ghost predicate IsWord(w: seq<byte>) {
    |w| > 0 && NUL !in w && forall i :: 0 <= i < |w| ==> !IsSpace(w[i])
  }

  lemma {:induction false} WordCut(w: seq<byte>, limit: nat)
    requires forall i :: 0 <= i < |w| ==> !IsSpace(w[i])
    ensures Word(w, limit) == Take(w, limit)
  {
    if limit == 0 || |w| == 0 {
    } else {
      WordCut(w[1..], limit - 1);
      assert |w| > limit ==> w[..limit] == [w[0]] + w[1..][..limit - 1];
    }
  }

  // A request as it is written, as much of it as `recv` takes, and the part of the shift in that.

  function Written(key: seq<byte>, shift: int32): seq<byte> { key + ([SPACE] + Dec(shift)) }

  function Received(request: seq<byte>): seq<byte> { Take(request, BUFFER_SIZE - 1) }

  function SentShift(length: nat, shift: int32): seq<byte> {
    if length >= BUFFER_SIZE - 2 then [] else Take(Dec(shift), BUFFER_SIZE - 2 - length)
  }

  /** What the server reads from a key and the part of a shift. */
  function ReadAs(key: seq<byte>, sent: seq<byte>): Request {
    match ScanInt(sent)
    case NoMatch => Unreadable
    case Match(v, _) => Request(key, Narrow(v))
  }

  lemma ParseParts(key: seq<byte>, sent: seq<byte>)
    requires 0 < |key| <= BUFFER_SIZE - 1 && forall i :: 0 <= i < |key| ==> !IsSpace(key[i])
    ensures ParseRequest(key + ([SPACE] + sent)) == ReadAs(key, sent)
  {
    var tail := [SPACE] + sent;
    var s := key + tail;
    assert SkipSpace(s) == s;
    WordTaken(key, tail, BUFFER_SIZE - 1);
    assert s[|key|..] == tail && tail[1..] == sent;
    assert SkipSpace(tail) == SkipSpace(sent);
  }

  lemma ParseBareKey(key: seq<byte>)
    requires |key| > 0 && forall i :: 0 <= i < |key| ==> !IsSpace(key[i])
    ensures |key| <= BUFFER_SIZE - 1 ==> ParseRequest(key).Unreadable?
  {
    assert SkipSpace(key) == key;
    WordCut(key, BUFFER_SIZE - 1);
  }

  /** From a written request the server reads the key and the part of the shift that it received, which may be none. */
  lemma RequestReceived(key: seq<byte>, shift: int32)
    requires |key| > 0 && forall i :: 0 <= i < |key| ==> !IsSpace(key[i])
    ensures ParseRequest(Received(Written(key, shift))) == ReadAs(key, SentShift(|key|, shift))
  {
    var request, sent := Written(key, shift), SentShift(|key|, shift);
    if |key| <= BUFFER_SIZE - 2 {
      assert Received(request) == key + ([SPACE] + sent);
      ParseParts(key, sent);
    } else {
      assert Received(request) == key[..BUFFER_SIZE - 1];
      ParseBareKey(key[..BUFFER_SIZE - 1]);
      assert ScanInt([]).NoMatch?;
    }
  }

  /** A request that fits the buffer is read back as it was written. */
  lemma RequestRoundTrip(key: seq<byte>, shift: int32)
    requires |key| > 0 && forall i :: 0 <= i < |key| ==> !IsSpace(key[i])
    requires |key| + 1 + |Dec(shift)| <= 1023
    ensures ParseRequest(Received(Written(key, shift))) == Request(key, shift)
  {
    RequestReceived(key, shift);
    WholeShift(|key|, shift);
  }

  /** A number was read from the shift, and taking it off again leaves a listed word. */
  ghost predicate OpensWith(word: seq<byte>, shift: int32, n: Scan, file: seq<byte>) {
    n.Match? && Listed(file, Cipher(word, shift - Narrow(n.value)))
  }

  /** What the server makes of an encrypted word and the part of the shift it received. */
  lemma DecryptedAs(word: seq<byte>, shift: int32, sent: seq<byte>, file: seq<byte>)
    ensures GrantedRequest(ReadAs(Cipher(word, shift), sent), file) <==> OpensWith(word, shift, ScanInt(sent), file)
  {
    var n := ScanInt(sent);
    if n.Match? {
      CipherCompose(word, shift, 0 - Narrow(n.value));
    }
  }

  lemma GrantedReceived(key: seq<byte>, shift: int32, file: seq<byte>)
    requires IsWord(key)
    ensures Granted(Received(Written(key, shift)), file) <==>
            GrantedRequest(ReadAs(key, SentShift(|key|, shift)), file)
  {
    RequestReceived(key, shift);
    ReceivedString(key, shift);
    GrantedAs(Received(Written(key, shift)), file);
  }

  /**
   Encrypting a word with any shift and sending both, a word of any length: what the
   server receives is granted exactly when a number can be read from the received
   part of the shift and decrypting with it gives a listed word.
   */
  lemma EncryptedWordCut(word: seq<byte>, shift: int32, file: seq<byte>)
    requires IsWord(word)
    ensures Granted(Received(Written(Cipher(word, shift), shift)), file) <==>
            OpensWith(word, shift, ScanInt(SentShift(|word|, shift)), file)
  {
    EncryptedKey(word, shift);
    GrantedReceived(Cipher(word, shift), shift, file);
    DecryptedAs(word, shift, SentShift(|word|, shift), file);
  }

  lemma WholeShift(length: nat, shift: int32)
    requires length + 1 + |Dec(shift)| <= BUFFER_SIZE - 1
    ensures ScanInt(SentShift(length, shift)) == Match(shift, []) && Narrow(shift) == shift
  {
    assert SentShift(length, shift) == Dec(shift) + [];
    ScanIntOfDec(shift, []);
    NarrowExact(shift);
  }

  /** When the request fits the buffer, it is granted exactly when the word is listed. */
  lemma EncryptedWord(word: seq<byte>, shift: int32, file: seq<byte>)
    requires IsWord(word)
    requires |word| + 1 + |Dec(shift)| <= 1023
    ensures Granted(Received(Written(Cipher(word, shift), shift)), file) <==> Listed(file, word)
  {
    EncryptedWordCut(word, shift, file);
    WholeShift(|word|, shift);
    ReadWhole(ScanInt(SentShift(|word|, shift)), word, shift, file);
  }

  lemma ReadWhole(n: Scan, word: seq<byte>, shift: int32, file: seq<byte>)
    requires n == Match(shift, []) && Narrow(shift) == shift
    ensures OpensWith(word, shift, n, file) <==> Listed(file, word)
  {
    CipherZero(word);
  }

  /** A word of 1022 bytes or more never opens the server: no digit of the shift is received. */
  lemma LongWordDenied(word: seq<byte>, shift: int32, file: seq<byte>)
    requires IsWord(word) && |word| >= 1022
    ensures !Granted(Received(Written(Cipher(word, shift), shift)), file)
  {
    EncryptedWordCut(word, shift, file);
    assert ScanInt([]).NoMatch?;
  }

  /** In any file, a request that fits is granted exactly when some piece of a line is taken for the word. */
  lemma PieceOpens(word: seq<byte>, shift: int32, file: seq<byte>)
    requires IsWord(word)
    requires |word| + 1 + |Dec(shift)| <= 1023
    ensures Granted(Received(Written(Cipher(word, shift), shift)), file) <==> OnPiece(file, word)
  {
    EncryptedWord(word, shift, file);
    ListedInPieces(file, word);
  }

  /**
   In a file whose lines fit the buffer, a request that fits is granted exactly when
   the word stands on a line, in any case and with any white space around it.
   */
  lemma WordOpens(word: seq<byte>, shift: int32, file: seq<byte>)
    requires IsWord(word)
    requires |word| + 1 + |Dec(shift)| <= 1023 && LinesFit(file)
    ensures Granted(Received(Written(Cipher(word, shift), shift)), file) <==> OnLine(file, word)
  {
    EncryptedWord(word, shift, file);
    ListedOnLine(file, word);
  }

  /** A word on one line that fits opens the server, whatever the other lines are. */
  lemma ListedWordOpens(before: seq<byte>, line: seq<byte>, after: seq<byte>, word: seq<byte>, shift: int32)
    requires |before| > 0 ==> before[|before| - 1] == NEWLINE
    requires NEWLINE !in line && NUL !in line && |line| <= 1022
    requires if after == [] then line != [] else after[0] == NEWLINE
    requires IsWord(word)
    requires |word| + 1 + |Dec(shift)| <= 1023 && AlikeTrimmed(line, word)
    ensures Granted(Received(Written(Cipher(word, shift), shift)), before + (line + after))
  {
    LineIsListed(before, line, after, word);
    EncryptedWord(word, shift, before + (line + after));
  }

  /** A word and the same word in other cases are granted alike. */
  lemma RecasedWordOpens(word: seq<byte>, other: seq<byte>, shift: int32, file: seq<byte>)
    requires IsWord(word) && Recased(word, other)
    requires |word| + 1 + |Dec(shift)| <= 1023
    ensures Granted(Received(Written(Cipher(word, shift), shift)), file) <==>
            Granted(Received(Written(Cipher(other, shift), shift)), file)
  {
    RecasedWord(word, other);
    RecasedNorm(word, other);
    EncryptedWord(word, shift, file);
    EncryptedWord(other, shift, file);
  }

  lemma RecasedWord(word: seq<byte>, other: seq<byte>)
    requires IsWord(word) && Recased(word, other)
    ensures IsWord(other)
  {
    forall i | 0 <= i < |other| ensures !IsSpace(other[i]) && other[i] != NUL {
      assert SameLetter(word[i], other[i]) && !IsSpace(word[i]) && word[i] in word;
    }
  }

  lemma ReceivedString(key: seq<byte>, shift: int32)
    requires NUL !in key
    ensures NUL !in Received(Written(key, shift))
  {
  }

  lemma EncryptedKey(word: seq<byte>, shift: int)
    requires IsWord(word)
    ensures IsWord(Cipher(word, shift)) && |Cipher(word, shift)| == |word|
  {
    CipherKeepsClass(word, shift);
  }

  lemma GrantedAs(buffer: seq<byte>, file: seq<byte>)
    requires NUL !in buffer
    ensures Granted(buffer, file) <==> GrantedRequest(ParseRequest(buffer), file)
  {
    CStrWhole(buffer);
  }
}
