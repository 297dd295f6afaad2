/**
 The hangman game of P2/CCMS: the loop over guesses with its board, its table of
 used letters and its two counters, against a reading of the rules that looks
 only at which letters have been named so far.
 */
module Hangman {
  import opened CText

  const TRIES := 6
  const BLANK: byte := 95      // '_'
  const CAPACITY := 49         // the board's buffer without its terminator

  datatype Verdict = Won | Lost | Unfinished

  type Secret = s: seq<byte> | |s| <= CAPACITY && forall i :: 0 <= i < |s| ==> IsLower(s[i])

  // ----- the rules -----

  ghost function Letters(secret: seq<byte>): set<byte> { set c | c in secret }

  /**
   The letters named by a sequence of lines, of which only the first character
   counts. What is called a line here is one read, which takes at most nine bytes.
   */
  ghost function Named(inputs: seq<byte>): set<byte> {
    if |inputs| == 0 then {} else
      var before, c := Named(inputs[..|inputs| - 1]), ToLower(inputs[|inputs| - 1]);
      if IsLower(c) then before + {c} else before
  }

  ghost predicate Guessed(secret: seq<byte>, named: set<byte>) { Letters(secret) <= named }

  ghost function Wrong(secret: seq<byte>, named: set<byte>): nat { |named - Letters(secret)| }

  ghost predicate Over(secret: seq<byte>, named: set<byte>) {
    Guessed(secret, named) || Wrong(secret, named) >= 6
  }

  /** All letters of the secret come up before the sixth wrong letter. */
  ghost predicate Wins(secret: seq<byte>, inputs: seq<byte>) {
    exists k :: 0 <= k <= |inputs| && Guessed(secret, Named(inputs[..k])) && Wrong(secret, Named(inputs[..k])) < 6
  }

  /** The sixth wrong letter comes up while some letter of the secret is missing. */
  ghost predicate Loses(secret: seq<byte>, inputs: seq<byte>) {
    exists k :: 0 <= k <= |inputs| && !Guessed(secret, Named(inputs[..k])) && Wrong(secret, Named(inputs[..k])) >= 6
  }

  // ----- the letters named only grow -----

  lemma {:induction false} NamedGrows(inputs: seq<byte>, j: nat, k: nat)
    requires j <= k <= |inputs|
    ensures Named(inputs[..j]) <= Named(inputs[..k])
    decreases k
  {
    if j >= k {
    } else {
      assert inputs[..k][..k - 1] == inputs[..k - 1];
      NamedGrows(inputs, j, k - 1);
    }
  }

  lemma NamedNext(inputs: seq<byte>, k: nat)
    requires k < |inputs|
    ensures var c := ToLower(inputs[k]);
            Named(inputs[..k + 1]) == Named(inputs[..k]) + (if IsLower(c) then {c} else {})
  {
    assert inputs[..k + 1][..k] == inputs[..k];
  }

  lemma SubsetSize(a: set<byte>, b: set<byte>)
    requires a <= b
    ensures |a| <= |b|
  {
    assert b == a + (b - a);
  }

  lemma WrongGrows(secret: seq<byte>, inputs: seq<byte>, j: nat, k: nat)
    requires j <= k <= |inputs|
    ensures Wrong(secret, Named(inputs[..j])) <= Wrong(secret, Named(inputs[..k]))
    ensures Guessed(secret, Named(inputs[..j])) ==> Guessed(secret, Named(inputs[..k]))
  {
    NamedGrows(inputs, j, k);
    SubsetSize(Named(inputs[..j]) - Letters(secret), Named(inputs[..k]) - Letters(secret));
  }

  /** No game is both won and lost. */
  lemma OneVerdict(secret: seq<byte>, inputs: seq<byte>)
    ensures !(Wins(secret, inputs) && Loses(secret, inputs))
  {
    if Wins(secret, inputs) && Loses(secret, inputs) {
      var k :| 0 <= k <= |inputs| && Guessed(secret, Named(inputs[..k])) && Wrong(secret, Named(inputs[..k])) < 6;
      var m :| 0 <= m <= |inputs| && !Guessed(secret, Named(inputs[..m])) && Wrong(secret, Named(inputs[..m])) >= 6;
      if k <= m { WrongGrows(secret, inputs, k, m); } else { WrongGrows(secret, inputs, m, k); }
      assert false;
    }
  }

  /** A letter has been named exactly when some line starts with it, in either case. */
  lemma {:induction false} NamedExactly(inputs: seq<byte>, c: byte)
    ensures c in Named(inputs) <==> IsLower(c) && exists k :: 0 <= k < |inputs| && SameLetter(inputs[k], c)
  {
    if |inputs| == 0 {
    } else {
      var init, last := inputs[..|inputs| - 1], inputs[|inputs| - 1];
      NamedExactly(init, c);
      LowerForgetsCase(last, c);
      if k :| 0 <= k < |init| && SameLetter(init[k], c) {
        assert SameLetter(inputs[k], c);
      }
      assert SameLetter(inputs[|inputs| - 1], c) <==> SameLetter(last, c);
      if k :| 0 <= k < |inputs| && SameLetter(inputs[k], c) {
        assert k < |init| ==> SameLetter(init[k], c);
      }
    }
  }

  lemma NamedRecased(a: seq<byte>, b: seq<byte>)
    requires Recased(a, b)
    ensures Named(a) == Named(b)
  {
    forall c: byte ensures c in Named(a) <==> c in Named(b) {
      NamedExactly(a, c);
      NamedExactly(b, c);
      forall k | 0 <= k < |a| ensures SameLetter(a[k], c) <==> SameLetter(b[k], c) {
        assert SameLetter(a[k], b[k]);
      }
    }
  }

  /** Guesses in upper case and in lower case give the same game. */
  lemma RecasedGame(secret: seq<byte>, a: seq<byte>, b: seq<byte>)
    requires Recased(a, b)
    ensures Wins(secret, a) <==> Wins(secret, b)
    ensures Loses(secret, a) <==> Loses(secret, b)
  {
    forall k | 0 <= k <= |a| ensures Named(a[..k]) == Named(b[..k]) {
      RecasedPart(a, b, k);
      NamedRecased(a[..k], b[..k]);
    }
  }

  lemma RecasedPart(a: seq<byte>, b: seq<byte>, k: nat)
    requires Recased(a, b) && k <= |a|
    ensures Recased(a[..k], b[..k])
  {
    forall i | 0 <= i < k ensures SameLetter(a[..k][i], b[..k][i]) {
      assert SameLetter(a[i], b[i]);
    }
  }

  // ----- lines that do not matter -----

  /** The letters named, when a line without effect is put in after `p` lines. */
  lemma {:induction false} NamedIdle(a: seq<byte>, c: byte, b: seq<byte>)
    requires !IsLower(ToLower(c)) || ToLower(c) in Named(a)
    ensures Named(a + [c] + b) == Named(a + b)
    decreases |b|
  {
    if |b| == 0 {
      assert (a + [c] + b)[..|a|] == a && a + b == a;
    } else {
      var init, s, t := b[..|b| - 1], a + [c] + b, a + b;
      assert s[..|s| - 1] == a + [c] + init && t[..|t| - 1] == a + init;
      NamedIdle(a, c, init);
    }
  }

  ghost predicate Reaches(inputs: seq<byte>, named: set<byte>) {
    exists k :: 0 <= k <= |inputs| && Named(inputs[..k]) == named
  }

  lemma ReachesIdle(a: seq<byte>, c: byte, b: seq<byte>, named: set<byte>)
    requires !IsLower(ToLower(c)) || ToLower(c) in Named(a)
    ensures Reaches(a + [c] + b, named) <==> Reaches(a + b, named)
  {
    var s, t := a + [c] + b, a + b;
    if Reaches(s, named) {
      var k :| 0 <= k <= |s| && Named(s[..k]) == named;
      if k <= |a| {
        assert s[..k] == t[..k];
      } else {
        assert s[..k] == a + [c] + b[..k - |a| - 1] && t[..k - 1] == a + b[..k - |a| - 1];
        NamedIdle(a, c, b[..k - |a| - 1]);
      }
    }
    if Reaches(t, named) {
      var k :| 0 <= k <= |t| && Named(t[..k]) == named;
      if k <= |a| {
        assert s[..k] == t[..k];
      } else {
        assert s[..k + 1] == a + [c] + b[..k - |a|] && t[..k] == a + b[..k - |a|];
        NamedIdle(a, c, b[..k - |a|]);
      }
    }
  }

  /** A repeated letter or a line that does not start with one changes no verdict. */
  lemma IdleLine(secret: seq<byte>, a: seq<byte>, c: byte, b: seq<byte>)
    requires !IsLower(ToLower(c)) || ToLower(c) in Named(a)
    ensures Wins(secret, a + [c] + b) <==> Wins(secret, a + b)
    ensures Loses(secret, a + [c] + b) <==> Loses(secret, a + b)
  {
    forall named: set<byte> ensures Reaches(a + [c] + b, named) <==> Reaches(a + b, named) {
      ReachesIdle(a, c, b, named);
    }
    WinsReaches(secret, a + [c] + b);
    WinsReaches(secret, a + b);
  }

  lemma WinsReaches(secret: seq<byte>, inputs: seq<byte>)
    ensures Wins(secret, inputs) <==> exists named: set<byte> ::
      Reaches(inputs, named) && Guessed(secret, named) && Wrong(secret, named) < 6
    ensures Loses(secret, inputs) <==> exists named: set<byte> ::
      Reaches(inputs, named) && !Guessed(secret, named) && Wrong(secret, named) >= 6
  {
    forall k | 0 <= k <= |inputs| ensures Reaches(inputs, Named(inputs[..k])) { }
  }

  // ----- the counters of the program -----

  /** How many places of the secret show a letter. */
  ghost function Shown(secret: seq<byte>, named: set<byte>): nat {
    if |secret| == 0 then 0
    else Shown(secret[..|secret| - 1], named) + (if secret[|secret| - 1] in named then 1 else 0)
  }

  lemma {:induction false} ShownAll(secret: seq<byte>, named: set<byte>)
    ensures Shown(secret, named) <= |secret|
    ensures Shown(secret, named) == |secret| <==> Guessed(secret, named)
  {
    if |secret| == 0 {
    } else {
      var init, c := secret[..|secret| - 1], secret[|secret| - 1];
      ShownAll(init, named);
      assert secret == init + [c];
      assert Letters(secret) == Letters(init) + {c};
    }
  }

  /** What the program keeps about the letters named so far. */
  ghost predicate Board(secret: Secret, named: set<byte>, board: array<byte>, used: array<bool>, tries: int, found: int)
    reads board, used
  {
    && board.Length == |secret| + 1 && board[|secret|] == NUL && used.Length == 26
    && (forall i :: 0 <= i < |secret| ==> board[i] == if secret[i] in named then secret[i] else BLANK)
    && (forall c: byte :: c in named ==> IsLower(c))
    && (forall i :: 0 <= i < 26 ==> (used[i] <==> 97 + i in named))
    && found == Shown(secret, named)
    && tries == TRIES - Wrong(secret, named)
  }

  /** The inner loop: the letter is written wherever the secret has it, and the places are counted. */
  method Reveal(secret: Secret, ghost named: set<byte>, board: array<byte>, letter: byte) returns (places: nat)
    requires board.Length == |secret| + 1 && letter !in named
    requires forall i :: 0 <= i < |secret| ==> board[i] == if secret[i] in named then secret[i] else BLANK
    modifies board
    ensures forall i :: 0 <= i < |secret| ==> board[i] == if secret[i] in named + {letter} then secret[i] else BLANK
    ensures board[|secret|] == old(board[|secret|])
    ensures places > 0 <==> letter in secret
    ensures Shown(secret, named + {letter}) == Shown(secret, named) + places
  {
    ghost var after := named + {letter};
    places := 0;
    for i := 0 to |secret|
      invariant forall j :: 0 <= j < i ==> board[j] == if secret[j] in after then secret[j] else BLANK
      invariant forall j :: i <= j < board.Length ==> board[j] == old(board[j])
      invariant places > 0 <==> letter in secret[..i]
      invariant Shown(secret[..i], after) == Shown(secret[..i], named) + places
    {
      assert secret[..i + 1][..i] == secret[..i];
      if secret[i] == letter {
        board[i] := letter;
        places := places + 1;
      }
    }
    assert secret[..|secret|] == secret;
  }

  lemma WrongAfter(secret: seq<byte>, named: set<byte>, letter: byte)
    requires letter !in named
    ensures Wrong(secret, named + {letter}) == Wrong(secret, named) + (if letter in secret then 0 else 1)
  {
    var wrong := named - Letters(secret);
    if letter in secret {
      assert named + {letter} - Letters(secret) == wrong;
    } else {
      assert named + {letter} - Letters(secret) == wrong + {letter};
    }
  }

  /** The letters named after one more line. */
  ghost function After(named: set<byte>, input: byte): set<byte> {
    if IsLower(ToLower(input)) then named + {ToLower(input)} else named
  }

  /** One line of input: ignored when it starts with no letter or with a used one, and a guess otherwise. */
  method Guess(secret: Secret, ghost named: set<byte>, board: array<byte>, used: array<bool>, tries: int,
               found: int, input: byte)
    returns (tries': int, found': int)
    requires Board(secret, named, board, used, tries, found)
    modifies board, used
    ensures Board(secret, After(named, input), board, used, tries', found')
  {
    tries', found' := tries, found;
    var letter := ToLower(input);
    if letter < 97 || letter > 122 { return; }
    if used[letter - 97] {
      assert 97 + (letter - 97) in named;
      assert named + {letter} == named;
      return;
    }
    assert 97 + (letter - 97) !in named;
    used[letter - 97] := true;
    var places := Reveal(secret, named, board, letter);
    found' := found + places;
    WrongAfter(secret, named, letter);
    if places == 0 { tries' := tries - 1; }
  }

  /**
   A new letter that is wrong, or right, moves one of the two counts by one; so at
   most distinct + 5 letters are accepted.
   */
  lemma AcceptedBound(secret: seq<byte>, named: set<byte>, input: byte)
    requires !Over(secret, named)
    ensures |After(named, input)| <= |Letters(secret)| + 5
  {
    var missing :| missing in Letters(secret) && missing !in named;
    SubsetSize(named * Letters(secret), Letters(secret) - {missing});
    assert named == named * Letters(secret) + (named - Letters(secret));
  }

  /** The hidden board and the empty table of used letters. */
  method Deal(secret: Secret) returns (board: array<byte>, used: array<bool>)
    ensures fresh(board) && fresh(used)
    ensures Board(secret, {}, board, used, TRIES, 0)
  {
    board := new byte[|secret| + 1](i => if 0 <= i < |secret| then BLANK else NUL);
    used := new bool[26](_ => false);
    NoneShown(secret);
    assert {} - Letters(secret) == {};
  }

  /**
   The game on a finite input. It reads lines until it is over, and it is won, or
   lost, exactly when the rules say so; at most as many letters are accepted as the
   secret has distinct ones, plus five.
   */
  method Play(secret: Secret, inputs: seq<byte>) returns (verdict: Verdict, read: nat)
    ensures verdict == Won <==> Wins(secret, inputs)
    ensures verdict == Lost <==> Loses(secret, inputs)
    ensures read <= |inputs| && (verdict == Unfinished ==> read == |inputs|)
    ensures forall k :: 0 <= k < read ==> !Over(secret, Named(inputs[..k]))
    ensures |Named(inputs[..read])| <= |Letters(secret)| + 5
  {
    var board, used := Deal(secret);
    var tries, found := TRIES, 0;
    ghost var named: set<byte> := {};
    read := 0;
    while tries > 0 && found < |secret| && read < |inputs|
      invariant fresh(board) && fresh(used)
      invariant Board(secret, named, board, used, tries, found)
      invariant Played(secret, inputs, read, named)
      decreases |inputs| - read
    {
      Counters(secret, named, tries, found);
      PlayedNext(secret, inputs, read, named);
      tries, found := Guess(secret, named, board, used, tries, found, inputs[read]);
      named := After(named, inputs[read]);
      read := read + 1;
    }
    Stopped(secret, inputs, read, named, tries, found);
    verdict := if found == |secret| then Won else if tries <= 0 then Lost else Unfinished;
  }

  /** The game has read `read` lines and was not over before. */
  ghost predicate Played(secret: seq<byte>, inputs: seq<byte>, read: nat, named: set<byte>) {
    && read <= |inputs| && named == Named(inputs[..read])
    && (forall k :: 0 <= k < read ==> !Over(secret, Named(inputs[..k])))
    && |named| <= |Letters(secret)| + 5
  }

  lemma PlayedNext(secret: seq<byte>, inputs: seq<byte>, read: nat, named: set<byte>)
    requires Played(secret, inputs, read, named) && !Over(secret, named) && read < |inputs|
    ensures Played(secret, inputs, read + 1, After(named, inputs[read]))
  {
    NamedNext(inputs, read);
    AcceptedBound(secret, named, inputs[read]);
  }

  /** The loop's condition on the counters says that the game is not over. */
  lemma Counters(secret: seq<byte>, named: set<byte>, tries: int, found: int)
    requires found == Shown(secret, named) && tries == TRIES - Wrong(secret, named)
    ensures found <= |secret| && (found == |secret| <==> Guessed(secret, named))
    ensures tries > 0 && found < |secret| <==> !Over(secret, named)
  {
    ShownAll(secret, named);
  }

  /** When the loop ends, the counters say which verdict the rules give to the whole input. */
  lemma Stopped(secret: seq<byte>, inputs: seq<byte>, read: nat, named: set<byte>, tries: int, found: int)
    requires Played(secret, inputs, read, named)
    requires found == Shown(secret, named) && tries == TRIES - Wrong(secret, named)
    requires tries <= 0 || found >= |secret| || read == |inputs|
    ensures found <= |secret|
    ensures Wins(secret, inputs) <==> found == |secret|
    ensures Loses(secret, inputs) <==> found != |secret| && tries <= 0
  {
    Counters(secret, named, tries, found);
    Verdicts(secret, inputs, read);
  }

  lemma {:induction false} NoneShown(secret: seq<byte>)
    ensures Shown(secret, {}) == 0
  {
    if |secret| == 0 {
    } else {
      NoneShown(secret[..|secret| - 1]);
    }
  }

  /** The state in which the game stops decides what the rules say of the whole input. */
  lemma Verdicts(secret: seq<byte>, inputs: seq<byte>, read: nat)
    requires read <= |inputs| && (read < |inputs| ==> Over(secret, Named(inputs[..read])))
    requires forall k :: 0 <= k < read ==> !Over(secret, Named(inputs[..k]))
    ensures Wins(secret, inputs) <==> Guessed(secret, Named(inputs[..read]))
    ensures Loses(secret, inputs) <==>
            !Guessed(secret, Named(inputs[..read])) && Wrong(secret, Named(inputs[..read])) >= 6
  {
    var named := Named(inputs[..read]);
    if Guessed(secret, named) {
      if read > 0 { LastGuess(secret, inputs, read - 1); }
      assert Wrong(secret, named) < 6;
      OneVerdict(secret, inputs);
    } else if Wrong(secret, named) >= 6 {
      OneVerdict(secret, inputs);
    } else {
      assert read == |inputs|;
      forall k | 0 <= k <= |inputs| ensures !Over(secret, Named(inputs[..k])) {
        WrongGrows(secret, inputs, k, read);
      }
    }
  }

  /** The guess that completes the secret is not a wrong one. */
  lemma LastGuess(secret: seq<byte>, inputs: seq<byte>, k: nat)
    requires k < |inputs| && !Over(secret, Named(inputs[..k])) && Guessed(secret, Named(inputs[..k + 1]))
    ensures Wrong(secret, Named(inputs[..k + 1])) < 6
  {
    NamedNext(inputs, k);
    var missing :| missing in Letters(secret) && missing !in Named(inputs[..k]);
    assert missing == ToLower(inputs[k]);
    assert Named(inputs[..k + 1]) - Letters(secret) == Named(inputs[..k]) - Letters(secret);
  }
}
