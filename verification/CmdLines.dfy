/** Command lines as those who send them put them together: words, gaps and numbers. */
module CmdLines {
  import opened Common
  import opened CmdParse

  // ---- Words and gaps ----

  predicate IsArg(w: seq<Byte>) {
    w != [] && ' ' !in w && '\r' !in w && '\0' !in w
  }

  predicate IsGap(g: seq<Byte>) {
    forall k :: 0 <= k < |g| ==> g[k] == ' ' || g[k] == '\r'
  }

  /** A word, and the gap behind it. */
  datatype Piece = Piece(word: seq<Byte>, gap: seq<Byte>)

  /** Only the last word may go without a gap behind it. */
  predicate WellSpaced(pieces: seq<Piece>) {
    forall i :: 0 <= i < |pieces| ==>
      IsArg(pieces[i].word) && IsGap(pieces[i].gap) && (pieces[i].gap == [] ==> i == |pieces| - 1)
  }

  function Joined(pieces: seq<Piece>): seq<Byte> {
    if pieces == [] then [] else pieces[0].word + pieces[0].gap + Joined(pieces[1..])
  }

  function WordsOf(pieces: seq<Piece>): (words: seq<seq<Byte>>)
    ensures |words| == |pieces| && forall i :: 0 <= i < |pieces| ==> words[i] == pieces[i].word
  {
    if pieces == [] then [] else [pieces[0].word] + WordsOf(pieces[1..])
  }

  lemma {:induction false} TokensBehindGap(gap: seq<Byte>, s: seq<Byte>)
    requires IsGap(gap)
    ensures Tokens(gap + s) == Tokens(s)
  {
    if gap == [] {
      assert gap + s == s;
    } else {
      assert (gap + s)[1..] == gap[1..] + s;
      TokensBehindDelimiter(gap + s);
      TokensBehindGap(gap[1..], s);
    }
  }

  /** A word with a gap behind it, or with nothing behind it at all, is a token. */
  lemma TokensOfWord(w: seq<Byte>, gap: seq<Byte>, s: seq<Byte>)
    requires IsArg(w) && IsGap(gap) && (gap == [] ==> s == [])
    ensures Tokens(w + gap + s) == [w] + Tokens(s)
  {
    var all := w + gap + s;
    assert forall k :: 0 <= k < |w| ==> all[k] == w[k] && w[k] in w;
    SpanIs(all, false, |w|);
    FirstWord(all);
    assert all[..|w|] == w;
    if gap == [] {
      assert AfterToken(all) == [];
    } else {
      assert AfterToken(all) == gap[1..] + s;
      TokensBehindGap(gap[1..], s);
    }
  }

  /** A line is taken apart into exactly the words it was made of: at blanks and carriage returns, and only there. */
  lemma {:induction false} TokensOfJoined(gap: seq<Byte>, pieces: seq<Piece>)
    requires IsGap(gap) && WellSpaced(pieces)
    ensures Tokens(gap + Joined(pieces)) == WordsOf(pieces)
    decreases |pieces|
  {
    TokensBehindGap(gap, Joined(pieces));
    if pieces != [] {
      var more := pieces[1..];
      assert forall i :: 0 <= i < |more| ==> more[i] == pieces[i + 1];
      TokensOfJoined([], more);
      assert [] + Joined(more) == Joined(more);
      TokensOfWord(pieces[0].word, pieces[0].gap, Joined(more));
    }
  }

  /** Of the words exactly those that start with a line feed are not arguments. */
  lemma {:induction false} KeptExactlyWhen(a: seq<seq<Byte>>, w: seq<Byte>, b: seq<seq<Byte>>)
    requires w != []
    ensures Kept(a + [w] + b) == Kept(a) + (if w[0] == '\n' then [] else [w]) + Kept(b)
  {
    if a == [] {
      assert a + [w] + b == [w] + b;
      KeptOfMore(w, b);
    } else {
      assert a + [w] + b == [a[0]] + (a[1..] + [w] + b);
      KeptOfMore(a[0], a[1..] + [w] + b);
      KeptOfMore(a[0], a[1..]);
      assert [a[0]] + a[1..] == a;
      KeptExactlyWhen(a[1..], w, b);
    }
  }

  predicate NoneStartsWithLF(words: seq<seq<Byte>>) {
    forall i :: 0 <= i < |words| ==> words[i] != [] && words[i][0] != '\n'
  }

  lemma {:induction false} AllKept(words: seq<seq<Byte>>)
    requires NoneStartsWithLF(words)
    ensures Kept(words) == words
  {
    if words != [] {
      AllKept(words[1..]);
    }
  }

  lemma {:induction false} JoinedHasNoNul(gap: seq<Byte>, pieces: seq<Piece>)
    requires IsGap(gap) && WellSpaced(pieces)
    ensures NUL !in gap + Joined(pieces)
    decreases |pieces|
  {
    if pieces != [] {
      var more := pieces[1..];
      assert forall i :: 0 <= i < |more| ==> more[i] == pieces[i + 1];
      JoinedHasNoNul(pieces[0].gap, more);
      assert Joined(pieces) == pieces[0].word + (pieces[0].gap + Joined(more));
    }
  }

  /** So the arguments of a line are its words. */
  lemma ArgsOfJoined(gap: seq<Byte>, pieces: seq<Piece>)
    requires IsGap(gap) && WellSpaced(pieces) && NoneStartsWithLF(WordsOf(pieces))
    ensures var line := gap + Joined(pieces); CString(line) == line && Args(line) == WordsOf(pieces)
  {
    JoinedHasNoNul(gap, pieces);
    CStringWithoutNul(gap + Joined(pieces));
    TokensOfJoined(gap, pieces);
    AllKept(WordsOf(pieces));
  }

  /** There is a pointer for each of them exactly up to ten. */
  lemma FewArgsExactlyWhen(gap: seq<Byte>, pieces: seq<Piece>)
    requires IsGap(gap) && WellSpaced(pieces) && NoneStartsWithLF(WordsOf(pieces))
    ensures FewArgs(gap + Joined(pieces)) <==> |pieces| <= 10
  {
    ArgsOfJoined(gap, pieces);
  }

  // ---- Commands ----

  /** The first word starts with a name, and `n` words follow, as many as that command takes. */
  predicate IsCommand(w: seq<Byte>, n: nat) {
    || ("test" <= w && n == 2)
    || ("prtdevs" <= w && n == 0)
    || ("help" <= w && n == 0)
    || ("prtfds" <= w && n == 0)
    || ("prtnodes" <= w && n == 0)
    || ("setloglvl" <= w && n == 1)
    || ("pingReq" <= w && n == 0)
    || ("prtStats" <= w && n == 0)
    || ("remCmd" <= w && n == 2)
  }

  lemma AcceptsExactlyWhen(args: seq<seq<Byte>>)
    ensures (exists i :: 0 <= i < COMMANDS && AcceptsArgs(args, i)) <==> args != [] && IsCommand(args[0], |args| - 1)
  {
    if args != [] && IsCommand(args[0], |args| - 1) {
      assert CmdRow(0).cmdStr == "test" && CmdRow(1).cmdStr == "prtdevs" && CmdRow(2).cmdStr == "help";
      assert CmdRow(3).cmdStr == "prtfds" && CmdRow(4).cmdStr == "prtnodes" && CmdRow(5).cmdStr == "setloglvl";
      assert CmdRow(6).cmdStr == "pingReq" && CmdRow(7).cmdStr == "prtStats" && CmdRow(8).cmdStr == "remCmd";
      assert || AcceptsArgs(args, 0) || AcceptsArgs(args, 1) || AcceptsArgs(args, 2) || AcceptsArgs(args, 3)
             || AcceptsArgs(args, 4) || AcceptsArgs(args, 5) || AcceptsArgs(args, 6) || AcceptsArgs(args, 7)
             || AcceptsArgs(args, 8);
    }
  }

  /** Whatever the words: the answer is OK exactly when the first starts with a name and the count is right. */
  lemma OkExactlyWhen(gap: seq<Byte>, pieces: seq<Piece>)
    requires IsGap(gap) && WellSpaced(pieces) && NoneStartsWithLF(WordsOf(pieces))
    ensures RepliesOk(gap + Joined(pieces)) <==> pieces != [] && IsCommand(pieces[0].word, |pieces| - 1)
  {
    ArgsOfJoined(gap, pieces);
    AcceptsExactlyWhen(WordsOf(pieces));
    RepliesToArgs(gap + Joined(pieces), WordsOf(pieces));
  }

  function Counts(): seq<nat> {
    [2, 0, 0, 0, 0, 1, 0, 0, 2]
  }

  lemma OnlyCommand(args: seq<seq<Byte>>, i: nat)
    requires i < COMMANDS && args != [] && CmdRow(i).cmdStr <= args[0]
    ensures (exists j :: 0 <= j < COMMANDS && AcceptsArgs(args, j)) <==> |args| - 1 == Counts()[i]
  {
    assert CmdRow(i).maxArgs == Counts()[i];
    if |args| - 1 == Counts()[i] {
      assert AcceptsArgs(args, i);
    }
    forall j | 0 <= j < COMMANDS && AcceptsArgs(args, j) ensures j == i {
      CommandIsUnique(args[0], i, j);
    }
  }

  /** Any word that starts with the name of a command is taken for it, with exactly its number of words behind it. */
  lemma NameWithSuffix(i: nat, suffix: seq<Byte>, gap: seq<Byte>, pieces: seq<Piece>)
    requires i < COMMANDS && IsGap(gap) && WellSpaced(pieces) && NoneStartsWithLF(WordsOf(pieces))
    requires pieces != [] && pieces[0].word == CmdRow(i).cmdStr + suffix
    ensures RepliesOk(gap + Joined(pieces)) <==> |pieces| - 1 == Counts()[i]
  {
    ArgsOfJoined(gap, pieces);
    RepliesToArgs(gap + Joined(pieces), WordsOf(pieces));
    OnlyCommand(WordsOf(pieces), i);
  }

  // ---- Numbers ----

  /** A number as it is written. */
  function Decimal(n: nat): (s: seq<Byte>)
    ensures s != []
  {
    (if n < 10 then [] else Decimal(n / 10)) + [('0' as int + n % 10) as char]
  }

  predicate AllDigits(s: seq<Byte>) {
    forall k :: 0 <= k < |s| ==> '0' <= s[k] <= '9'
  }

  lemma {:induction false} DecimalIsDigits(n: nat)
    ensures AllDigits(Decimal(n))
  {
    if n >= 10 {
      DecimalIsDigits(n / 10);
    }
  }

  lemma {:induction false} DigitsOfMore(s: seq<Byte>, more: seq<Byte>, value: nat)
    requires AllDigits(s)
    ensures Digits(s + more, value) == Digits(more, Digits(s, value))
  {
    if s == [] {
      assert s + more == more;
    } else {
      assert (s + more)[1..] == s[1..] + more;
      DigitsOfMore(s[1..], more, 10 * value + DigitValue(s[0]));
    }
  }

  lemma {:induction false} DigitsOfDecimal(n: nat, tail: seq<Byte>)
    requires tail == [] || !('0' <= tail[0] <= '9')
    ensures Digits(Decimal(n) + tail, 0) == n
  {
    var last: Byte := ('0' as int + n % 10) as char;
    var before := if n < 10 then [] else Decimal(n / 10);
    assert Decimal(n) + tail == before + ([last] + tail);
    assert ([last] + tail)[1..] == tail;
    if n >= 10 {
      DecimalIsDigits(n / 10);
      DigitsOfDecimal(n / 10, []);
      assert before + [] == before;
    }
    DigitsOfMore(before, [last] + tail, 0);
    assert Digits([last] + tail, n / 10) == Digits(tail, n);
  }

  predicate IsBlank(s: seq<Byte>) {
    forall k :: 0 <= k < |s| ==> s[k] == ' ' || 9 <= s[k] as int <= 13
  }

  lemma {:induction false} AtoiBehindBlank(blank: seq<Byte>, s: seq<Byte>)
    requires IsBlank(blank) && (s == [] || !IsBlank([s[0]]))
    ensures Atoi(blank + s) == Signed(s)
  {
    if blank == [] {
      assert blank + s == s;
      assert s != [] ==> [s[0]][0] == s[0];
    } else {
      assert (blank + s)[1..] == blank[1..] + s;
      AtoiBehindBlank(blank[1..], s);
    }
  }

  /** What is read is what was written: behind white space, with or without a sign, up to what is no digit. */
  lemma AtoiOfDecimal(blank: seq<Byte>, sign: seq<Byte>, n: nat, tail: seq<Byte>)
    requires IsBlank(blank) && sign in {"", "+", "-"} && (tail == [] || !('0' <= tail[0] <= '9'))
    ensures Atoi(blank + (sign + (Decimal(n) + tail))) == if sign == "-" then 0 - n else n as int
  {
    var number := Decimal(n) + tail;
    var s := sign + number;
    DecimalIsDigits(n);
    DigitsOfDecimal(n, tail);
    assert number[0] == Decimal(n)[0];
    assert [s[0]][0] == s[0];
    if sign == "" {
      assert s == number;
    } else {
      assert s[1..] == number;
    }
    AtoiBehindBlank(blank, s);
  }

  // ---- The log level ----

  lemma SetsLevelExactlyWhen(args: seq<seq<Byte>>)
    ensures AcceptsArgs(args, SET_LOG_LVL) <==> |args| == 2 && "setloglvl" <= args[0]
  {
    var def := CmdRow(SET_LOG_LVL);
    assert def.cmdStr == "setloglvl" && def.maxArgs == 1;
  }

  lemma LevelOfArgs(line: seq<Byte>, args: seq<seq<Byte>>, level: int)
    requires Args(CString(line)) == args
    ensures LineLevel(line, level) == if |args| == 2 && "setloglvl" <= args[0] then Atoi(args[1]) else level
  {
    SetsLevelExactlyWhen(args);
  }

  /** Exactly the lines that start with `setloglvl` and give one argument set the level: to what `atoi` makes of it. */
  lemma LevelOfJoined(gap: seq<Byte>, pieces: seq<Piece>, level: int)
    requires IsGap(gap) && WellSpaced(pieces) && NoneStartsWithLF(WordsOf(pieces))
    ensures LineLevel(gap + Joined(pieces), level) ==
            if |pieces| == 2 && "setloglvl" <= pieces[0].word then Atoi(pieces[1].word) else level
  {
    ArgsOfJoined(gap, pieces);
    LevelOfArgs(gap + Joined(pieces), WordsOf(pieces), level);
  }

  /** A line of two words with a blank between them. */
  lemma TwoPieces(w: seq<Byte>, v: seq<Byte>, pieces: seq<Piece>)
    requires IsArg(w) && IsArg(v) && pieces == [Piece(w, [' ']), Piece(v, [])]
    ensures WellSpaced(pieces) && [] + Joined(pieces) == w + [' '] + v
  {
    assert pieces[1..] == [Piece(v, [])];
    assert Joined([Piece(v, [])]) == v + [] + [] == v;
    assert Joined(pieces) == w + [' '] + v;
  }

  lemma NumberIsArg(sign: seq<Byte>, n: nat)
    requires sign in {"", "+", "-"}
    ensures IsArg(sign + Decimal(n)) && (sign + Decimal(n))[0] != '\n'
    ensures Atoi(sign + Decimal(n)) == if sign == "-" then 0 - n else n as int
  {
    DecimalIsDigits(n);
    AtoiOfDecimal([], sign, n, []);
    assert [] + (sign + (Decimal(n) + [])) == sign + Decimal(n);
  }

  /** So every number can be set. */
  lemma LevelIsNumber(name: seq<Byte>, sign: seq<Byte>, n: nat, level: int)
    requires IsArg(name) && "setloglvl" <= name && sign in {"", "+", "-"}
    ensures var line := name + [' '] + (sign + Decimal(n));
            RepliesOk(line) && FewArgs(line) && LineLevel(line, level) == if sign == "-" then 0 - n else n as int
  {
    var number := sign + Decimal(n);
    var pieces := [Piece(name, [' ']), Piece(number, [])];
    NumberIsArg(sign, n);
    TwoPieces(name, number, pieces);
    assert name[0] == "setloglvl"[0];
    LevelOfJoined([], pieces, level);
    OkExactlyWhen([], pieces);
    FewArgsExactlyWhen([], pieces);
  }
}
