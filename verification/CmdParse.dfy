/** Parsing of a command line: tokens cut in place, and the lookup of the command by its name. */
module CmdParse {
  import opened Common

  datatype Cmd =
    | CmdNone | CmdTest | CmdPrtDevs | CmdHelp | CmdPrtFds | CmdPrtNodes
    | CmdSetLogLvl | CmdPingReq | CmdPrtStats | CmdRemCmd

  datatype CliDef = CliDef(cmdNum: Cmd, cmdStr: seq<Byte>, maxArgs: nat)

  const MAX_ARGS := 10
  const COMMANDS := 9

  /** The command table, without its end marker. */
  function CmdRow(i: nat): (def: CliDef)
    requires i < COMMANDS
    ensures 0 < |def.cmdStr| < 10 && forall k :: 0 <= k < |def.cmdStr| ==> 'A' <= def.cmdStr[k]
  {
    match i
    case 0 => CliDef(CmdTest, "test", 2)
    case 1 => CliDef(CmdPrtDevs, "prtdevs", 0)
    case 2 => CliDef(CmdHelp, "help", 0)
    case 3 => CliDef(CmdPrtFds, "prtfds", 0)
    case 4 => CliDef(CmdPrtNodes, "prtnodes", 0)
    case 5 => CliDef(CmdSetLogLvl, "setloglvl", 1)
    case 6 => CliDef(CmdPingReq, "pingReq", 0)
    case 7 => CliDef(CmdPrtStats, "prtStats", 0)
    case _ => CliDef(CmdRemCmd, "remCmd", 2)
  }

  // ---- What a line means ----

  predicate IsDelimiter(c: Byte) {
    c == SPACE || c == CR
  }

  /** Length of the longest prefix of `s` that is all delimiters, or has none. */
  function Span(s: seq<Byte>, delimiters: bool): (n: nat)
    ensures n <= |s|
    ensures n < |s| ==> IsDelimiter(s[n]) != delimiters
  {
    if s == [] || IsDelimiter(s[0]) != delimiters then 0 else 1 + Span(s[1..], delimiters)
  }

  /** The first token of `s` lies between `TokenStart` and `TokenEnd`; both are `|s|` when there is none. */
  function TokenStart(s: seq<Byte>): (i: nat)
    ensures i <= |s|
  {
    Span(s, true)
  }

  function TokenEnd(s: seq<Byte>): (i: nat)
    ensures TokenStart(s) <= i <= |s|
    ensures TokenStart(s) < |s| ==> TokenStart(s) < i
  {
    TokenStart(s) + Span(s[TokenStart(s)..], false)
  }

  /** What is behind the first token and the delimiter that ends it. */
  function AfterToken(s: seq<Byte>): seq<Byte> {
    s[Min(TokenEnd(s) + 1, |s|)..]
  }

  /** The maximal runs of `s` without delimiters, in order. */
  function Tokens(s: seq<Byte>): seq<seq<Byte>>
    decreases |s|
  {
    if TokenStart(s) == |s| then []
    else [s[TokenStart(s)..TokenEnd(s)]] + Tokens(AfterToken(s))
  }

  predicate StartsWithLF(token: seq<Byte>) {
    token != [] && token[0] == LF
  }

  /** Tokens that start with a line feed are left over from the previous line's end. */
  function Kept(tokens: seq<seq<Byte>>): seq<seq<Byte>> {
    if tokens == [] then []
    else if StartsWithLF(tokens[0]) then Kept(tokens[1..])
    else [tokens[0]] + Kept(tokens[1..])
  }

  function Args(line: seq<Byte>): seq<seq<Byte>> {
    Kept(Tokens(line))
  }

  /** Arguments are accepted as command `i` when the first one extends that name and the count fits. */
  predicate AcceptsArgs(args: seq<seq<Byte>>, i: nat)
    requires i < COMMANDS
  {
    args != [] && CmdRow(i).cmdStr <= args[0] && |args| == 1 + CmdRow(i).maxArgs
  }

  predicate Accepts(line: seq<Byte>, i: nat)
    requires i < COMMANDS
  {
    AcceptsArgs(Args(line), i)
  }

  /** The C string a line is read as. */
  function CString(line: seq<Byte>): (s: seq<Byte>)
    ensures s <= line && NUL !in s
    ensures |s| < |line| ==> line[|s|] == NUL
  {
    if line == [] || line[0] == NUL then [] else [line[0]] + CString(line[1..])
  }

  /** There is a pointer for each argument of a line. */
  predicate FewArgs(line: seq<Byte>) {
    |Args(CString(line))| <= MAX_ARGS
  }

  /** Whether the reply to a line is OK, not FAILED. */
  predicate RepliesOk(line: seq<Byte>) {
    exists i :: 0 <= i < COMMANDS && Accepts(CString(line), i)
  }

  /** No command name is a prefix of another one; in fact their fourth letters differ. */
  lemma CommandIsUnique(arg: seq<Byte>, i: nat, j: nat)
    requires i < COMMANDS && j < COMMANDS
    requires CmdRow(i).cmdStr <= arg && CmdRow(j).cmdStr <= arg
    ensures i == j
  {
    assert CmdRow(i).cmdStr[3] == arg[3] == CmdRow(j).cmdStr[3];
  }

  // ---- What more bytes do to a line ----

  lemma {:induction false} SpanIs(s: seq<Byte>, delimiters: bool, n: nat)
    requires n <= |s|
    requires forall i :: 0 <= i < n ==> IsDelimiter(s[i]) == delimiters
    requires n < |s| ==> IsDelimiter(s[n]) != delimiters
    ensures Span(s, delimiters) == n
  {
    if n > 0 {
      SpanIs(s[1..], delimiters, n - 1);
    }
  }

  lemma {:induction false} SpanOfMore(s: seq<Byte>, delimiters: bool, more: seq<Byte>)
    ensures Span(s + more, delimiters) == if Span(s, delimiters) < |s| then Span(s, delimiters)
                                          else |s| + Span(more, delimiters)
  {
    if s == [] {
      assert s + more == more;
    } else {
      assert (s + more)[1..] == s[1..] + more;
      SpanOfMore(s[1..], delimiters, more);
    }
  }

  lemma KeptOfMore(token: seq<Byte>, more: seq<seq<Byte>>)
    ensures Kept([token] + more) == if StartsWithLF(token) then Kept(more) else [token] + Kept(more)
  {
    assert ([token] + more)[1..] == more;
  }

  /** The first token of a line stays, or gets longer when it is the last, when bytes are added behind. */
  lemma FirstTokenOfMore(s: seq<Byte>, more: seq<Byte>)
    requires TokenStart(s) < |s|
    ensures TokenStart(s + more) == TokenStart(s)
    ensures TokenEnd(s) < |s| ==> TokenEnd(s + more) == TokenEnd(s) && AfterToken(s + more) == AfterToken(s) + more
    ensures TokenEnd(s) == |s| ==> TokenEnd(s + more) >= |s|
  {
    var t, i, e := s + more, TokenStart(s), TokenEnd(s);
    SpanOfMore(s, true, more);
    assert t[i..] == s[i..] + more;
    SpanOfMore(s[i..], false, more);
    if e < |s| {
      assert TokenEnd(t) == e;
      assert t[e + 1..] == s[e + 1..] + more;
    }
  }

  /** A line never has fewer arguments than what it starts with. */
  lemma {:induction false} ArgsOfMore(s: seq<Byte>, more: seq<Byte>)
    ensures |Args(s)| <= |Args(s + more)|
    decreases |s|
  {
    if TokenStart(s) < |s| {
      var t := s + more;
      FirstTokenOfMore(s, more);
      var token, token' := s[TokenStart(s)..TokenEnd(s)], t[TokenStart(s)..TokenEnd(t)];
      assert token[0] == token'[0];
      KeptOfMore(token, Tokens(AfterToken(s)));
      KeptOfMore(token', Tokens(AfterToken(t)));
      if TokenEnd(s) < |s| {
        ArgsOfMore(AfterToken(s), more);
      }
    }
  }

  lemma {:induction false} CStringOfMore(s: seq<Byte>, more: seq<Byte>)
    ensures CString(s + more) == if |CString(s)| < |s| then CString(s) else s + CString(more)
  {
    if s == [] {
      assert s + more == more;
    } else {
      assert (s + more)[1..] == s[1..] + more;
      CStringOfMore(s[1..], more);
    }
  }

  lemma FewArgsOfPrefix(s: seq<Byte>, more: seq<Byte>)
    requires FewArgs(s + more)
    ensures FewArgs(s)
  {
    CStringOfMore(s, more);
    if CString(s) == s {
      ArgsOfMore(s, CString(more));
    }
  }

  // ---- Numbers ----

  predicate IsSpace(c: Byte) {
    c == SPACE || '\t' <= c <= '\r'
  }

  predicate IsDigit(c: Byte) {
    '0' <= c <= '9'
  }

  function DigitValue(c: Byte): nat
    requires IsDigit(c)
  {
    c as int - '0' as int
  }

  /** The number that the digits at the start of `s` go on with behind `value`. */
  function Digits(s: seq<Byte>, value: nat): nat {
    if s == [] || !IsDigit(s[0]) then value else Digits(s[1..], 10 * value + DigitValue(s[0]))
  }

  function Signed(s: seq<Byte>): int {
    if s != [] && s[0] == '-' then 0 - Digits(s[1..], 0)
    else if s != [] && s[0] == '+' then Digits(s[1..], 0)
    else Digits(s, 0)
  }

  /** `atoi`: white space, a sign, digits; what follows does not matter. */
  function Atoi(s: seq<Byte>): int {
    if s != [] && IsSpace(s[0]) then Atoi(s[1..]) else Signed(s)
  }

  /** The row of the command that sets the log level. */
  const SET_LOG_LVL := 5

  lemma NumberOfRow(i: nat)
    requires i < COMMANDS
    ensures CmdRow(i).cmdNum == CmdSetLogLvl <==> i == SET_LOG_LVL
  {
  }

  /** The log level once a line has been executed. */
  function LineLevel(line: seq<Byte>, level: int): int {
    var args := Args(CString(line));
    if AcceptsArgs(args, SET_LOG_LVL) then Atoi(args[1]) else level
  }

  lemma AtoiOfDigit(d: Byte)
    requires IsDigit(d)
    ensures Atoi([d]) == DigitValue(d)
  {
    assert [d][1..] == [];
    assert Digits([], 10 * 0 + DigitValue(d)) == DigitValue(d);
  }

  /** For instance a single digit. */
  lemma LevelOfDigit(d: Byte, level: int)
    requires IsDigit(d)
    ensures var line := CmdRow(SET_LOG_LVL).cmdStr + [SPACE] + [d];
            && |line| <= 11 && CR !in line && FewArgs(line) && RepliesOk(line)
            && AcceptsArgs(Args(CString(line)), SET_LOG_LVL) && LineLevel(line, level) == DigitValue(d)
  {
    var name := CmdRow(SET_LOG_LVL).cmdStr;
    var line := name + [SPACE] + [d];
    TwoWords(name, [d]);
    AtoiOfDigit(d);
    assert AcceptsArgs([name, [d]], SET_LOG_LVL);
    assert Accepts(CString(line), SET_LOG_LVL);
  }

  // ---- A line feed in front of a line ----

  /** A word directly behind a line feed is not an argument; a line that starts otherwise loses nothing. */
  lemma ArgsBehindLF(s: seq<Byte>)
    ensures Args([LF] + s) ==
            if s == [] || IsDelimiter(s[0]) || s[0] == LF then Args(s) else Args(s)[1..]
  {
    var t := [LF] + s;
    ArgsOfWord(t);
    assert t[1..] == s;
    if s == [] {
    } else if IsDelimiter(s[0]) {
      assert t[2..] == s[1..];
      TokensBehindDelimiter(s);
    } else {
      ArgsOfWord(s);
      var m := Span(s, false);
      assert t[Min(m + 2, |t|)..] == s[Min(m + 1, |s|)..];
    }
  }

  lemma FirstWord(s: seq<Byte>)
    requires s != [] && !IsDelimiter(s[0])
    ensures var m := Span(s, false);
            && m > 0 && TokenStart(s) == 0 && TokenEnd(s) == m
            && s[TokenStart(s)..TokenEnd(s)] == s[..m] && AfterToken(s) == s[Min(m + 1, |s|)..]
  {
    SpanIs(s, true, 0);
    assert s[0..] == s;
  }

  /** The first word of a line that starts with it. */
  lemma ArgsOfWord(s: seq<Byte>)
    requires s != [] && !IsDelimiter(s[0])
    ensures var m := Span(s, false);
            && m > 0
            && Args(s) == (if s[0] == LF then [] else [s[..m]]) + Args(s[Min(m + 1, |s|)..])
  {
    FirstWord(s);
    KeptOfMore(s[..Span(s, false)], Tokens(AfterToken(s)));
  }

  lemma TokenBehindDelimiter(s: seq<Byte>)
    requires s != [] && IsDelimiter(s[0])
    ensures TokenStart(s) == 1 + TokenStart(s[1..]) && TokenEnd(s) == 1 + TokenEnd(s[1..])
    ensures s[TokenStart(s)..TokenEnd(s)] == s[1..][TokenStart(s[1..])..TokenEnd(s[1..])]
    ensures AfterToken(s) == AfterToken(s[1..])
  {
    var r := s[1..];
    var i, e := TokenStart(r), TokenEnd(r);
    assert s[i + 1..] == r[i..];
    assert TokenEnd(s) == e + 1;
    assert s[i + 1..e + 1] == r[i..e];
    assert s[Min(e + 2, |s|)..] == r[Min(e + 1, |r|)..];
  }

  lemma TokensBehindDelimiter(s: seq<Byte>)
    requires s != [] && IsDelimiter(s[0])
    ensures Tokens(s) == Tokens(s[1..])
  {
    TokenBehindDelimiter(s);
  }

  /**
   A line feed in front of a command costs it its name: what is accepted, if anything, is what follows the
   name, and so a command without arguments fails.
   */
  lemma NameBehindLF(line: seq<Byte>)
    requires line != [] && line[0] != NUL && line[0] != LF && !IsDelimiter(line[0])
    ensures Args(CString(line)) != []
    ensures RepliesOk([LF] + line) <==> exists i :: 0 <= i < COMMANDS && AcceptsArgs(Args(CString(line))[1..], i)
    ensures |Args(CString(line))| == 1 ==> !RepliesOk([LF] + line)
  {
    var s := CString(line);
    assert ([LF] + line)[1..] == line;
    assert CString([LF] + line) == [LF] + s;
    ArgsBehindLF(s);
    ArgsOfWord(s);
    RepliesToArgs([LF] + line, Args(s)[1..]);
  }

  lemma RepliesToArgs(line: seq<Byte>, args: seq<seq<Byte>>)
    requires Args(CString(line)) == args
    ensures RepliesOk(line) <==> exists i :: 0 <= i < COMMANDS && AcceptsArgs(args, i)
  {
    assert forall i :: 0 <= i < COMMANDS ==> (Accepts(CString(line), i) <==> AcceptsArgs(args, i));
  }

  predicate IsWord(w: seq<Byte>) {
    w != [] && forall k :: 0 <= k < |w| ==> SPACE < w[k]
  }

  /** A single word is the only argument of its line. */
  lemma OneWord(w: seq<Byte>)
    requires IsWord(w)
    ensures CString(w) == w && Args(w) == [w]
  {
    CStringWithoutNul(w);
    SpanIs(w, false, |w|);
    ArgsOfWord(w);
    assert w[..|w|] == w && w[|w|..] == [];
  }

  lemma WordAndMore(line: seq<Byte>, n: nat)
    requires n < |line| && IsWord(line[..n]) && line[n] == SPACE
    ensures Args(line) == [line[..n]] + Args(line[n + 1..])
  {
    assert forall k :: 0 <= k < n ==> line[k] == line[..n][k];
    SpanIs(line, false, n);
    ArgsOfWord(line);
  }

  lemma WordsHaveNoControls(w: seq<Byte>, v: seq<Byte>)
    requires IsWord(w) && IsWord(v)
    ensures CR !in w + [SPACE] + v && NUL !in w + [SPACE] + v
  {
    assert forall c :: c in w + [SPACE] + v ==> SPACE <= c;
  }

  lemma TwoWords(w: seq<Byte>, v: seq<Byte>)
    requires IsWord(w) && IsWord(v)
    ensures var line := w + [SPACE] + v; CR !in line && CString(line) == line && Args(line) == [w, v]
  {
    var line := w + [SPACE] + v;
    WordsHaveNoControls(w, v);
    assert line[..|w|] == w && line[|w|] == SPACE && line[|w| + 1..] == v;
    CStringWithoutNul(line);
    WordAndMore(line, |w|);
    OneWord(v);
  }

  /** So every command without arguments is OK on its own, and FAILED behind a line feed. */
  lemma CommandBehindLF(i: nat)
    requires i < COMMANDS && CmdRow(i).maxArgs == 0
    ensures RepliesOk(CmdRow(i).cmdStr) && !RepliesOk([LF] + CmdRow(i).cmdStr)
  {
    var name := CmdRow(i).cmdStr;
    OneWord(name);
    assert Accepts(CString(name), i);
    NameBehindLF(name);
  }

  // ---- A line with too many arguments ----

  /** `n` words of one letter. */
  function Words(n: nat): (s: seq<Byte>)
    ensures |s| == 2 * n
    ensures CR !in s && NUL !in s
  {
    if n == 0 then [] else ['a', SPACE] + Words(n - 1)
  }

  lemma {:induction false} ArgsOfWords(n: nat)
    ensures |Args(Words(n))| == n
  {
    if n > 0 {
      var s := Words(n);
      SpanIs(s, false, 1);
      ArgsOfWord(s);
      assert s[2..] == Words(n - 1);
      ArgsOfWords(n - 1);
    }
  }

  lemma {:induction false} CStringWithoutNul(s: seq<Byte>)
    requires NUL !in s
    ensures CString(s) == s
  {
    if s != [] {
      CStringWithoutNul(s[1..]);
    }
  }

  lemma FewWords(n: nat)
    ensures FewArgs(Words(n)) <==> n <= MAX_ARGS
  {
    ArgsOfWords(n);
    CStringWithoutNul(Words(n));
  }

  // ---- The parser ----

  /** What a pointer of the device record holds. */
  datatype Pointer = Null | InRecvBuf(pos: nat) | TheRing

  /** `rngId` lies right behind the `MAX_ARGS` cells of `argPtrs`; the two are one array here. */
  const RNG_ID := MAX_ARGS

  /** `text` stands at `p` in `buf`, ended by a NUL. */
  ghost predicate TextAt(buf: array<Byte>, p: nat, text: seq<Byte>)
    reads buf
  {
    && p + |text| < buf.Length && buf[p + |text|] == NUL
    && forall i :: 0 <= i < |text| ==> buf[p + i] == text[i] != NUL
  }

  /** `strspn` and `strcspn`: how many characters from `p` on are, or are not, delimiters. */
  method ScanSpan(buf: array<Byte>, p: nat, delimiters: bool, ghost text: seq<Byte>) returns (n: nat)
    requires TextAt(buf, p, text)
    ensures n == Span(text, delimiters)
  {
    n := 0;
    while buf[p + n] != NUL && IsDelimiter(buf[p + n]) == delimiters
      invariant n <= |text|
      invariant forall i :: 0 <= i < n ==> IsDelimiter(text[i]) == delimiters
      decreases |text| - n
    {
      n := n + 1;
    }
    SpanIs(text, delimiters, n);
  }

  lemma TokenFound(text: seq<Byte>)
    requires TokenStart(text) < |text|
    ensures var t := text[TokenStart(text)..];
            var m := Span(t, false);
            && text[TokenStart(text)..TokenEnd(text)] == t[..m] != [] && AfterToken(text) == t[Min(m + 1, |t|)..]
    ensures |AfterToken(text)| < |text|
  {
  }

  /**
   `strtok_r` from `pos` on: `text` is what it still has to look at; `token` is the token it finds, and
   `rest` what it leaves for the next call.
   */
  method StrTok(buf: array<Byte>, pos: nat, ghost text: seq<Byte>)
    returns (tok: Option<nat>, save: nat, ghost token: seq<Byte>, ghost rest: seq<Byte>)
    requires TextAt(buf, pos, text)
    modifies buf
    ensures TextAt(buf, save, rest)
    ensures tok.None? ==> Tokens(text) == []
    ensures tok.Some? ==>
      && Tokens(text) == [token] + Tokens(rest) && token != [] && |rest| < |text|
      && TextAt(buf, tok.value, token)
      && pos <= tok.value && tok.value + |token| <= save && (rest != [] ==> tok.value + |token| < save)
    ensures forall i :: 0 <= i < buf.Length && (i < pos || tok == None) ==> buf[i] == old(buf[i])
  {
    var n := ScanSpan(buf, pos, true, text);
    var s := pos + n;
    if buf[s] == NUL {
      return None, s, [], [];
    }
    TokenFound(text);
    tok, token := Some(s), text[TokenStart(text)..TokenEnd(text)];
    save, rest := CutToken(buf, s, text[n..]);
    assert rest == AfterToken(text);
  }

  /** The end of the token that starts at `s` becomes a NUL, unless it is one already. */
  method CutToken(buf: array<Byte>, s: nat, ghost text: seq<Byte>) returns (save: nat, ghost rest: seq<Byte>)
    requires TextAt(buf, s, text)
    modifies buf
    ensures var m := Span(text, false);
            && TextAt(buf, s, text[..m]) && s + m <= save && (rest != [] ==> s + m + 1 == save)
            && rest == text[Min(m + 1, |text|)..] && TextAt(buf, save, rest)
    ensures forall i :: 0 <= i < s ==> buf[i] == old(buf[i])
  {
    var m := ScanSpan(buf, s, false, text);
    var end := s + m;
    if buf[end] == NUL {
      save, rest := end, [];
    } else {
      buf[end] := NUL;
      save, rest := end + 1, text[m + 1..];
    }
  }

  method ScanDigits(buf: array<Byte>, p: nat, ghost text: seq<Byte>) returns (n: nat)
    requires TextAt(buf, p, text)
    ensures n == Digits(text, 0)
  {
    n := 0;
    var i := 0;
    while IsDigit(buf[p + i])
      invariant i <= |text| && Digits(text[i..], n) == Digits(text, 0)
      decreases |text| - i
    {
      n := 10 * n + DigitValue(buf[p + i]);
      assert text[i..][1..] == text[i + 1..];
      i := i + 1;
    }
  }

  method ScanNumber(buf: array<Byte>, p: nat, ghost text: seq<Byte>) returns (n: int)
    requires TextAt(buf, p, text)
    ensures n == Atoi(text)
  {
    var i := 0;
    while IsSpace(buf[p + i])
      invariant i <= |text| && Atoi(text[i..]) == Atoi(text)
      decreases |text| - i
    {
      assert text[i..][1..] == text[i + 1..];
      i := i + 1;
    }
    ghost var t := text[i..];
    assert TextAt(buf, p + i, t);
    if buf[p + i] == '-' {
      n := ScanDigits(buf, p + i + 1, t[1..]);
      n := -n;
    } else if buf[p + i] == '+' {
      n := ScanDigits(buf, p + i + 1, t[1..]);
    } else {
      n := ScanDigits(buf, p + i, t);
    }
  }

  /** `strncmp` against a name finds what the name is a prefix of. */
  predicate NameAt(buf: seq<Byte>, p: nat, name: seq<Byte>) {
    p + |name| <= |buf| && buf[p..p + |name|] == name
  }

  lemma NameAtToken(buf: array<Byte>, p: nat, token: seq<Byte>, name: seq<Byte>)
    requires TextAt(buf, p, token) && NUL !in name
    ensures NameAt(buf[..], p, name) <==> name <= token
  {
    if NameAt(buf[..], p, name) {
      assert forall k :: 0 <= k < |name| ==> buf[p + k] == buf[p..p + |name|][k] == name[k] != NUL;
      assert |name| <= |token|;
    }
  }

  /** The cells that `argc` stores from the first one on reach; what lies behind `rngId` is not modelled. */
  function Stored(argc: nat): nat {
    if argc <= MAX_ARGS then argc else MAX_ARGS + 1
  }

  /** The first `n` pointers lead to the first `n` of `args`. */
  ghost predicate ArgsAt(buf: array<Byte>, ptrs: array<Pointer>, n: nat, args: seq<seq<Byte>>)
    reads buf, ptrs
  {
    && n <= ptrs.Length && n <= |args|
    && forall i :: 0 <= i < n ==> ptrs[i].InRecvBuf? && TextAt(buf, ptrs[i].pos, args[i])
  }

  /** All of them end before `limit`. */
  ghost predicate ArgsEndBefore(ptrs: array<Pointer>, n: nat, args: seq<seq<Byte>>, limit: nat)
    reads ptrs
  {
    && n <= ptrs.Length && n <= |args|
    && forall i :: 0 <= i < n ==> ptrs[i].InRecvBuf? && ptrs[i].pos + |args[i]| < limit
  }

  /** `StrTok`, while arguments already found stay where they are. */
  method NextToken(buf: array<Byte>, pos: nat, ghost text: seq<Byte>,
                   ghost ptrs: array<Pointer>, ghost n: nat, ghost args: seq<seq<Byte>>)
    returns (tok: Option<nat>, save: nat, ghost token: seq<Byte>, ghost rest: seq<Byte>)
    requires TextAt(buf, pos, text) && ArgsAt(buf, ptrs, n, args)
    requires text != [] ==> ArgsEndBefore(ptrs, n, args, pos)
    modifies buf
    ensures TextAt(buf, save, rest) && ArgsAt(buf, ptrs, n, args)
    ensures tok.None? ==> Tokens(text) == []
    ensures tok.Some? ==>
      && Tokens(text) == [token] + Tokens(rest) && token != [] && |rest| < |text|
      && TextAt(buf, tok.value, token) && ArgsEndBefore(ptrs, n, args, tok.value)
      && tok.value + |token| <= save && (rest != [] ==> tok.value + |token| < save)
  {
    tok, save, token, rest := StrTok(buf, pos, text);
    forall i | 0 <= i < n ensures TextAt(buf, ptrs[i].pos, args[i]) {
      assert old(TextAt(buf, ptrs[i].pos, args[i]));
    }
  }

  /** Remembers a token as argument number `argc`, unless it starts with a line feed; nothing checks the number. */
  method KeepToken(buf: array<Byte>, ptrs: array<Pointer>, argc: nat, tok: nat, save: nat,
                   ghost token: seq<Byte>, ghost more: seq<seq<Byte>>, ghost args: seq<seq<Byte>>)
    returns (argc': nat)
    requires token != [] && TextAt(buf, tok, token) && tok + |token| <= save && ptrs.Length == MAX_ARGS + 1
    requires ArgsAt(buf, ptrs, Stored(argc), args) && ArgsEndBefore(ptrs, Stored(argc), args, tok)
    requires argc <= |args| && args[argc..] == Kept([token] + more)
    modifies ptrs
    ensures argc <= argc' <= |args| && args[argc'..] == Kept(more)
    ensures ArgsAt(buf, ptrs, Stored(argc'), args)
    ensures tok + |token| < save ==> ArgsEndBefore(ptrs, Stored(argc'), args, save)
    ensures forall i :: argc' <= i < ptrs.Length ==> ptrs[i] == old(ptrs[i])
  {
    KeptOfMore(token, more);
    argc' := argc;
    if buf[tok] != LF {
      assert args[argc] == Kept([token] + more)[0];
      if argc <= RNG_ID {
        ptrs[argc] := InRecvBuf(tok);
      }
      argc' := argc + 1;
      assert args[argc'..] == args[argc..][1..];
    }
  }

  /**
   Splits the line in `buf` and stores where its arguments start.  Every store stays inside `argPtrs`, and
   so the ring pointer behind it survives, exactly when the line has at most `MAX_ARGS` arguments.
   */
  method SplitArgs(buf: array<Byte>, ptrs: array<Pointer>, ghost line: seq<Byte>) returns (argc: nat)
    requires TextAt(buf, 0, line)
    requires ptrs.Length == MAX_ARGS + 1 && ptrs[RNG_ID] == TheRing
    modifies buf, ptrs
    ensures argc == |Args(line)| && ArgsAt(buf, ptrs, Stored(argc), Args(line))
    ensures forall i :: argc <= i < ptrs.Length ==> ptrs[i] == old(ptrs[i])
    ensures ptrs[RNG_ID] == TheRing <==> |Args(line)| <= MAX_ARGS
  {
    argc := 0;
    ghost var text, args := line, Args(line);
    var tok: Option<nat>, save: nat;
    ghost var token: seq<Byte>, rest: seq<Byte>;
    tok, save, token, rest := NextToken(buf, 0, line, ptrs, 0, args);
    while tok.Some?
      invariant TextAt(buf, save, rest)
      invariant tok.Some? ==>
        && token != [] && |rest| < |text| && TextAt(buf, tok.value, token)
        && tok.value + |token| <= save && (rest != [] ==> tok.value + |token| < save)
      invariant argc <= |args| && ArgsAt(buf, ptrs, Stored(argc), args)
      invariant args[argc..] == if tok.Some? then Kept([token] + Tokens(rest)) else []
      invariant tok.Some? ==> ArgsEndBefore(ptrs, Stored(argc), args, tok.value)
      invariant forall i :: argc <= i < ptrs.Length ==> ptrs[i] == old(ptrs[i])
      decreases |text|, tok.Some?
    {
      argc := KeepToken(buf, ptrs, argc, tok.value, save, token, Tokens(rest), args);
      text := rest;
      tok, save, token, rest := NextToken(buf, save, text, ptrs, Stored(argc), args);
    }
  }

  /**
   Parses the line in `buf`.  Whatever earlier lines left in `argPtrs`, the line is accepted exactly
   when some command accepts it, and then that command, which is the only one, is returned.
   */
  method ParseCmd(buf: array<Byte>, ptrs: array<Pointer>, ghost line: seq<Byte>)
    returns (ok: bool, cliNum: Cmd, argCount: int)
    requires TextAt(buf, 0, line)
    requires ptrs.Length == MAX_ARGS + 1 && ptrs[RNG_ID] == TheRing
    modifies buf, ptrs
    ensures ok <==> exists i :: 0 <= i < COMMANDS && Accepts(line, i)
    ensures forall i :: 0 <= i < COMMANDS && Accepts(line, i) ==> cliNum == CmdRow(i).cmdNum
    ensures argCount == |Args(line)| - 1 && ArgsAt(buf, ptrs, Stored(|Args(line)|), Args(line))
    ensures ptrs[RNG_ID] == TheRing <==> |Args(line)| <= MAX_ARGS
  {
    var argc := SplitArgs(buf, ptrs, line);
    argCount := argc as int - 1;
    cliNum := CmdNone;
    var idx := 0;
    while idx < COMMANDS
      invariant idx <= COMMANDS && cliNum == CmdNone
      invariant forall i :: 0 <= i < idx ==> !Accepts(line, i)
      modifies {}
    {
      if !ptrs[0].InRecvBuf? {
        break;
      }
      if argc > 0 {
        NameAtToken(buf, ptrs[0].pos, Args(line)[0], CmdRow(idx).cmdStr);
      }
      if NameAt(buf[..], ptrs[0].pos, CmdRow(idx).cmdStr) {
        cliNum := CmdRow(idx).cmdNum;
        break;
      }
      idx := idx + 1;
    }
    forall i | 0 <= i < COMMANDS && Accepts(line, i) && cliNum != CmdNone
      ensures i == idx
    {
      CommandIsUnique(Args(line)[0], i, idx);
    }
    ok := cliNum != CmdNone && argCount == CmdRow(idx).maxArgs;
    assert ok ==> Accepts(line, idx);
    assert (exists i :: 0 <= i < COMMANDS && Accepts(line, i)) ==> cliNum != CmdNone && Accepts(line, idx);
  }
}
