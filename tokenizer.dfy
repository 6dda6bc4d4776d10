/**
 * The line tokenizer of tokenizer.c (parseline and add_token).
 *
 * `Scan` is the scanner as a function of the rest of the line and the
 * scanner state (the pending token, the `is_empty` flag that records a
 * quote in the pending token, and the tokens emitted so far); `ParseLine`
 * is the C loop, proved to compute `Tokenize`. The environment that
 * getenv reads is the map `env`.
 */
module Tokenizer {
  import opened Wrappers

  datatype TokError = UnterminatedSingleQuote | UnterminatedDoubleQuote

  datatype Result<T> = Ok(value: T) | Err(error: TokError)

  // Character classes of <ctype.h> in the C locale.
  predicate IsSpace(c: char) {
    c == ' ' || c == '\t' || c == '\n' || c == '\U{0B}' || c == '\U{0C}' || c == '\r'
  }

  predicate IsDigit(c: char) {
    '0' <= c <= '9'
  }

  predicate IsAlnum(c: char) {
    IsDigit(c) || 'a' <= c <= 'z' || 'A' <= c <= 'Z'
  }

  predicate IsNameChar(c: char) {
    IsAlnum(c) || c == '_'
  }

  /** Characters a backslash inside double quotes escapes. */
  predicate IsDqEscapable(c: char) {
    c == '$' || c == '`' || c == '"' || c == '\\' || c == '\n'
  }

  /** line[k] of the C string: past the end it reads the terminator. */
  function Peek(s: seq<char>, k: nat): char {
    if k < |s| then s[k] else '\0'
  }

  /** getenv: an unset variable and the empty name give NULL. */
  function GetEnv(env: map<string, string>, name: string): Option<string> {
    if name != "" && name in env then Some(env[name]) else None
  }

  /** What `$name` appends to the token: the value, or nothing when unset. */
  function Expansion(env: map<string, string>, name: string): string {
    match GetEnv(env, name)
    case Some(v) => v
    case None => ""
  }

  /** add_token: the pending token becomes the last token and the buffer restarts empty. */
  function AddToken(tokens: seq<string>, token: string): (r: seq<string>)
    ensures |r| == |tokens| + 1 && r[..|tokens|] == tokens && r[|tokens|] == token
  {
    tokens + [token]
  }

  /** `if (t_idx || is_empty) add_token(...)`: a pending token is emitted if it has characters or a quote. */
  function Flush(tokens: seq<string>, token: string, isEmpty: bool): seq<string> {
    if token != "" || isEmpty then AddToken(tokens, token) else tokens
  }

  /** Length of the name (alnum or '_' run) at the start of s. */
  function NameLen(s: seq<char>): (n: nat)
    ensures n <= |s|
    ensures forall k :: 0 <= k < n ==> IsNameChar(s[k])
    ensures n < |s| ==> !IsNameChar(s[n])
  {
    if s != [] && IsNameChar(s[0]) then 1 + NameLen(s[1..]) else 0
  }

  /**
   * The body of a single-quoted string, s being the text after the opening
   * quote: every character up to the closing quote is appended to `token`;
   * the result is the token and the text after the closing quote, or None
   * when the line ends first.
   */
  function SingleQuoted(s: seq<char>, token: string): (r: Option<(string, seq<char>)>)
    ensures r.Some? ==> |r.value.1| < |s|
    decreases |s|
  {
    if s == [] then None
    else if s[0] == '\'' then Some((token, s[1..]))
    else SingleQuoted(s[1..], token + [s[0]])
  }

  /**
   * The body of a double-quoted string, as SingleQuoted, except that a
   * backslash before one of $ ` " \ newline is dropped and the character
   * after it is taken literally.
   */
  function DoubleQuoted(s: seq<char>, token: string): (r: Option<(string, seq<char>)>)
    ensures r.Some? ==> |r.value.1| < |s|
    decreases |s|
  {
    if s == [] then None
    else if s[0] == '"' then Some((token, s[1..]))
    else if s[0] == '\\' && IsDqEscapable(Peek(s, 1)) then DoubleQuoted(s[2..], token + [s[1]])
    else DoubleQuoted(s[1..], token + [s[0]])
  }

  /** What follows a single-quoted body is a suffix of the line. */
  lemma {:induction false} SingleQuotedSuffix(s: seq<char>, token: string)
    ensures var r := SingleQuoted(s, token); r.Some? ==> r.value.1 == s[|s| - |r.value.1|..]
    decreases |s|
  {
    if s != [] && s[0] != '\'' {
      SingleQuotedSuffix(s[1..], token + [s[0]]);
    }
  }

  /** What follows a double-quoted body is a suffix of the line. */
  lemma {:induction false} DoubleQuotedSuffix(s: seq<char>, token: string)
    ensures var r := DoubleQuoted(s, token); r.Some? ==> r.value.1 == s[|s| - |r.value.1|..]
    decreases |s|
  {
    if s != [] && s[0] != '"' {
      if s[0] == '\\' && IsDqEscapable(Peek(s, 1)) {
        DoubleQuotedSuffix(s[2..], token + [s[1]]);
      } else {
        DoubleQuotedSuffix(s[1..], token + [s[0]]);
      }
    }
  }

  /** The scanner's variables between two characters: the pending token, is_empty and the emitted tokens. */
  datatype State = State(token: string, isEmpty: bool, tokens: seq<string>)

  /** One pass of the loop body: the rest of the line and the new state, or an error. */
  datatype StepResult = Next(rest: seq<char>, st: State) | Fail(error: TokError)

  /**
   * One pass of the scanner's loop body on the non-empty rest of the line
   * `s`. With `fixed` false it is the code as written; with `fixed` true the
   * operator branches also honour and clear `isEmpty` (see the corrected
   * tokenizer in TokenizerProps).
   */
  function ScanStep(s: seq<char>, st: State, env: map<string, string>, fixed: bool): (r: StepResult)
    requires s != []
    ensures r.Next? ==> |r.rest| < |s|
  {
    var State(token, isEmpty, tokens) := st;
    var c := s[0];
    if IsSpace(c) then
      Next(s[1..], State("", false, Flush(tokens, token, isEmpty)))
    else if c == '(' || c == ')' || c == '!' || c == ';' then
      Next(s[1..], State("", false, AddToken(Flush(tokens, token, isEmpty), [c])))
    else if c == '&' && IsSpace(Peek(s, 1)) then
      Next(s[2..], State("", isEmpty && !fixed, AddToken(Flush(tokens, token, isEmpty), "&")))
    else if c == '\\' then
      if |s| == 1 then Next([], st)
      else if s[1] == '\n' then Next(s[2..], st)
      else Next(s[2..], State(token + [s[1]], isEmpty, tokens))
    else if c == '\'' then
      match SingleQuoted(s[1..], token)
      case None => Fail(UnterminatedSingleQuote)
      case Some((t, rest)) => Next(rest, State(t, true, tokens))
    else if c == '"' then
      match DoubleQuoted(s[1..], token)
      case None => Fail(UnterminatedDoubleQuote)
      case Some((t, rest)) => Next(rest, State(t, true, tokens))
    else if c == '$' then
      var n := NameLen(s[1..]);
      Next(s[1 + n..], State(token + Expansion(env, s[1..1 + n]), isEmpty, tokens))
    else if c == '|' then
      var flushed := if fixed then Flush(tokens, token, isEmpty)
                     else if token != "" then AddToken(tokens, token) else tokens;
      var two := Peek(s, 1) == '|';
      Next(if two then s[2..] else s[1..],
           State("", isEmpty && !fixed, AddToken(flushed, if two then "||" else "|")))
    else if c == '<' || c == '>' || c == '&' then
      var prefix := |token| == 1 && IsDigit(token[0]);
      var flush := (token != "" || (fixed && isEmpty)) && !prefix;
      var head := if flush then "" else token;
      var two := Peek(s, 1) == '>' || Peek(s, 1) == '&';
      Next(if two then s[2..] else s[1..],
           State("", isEmpty && !fixed,
                 AddToken(if flush then AddToken(tokens, token) else tokens,
                          head + [c] + (if two then [s[1]] else []))))
    else
      Next(s[1..], State(token + [c], isEmpty, tokens))
  }

  /**
   * One pass moves forward over the line (the rest is a proper suffix),
   * never takes back an emitted token, and fails only at an opening quote,
   * with the error of that quote.
   */
  lemma ScanStepShape(s: seq<char>, st: State, env: map<string, string>, fixed: bool)
    requires s != []
    ensures var r := ScanStep(s, st, env, fixed);
      r.Next? ==> r.rest == s[|s| - |r.rest|..] && st.tokens <= r.st.tokens
    ensures var r := ScanStep(s, st, env, fixed);
      r.Fail? ==> (s[0] == '\'' && r.error == UnterminatedSingleQuote) || (s[0] == '"' && r.error == UnterminatedDoubleQuote)
  {
    var c := s[0];
    var r := ScanStep(s, st, env, fixed);
    if IsSpace(c) || c == '(' || c == ')' || c == '!' || c == ';' {
      assert r.rest == s[1..];
    } else if c == '&' && IsSpace(Peek(s, 1)) {
      assert r.rest == s[2..];
    } else if c == '\\' {
      assert r.rest == [] || r.rest == s[2..];
    } else if c == '\'' {
      SingleQuotedSuffix(s[1..], st.token);
    } else if c == '"' {
      DoubleQuotedSuffix(s[1..], st.token);
    } else if c == '$' {
      var n := NameLen(s[1..]);
      assert r.rest == s[1 + n..];
    } else if c == '|' {
      assert r.rest == s[1..] || r.rest == s[2..];
    } else if c == '<' || c == '>' || c == '&' {
      assert r.rest == s[1..] || r.rest == s[2..];
    } else {
      assert r.rest == s[1..];
    }
  }

  /** The scanner on the rest of the line `s` from state `st`, up to the final flush. */
  function Scan(s: seq<char>, st: State, env: map<string, string>, fixed: bool): Result<seq<string>>
    decreases |s|
  {
    if s == [] then Ok(Flush(st.tokens, st.token, st.isEmpty))
    else
      match ScanStep(s, st, env, fixed)
      case Fail(e) => Err(e)
      case Next(rest, st') => Scan(rest, st', env, fixed)
  }

  /**
   * The scan never takes back an emitted token, and it fails only on a
   * line holding a quote of the kind it reports.
   */
  lemma {:induction false} ScanShape(s: seq<char>, st: State, env: map<string, string>, fixed: bool)
    ensures var r := Scan(s, st, env, fixed);
      r.Ok? ==> st.tokens <= r.value
    ensures var r := Scan(s, st, env, fixed);
      r.Err? ==> (r.error == UnterminatedSingleQuote && '\'' in s) || (r.error == UnterminatedDoubleQuote && '"' in s)
    decreases |s|
  {
    if s != [] {
      ScanStepShape(s, st, env, fixed);
      var step := ScanStep(s, st, env, fixed);
      if step.Next? {
        ScanShape(step.rest, step.st, env, fixed);
        var r := Scan(step.rest, step.st, env, fixed);
        assert r.Err? ==> forall c :: c in step.rest ==> c in s by {
          assert step.rest == s[|s| - |step.rest|..];
        }
      }
    }
  }

  /** The scanner's state when parseline starts. */
  const Start := State("", false, [])

  /** parseline as written: an error only for a line holding a quote of the kind reported. */
  function Tokenize(line: seq<char>, env: map<string, string>): (r: Result<seq<string>>)
    ensures r.Err? ==> (r.error == UnterminatedSingleQuote && '\'' in line) || (r.error == UnterminatedDoubleQuote && '"' in line)
  {
    ScanShape(line, Start, env, false);
    Scan(line, Start, env, false)
  }

  /** parseline with the operator branches honouring and clearing is_empty. */
  function TokenizeCorrected(line: seq<char>, env: map<string, string>): (r: Result<seq<string>>)
    ensures r.Err? ==> (r.error == UnterminatedSingleQuote && '\'' in line) || (r.error == UnterminatedDoubleQuote && '"' in line)
  {
    ScanShape(line, Start, env, true);
    Scan(line, Start, env, true)
  }

  /**
   * The token array parseline returns, built by its add_token calls: each
   * call stores the token at `pos` and a NULL after it. When no token is
   * emitted nothing is stored in the malloc'd array, so it holds no NULL
   * (the unwritten slots are not modelled).
   */
  function Written(tokens: seq<string>): (a: seq<Option<string>>)
    ensures tokens == [] ==> a == []
    ensures tokens != [] ==> |a| == |tokens| + 1 && a[|tokens|] == None
    ensures forall k :: 0 <= k < |tokens| ==> a[k] == Some(tokens[k])
    decreases |tokens|
  {
    if tokens == [] then []
    else
      var n := |tokens| - 1;
      Written(tokens[..n])[..n] + [Some(tokens[n]), None]
  }

  /**
   * What a caller walking the array up to its NULL reads: the tokens before
   * the first NULL, or None when there is no NULL and the walk runs off the
   * written part.
   */
  function ReadToNull(a: seq<Option<string>>): (r: Option<seq<string>>)
    ensures r.Some? <==> exists k :: 0 <= k < |a| && a[k].None?
    ensures r.Some? ==> |r.value| < |a| && a[|r.value|].None?
    ensures r.Some? ==> forall k :: 0 <= k < |r.value| ==> a[k] == Some(r.value[k])
  {
    if a == [] then None
    else if a[0].None? then Some([])
    else
      match ReadToNull(a[1..])
      case None => None
      case Some(rest) => Some([a[0].value] + rest)
  }

  /**
   * The inner loop of the single-quote branch: copies line[i..] up to the
   * closing quote into the token. Returns the index of the closing quote,
   * or |line| when the line ends first.
   */
  method ReadSingleQuoted(line: seq<char>, i: nat, token: string) returns (j: nat, t: string)
    requires i <= |line|
    ensures i <= j <= |line|
    ensures j == |line| <==> SingleQuoted(line[i..], token).None?
    ensures j < |line| ==> SingleQuoted(line[i..], token) == Some((t, line[j + 1..]))
  {
    j, t := i, token;
    while j < |line| && line[j] != '\''
      invariant i <= j <= |line|
      invariant SingleQuoted(line[j..], t) == SingleQuoted(line[i..], token)
      decreases |line| - j
    {
      assert line[j..][1..] == line[j + 1..];
      t := t + [line[j]];
      j := j + 1;
    }
    assert j < |line| ==> line[j..][1..] == line[j + 1..];
  }

  /**
   * The inner loop of the double-quote branch: copies line[i..] up to the
   * closing quote, dropping a backslash before $ ` " \ or newline.
   */
  method ReadDoubleQuoted(line: seq<char>, i: nat, token: string) returns (j: nat, t: string)
    requires i <= |line|
    ensures i <= j <= |line|
    ensures j == |line| <==> DoubleQuoted(line[i..], token).None?
    ensures j < |line| ==> DoubleQuoted(line[i..], token) == Some((t, line[j + 1..]))
  {
    j, t := i, token;
    while j < |line| && line[j] != '"'
      invariant i <= j <= |line|
      invariant DoubleQuoted(line[j..], t) == DoubleQuoted(line[i..], token)
      decreases |line| - j
    {
      ghost var rest := line[j..];
      assert Peek(rest, 1) == Peek(line, j + 1) && rest[1..] == line[j + 1..];
      if line[j] == '\\' && IsDqEscapable(Peek(line, j + 1)) {
        assert rest[2..] == line[j + 2..];
        j := j + 1;
      }
      t := t + [line[j]];
      j := j + 1;
    }
    assert j < |line| ==> line[j..][1..] == line[j + 1..];
  }

  /** The name loop of the `$` branch: the end of the alnum/'_' run starting at i. */
  method ReadName(line: seq<char>, i: nat) returns (j: nat)
    requires i <= |line|
    ensures j == i + NameLen(line[i..])
  {
    j := i;
    while j < |line| && IsNameChar(line[j])
      invariant i <= j <= |line|
      invariant NameLen(line[i..]) == (j - i) + NameLen(line[j..])
      decreases |line| - j
    {
      assert line[j..][1..] == line[j + 1..];
      j := j + 1;
    }
    assert j < |line| ==> line[j..][0] == line[j];
  }

  /*
   * The loop body of parseline, one method per group of branches. Each
   * takes the index i0 and the scanner variables before the pass and
   * returns them after it; its contract ties the pass to ScanStep.
   */

  /** The whitespace, `( ) ! ;` and `& ` branches: flush, then emit the operator. */
  method StepSeparator(line: seq<char>, i0: nat, token0: string, isEmpty0: bool, tokens0: seq<string>)
    returns (i: nat, token: string, isEmpty: bool, tokens: seq<string>)
    requires i0 < |line|
    requires IsSpace(line[i0]) || line[i0] in "()!;" || (line[i0] == '&' && IsSpace(Peek(line, i0 + 1)))
    ensures i0 < i <= |line|
    ensures forall env :: ScanStep(line[i0..], State(token0, isEmpty0, tokens0), env, false)
                          == Next(line[i..], State(token, isEmpty, tokens))
  {
    var c := line[i0];
    assert line[i0..][1..] == line[i0 + 1..] && Peek(line[i0..], 1) == Peek(line, i0 + 1);
    tokens, token, isEmpty := tokens0, token0, isEmpty0;
    if token != "" || isEmpty {
      tokens, token := AddToken(tokens, token), "";
    }
    if IsSpace(c) {
      isEmpty := false;
      i := i0 + 1;
    } else if c == '(' || c == ')' || c == '!' || c == ';' {
      tokens := AddToken(tokens, [c]);
      isEmpty := false;
      i := i0 + 1;
    } else {
      assert line[i0..][2..] == line[i0 + 2..];
      tokens := AddToken(tokens, "&");
      i := i0 + 2;
    }
  }

  /** The backslash branch: the next character is taken literally, a backslash-newline is dropped. */
  method StepBackslash(line: seq<char>, i0: nat, token0: string, isEmpty0: bool, tokens0: seq<string>)
    returns (i: nat, token: string)
    requires i0 < |line| && line[i0] == '\\'
    ensures i0 < i <= |line|
    ensures forall env :: ScanStep(line[i0..], State(token0, isEmpty0, tokens0), env, false)
                          == Next(line[i..], State(token, isEmpty0, tokens0))
  {
    token := token0;
    i := i0 + 1;
    if i < |line| {
      assert line[i0..][2..] == line[i0 + 2..] && line[i0..][1] == line[i];
      var next := line[i];
      if next != '\n' {
        token := token + [next];
      }
      i := i + 1;
    }
  }

  /** The single-quote branch: the quoted text is copied up to the closing quote, or the line is rejected. */
  method StepSingleQuote(line: seq<char>, i0: nat, token0: string, tokens0: seq<string>)
    returns (i: nat, token: string, err: Option<TokError>)
    requires i0 < |line| && line[i0] == '\''
    ensures err.None? ==> i0 < i <= |line|
    ensures forall isEmpty0: bool, env ::
              ScanStep(line[i0..], State(token0, isEmpty0, tokens0), env, false)
              == if err.Some? then Fail(err.value) else Next(line[i..], State(token, true, tokens0))
  {
    assert line[i0..][1..] == line[i0 + 1..];
    err := None;
    i, token := ReadSingleQuoted(line, i0 + 1, token0);
    if i == |line| {
      err := Some(UnterminatedSingleQuote);
      return;
    }
    i := i + 1;
  }

  /** The double-quote branch: as the single-quote branch, with the escapes of IsDqEscapable. */
  method StepDoubleQuote(line: seq<char>, i0: nat, token0: string, tokens0: seq<string>)
    returns (i: nat, token: string, err: Option<TokError>)
    requires i0 < |line| && line[i0] == '"'
    ensures err.None? ==> i0 < i <= |line|
    ensures forall isEmpty0: bool, env ::
              ScanStep(line[i0..], State(token0, isEmpty0, tokens0), env, false)
              == if err.Some? then Fail(err.value) else Next(line[i..], State(token, true, tokens0))
  {
    assert line[i0..][1..] == line[i0 + 1..];
    err := None;
    i, token := ReadDoubleQuoted(line, i0 + 1, token0);
    if i == |line| {
      err := Some(UnterminatedDoubleQuote);
      return;
    }
    i := i + 1;
  }

  /** The `$` branch: the name after `$` is looked up and its value appended to the token. */
  method StepDollar(line: seq<char>, i0: nat, token0: string, isEmpty0: bool, tokens0: seq<string>, env: map<string, string>)
    returns (i: nat, token: string)
    requires i0 < |line| && line[i0] == '$'
    ensures i0 < i <= |line|
    ensures ScanStep(line[i0..], State(token0, isEmpty0, tokens0), env, false)
         == Next(line[i..], State(token, isEmpty0, tokens0))
  {
    ghost var s := line[i0..];
    assert s[1..] == line[i0 + 1..];
    i := ReadName(line, i0 + 1);
    assert s[1 + NameLen(s[1..])..] == line[i..] && s[1..1 + NameLen(s[1..])] == line[i0 + 1..i];
    ghost var expanded := token0 + Expansion(env, line[i0 + 1..i]);
    var value := GetEnv(env, line[i0 + 1..i]);
    if value.Some? {
      token := token0 + value.value;
    } else {
      token := token0;
      assert expanded == token + [];
    }
  }

  /** The `|` branch as written: the pending token is flushed only when it has characters. */
  method StepPipe(line: seq<char>, i0: nat, token0: string, isEmpty0: bool, tokens0: seq<string>)
    returns (i: nat, tokens: seq<string>)
    requires i0 < |line| && line[i0] == '|'
    ensures i0 < i <= |line|
    ensures forall env :: ScanStep(line[i0..], State(token0, isEmpty0, tokens0), env, false)
                          == Next(line[i..], State("", isEmpty0, tokens))
  {
    assert line[i0..][1..] == line[i0 + 1..] && Peek(line[i0..], 1) == Peek(line, i0 + 1);
    tokens := tokens0;
    if token0 != "" {
      tokens := AddToken(tokens, token0);
    }
    if Peek(line, i0 + 1) == '|' {
      assert line[i0..][2..] == line[i0 + 2..];
      tokens := AddToken(tokens, "||");
      i := i0 + 2;
    } else {
      tokens := AddToken(tokens, "|");
      i := i0 + 1;
    }
  }

  /** The `< > &` branch: a one-digit pending token becomes the descriptor prefix of the operator. */
  method StepRedirect(line: seq<char>, i0: nat, token0: string, isEmpty0: bool, tokens0: seq<string>)
    returns (i: nat, tokens: seq<string>)
    requires i0 < |line| && (line[i0] == '<' || line[i0] == '>' || line[i0] == '&')
    requires !IsSpace(Peek(line, i0 + 1)) || line[i0] != '&'
    ensures i0 < i <= |line|
    ensures forall env :: ScanStep(line[i0..], State(token0, isEmpty0, tokens0), env, false)
                          == Next(line[i..], State("", isEmpty0, tokens))
  {
    ghost var s := line[i0..];
    assert s[1..] == line[i0 + 1..] && Peek(s, 1) == Peek(line, i0 + 1);
    var c := line[i0];
    var token := token0;
    tokens := tokens0;
    if token != "" && !(|token| == 1 && IsDigit(token[0])) {
      tokens, token := AddToken(tokens, token), "";
    }
    var op := token + [c];
    if Peek(line, i0 + 1) == '>' || Peek(line, i0 + 1) == '&' {
      assert s[2..] == line[i0 + 2..] && s[1] == line[i0 + 1];
      op := op + [line[i0 + 1]];
      i := i0 + 2;
    } else {
      assert op == op + [];
      i := i0 + 1;
    }
    tokens := AddToken(tokens, op);
  }

  /** Any other character is appended to the pending token. */
  method StepOther(line: seq<char>, i0: nat, token0: string, isEmpty0: bool, tokens0: seq<string>)
    returns (token: string)
    requires i0 < |line| && !IsSpace(line[i0]) && line[i0] !in "()!;&\\'\"$|<>"
    ensures forall env :: ScanStep(line[i0..], State(token0, isEmpty0, tokens0), env, false)
                          == Next(line[i0 + 1..], State(token, isEmpty0, tokens0))
  {
    assert line[i0..][1..] == line[i0 + 1..];
    token := token0 + [line[i0]];
  }

  /** parseline: the loop over the line, with the index i, the pending token, the flag and the token list. */
  method ParseLine(line: seq<char>, env: map<string, string>) returns (r: Result<seq<string>>)
    ensures r == Tokenize(line, env)
  {
    var tokens: seq<string> := [];
    var token: string := "";
    var isEmpty := false;
    var i := 0;
    while i < |line|
      invariant 0 <= i <= |line|
      invariant Scan(line[i..], State(token, isEmpty, tokens), env, false) == Tokenize(line, env)
      decreases |line| - i
    {
      var c := line[i];
      if IsSpace(c) || c == '(' || c == ')' || c == '!' || c == ';' || (c == '&' && IsSpace(Peek(line, i + 1))) {
        i, token, isEmpty, tokens := StepSeparator(line, i, token, isEmpty, tokens);
      } else if c == '\\' {
        i, token := StepBackslash(line, i, token, isEmpty, tokens);
      } else if c == '\'' || c == '"' {
        var err;
        if c == '\'' {
          i, token, err := StepSingleQuote(line, i, token, tokens);
        } else {
          i, token, err := StepDoubleQuote(line, i, token, tokens);
        }
        if err.Some? {
          return Err(err.value);
        }
        isEmpty := true;
      } else if c == '$' {
        i, token := StepDollar(line, i, token, isEmpty, tokens, env);
      } else if c == '|' {
        i, tokens := StepPipe(line, i, token, isEmpty, tokens);
        token := "";
      } else if c == '<' || c == '>' || c == '&' {
        i, tokens := StepRedirect(line, i, token, isEmpty, tokens);
        token := "";
      } else {
        token := StepOther(line, i, token, isEmpty, tokens);
        i := i + 1;
      }
    }
    if token != "" || isEmpty {
      tokens := AddToken(tokens, token);
    }
    return Ok(tokens);
  }
}
