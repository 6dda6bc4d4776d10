/**
 * Properties of the tokenizer of tokenizer.c.
 *
 * A command line is built from items (plain words, backslash-escaped
 * words, single- and double-quoted strings, control operators and
 * redirection operators) joined by single spaces; tokenizing such a line
 * gives back exactly the items' values, with the quotes and escapes
 * removed. Around that round trip: `$name` expansion, the two
 * unterminated-quote errors, and the effect of the `is_empty` flag on
 * operators written right after a quoted string.
 */
module TokenizerProps {
  import opened Wrappers
  import opened Tokenizer

  /** A character that the scanner appends to the pending token as it is. */
  predicate IsWordChar(c: char) {
    !IsSpace(c) && c !in "()!;&\\'\"$|<>"
  }

  predicate AllWordChars(w: string) {
    forall k :: 0 <= k < |w| ==> IsWordChar(w[k])
  }

  predicate AllNameChars(w: string) {
    forall k :: 0 <= k < |w| ==> IsNameChar(w[k])
  }

  /** One unit of a command line. */
  datatype Item =
    | Word(w: string)                               // written as it is
    | Escaped(w: string)                            // every character preceded by a backslash
    | SingleQ(w: string)                            // between single quotes
    | DoubleQ(w: string)                            // between double quotes, with backslash escapes
    | Operator(o: string)                           // ( ) ! ; & | ||
    | Redirect(fd: string, op: char, second: string) // [digit] (< | > | &) [> | &]

  predicate ValidItem(it: Item) {
    match it
    case Word(w) => w != [] && AllWordChars(w)
    case Escaped(w) => w != [] && '\n' !in w
    case SingleQ(w) => '\'' !in w
    case DoubleQ(_) => true
    case Operator(o) => o in ["(", ")", "!", ";", "&", "|", "||"]
    case Redirect(fd, op, second) =>
      (fd == "" || (|fd| == 1 && IsDigit(fd[0]))) &&
      (op == '<' || op == '>' || op == '&') &&
      (second == "" || second == ">" || second == "&") &&
      (op == '&' ==> second != "")
  }

  predicate ValidItems(items: seq<Item>) {
    forall k :: 0 <= k < |items| ==> ValidItem(items[k])
  }

  /** A backslash before each character. */
  function EscapeAll(w: string): (r: string)
    ensures |r| == 2 * |w|
  {
    if w == [] then [] else ['\\', w[0]] + EscapeAll(w[1..])
  }

  /** A backslash before each character that a backslash escapes inside double quotes. */
  function EscapeDq(w: string): string {
    if w == [] then []
    else (if IsDqEscapable(w[0]) then ['\\', w[0]] else [w[0]]) + EscapeDq(w[1..])
  }

  /** How an item is written on the command line. */
  function Encode(it: Item): string {
    match it
    case Word(w) => w
    case Escaped(w) => EscapeAll(w)
    case SingleQ(w) => ['\''] + w + ['\'']
    case DoubleQ(w) => ['"'] + EscapeDq(w) + ['"']
    case Operator(o) => o
    case Redirect(fd, op, second) => fd + [op] + second
  }

  /** The token an item stands for. */
  function Value(it: Item): string {
    match it
    case Word(w) => w
    case Escaped(w) => w
    case SingleQ(w) => w
    case DoubleQ(w) => w
    case Operator(o) => o
    case Redirect(fd, op, second) => fd + [op] + second
  }

  /** The items written one after the other, separated by single spaces. */
  function Join(items: seq<Item>): string {
    if items == [] then []
    else if |items| == 1 then Encode(items[0])
    else Encode(items[0]) + [' '] + Join(items[1..])
  }

  function Values(items: seq<Item>): (r: seq<string>)
    ensures |r| == |items|
    ensures forall k :: 0 <= k < |items| ==> r[k] == Value(items[k])
  {
    if items == [] then [] else [Value(items[0])] + Values(items[1..])
  }

  /** Scan of a non-empty line is one step followed by the scan of what the step leaves. */
  lemma ScanUnfold(s: seq<char>, st: State, env: map<string, string>, fixed: bool)
    requires s != []
    ensures Scan(s, st, env, fixed) ==
      match ScanStep(s, st, env, fixed)
      case Fail(e) => Err(e)
      case Next(rest, st') => Scan(rest, st', env, fixed)
  {
  }

  /** Ordinary characters are appended to the pending token. */
  lemma {:induction false} ScanWord(w: string, rest: seq<char>, st: State, env: map<string, string>, fixed: bool)
    requires AllWordChars(w)
    ensures Scan(w + rest, st, env, fixed)
         == Scan(rest, State(st.token + w, st.isEmpty, st.tokens), env, fixed)
  {
    if w == [] {
      assert w + rest == rest;
      assert st.token + w == st.token;
      assert State(st.token + w, st.isEmpty, st.tokens) == st;
    } else {
      var s := w + rest;
      assert s[0] == w[0] && s[1..] == w[1..] + rest;
      var st' := State(st.token + [w[0]], st.isEmpty, st.tokens);
      assert ScanStep(s, st, env, fixed) == Next(w[1..] + rest, st');
      ScanWord(w[1..], rest, st', env, fixed);
      assert st'.token + w[1..] == st.token + w;
    }
  }

  /** One escape: a backslash and a character other than a newline append that character. */
  lemma EscapedStep(c: char, tail: seq<char>, st: State, env: map<string, string>, fixed: bool)
    requires c != '\n'
    ensures Scan(['\\', c] + tail, st, env, fixed)
         == Scan(tail, State(st.token + [c], st.isEmpty, st.tokens), env, fixed)
  {
    var s := ['\\', c] + tail;
    assert s[0] == '\\' && s[1] == c && s[2..] == tail;
    assert ScanStep(s, st, env, fixed) == Next(tail, State(st.token + [c], st.isEmpty, st.tokens));
    ScanUnfold(s, st, env, fixed);
  }

  /** A backslash makes the next character (other than a newline) part of the token. */
  lemma {:induction false} ScanEscaped(w: string, rest: seq<char>, st: State, env: map<string, string>, fixed: bool)
    requires '\n' !in w
    ensures Scan(EscapeAll(w) + rest, st, env, fixed)
         == Scan(rest, State(st.token + w, st.isEmpty, st.tokens), env, fixed)
  {
    if w == [] {
      assert EscapeAll(w) + rest == rest;
      assert st.token + w == st.token;
      assert State(st.token + w, st.isEmpty, st.tokens) == st;
    } else {
      var tail := EscapeAll(w[1..]) + rest;
      assert EscapeAll(w) + rest == ['\\', w[0]] + tail;
      assert w[0] != '\n' by { assert w[0] in w; }
      EscapedStep(w[0], tail, st, env, fixed);
      var st' := State(st.token + [w[0]], st.isEmpty, st.tokens);
      assert '\n' !in w[1..] by {
        forall k | 0 <= k < |w[1..]| ensures w[1..][k] != '\n' {
          assert w[1..][k] == w[k + 1];
        }
      }
      ScanEscaped(w[1..], rest, st', env, fixed);
      assert st'.token + w[1..] == st.token + w;
    }
  }

  /** The body of a single-quoted string ends at the first single quote. */
  lemma {:induction false} SingleQuotedBody(w: string, rest: seq<char>, token: string)
    requires '\'' !in w
    ensures SingleQuoted(w + ['\''] + rest, token) == Some((token + w, rest))
  {
    var s := w + ['\''] + rest;
    if w == [] {
      assert s == ['\''] + rest;
      assert token + w == token;
    } else {
      assert s[0] == w[0] && s[1..] == w[1..] + ['\''] + rest;
      assert w[0] != '\'' by { assert w[0] in w; }
      assert '\'' !in w[1..] by {
        forall k | 0 <= k < |w[1..]| ensures w[1..][k] != '\'' {
          assert w[1..][k] == w[k + 1];
        }
      }
      SingleQuotedBody(w[1..], rest, token + [w[0]]);
      assert token + [w[0]] + w[1..] == token + w;
    }
  }

  /** Without a closing quote the single-quoted string runs to the end of the line. */
  lemma {:induction false} SingleQuotedOpen(w: string, token: string)
    requires '\'' !in w
    ensures SingleQuoted(w, token).None?
  {
    if w != [] {
      assert w[0] != '\'' by { assert w[0] in w; }
      assert '\'' !in w[1..] by {
        forall k | 0 <= k < |w[1..]| ensures w[1..][k] != '\'' {
          assert w[1..][k] == w[k + 1];
        }
      }
      SingleQuotedOpen(w[1..], token + [w[0]]);
    }
  }

  /** An EscapeDq-escaped text at the start of a double-quoted body is read back as that text, whatever follows. */
  lemma {:induction false} DoubleQuotedPrefix(w: string, tail: seq<char>, token: string)
    ensures DoubleQuoted(EscapeDq(w) + tail, token) == DoubleQuoted(tail, token + w)
  {
    var s := EscapeDq(w) + tail;
    if w == [] {
      assert s == tail;
      assert token + w == token;
    } else {
      var tail' := EscapeDq(w[1..]) + tail;
      if IsDqEscapable(w[0]) {
        assert s == ['\\', w[0]] + tail';
        assert s[0] == '\\' && Peek(s, 1) == w[0] && s[1] == w[0] && s[2..] == tail';
      } else {
        assert s == [w[0]] + tail';
        assert s[0] == w[0] && s[1..] == tail';
      }
      DoubleQuotedPrefix(w[1..], tail, token + [w[0]]);
      assert token + [w[0]] + w[1..] == token + w;
    }
  }

  /** Escaping with EscapeDq, the body of a double-quoted string gives back the text. */
  lemma DoubleQuotedBody(w: string, rest: seq<char>, token: string)
    ensures DoubleQuoted(EscapeDq(w) + ['"'] + rest, token) == Some((token + w, rest))
  {
    assert EscapeDq(w) + ['"'] + rest == EscapeDq(w) + (['"'] + rest);
    DoubleQuotedPrefix(w, ['"'] + rest, token);
    assert (['"'] + rest)[0] == '"' && (['"'] + rest)[1..] == rest;
  }

  /** Without a closing quote the double-quoted string runs to the end of the line. */
  lemma {:induction false} DoubleQuotedOpen(w: string, token: string)
    requires '"' !in w
    ensures DoubleQuoted(w, token).None?
    decreases |w|
  {
    if w != [] {
      assert w[0] != '"' by { assert w[0] in w; }
      var n := if w[0] == '\\' && IsDqEscapable(Peek(w, 1)) then 2 else 1;
      assert '"' !in w[n..] by {
        forall k | 0 <= k < |w[n..]| ensures w[n..][k] != '"' {
          assert w[n..][k] == w[k + n];
        }
      }
      DoubleQuotedOpen(w[n..], token + [w[n - 1]]);
    }
  }

  /** The state after an item and before the space that ends it. */
  function After(it: Item, acc: seq<string>): State {
    match it
    case Word(w) => State(w, false, acc)
    case Escaped(w) => State(w, false, acc)
    case SingleQ(w) => State(w, true, acc)
    case DoubleQ(w) => State(w, true, acc)
    case Operator(o) => State("", false, acc + [o])
    case Redirect(fd, op, second) => State("", false, acc + [fd + [op] + second])
  }

  /** A single-quoted item: the quoted text becomes the pending token, marked as quoted. */
  lemma ScanSingleQ(w: string, rest: seq<char>, st: State, env: map<string, string>, fixed: bool)
    requires '\'' !in w
    ensures Scan(['\''] + w + ['\''] + rest, st, env, fixed)
         == Scan(rest, State(st.token + w, true, st.tokens), env, fixed)
  {
    var s := ['\''] + w + ['\''] + rest;
    assert s[0] == '\'' && s[1..] == w + ['\''] + rest;
    SingleQuotedBody(w, rest, st.token);
    ScanUnfold(s, st, env, fixed);
  }

  /** A double-quoted item: the unescaped text becomes the pending token, marked as quoted. */
  lemma ScanDoubleQ(w: string, rest: seq<char>, st: State, env: map<string, string>, fixed: bool)
    ensures Scan(['"'] + EscapeDq(w) + ['"'] + rest, st, env, fixed)
         == Scan(rest, State(st.token + w, true, st.tokens), env, fixed)
  {
    var s := ['"'] + EscapeDq(w) + ['"'] + rest;
    assert s[0] == '"' && s[1..] == EscapeDq(w) + ['"'] + rest;
    DoubleQuotedBody(w, rest, st.token);
    ScanUnfold(s, st, env, fixed);
  }

  /** A control operator other than `&`, read at the start of a word. */
  lemma ScanOperator(o: string, rest: seq<char>, acc: seq<string>, env: map<string, string>, fixed: bool)
    requires o in ["(", ")", "!", ";", "|", "||"]
    requires rest == [] || rest[0] == ' '
    ensures Scan(o + rest, State("", false, acc), env, fixed) == Scan(rest, State("", false, acc + [o]), env, fixed)
  {
    var s := o + rest;
    assert s[0] == o[0] && s[1..] == o[1..] + rest;
    if o == "||" {
      assert Peek(s, 1) == '|' && s[2..] == rest;
    } else {
      assert |o| == 1 && s[1..] == rest && [o[0]] == o;
      assert Peek(s, 1) != '|';
    }
    ScanUnfold(s, State("", false, acc), env, fixed);
  }

  /** A redirection operator, read at the start of a word: its digit prefix is kept with it. */
  lemma ScanRedirect(fd: string, op: char, second: string, rest: seq<char>, acc: seq<string>, env: map<string, string>, fixed: bool)
    requires ValidItem(Redirect(fd, op, second))
    requires rest == [] || rest[0] == ' '
    ensures Scan(fd + [op] + second + rest, State("", false, acc), env, fixed)
         == Scan(rest, State("", false, acc + [fd + [op] + second]), env, fixed)
  {
    var s1 := [op] + second + rest;
    assert fd + [op] + second + rest == fd + s1;
    assert AllWordChars(fd);
    ScanWord(fd, s1, State("", false, acc), env, fixed);
    assert "" + fd == fd;
    RedirectStep(fd, op, second, rest, acc, env, fixed);
    ScanUnfold(s1, State(fd, false, acc), env, fixed);
  }

  lemma RedirectStep(fd: string, op: char, second: string, rest: seq<char>, acc: seq<string>, env: map<string, string>, fixed: bool)
    requires ValidItem(Redirect(fd, op, second))
    requires rest == [] || rest[0] == ' '
    ensures ScanStep([op] + second + rest, State(fd, false, acc), env, fixed)
         == Next(rest, State("", false, acc + [fd + [op] + second]))
  {
    var s1 := [op] + second + rest;
    assert s1[0] == op && !IsSpace(op) && op !in "()!;\\'\"$|";
    if second != "" {
      assert Peek(s1, 1) == second[0] && s1[1] == second[0] && s1[2..] == rest;
      assert fd + [op] + [s1[1]] == fd + [op] + second;
    } else {
      assert op != '&' && s1[1..] == rest && Peek(s1, 1) != '>' && Peek(s1, 1) != '&';
      assert fd + [op] + [] == fd + [op] + second;
    }
  }

  /** Scanning an item other than `&` from the start of a word leaves the state After. */
  lemma ScanItem(it: Item, rest: seq<char>, acc: seq<string>, env: map<string, string>, fixed: bool)
    requires ValidItem(it) && it != Operator("&")
    requires rest == [] || rest[0] == ' '
    ensures Scan(Encode(it) + rest, State("", false, acc), env, fixed) == Scan(rest, After(it, acc), env, fixed)
  {
    var st := State("", false, acc);
    match it
    case Word(w) =>
      ScanWord(w, rest, st, env, fixed);
      assert "" + w == w;
    case Escaped(w) =>
      ScanEscaped(w, rest, st, env, fixed);
      assert "" + w == w;
    case SingleQ(w) =>
      ScanSingleQ(w, rest, st, env, fixed);
      assert "" + w == w;
    case DoubleQ(w) =>
      ScanDoubleQ(w, rest, st, env, fixed);
      assert "" + w == w;
    case Operator(o) =>
      ScanOperator(o, rest, acc, env, fixed);
    case Redirect(fd, op, second) =>
      ScanRedirect(fd, op, second, rest, acc, env, fixed);
  }

  /** An item followed by a space: its value is emitted and the next word starts fresh. */
  lemma ScanItemSpace(it: Item, rest: seq<char>, acc: seq<string>, env: map<string, string>, fixed: bool)
    requires ValidItem(it)
    ensures Scan(Encode(it) + [' '] + rest, State("", false, acc), env, fixed)
         == Scan(rest, State("", false, acc + [Value(it)]), env, fixed)
  {
    var s := Encode(it) + [' '] + rest;
    if it == Operator("&") {
      assert s == ['&', ' '] + rest;
      assert s[0] == '&' && Peek(s, 1) == ' ' && s[2..] == rest;
      ScanUnfold(s, State("", false, acc), env, fixed);
    } else {
      assert s == Encode(it) + ([' '] + rest);
      ScanItem(it, [' '] + rest, acc, env, fixed);
      var sp := [' '] + rest;
      assert sp[1..] == rest;
      ScanUnfold(sp, After(it, acc), env, fixed);
    }
  }

  /** An item at the end of the line: its value is the last token. */
  lemma ScanItemEnd(it: Item, acc: seq<string>, env: map<string, string>, fixed: bool)
    requires ValidItem(it)
    ensures Scan(Encode(it), State("", false, acc), env, fixed) == Ok(acc + [Value(it)])
  {
    if it == Operator("&") {
      var s := Encode(it);
      assert s == "&" && Peek(s, 1) == '\0' && s[1..] == [];
      assert "" + [s[0]] + [] == "&";
      assert ScanStep(s, State("", false, acc), env, fixed) == Next([], State("", false, acc + ["&"]));
      ScanUnfold(s, State("", false, acc), env, fixed);
    } else {
      ScanItem(it, [], acc, env, fixed);
      assert Encode(it) + [] == Encode(it);
    }
  }

  lemma ValidItemsTail(items: seq<Item>)
    requires items != [] && ValidItems(items)
    ensures ValidItem(items[0]) && ValidItems(items[1..])
  {
    forall k | 0 <= k < |items[1..]| ensures ValidItem(items[1..][k]) {
      assert items[1..][k] == items[k + 1];
    }
  }

  /** A line of items followed by a space and more text emits the items' values first. */
  lemma {:induction false} ScanJoin(items: seq<Item>, rest: seq<char>, acc: seq<string>, env: map<string, string>, fixed: bool)
    requires ValidItems(items)
    ensures Scan(Join(items) + [' '] + rest, State("", false, acc), env, fixed)
         == Scan(rest, State("", false, acc + Values(items)), env, fixed)
  {
    if items == [] {
      var s := [' '] + rest;
      assert Join(items) + [' '] + rest == s && s[1..] == rest;
      ScanUnfold(s, State("", false, acc), env, fixed);
      assert acc + Values(items) == acc;
    } else if |items| == 1 {
      ScanItemSpace(items[0], rest, acc, env, fixed);
      assert Values(items) == [Value(items[0])];
    } else {
      var tail := Join(items[1..]) + [' '] + rest;
      assert Join(items) + [' '] + rest == Encode(items[0]) + [' '] + tail;
      ScanItemSpace(items[0], tail, acc, env, fixed);
      ValidItemsTail(items);
      ScanJoin(items[1..], rest, acc + [Value(items[0])], env, fixed);
      assert Values(items) == [Value(items[0])] + Values(items[1..]);
      assert acc + [Value(items[0])] + Values(items[1..]) == acc + Values(items);
    }
  }

  /** A line of items emits exactly the items' values. */
  lemma {:induction false} ScanJoinEnd(items: seq<Item>, acc: seq<string>, env: map<string, string>, fixed: bool)
    requires ValidItems(items)
    ensures Scan(Join(items), State("", false, acc), env, fixed) == Ok(acc + Values(items))
  {
    if items == [] {
      assert acc + Values(items) == acc;
    } else if |items| == 1 {
      assert Values(items) == [Value(items[0])];
      assert Join(items) == Encode(items[0]);
      assert Scan(Encode(items[0]), State("", false, acc), env, fixed) == Ok(acc + [Value(items[0])]) by {
        ScanItemEnd(items[0], acc, env, fixed);
      }
    } else {
      var tail := Join(items[1..]);
      var acc' := acc + [Value(items[0])];
      assert Join(items) == Encode(items[0]) + [' '] + tail;
      ValidItemsTail(items);
      assert Values(items) == [Value(items[0])] + Values(items[1..]);
      assert acc' + Values(items[1..]) == acc + Values(items);
      assert Scan(tail, State("", false, acc'), env, fixed) == Ok(acc' + Values(items[1..])) by {
        ScanJoinEnd(items[1..], acc', env, fixed);
      }
      assert Scan(Encode(items[0]) + [' '] + tail, State("", false, acc), env, fixed)
          == Scan(tail, State("", false, acc'), env, fixed) by {
        ScanItemSpace(items[0], tail, acc, env, fixed);
      }
    }
  }

  /**
   * Round trip: tokenizing items written with their quotes and escapes and
   * separated by spaces gives back their values, in the code as written
   * and in the corrected tokenizer alike, whatever the environment.
   */
  lemma TokenizeJoin(items: seq<Item>, env: map<string, string>)
    requires ValidItems(items)
    ensures Tokenize(Join(items), env) == Ok(Values(items))
    ensures TokenizeCorrected(Join(items), env) == Ok(Values(items))
  {
    ScanJoinEnd(items, [], env, false);
    ScanJoinEnd(items, [], env, true);
    assert [] + Values(items) == Values(items);
  }

  /** An opening single quote with no closing one rejects the line, whatever the scanner state before it. */
  lemma UnterminatedSingleQuoteRejected(w: string, st: State, env: map<string, string>, fixed: bool)
    requires '\'' !in w
    ensures Scan(['\''] + w, st, env, fixed) == Err(UnterminatedSingleQuote)
  {
    assert (['\''] + w)[0] == '\'' && (['\''] + w)[1..] == w;
    SingleQuotedOpen(w, st.token);
    ScanUnfold(['\''] + w, st, env, fixed);
  }

  /**
   * An opening double quote with no closing one rejects the line, whatever
   * the scanner state before it: the body may hold any text escaped as
   * EscapeDq does (escaped double quotes included), followed by any text
   * without a double quote.
   */
  lemma UnterminatedDoubleQuoteRejected(v: string, w: string, st: State, env: map<string, string>, fixed: bool)
    requires '"' !in w
    ensures Scan(['"'] + EscapeDq(v) + w, st, env, fixed) == Err(UnterminatedDoubleQuote)
  {
    var s := ['"'] + EscapeDq(v) + w;
    assert s[0] == '"' && s[1..] == EscapeDq(v) + w;
    DoubleQuotedPrefix(v, w, st.token);
    DoubleQuotedOpen(w, st.token + v);
    ScanUnfold(s, st, env, fixed);
  }

  /** `$name` appends the variable's value to the pending token (nothing when it is unset). */
  lemma ScanDollar(name: string, rest: seq<char>, st: State, env: map<string, string>, fixed: bool)
    requires AllNameChars(name)
    requires rest == [] || !IsNameChar(rest[0])
    ensures Scan(['$'] + name + rest, st, env, fixed)
         == Scan(rest, State(st.token + Expansion(env, name), st.isEmpty, st.tokens), env, fixed)
  {
    var s := ['$'] + name + rest;
    NameLenPrefix(name, rest);
    assert s[1..] == name + rest;
    assert s[1..][..|name|] == name && s[1 + |name|..] == rest;
    ScanUnfold(s, st, env, fixed);
  }

  lemma {:induction false} NameLenPrefix(name: string, rest: seq<char>)
    requires AllNameChars(name)
    requires rest == [] || !IsNameChar(rest[0])
    ensures NameLen(name + rest) == |name|
  {
    if name == [] {
      assert name + rest == rest;
    } else {
      var s := name + rest;
      assert s[0] == name[0] && s[1..] == name[1..] + rest;
      assert AllNameChars(name[1..]) by {
        forall k | 0 <= k < |name[1..]| ensures IsNameChar(name[1..][k]) {
          assert name[1..][k] == name[k + 1];
        }
      }
      NameLenPrefix(name[1..], rest);
    }
  }

  /** A line `$name`: the value as the only token when set and non-empty, no token otherwise. */
  lemma TokenizeVariable(name: string, env: map<string, string>)
    requires AllNameChars(name)
    ensures name != "" && name in env && env[name] != "" ==> Tokenize(['$'] + name, env) == Ok([env[name]])
    ensures name == "" || name !in env || env[name] == "" ==> Tokenize(['$'] + name, env) == Ok([])
  {
    ScanDollar(name, [], Start, env, false);
    assert ['$'] + name + [] == ['$'] + name;
    var v := Expansion(env, name);
    assert "" + v == v;
    assert Tokenize(['$'] + name, env) == Ok(Flush([], v, false));
    if name != "" && name in env {
      assert v == env[name];
      assert AddToken([], v) == [v];
    }
  }

  /** A line of blanks emits no token. */
  lemma {:induction false} BlankScan(s: seq<char>, acc: seq<string>, env: map<string, string>, fixed: bool)
    requires forall k :: 0 <= k < |s| ==> IsSpace(s[k])
    ensures Scan(s, State("", false, acc), env, fixed) == Ok(acc)
    decreases |s|
  {
    if s != [] {
      assert IsSpace(s[0]);
      assert ScanStep(s, State("", false, acc), env, fixed) == Next(s[1..], State("", false, acc));
      ScanUnfold(s, State("", false, acc), env, fixed);
      assert forall k :: 0 <= k < |s[1..]| ==> s[1..][k] == s[k + 1];
      BlankScan(s[1..], acc, env, fixed);
    }
  }

  /** An array holding the tokens and then a NULL reads back as those tokens. */
  lemma {:induction false} ReadToNullOf(a: seq<Option<string>>, tokens: seq<string>)
    requires |tokens| < |a| && a[|tokens|].None?
    requires forall k :: 0 <= k < |tokens| ==> a[k] == Some(tokens[k])
    ensures ReadToNull(a) == Some(tokens)
    decreases |tokens|
  {
    if tokens != [] {
      assert a[0] == Some(tokens[0]);
      assert forall k :: 0 <= k < |tokens| - 1 ==> a[1..][k] == a[k + 1];
      ReadToNullOf(a[1..], tokens[1..]);
      assert [tokens[0]] + tokens[1..] == tokens;
    }
  }

  /** Walking the stored array up to its NULL gives back the tokens, unless add_token never ran. */
  lemma WrittenReads(tokens: seq<string>)
    ensures ReadToNull(Written(tokens)) == if tokens == [] then None else Some(tokens)
  {
    if tokens != [] {
      ReadToNullOf(Written(tokens), tokens);
    }
  }

  /**
   * As written, the array parseline returns for a line it accepts holds a
   * NULL exactly when the line emits at least one token; a caller walking
   * it then reads exactly the tokens, and otherwise runs off it.
   */
  lemma ReturnedArrayAsWritten(line: seq<char>, env: map<string, string>)
    ensures Tokenize(line, env).Ok? ==>
      var ts := Tokenize(line, env).value;
      (ReadToNull(Written(ts)).None? <==> ts == []) && (ts != [] ==> ReadToNull(Written(ts)) == Some(ts))
  {
    if Tokenize(line, env).Ok? {
      WrittenReads(Tokenize(line, env).value);
    }
  }

  /** As written, the empty line and a line of blanks give back an array with no NULL. */
  lemma BlankLineUnterminated(line: seq<char>, env: map<string, string>)
    requires forall k :: 0 <= k < |line| ==> IsSpace(line[k])
    ensures Tokenize(line, env) == Ok([]) && ReadToNull(Written([])) == None
  {
    BlankScan(line, [], env, false);
  }

  /** As written, a line `$name` whose expansion is empty gives back an array with no NULL. */
  lemma UnsetVariableUnterminated(name: string, env: map<string, string>)
    requires AllNameChars(name) && (name == "" || name !in env || env[name] == "")
    ensures Tokenize(['$'] + name, env) == Ok([]) && ReadToNull(Written([])) == None
  {
    TokenizeVariable(name, env);
  }

  /** parseline storing a NULL in the fresh array before the scan: the add_token calls then overwrite it. */
  function WrittenCorrected(tokens: seq<string>): seq<Option<string>> {
    if tokens == [] then [None] else Written(tokens)
  }

  /** With that NULL stored first, walking the array reads back exactly the tokens, none included. */
  lemma ReturnedArrayCorrected(tokens: seq<string>)
    ensures ReadToNull(WrittenCorrected(tokens)) == Some(tokens)
  {
    WrittenReads(tokens);
  }

  /** Outside quotes a backslash-newline pair disappears, leaving the pending token as it was. */
  lemma BackslashNewlineDropped(rest: seq<char>, st: State, env: map<string, string>, fixed: bool)
    ensures Scan(['\\', '\n'] + rest, st, env, fixed) == Scan(rest, st, env, fixed)
  {
    var s := ['\\', '\n'] + rest;
    assert s[2..] == rest;
    ScanUnfold(s, st, env, fixed);
  }

  /**
   * `(`, `)`, `!` and `;` emit the pending token if it has characters or a
   * quote, then become a one-character token of their own.
   */
  lemma PunctuationEndsWord(c: char, rest: seq<char>, st: State, env: map<string, string>, fixed: bool)
    requires c == '(' || c == ')' || c == '!' || c == ';'
    ensures Scan([c] + rest, st, env, fixed)
         == Scan(rest, State("", false, Flush(st.tokens, st.token, st.isEmpty) + [[c]]), env, fixed)
  {
    var s := [c] + rest;
    assert s[1..] == rest;
    ScanUnfold(s, st, env, fixed);
  }

  /** The operators that end a pending word in the `|` and `< > &` branches. */
  predicate WordEndingOperator(o: string) {
    o in ["|", "||", "<", ">", ">>", "<&", ">&", "&&", "&>"]
  }

  /**
   * The tokens an operator branch leaves before the operator itself: the
   * corrected tokenizer emits a pending quoted empty string too, the code
   * as written only a pending token with characters.
   */
  function OperatorFlush(acc: seq<string>, t: string, e: bool, fixed: bool): seq<string> {
    if fixed then Flush(acc, t, e) else if t != "" then acc + [t] else acc
  }

  /** One step over `|` or `||`. */
  lemma PipeOperatorStep(t: string, e: bool, acc: seq<string>, o: string, rest: seq<char>, env: map<string, string>, fixed: bool)
    requires o == "|" || o == "||"
    requires rest == [] || rest[0] == ' '
    ensures ScanStep(o + rest, State(t, e, acc), env, fixed) == Next(rest, State("", e && !fixed, OperatorFlush(acc, t, e, fixed) + [o]))
  {
    var s := o + rest;
    if o == "||" {
      assert s[0] == '|' && Peek(s, 1) == '|' && s[2..] == rest;
    } else {
      assert s[0] == '|' && Peek(s, 1) != '|' && s[1..] == rest;
    }
  }

  /** One step over a one-character redirection operator. */
  lemma RedirectOperatorStep1(t: string, e: bool, acc: seq<string>, c: char, rest: seq<char>, env: map<string, string>, fixed: bool)
    requires c == '<' || c == '>'
    requires !(|t| == 1 && IsDigit(t[0]))
    requires rest == [] || rest[0] == ' '
    ensures ScanStep([c] + rest, State(t, e, acc), env, fixed) == Next(rest, State("", e && !fixed, OperatorFlush(acc, t, e, fixed) + [[c]]))
  {
    var s := [c] + rest;
    assert s[0] == c && s[1..] == rest && Peek(s, 1) != '>' && Peek(s, 1) != '&';
    assert "" + [c] + [] == [c];
  }

  /** One step over a two-character redirection operator. */
  lemma RedirectOperatorStep2(t: string, e: bool, acc: seq<string>, c: char, d: char, rest: seq<char>, env: map<string, string>, fixed: bool)
    requires c in "<>&" && d in ">&" && !(c == '<' && d == '>')
    requires !(|t| == 1 && IsDigit(t[0]))
    requires rest == [] || rest[0] == ' '
    ensures ScanStep([c, d] + rest, State(t, e, acc), env, fixed) == Next(rest, State("", e && !fixed, OperatorFlush(acc, t, e, fixed) + [[c, d]]))
  {
    var s := [c, d] + rest;
    assert s[0] == c && s[1] == d && Peek(s, 1) == d && s[2..] == rest;
    assert "" + [c] + [d] == [c, d];
  }

  /**
   * One step over such an operator: the pending token is emitted (as
   * OperatorFlush says), then the operator; the code as written keeps
   * is_empty, the corrected tokenizer clears it.
   */
  lemma OperatorStep(t: string, e: bool, acc: seq<string>, o: string, rest: seq<char>, env: map<string, string>, fixed: bool)
    requires WordEndingOperator(o)
    requires o[0] == '|' || !(|t| == 1 && IsDigit(t[0]))
    requires rest == [] || rest[0] == ' '
    ensures ScanStep(o + rest, State(t, e, acc), env, fixed) == Next(rest, State("", e && !fixed, OperatorFlush(acc, t, e, fixed) + [o]))
  {
    if o == "|" || o == "||" {
      PipeOperatorStep(t, e, acc, o, rest, env, fixed);
    } else if |o| == 1 {
      assert o == [o[0]];
      RedirectOperatorStep1(t, e, acc, o[0], rest, env, fixed);
    } else {
      assert o == [o[0], o[1]];
      RedirectOperatorStep2(t, e, acc, o[0], o[1], rest, env, fixed);
    }
  }

  /** An operator ends a pending word in the corrected tokenizer. */
  lemma OperatorAfterWord(t: string, e: bool, acc: seq<string>, o: string, rest: seq<char>, env: map<string, string>)
    requires t != "" || e
    requires WordEndingOperator(o)
    requires o[0] == '|' || !(|t| == 1 && IsDigit(t[0]))
    requires rest == [] || rest[0] == ' '
    ensures Scan(o + rest, State(t, e, acc), env, true) == Scan(rest, State("", false, acc + [t, o]), env, true)
  {
    OperatorStep(t, e, acc, o, rest, env, true);
    assert OperatorFlush(acc, t, e, true) + [o] == acc + [t, o];
    ScanUnfold(o + rest, State(t, e, acc), env, true);
  }

  /** A space, then an operator, after a pending word in the corrected tokenizer. */
  lemma OperatorAfterSpace(t: string, e: bool, acc: seq<string>, o: string, rest: seq<char>, env: map<string, string>)
    requires t != "" || e
    requires WordEndingOperator(o)
    requires rest == [] || rest[0] == ' '
    ensures Scan([' '] + o + rest, State(t, e, acc), env, true) == Scan(o + rest, State("", false, acc + [t]), env, true)
  {
    var sp := [' '] + o + rest;
    assert sp[0] == ' ' && sp[1..] == o + rest;
    assert ScanStep(sp, State(t, e, acc), env, true) == Next(o + rest, State("", false, acc + [t]));
    ScanUnfold(sp, State(t, e, acc), env, true);
  }

  /** An operator read at the start of a word. */
  lemma OperatorAtWordStart(t: string, acc: seq<string>, o: string, rest: seq<char>, env: map<string, string>)
    requires WordEndingOperator(o)
    requires rest == [] || rest[0] == ' '
    ensures Scan(o + rest, State("", false, acc + [t]), env, true) == Scan(rest, State("", false, acc + [t, o]), env, true)
  {
    OperatorStep("", false, acc + [t], o, rest, env, true);
    assert OperatorFlush(acc + [t], "", false, true) + [o] == acc + [t, o];
    ScanUnfold(o + rest, State("", false, acc + [t]), env, true);
  }

  /**
   * In the corrected tokenizer an operator ends the pending word, whether
   * it has characters or is a quoted empty string, and the next word starts
   * fresh: the operator reads the same with or without a space before it.
   */
  lemma CorrectedOperatorEndsWord(t: string, e: bool, acc: seq<string>, o: string, rest: seq<char>, env: map<string, string>)
    requires t != "" || e
    requires WordEndingOperator(o)
    requires o[0] == '|' || !(|t| == 1 && IsDigit(t[0]))
    requires rest == [] || rest[0] == ' '
    ensures Scan(o + rest, State(t, e, acc), env, true) == Scan(rest, State("", false, acc + [t, o]), env, true)
    ensures Scan([' '] + o + rest, State(t, e, acc), env, true) == Scan(rest, State("", false, acc + [t, o]), env, true)
  {
    OperatorAfterWord(t, e, acc, o, rest, env);
    OperatorAfterSpace(t, e, acc, o, rest, env);
    OperatorAtWordStart(t, acc, o, rest, env);
  }

  /**
   * As written, an operator after a pending quoted word leaves is_empty set:
   * only a pending token with characters is emitted before the operator,
   * and the space after the operator then emits an empty token.
   */
  lemma OperatorAsWritten(t: string, acc: seq<string>, o: string, rest: seq<char>, env: map<string, string>)
    requires WordEndingOperator(o)
    requires o[0] == '|' || !(|t| == 1 && IsDigit(t[0]))
    ensures Scan(o + [' '] + rest, State(t, true, acc), env, false)
         == Scan(rest, State("", false, (if t != "" then acc + [t] else acc) + [o, ""]), env, false)
  {
    var acc' := (if t != "" then acc + [t] else acc) + [o];
    assert Scan(o + ([' '] + rest), State(t, true, acc), env, false) == Scan([' '] + rest, State("", true, acc'), env, false) by {
      OperatorStep(t, true, acc, o, [' '] + rest, env, false);
      ScanUnfold(o + ([' '] + rest), State(t, true, acc), env, false);
    }
    assert o + [' '] + rest == o + ([' '] + rest);
    assert Scan([' '] + rest, State("", true, acc'), env, false) == Scan(rest, State("", false, acc' + [""]), env, false) by {
      assert ([' '] + rest)[1..] == rest;
      ScanUnfold([' '] + rest, State("", true, acc'), env, false);
    }
    assert acc' + [""] == (if t != "" then acc + [t] else acc) + [o, ""];
  }

  /** The `&`+space step: the pending token and `&` are emitted, the space is skipped, and as written is_empty stays as it was. */
  lemma AmpersandStep(t: string, e: bool, acc: seq<string>, rest: seq<char>, env: map<string, string>, fixed: bool)
    ensures Scan(['&', ' '] + rest, State(t, e, acc), env, fixed)
         == Scan(rest, State("", e && !fixed, Flush(acc, t, e) + ["&"]), env, fixed)
  {
    var s := ['&', ' '] + rest;
    assert s[0] == '&' && Peek(s, 1) == ' ' && s[2..] == rest;
    assert ScanStep(s, State(t, e, acc), env, fixed) == Next(rest, State("", e && !fixed, Flush(acc, t, e) + ["&"]));
    ScanUnfold(s, State(t, e, acc), env, fixed);
  }

  /**
   * As written, `&`+space after a quoted word keeps is_empty set, so the
   * next separator emits an empty token first: `'w'& ;` reads as
   * `w`, `&`, "", `;`.
   */
  lemma AmpersandAsWritten(t: string, acc: seq<string>, rest: seq<char>, env: map<string, string>)
    ensures Scan(['&', ' ', ';'] + rest, State(t, true, acc), env, false)
         == Scan(rest, State("", false, acc + [t, "&", "", ";"]), env, false)
  {
    assert ['&', ' ', ';'] + rest == ['&', ' '] + ([';'] + rest);
    AmpersandStep(t, true, acc, [';'] + rest, env, false);
    PunctuationEndsWord(';', rest, State("", true, acc + [t] + ["&"]), env, false);
    assert Flush(acc + [t] + ["&"], "", true) + [[';']] == acc + [t, "&", "", ";"];
  }

  /** In the corrected tokenizer `&`+space clears is_empty: `'w'& ;` reads as `w`, `&`, `;`. */
  lemma AmpersandCorrected(t: string, acc: seq<string>, rest: seq<char>, env: map<string, string>)
    ensures Scan(['&', ' ', ';'] + rest, State(t, true, acc), env, true)
         == Scan(rest, State("", false, acc + [t, "&", ";"]), env, true)
  {
    assert ['&', ' ', ';'] + rest == ['&', ' '] + ([';'] + rest);
    AmpersandStep(t, true, acc, [';'] + rest, env, true);
    PunctuationEndsWord(';', rest, State("", false, acc + [t] + ["&"]), env, true);
    assert Flush(acc + [t] + ["&"], "", false) + [[';']] == acc + [t, "&", ";"];
  }

  /**
   * As written, a quoted word right before `|` leaves is_empty set across
   * the operator: the space after it emits an empty argument, so `'w'| b`
   * gives b's command an extra "" argument.
   */
  lemma QuotedWordBeforePipe(w: string, items: seq<Item>, env: map<string, string>)
    requires w != "" && '\'' !in w && ValidItems(items)
    ensures Tokenize(['\''] + w + ['\'', '|', ' '] + Join(items), env) == Ok([w, "|", ""] + Values(items))
  {
    var rest := ['|', ' '] + Join(items);
    assert ['\''] + w + ['\'', '|', ' '] + Join(items) == ['\''] + w + ['\''] + rest;
    ScanSingleQ(w, rest, Start, env, false);
    assert "" + w == w;
    OperatorAsWritten(w, [], "|", Join(items), env);
    assert "|" + [' '] + Join(items) == ['|', ' '] + Join(items);
    assert [] + [w] + ["|", ""] == [w, "|", ""];
    ScanJoinEnd(items, [w, "|", ""], env, false);
  }

  /** As written, the quoted empty string of `''| b` is emitted after the `|`, as an argument of b's command. */
  lemma EmptyQuoteBeforePipe(items: seq<Item>, env: map<string, string>)
    requires ValidItems(items)
    ensures Tokenize(['\'', '\'', '|', ' '] + Join(items), env) == Ok(["|", ""] + Values(items))
  {
    var rest := ['|', ' '] + Join(items);
    assert ['\'', '\'', '|', ' '] + Join(items) == ['\''] + [] + ['\''] + rest;
    ScanSingleQ([], rest, Start, env, false);
    assert "" + [] == "";
    OperatorAsWritten("", [], "|", Join(items), env);
    assert "|" + [' '] + Join(items) == ['|', ' '] + Join(items);
    assert [] + ["|", ""] == ["|", ""];
    ScanJoinEnd(items, ["|", ""], env, false);
  }

  /** The pipe step of the corrected tokenizer from a pending word. */
  lemma PipeCorrected(t: string, e: bool, acc: seq<string>, rest: seq<char>, env: map<string, string>)
    requires t != "" || e
    ensures Scan(['|', ' '] + rest, State(t, e, acc), env, true)
         == Scan(rest, State("", false, acc + [t, "|"]), env, true)
  {
    var s := ['|', ' '] + rest;
    var acc' := acc + [t, "|"];
    assert Scan(s, State(t, e, acc), env, true) == Scan([' '] + rest, State("", false, acc'), env, true) by {
      assert s[0] == '|' && Peek(s, 1) == ' ' && s[1..] == [' '] + rest;
      assert Flush(acc, t, e) + ["|"] == acc';
      assert ScanStep(s, State(t, e, acc), env, true) == Next([' '] + rest, State("", false, acc'));
      ScanUnfold(s, State(t, e, acc), env, true);
    }
    assert Scan([' '] + rest, State("", false, acc'), env, true) == Scan(rest, State("", false, acc'), env, true) by {
      assert ([' '] + rest)[1..] == rest;
      ScanUnfold([' '] + rest, State("", false, acc'), env, true);
    }
  }

  /** The corrected tokenizer on `'w'| ` followed by items. */
  lemma QuotedWordBeforePipeCorrected(w: string, items: seq<Item>, env: map<string, string>)
    requires '\'' !in w && ValidItems(items)
    ensures TokenizeCorrected(['\''] + w + ['\'', '|', ' '] + Join(items), env) == Ok([w, "|"] + Values(items))
  {
    var rest := ['|', ' '] + Join(items);
    assert ['\''] + w + ['\'', '|', ' '] + Join(items) == ['\''] + w + ['\''] + rest;
    ScanSingleQ(w, rest, Start, env, true);
    assert "" + w == w;
    PipeCorrected(w, true, [], Join(items), env);
    assert [] + [w, "|"] == [w, "|"];
    ScanJoinEnd(items, [w, "|"], env, true);
  }

  /**
   * The corrected tokenizer reads a quoted word (empty or not) written
   * right before `|` as if a space separated them.
   */
  lemma QuotedWordBeforePipeSpacing(w: string, items: seq<Item>, env: map<string, string>)
    requires '\'' !in w && ValidItems(items)
    ensures TokenizeCorrected(['\''] + w + ['\'', '|', ' '] + Join(items), env)
         == TokenizeCorrected(Join([SingleQ(w), Operator("|")] + items), env)
  {
    QuotedWordBeforePipeCorrected(w, items, env);
    var all := [SingleQ(w), Operator("|")] + items;
    assert ValidItems(all) by {
      forall k | 0 <= k < |all| ensures ValidItem(all[k]) {
        if k >= 2 {
          assert all[k] == items[k - 2];
        }
      }
    }
    TokenizeJoin(all, env);
    assert Values(all) == [w, "|"] + Values(items);
  }
}
