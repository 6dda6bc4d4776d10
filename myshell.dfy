/**
 * The sequential part of my_shell.c: the shell's own environment list
 * (`my_environ`, a NULL-terminated array of "KEY=VALUE" strings held in a
 * DyArray) with get_environ and update_environ, and the two evaluation
 * loops exec_sep and exec_logic.
 *
 * exec_job forks and waits for processes; here it is a given function
 * from a command's tokens and its foreground flag to the status it
 * returns. exec_sep and exec_logic take the token array of their command.
 */
module MyShell {
  import opened Wrappers
  import opened DynamicString
  import opened Parser

  // -------------------------------------------------------- the environment

  /** The entry `e` defines `key`: it starts with `key` immediately followed by `=`. */
  predicate Matches(e: string, key: string) {
    |e| > |key| && e[..|key|] == key && e[|key|] == '='
  }

  /** The lowest index at or after `from` whose entry defines `key`. */
  function FindFrom(env: seq<string>, key: string, from: nat): (r: Option<nat>)
    requires from <= |env|
    ensures r.Some? ==> from <= r.value < |env| && Matches(env[r.value], key)
    ensures r.Some? ==> forall j :: from <= j < r.value ==> !Matches(env[j], key)
    ensures r.None? ==> forall j :: from <= j < |env| ==> !Matches(env[j], key)
    decreases |env| - from
  {
    if from == |env| then None
    else if Matches(env[from], key) then Some(from)
    else FindFrom(env, key, from + 1)
  }

  /** What get_environ(key) returns for the entries `env`: the text after `=` of the first entry defining `key`. */
  function Lookup(env: seq<string>, key: string): (r: Option<string>)
    ensures r.Some? <==> exists k :: 0 <= k < |env| && Matches(env[k], key)
    ensures r.Some? ==> exists k :: 0 <= k < |env| && Matches(env[k], key) && r.value == env[k][|key| + 1..] &&
                                    forall j :: 0 <= j < k ==> !Matches(env[j], key)
  {
    match FindFrom(env, key, 0)
    case None => None
    case Some(k) => Some(env[k][|key| + 1..])
  }

  /** get_environ: scans the array up to its NULL terminator. */
  method GetEnviron(env: DyArray, key: string) returns (r: Option<string>)
    requires env.Valid()
    ensures r == Lookup(env.Contents(), key)
  {
    ghost var entries := env.Contents();
    var i := 0;
    while env.str[i].Some?
      invariant 0 <= i <= env.len
      invariant forall j :: 0 <= j < i ==> !Matches(entries[j], key)
      decreases env.len - i
    {
      var e := env.str[i].value;
      if |e| > |key| && e[..|key|] == key && e[|key|] == '=' {
        assert e == entries[i];
        assert FindFrom(entries, key, 0) == Some(i);
        return Some(e[|key| + 1..]);
      }
      i := i + 1;
    }
    assert i == |entries|;
    return None;
  }

  /** The index of the first `=` of an assignment. */
  function EqIndex(s: string): (i: nat)
    requires '=' in s
    ensures i < |s| && s[i] == '='
    ensures forall k :: 0 <= k < i ==> s[k] != '='
  {
    if s[0] == '=' then 0
    else
      assert '=' in s[1..] by {
        var k :| 0 <= k < |s| && s[k] == '=';
        assert s[1..][k - 1] == '=';
      }
      1 + EqIndex(s[1..])
  }

  /** The name an assignment `KEY=VALUE` sets, and the value it gives it. */
  function Key(envp: string): string
    requires '=' in envp
  {
    envp[..EqIndex(envp)]
  }

  function Value(envp: string): string
    requires '=' in envp
  {
    envp[EqIndex(envp) + 1..]
  }

  /** `e` begins with `p` (strncmp(e, p, strlen(p)) == 0). */
  predicate HasPrefix(e: string, p: string) {
    |e| >= |p| && e[..|p|] == p
  }

  /**
   * The entries after update_environ(envp): the first entry defining the
   * name of `envp` is replaced by `envp`, which is appended when no entry
   * defines it.
   */
  function Updated(env: seq<string>, envp: string): (r: seq<string>)
    requires '=' in envp
    ensures (exists k :: 0 <= k < |env| && Matches(env[k], Key(envp))) ==>
      exists k :: 0 <= k < |env| && Matches(env[k], Key(envp)) && r == env[k := envp] &&
                  forall j :: 0 <= j < k ==> !Matches(env[j], Key(envp))
    ensures (forall k :: 0 <= k < |env| ==> !Matches(env[k], Key(envp))) ==> r == env + [envp]
  {
    match FindFrom(env, Key(envp), 0)
    case None => env + [envp]
    case Some(k) => env[k := envp]
  }

  /** Capacity of the `var` buffer of update_environ. */
  const VAR_BUFFER: nat := 4096

  /**
   * update_environ: copies the name and its `=` into `var`, then replaces
   * the first entry beginning with `var`, or appends `envp`.
   */
  method UpdateEnviron(env: DyArray, envp: string)
    requires env.Valid()
    requires '=' in envp && EqIndex(envp) + 2 <= VAR_BUFFER
    modifies env, env.str
    ensures env.Valid()
    ensures env.Contents() == Updated(old(env.Contents()), envp)
  {
    var i := 0;
    while envp[i] != '='
      invariant 0 <= i <= EqIndex(envp)
      invariant '=' !in envp[..i]
      decreases EqIndex(envp) - i
    {
      assert envp[..i + 1] == envp[..i] + [envp[i]];
      i := i + 1;
    }
    assert i == EqIndex(envp);
    var name := envp[..i + 1];
    assert name == Key(envp) + ['='];

    ghost var entries := env.Contents();
    var k := 0;
    while env.str[k].Some?
      invariant 0 <= k <= env.len
      invariant forall j :: 0 <= j < k ==> !Matches(entries[j], Key(envp))
      decreases env.len - k
    {
      var e := env.str[k].value;
      assert e == entries[k];
      assert HasPrefix(e, name) <==> Matches(e, Key(envp)) by {
        if HasPrefix(e, name) {
          assert e[..|Key(envp)|] == name[..|Key(envp)|];
        }
        if Matches(e, Key(envp)) {
          assert e[..|name|] == e[..|Key(envp)|] + [e[|Key(envp)|]];
        }
      }
      if |e| >= |name| && e[..|name|] == name {
        env.str[k] := Some(envp);
        assert env.str[..env.len] == old(env.str[..env.len])[k := Some(envp)];
        assert env.Contents() == entries[k := envp];
        return;
      }
      k := k + 1;
    }
    env.Append(envp);
  }

  /** An assignment defines its own name. */
  lemma AssignmentMatches(envp: string)
    requires '=' in envp
    ensures Matches(envp, Key(envp))
  {
    assert envp[..|Key(envp)|] == Key(envp);
  }

  /** After update_environ("K=V"), get_environ("K") returns "V". */
  lemma UpdateThenLookup(env: seq<string>, envp: string)
    requires '=' in envp
    ensures Lookup(Updated(env, envp), Key(envp)) == Some(Value(envp))
  {
    var key := Key(envp);
    var r := Updated(env, envp);
    AssignmentMatches(envp);
    match FindFrom(env, key, 0)
    case None =>
      assert r[|env|] == envp;
      assert FindFrom(r, key, 0) == Some(|env|);
    case Some(k) =>
      assert r[k] == envp;
      assert FindFrom(r, key, 0) == Some(k);
  }

  /** A `=`-free name is defined by an entry in at most one way. */
  lemma MatchUnique(e: string, k1: string, k2: string)
    requires Matches(e, k1) && Matches(e, k2) && '=' !in k1 && '=' !in k2
    ensures k1 == k2
  {
    assert forall i :: 0 <= i < |k1| ==> e[i] == k1[i];
    assert forall i :: 0 <= i < |k2| ==> e[i] == k2[i];
    assert |k1| == |k2|;
  }

  /** update_environ("K=V") changes what get_environ returns for no other `=`-free name. */
  lemma UpdateOtherKey(env: seq<string>, envp: string, key: string)
    requires '=' in envp && '=' !in key && key != Key(envp)
    ensures Lookup(Updated(env, envp), key) == Lookup(env, key)
  {
    var r := Updated(env, envp);
    AssignmentMatches(envp);
    if Matches(envp, key) {
      MatchUnique(envp, key, Key(envp));
    }
    match FindFrom(env, Key(envp), 0)
    case None =>
      assert forall j :: 0 <= j < |env| ==> r[j] == env[j];
      assert FindFrom(r, key, 0) == FindFrom(env, key, 0);
    case Some(k) =>
      if Matches(env[k], key) {
        MatchUnique(env[k], key, Key(envp));
      }
      assert forall j :: 0 <= j < |env| ==> (Matches(r[j], key) <==> Matches(env[j], key));
      assert FindFrom(r, key, 0) == FindFrom(env, key, 0);
  }

  // ------------------------------------------------------------- exec_logic

  /** The state of the exec_logic loop: last_status, skip, and the indices of the nodes run so far. */
  datatype Run = Run(status: int, skip: bool, ran: seq<nat>)

  /** The skip flag after a node of type `t` whose command left last_status at `status`. */
  function SkipAfter(t: LogicType, status: int): bool {
    match t
    case LogicAnd => status != 0
    case LogicOr => status == 0
    case LogicNone => false
  }

  /** The loop state after the first `n` nodes; `job` gives the status of each command run. */
  function LogicRun(nodes: seq<LogicNode>, job: (seq<string>, bool) -> int, fg: bool, n: nat): Run
    requires n <= |nodes|
  {
    if n == 0 then Run(0, false, [])
    else
      var prev := LogicRun(nodes, job, fg, n - 1);
      var status := if prev.skip then prev.status else job(nodes[n - 1].args, fg);
      var ran := if prev.skip then prev.ran else prev.ran + [n - 1];
      Run(status, SkipAfter(nodes[n - 1].logicType, status), ran)
  }

  /** Node k is run: the skip flag is clear when the loop reaches it. */
  predicate Runs(nodes: seq<LogicNode>, job: (seq<string>, bool) -> int, fg: bool, k: nat)
    requires k < |nodes|
  {
    !LogicRun(nodes, job, fg, k).skip
  }

  /** What exec_logic returns for the token array `args`. */
  function LogicResult(args: seq<string>, job: (seq<string>, bool) -> int, fg: bool): int {
    var nodes := LogicList(args);
    LogicRun(nodes, job, fg, |nodes|).status
  }

  /** exec_logic */
  method ExecLogic(args: seq<string>, job: (seq<string>, bool) -> int, foreground: bool)
    returns (status: int, ran: seq<nat>)
    ensures var nodes := LogicList(args);
      status == LogicResult(args, job, foreground) && ran == LogicRun(nodes, job, foreground, |nodes|).ran
  {
    var nodes := ParseLogic(args);
    status := 0;
    ran := [];
    var skip := false;
    var i := 0;
    while i < |nodes|
      invariant 0 <= i <= |nodes|
      invariant LogicRun(nodes, job, foreground, i) == Run(status, skip, ran)
    {
      if !skip {
        status := job(nodes[i].args, foreground);
        ran := ran + [i];
      }
      if nodes[i].logicType == LogicAnd {
        skip := status != 0;
      } else if nodes[i].logicType == LogicOr {
        skip := status == 0;
      } else {
        skip := false;
      }
      i := i + 1;
    }
  }

  /** The nodes run are exactly those reached with the skip flag clear, in increasing order. */
  lemma {:induction false} RanExactly(nodes: seq<LogicNode>, job: (seq<string>, bool) -> int, fg: bool, n: nat)
    requires n <= |nodes|
    ensures var ran := LogicRun(nodes, job, fg, n).ran;
      (forall i, j :: 0 <= i < j < |ran| ==> ran[i] < ran[j]) &&
      (forall k: nat :: k in ran <==> k < n && Runs(nodes, job, fg, k))
  {
    if n > 0 {
      RanExactly(nodes, job, fg, n - 1);
      var prev := LogicRun(nodes, job, fg, n - 1);
      assert forall i :: 0 <= i < |prev.ran| ==> prev.ran[i] in prev.ran;
      assert Runs(nodes, job, fg, n - 1) == !prev.skip;
    }
  }

  /** The first node always runs. */
  lemma {:induction false} FirstNodeRuns(nodes: seq<LogicNode>, job: (seq<string>, bool) -> int, fg: bool, n: nat)
    requires 0 < n <= |nodes|
    ensures var ran := LogicRun(nodes, job, fg, n).ran; |ran| > 0 && ran[0] == 0
  {
    if n > 1 {
      FirstNodeRuns(nodes, job, fg, n - 1);
    }
  }

  /** Skipped nodes leave last_status alone: it is the status of the last node run, or 0 if none ran. */
  lemma {:induction false} StatusOfLastRun(nodes: seq<LogicNode>, job: (seq<string>, bool) -> int, fg: bool, n: nat)
    requires n <= |nodes|
    ensures var r := LogicRun(nodes, job, fg, n);
      (forall i :: 0 <= i < |r.ran| ==> r.ran[i] < n) &&
      r.status == if r.ran == [] then 0 else job(nodes[r.ran[|r.ran| - 1]].args, fg)
  {
    if n > 0 {
      StatusOfLastRun(nodes, job, fg, n - 1);
    }
  }

  /** In a chain of `&&`, a node runs exactly when every node before it returned 0. */
  lemma {:induction false} AndChain(nodes: seq<LogicNode>, job: (seq<string>, bool) -> int, fg: bool, k: nat)
    requires k < |nodes|
    requires forall j :: 0 <= j < k ==> nodes[j].logicType == LogicAnd
    ensures Runs(nodes, job, fg, k) <==> forall j :: 0 <= j < k ==> job(nodes[j].args, fg) == 0
  {
    if k > 0 {
      AndChain(nodes, job, fg, k - 1);
      if Runs(nodes, job, fg, k - 1) {
        StatusOfLastRun(nodes, job, fg, k);
        RanExactly(nodes, job, fg, k);
      }
    }
  }

  /** In a chain of `||`, a node runs exactly when every node before it returned non-zero. */
  lemma {:induction false} OrChain(nodes: seq<LogicNode>, job: (seq<string>, bool) -> int, fg: bool, k: nat)
    requires k < |nodes|
    requires forall j :: 0 <= j < k ==> nodes[j].logicType == LogicOr
    ensures Runs(nodes, job, fg, k) <==> forall j :: 0 <= j < k ==> job(nodes[j].args, fg) != 0
  {
    if k > 0 {
      OrChain(nodes, job, fg, k - 1);
      if Runs(nodes, job, fg, k - 1) {
        StatusOfLastRun(nodes, job, fg, k);
        RanExactly(nodes, job, fg, k);
      }
    }
  }

  /** `a && b || c` with `a` failing skips `b` and runs `c`, whose status is the result. */
  lemma FailedAndThenOr(a: seq<string>, b: seq<string>, c: seq<string>, job: (seq<string>, bool) -> int, fg: bool)
    requires job(a, fg) != 0
    ensures var nodes := [LogicNode(a, LogicAnd), LogicNode(b, LogicOr), LogicNode(c, LogicNone)];
      LogicRun(nodes, job, fg, 3) == Run(job(c, fg), false, [0, 2])
  {
    var nodes := [LogicNode(a, LogicAnd), LogicNode(b, LogicOr), LogicNode(c, LogicNone)];
    assert LogicRun(nodes, job, fg, 1) == Run(job(a, fg), true, [0]);
    assert LogicRun(nodes, job, fg, 2) == Run(job(a, fg), false, [0]);
  }

  // --------------------------------------------------------------- exec_sep

  /** One exec_logic call made by exec_sep: the node's tokens and its foreground flag. */
  datatype LogicCall = LogicCall(args: seq<string>, foreground: bool)

  /** A node runs in the foreground unless it was closed by `&`. */
  function Foreground(n: SepNode): bool {
    n.sepType != SepAsync
  }

  /** exec_sep: runs every node in order and returns the status of the last one, 0 for none. */
  method ExecSep(args: seq<string>, job: (seq<string>, bool) -> int) returns (res: int, calls: seq<LogicCall>)
    ensures var nodes := SepList(args);
      |calls| == |nodes| &&
      (forall k :: 0 <= k < |nodes| ==> calls[k] == LogicCall(nodes[k].args, Foreground(nodes[k]))) &&
      res == if nodes == [] then 0 else LogicResult(nodes[|nodes| - 1].args, job, Foreground(nodes[|nodes| - 1]))
  {
    var nodes := ParseSep(args);
    res := 0;
    calls := [];
    var i := 0;
    while i < |nodes|
      invariant 0 <= i <= |nodes|
      invariant |calls| == i
      invariant forall k :: 0 <= k < i ==> calls[k] == LogicCall(nodes[k].args, Foreground(nodes[k]))
      invariant res == if i == 0 then 0 else LogicResult(nodes[i - 1].args, job, Foreground(nodes[i - 1]))
    {
      var fg := nodes[i].sepType != SepAsync;
      var ran;
      res, ran := ExecLogic(nodes[i].args, job, fg);
      calls := calls + [LogicCall(nodes[i].args, fg)];
      i := i + 1;
    }
  }
}
