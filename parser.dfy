/**
 * The three structural splitters of parser.c: parse_sep (on `;` and `&`),
 * parse_logic (on `&&` and `||`) and parse_pipe (on `|`).
 *
 * Each walks the token array once with a parenthesis depth counter and
 * an accumulating argument group: a separator met at depth 0 closes the
 * group into a node tagged with that separator, every other token joins
 * the group, and a non-empty group left at the end becomes a last node
 * without a separator. `Split` is that walk as a function, shared by the
 * three splitters; each method is proved to compute it. The node lists
 * are sequences (append_*node links at the tail, so a node list is the
 * nodes in the order they were appended), and the string-array
 * accumulator of dynamicstring.h is a sequence of strings.
 */
module Parser {
  import opened Wrappers

  /** A closed argument group and the separator token that closed it (None for the trailing group). */
  datatype Group = Group(args: seq<string>, cut: Option<string>)

  /** The depth change of a token. */
  function Delta(t: string): int {
    if t == "(" then 1 else if t == ")" then -1 else 0
  }

  /** Separator sets are never parentheses. */
  predicate ValidCuts(cuts: set<string>) {
    "(" !in cuts && ")" !in cuts
  }

  /**
   * The splitting walk over the rest of the tokens `args`, with the depth
   * `depth` and the open group `group`.
   */
  function Split(args: seq<string>, cuts: set<string>, depth: int, group: seq<string>): seq<Group>
    decreases |args|
  {
    if args == [] then
      if group != [] then [Group(group, None)] else []
    else
      var t := args[0];
      var d := depth + Delta(t);
      if d > 0 then Split(args[1..], cuts, d, group + [t])
      else if t in cuts then [Group(group, Some(t))] + Split(args[1..], cuts, d, [])
      else Split(args[1..], cuts, d, group + [t])
  }

  /** One step of the walk at index i of the token array. */
  lemma SplitAt(args: seq<string>, i: nat, cuts: set<string>, depth: int, group: seq<string>)
    requires i < |args|
    ensures Split(args[i..], cuts, depth, group) ==
      var t := args[i];
      var d := depth + Delta(t);
      if d > 0 || t !in cuts then Split(args[i + 1..], cuts, d, group + [t])
      else [Group(group, Some(t))] + Split(args[i + 1..], cuts, d, [])
  {
    assert args[i..][0] == args[i] && args[i..][1..] == args[i + 1..];
  }

  // ---------------------------------------------------------------- parse_sep

  datatype SepType = SepSync | SepAsync | SepNone

  datatype SepNode = SepNode(args: seq<string>, sepType: SepType)

  const SepCuts: set<string> := {";", "&"}

  function SepNodeOf(g: Group): SepNode {
    SepNode(g.args, if g.cut == Some(";") then SepSync else if g.cut == Some("&") then SepAsync else SepNone)
  }

  function SepNodes(gs: seq<Group>): seq<SepNode> {
    if gs == [] then [] else [SepNodeOf(gs[0])] + SepNodes(gs[1..])
  }

  /** What parse_sep returns for the tokens `args`. */
  function SepList(args: seq<string>): seq<SepNode> {
    SepNodes(Split(args, SepCuts, 0, []))
  }

  /** parse_sep */
  method ParseSep(args: seq<string>) returns (nodes: seq<SepNode>)
    ensures nodes == SepList(args)
  {
    nodes := [];
    var group: seq<string> := [];
    var depth := 0;
    var i := 0;
    while i < |args|
      invariant 0 <= i <= |args|
      invariant nodes + SepNodes(Split(args[i..], SepCuts, depth, group)) == SepList(args)
      decreases |args| - i
    {
      var t := args[i];
      SplitAt(args, i, SepCuts, depth, group);
      ghost var depth0 := depth;
      if t == "(" {
        depth := depth + 1;
      } else if t == ")" {
        depth := depth - 1;
      }
      assert depth == depth0 + Delta(t);
      if depth > 0 {
        group := group + [t];
      } else if t == ";" || t == "&" {
        var sepType := if t == ";" then SepSync else SepAsync;
        ghost var later := Split(args[i + 1..], SepCuts, depth, []);
        assert ([Group(group, Some(t))] + later)[1..] == later;
        nodes := nodes + [SepNode(group, sepType)];
        group := [];
      } else {
        group := group + [t];
      }
      i := i + 1;
    }
    if |group| > 0 {
      nodes := nodes + [SepNode(group, SepNone)];
    }
  }

  // -------------------------------------------------------------- parse_logic

  datatype LogicType = LogicAnd | LogicOr | LogicNone

  datatype LogicNode = LogicNode(args: seq<string>, logicType: LogicType)

  const LogicCuts: set<string> := {"&&", "||"}

  function LogicNodeOf(g: Group): LogicNode {
    LogicNode(g.args, if g.cut == Some("&&") then LogicAnd else if g.cut == Some("||") then LogicOr else LogicNone)
  }

  function LogicNodes(gs: seq<Group>): seq<LogicNode> {
    if gs == [] then [] else [LogicNodeOf(gs[0])] + LogicNodes(gs[1..])
  }

  /** What parse_logic returns for the tokens `args`. */
  function LogicList(args: seq<string>): seq<LogicNode> {
    LogicNodes(Split(args, LogicCuts, 0, []))
  }

  /** parse_logic */
  method ParseLogic(args: seq<string>) returns (nodes: seq<LogicNode>)
    ensures nodes == LogicList(args)
  {
    nodes := [];
    var group: seq<string> := [];
    var depth := 0;
    var i := 0;
    while i < |args|
      invariant 0 <= i <= |args|
      invariant nodes + LogicNodes(Split(args[i..], LogicCuts, depth, group)) == LogicList(args)
      decreases |args| - i
    {
      var t := args[i];
      SplitAt(args, i, LogicCuts, depth, group);
      ghost var depth0 := depth;
      if t == "(" {
        depth := depth + 1;
      } else if t == ")" {
        depth := depth - 1;
      }
      assert depth == depth0 + Delta(t);
      if depth > 0 {
        group := group + [t];
      } else if t == "&&" || t == "||" {
        var logicType := if t == "&&" then LogicAnd else LogicOr;
        ghost var later := Split(args[i + 1..], LogicCuts, depth, []);
        assert ([Group(group, Some(t))] + later)[1..] == later;
        nodes := nodes + [LogicNode(group, logicType)];
        group := [];
      } else {
        group := group + [t];
      }
      i := i + 1;
    }
    if |group| > 0 {
      nodes := nodes + [LogicNode(group, LogicNone)];
    }
  }

  // --------------------------------------------------------------- parse_pipe

  datatype PipeNode = PipeNode(args: seq<string>)

  const PipeCuts: set<string> := {"|"}

  function PipeNodes(gs: seq<Group>): seq<PipeNode> {
    if gs == [] then [] else [PipeNode(gs[0].args)] + PipeNodes(gs[1..])
  }

  /** What parse_pipe returns for the tokens `args`. */
  function PipeList(args: seq<string>): seq<PipeNode> {
    PipeNodes(Split(args, PipeCuts, 0, []))
  }

  /** parse_pipe */
  method ParsePipe(args: seq<string>) returns (nodes: seq<PipeNode>)
    ensures nodes == PipeList(args)
  {
    nodes := [];
    var group: seq<string> := [];
    var depth := 0;
    var i := 0;
    while i < |args|
      invariant 0 <= i <= |args|
      invariant nodes + PipeNodes(Split(args[i..], PipeCuts, depth, group)) == PipeList(args)
      decreases |args| - i
    {
      var t := args[i];
      SplitAt(args, i, PipeCuts, depth, group);
      ghost var depth0 := depth;
      if t == "(" {
        depth := depth + 1;
      } else if t == ")" {
        depth := depth - 1;
      }
      assert depth == depth0 + Delta(t);
      if depth > 0 {
        group := group + [t];
      } else if t == "|" {
        ghost var later := Split(args[i + 1..], PipeCuts, depth, []);
        assert ([Group(group, Some(t))] + later)[1..] == later;
        nodes := nodes + [PipeNode(group)];
        group := [];
      } else {
        group := group + [t];
      }
      i := i + 1;
    }
    if |group| > 0 {
      nodes := nodes + [PipeNode(group)];
    }
  }
}
