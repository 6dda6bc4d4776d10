/**
 * Properties of the splitters of parser.c: the shape of the node lists,
 * the round trip back to the token array, the shielding of parenthesised
 * tokens, empty groups between consecutive separators, and the node
 * count of parse_pipe.
 */
module ParserProps {
  import opened Wrappers
  import opened Parser

  /** The tokens a group list stands for: each group's arguments followed by its separator. */
  function Unsplit(gs: seq<Group>): seq<string> {
    if gs == [] then []
    else gs[0].args + (if gs[0].cut.Some? then [gs[0].cut.value] else []) + Unsplit(gs[1..])
  }

  /**
   * Every group but the last is closed by a separator of the set; only the
   * last may have none, and then it is not empty.
   */
  predicate WellCut(r: seq<Group>, cuts: set<string>) {
    (forall k :: 0 <= k < |r| - 1 ==> r[k].cut.Some?) &&
    (forall k :: 0 <= k < |r| ==> r[k].cut.Some? ==> r[k].cut.value in cuts) &&
    (forall k :: 0 <= k < |r| ==> r[k].cut.None? ==> k == |r| - 1 && r[k].args != [])
  }

  lemma WellCutCons(g: Group, rest: seq<Group>, cuts: set<string>)
    requires WellCut(rest, cuts) && g.cut.Some? && g.cut.value in cuts
    ensures WellCut([g] + rest, cuts)
  {
    var r := [g] + rest;
    assert forall k :: 1 <= k < |r| ==> r[k] == rest[k - 1];
  }

  lemma {:induction false} SplitShape(args: seq<string>, cuts: set<string>, depth: int, group: seq<string>)
    ensures WellCut(Split(args, cuts, depth, group), cuts)
    decreases |args|
  {
    if args != [] {
      var t := args[0];
      var d := depth + Delta(t);
      if d > 0 || t !in cuts {
        assert Split(args, cuts, depth, group) == Split(args[1..], cuts, d, group + [t]);
        SplitShape(args[1..], cuts, d, group + [t]);
      } else {
        SplitShape(args[1..], cuts, d, []);
        WellCutCons(Group(group, Some(t)), Split(args[1..], cuts, d, []), cuts);
      }
    }
  }

  /** Round trip: the groups with their separators put back are the open group followed by the tokens. */
  lemma {:induction false} SplitRoundTrip(args: seq<string>, cuts: set<string>, depth: int, group: seq<string>)
    ensures Unsplit(Split(args, cuts, depth, group)) == group + args
    decreases |args|
  {
    if args == [] {
      if group != [] {
        assert Unsplit([Group(group, None)]) == group + [] + Unsplit([]);
      }
    } else {
      var t := args[0];
      var d := depth + Delta(t);
      assert args == [t] + args[1..];
      assert group + [t] + args[1..] == group + args;
      if d > 0 || t !in cuts {
        assert Split(args, cuts, depth, group) == Split(args[1..], cuts, d, group + [t]);
        SplitRoundTrip(args[1..], cuts, d, group + [t]);
      } else {
        var rest := Split(args[1..], cuts, d, []);
        var r := [Group(group, Some(t))] + rest;
        assert Split(args, cuts, depth, group) == r;
        SplitRoundTrip(args[1..], cuts, d, []);
        assert r[0] == Group(group, Some(t)) && r[1..] == rest;
        assert Unsplit(r) == group + [t] + Unsplit(rest);
      }
    }
  }

  function SepToken(t: SepType): seq<string> {
    match t
    case SepSync => [";"]
    case SepAsync => ["&"]
    case SepNone => []
  }

  /** The tokens a parse_sep node list stands for. */
  function FlattenSep(nodes: seq<SepNode>): seq<string> {
    if nodes == [] then [] else nodes[0].args + SepToken(nodes[0].sepType) + FlattenSep(nodes[1..])
  }

  lemma {:induction false} FlattenSepNodes(gs: seq<Group>)
    requires forall k :: 0 <= k < |gs| ==> gs[k].cut.Some? ==> gs[k].cut.value in SepCuts
    ensures FlattenSep(SepNodes(gs)) == Unsplit(gs)
  {
    if gs != [] {
      FlattenSepNodes(gs[1..]);
      assert SepToken(SepNodeOf(gs[0]).sepType) == (if gs[0].cut.Some? then [gs[0].cut.value] else []);
    }
  }

  /**
   * parse_sep round trip: each node's arguments followed by its separator
   * (`;` for SEP_SYNC, `&` for SEP_ASYNC, none for SEP_NONE) give back the
   * token array, so nodes are in input order and no token is lost.
   */
  lemma SepRoundTrip(args: seq<string>)
    ensures FlattenSep(SepList(args)) == args
  {
    SplitShape(args, SepCuts, 0, []);
    FlattenSepNodes(Split(args, SepCuts, 0, []));
    SplitRoundTrip(args, SepCuts, 0, []);
    assert [] + args == args;
  }

  /** In a parse_sep list only the last node can be SEP_NONE, and it then has arguments. */
  lemma SepListShape(args: seq<string>)
    ensures var nodes := SepList(args);
      (forall k :: 0 <= k < |nodes| - 1 ==> nodes[k].sepType != SepNone) &&
      (forall k :: 0 <= k < |nodes| ==> nodes[k].sepType == SepNone ==> k == |nodes| - 1 && nodes[k].args != [])
  {
    var gs := Split(args, SepCuts, 0, []);
    SplitShape(args, SepCuts, 0, []);
    SepNodesAt(gs);
    forall k | 0 <= k < |gs|
      ensures (SepNodes(gs)[k].sepType == SepNone) == gs[k].cut.None?
    {
      assert gs[k].cut.Some? ==> gs[k].cut.value == ";" || gs[k].cut.value == "&";
    }
  }

  lemma {:induction false} SepNodesAt(gs: seq<Group>)
    ensures |SepNodes(gs)| == |gs|
    ensures forall k :: 0 <= k < |gs| ==> SepNodes(gs)[k] == SepNodeOf(gs[k])
  {
    if gs != [] {
      SepNodesAt(gs[1..]);
    }
  }

  function LogicToken(t: LogicType): seq<string> {
    match t
    case LogicAnd => ["&&"]
    case LogicOr => ["||"]
    case LogicNone => []
  }

  /** The tokens a parse_logic node list stands for. */
  function FlattenLogic(nodes: seq<LogicNode>): seq<string> {
    if nodes == [] then [] else nodes[0].args + LogicToken(nodes[0].logicType) + FlattenLogic(nodes[1..])
  }

  lemma {:induction false} FlattenLogicNodes(gs: seq<Group>)
    requires forall k :: 0 <= k < |gs| ==> gs[k].cut.Some? ==> gs[k].cut.value in LogicCuts
    ensures FlattenLogic(LogicNodes(gs)) == Unsplit(gs)
  {
    if gs != [] {
      FlattenLogicNodes(gs[1..]);
      assert LogicToken(LogicNodeOf(gs[0]).logicType) == (if gs[0].cut.Some? then [gs[0].cut.value] else []);
    }
  }

  /** parse_logic round trip, as for parse_sep with `&&` and `||`. */
  lemma LogicRoundTrip(args: seq<string>)
    ensures FlattenLogic(LogicList(args)) == args
  {
    SplitShape(args, LogicCuts, 0, []);
    FlattenLogicNodes(Split(args, LogicCuts, 0, []));
    SplitRoundTrip(args, LogicCuts, 0, []);
    assert [] + args == args;
  }

  lemma {:induction false} LogicNodesAt(gs: seq<Group>)
    ensures |LogicNodes(gs)| == |gs|
    ensures forall k :: 0 <= k < |gs| ==> LogicNodes(gs)[k] == LogicNodeOf(gs[k])
  {
    if gs != [] {
      LogicNodesAt(gs[1..]);
    }
  }

  /** In a parse_logic list only the last node can be LOGIC_NONE, and it then has arguments. */
  lemma LogicListShape(args: seq<string>)
    ensures var nodes := LogicList(args);
      (forall k :: 0 <= k < |nodes| - 1 ==> nodes[k].logicType != LogicNone) &&
      (forall k :: 0 <= k < |nodes| ==> nodes[k].logicType == LogicNone ==> k == |nodes| - 1 && nodes[k].args != [])
  {
    var gs := Split(args, LogicCuts, 0, []);
    SplitShape(args, LogicCuts, 0, []);
    LogicNodesAt(gs);
    forall k | 0 <= k < |gs|
      ensures (LogicNodes(gs)[k].logicType == LogicNone) == gs[k].cut.None?
    {
      assert gs[k].cut.Some? ==> gs[k].cut.value == "&&" || gs[k].cut.value == "||";
    }
  }

  /** The depth after the tokens of `ts`, starting from `depth`. */
  function DepthAfter(ts: seq<string>, depth: int): int {
    if ts == [] then depth else DepthAfter(ts[1..], depth + Delta(ts[0]))
  }

  /** The running depth stays positive over all of `ts`. */
  predicate Shielded(ts: seq<string>, depth: int) {
    ts == [] || (depth + Delta(ts[0]) > 0 && Shielded(ts[1..], depth + Delta(ts[0])))
  }

  /** Tokens read at positive depth join the open group whatever they are. */
  lemma {:induction false} SplitShielded(ts: seq<string>, rest: seq<string>, cuts: set<string>, depth: int, group: seq<string>)
    requires Shielded(ts, depth)
    ensures Split(ts + rest, cuts, depth, group) == Split(rest, cuts, DepthAfter(ts, depth), group + ts)
  {
    if ts == [] {
      assert ts + rest == rest && group + ts == group;
    } else {
      var t := ts[0];
      var s := ts + rest;
      assert s[0] == t && s[1..] == ts[1..] + rest;
      SplitShielded(ts[1..], rest, cuts, depth + Delta(t), group + [t]);
      assert group + [t] + ts[1..] == group + ts;
    }
  }

  /**
   * A parenthesised command whose body closes all its own parentheses is
   * kept whole in the open group, `(` and `)` included, whatever separators
   * it holds.
   */
  lemma ParenthesisedGroupKept(body: seq<string>, rest: seq<string>, cuts: set<string>, group: seq<string>)
    requires ValidCuts(cuts)
    requires Shielded(body, 1) && DepthAfter(body, 1) == 1
    ensures Split(["("] + body + [")"] + rest, cuts, 0, group) == Split(rest, cuts, 0, group + ["("] + body + [")"])
  {
    var open := ["("] + body;
    assert Shielded(open, 0) by {
      assert open[0] == "(" && open[1..] == body;
    }
    assert DepthAfter(open, 0) == 1 by {
      assert open[0] == "(" && open[1..] == body;
    }
    assert ["("] + body + [")"] + rest == open + ([")"] + rest);
    SplitShielded(open, [")"] + rest, cuts, 0, group);
    var s := [")"] + rest;
    assert s[0] == ")" && s[1..] == rest;
    assert group + open + [")"] == group + ["("] + body + [")"];
  }

  /** Two separators in a row at depth 0 close the open group and then an empty one. */
  lemma ConsecutiveSeparators(s1: string, s2: string, rest: seq<string>, cuts: set<string>, depth: int, group: seq<string>)
    requires ValidCuts(cuts) && s1 in cuts && s2 in cuts && depth <= 0
    ensures Split([s1, s2] + rest, cuts, depth, group)
         == [Group(group, Some(s1)), Group([], Some(s2))] + Split(rest, cuts, depth, [])
  {
    var s := [s1, s2] + rest;
    assert s[0] == s1 && s[1..] == [s2] + rest;
    assert ([s2] + rest)[0] == s2 && ([s2] + rest)[1..] == rest;
    assert Delta(s1) == 0 && Delta(s2) == 0;
  }

  /** parse_sep on `a ; ; b` gives three nodes, the middle one with no arguments. */
  lemma SepEmptyMiddleNode(a: string, b: string)
    requires a !in ["(", ")", ";", "&"] && b !in ["(", ")", ";", "&"]
    ensures SepList([a, ";", ";", b]) == [SepNode([a], SepSync), SepNode([], SepSync), SepNode([b], SepNone)]
  {
    var args := [a, ";", ";", b];
    assert args[0] == a && args[1..] == [";", ";"] + [b];
    assert Delta(a) == 0 && Delta(b) == 0;
    assert a !in SepCuts && b !in SepCuts;
    assert Split(args, SepCuts, 0, []) == Split([";", ";"] + [b], SepCuts, 0, [a]) by {
      assert [] + [a] == [a];
    }
    ConsecutiveSeparators(";", ";", [b], SepCuts, 0, [a]);
    assert Split([b], SepCuts, 0, []) == [Group([b], None)] by {
      assert [b][1..] == [];
      assert [] + [b] == [b];
    }
    var gs := [Group([a], Some(";")), Group([], Some(";"))] + [Group([b], None)];
    assert Split(args, SepCuts, 0, []) == gs;
    SepNodesAt(gs);
  }

  /** The number of separators of `cuts` that the walk meets at depth 0. */
  function CutCount(args: seq<string>, cuts: set<string>, depth: int): nat
    decreases |args|
  {
    if args == [] then 0
    else
      var d := depth + Delta(args[0]);
      (if d <= 0 && args[0] in cuts then 1 else 0) + CutCount(args[1..], cuts, d)
  }

  /** The tokens after the last separator met at depth 0 (all of them when there is none), after `group`. */
  function Trailing(args: seq<string>, cuts: set<string>, depth: int, group: seq<string>): seq<string>
    decreases |args|
  {
    if args == [] then group
    else
      var d := depth + Delta(args[0]);
      if d <= 0 && args[0] in cuts then Trailing(args[1..], cuts, d, [])
      else Trailing(args[1..], cuts, d, group + [args[0]])
  }

  /** One group per depth-0 separator, plus one when the trailing group is not empty. */
  lemma {:induction false} SplitCount(args: seq<string>, cuts: set<string>, depth: int, group: seq<string>)
    ensures |Split(args, cuts, depth, group)| == CutCount(args, cuts, depth) + (if Trailing(args, cuts, depth, group) != [] then 1 else 0)
    decreases |args|
  {
    if args != [] {
      var d := depth + Delta(args[0]);
      if d <= 0 && args[0] in cuts {
        SplitCount(args[1..], cuts, d, []);
      } else {
        SplitCount(args[1..], cuts, d, group + [args[0]]);
      }
    }
  }

  /** parse_pipe makes one node per depth-0 `|`, plus one for a non-empty trailing group. */
  lemma PipeCount(args: seq<string>)
    ensures |PipeList(args)| == CutCount(args, PipeCuts, 0) + (if Trailing(args, PipeCuts, 0, []) != [] then 1 else 0)
  {
    SplitCount(args, PipeCuts, 0, []);
    PipeNodesAt(Split(args, PipeCuts, 0, []));
  }

  /**
   * parse_pipe round trip: its nodes carry the arguments of the groups of
   * the walk, every group but a non-empty trailing one was closed by `|`,
   * and the groups with those `|` put back give the token array.
   */
  lemma PipeRoundTrip(args: seq<string>)
    ensures var gs := Split(args, PipeCuts, 0, []);
      Unsplit(gs) == args && |PipeList(args)| == |gs| &&
      (forall k :: 0 <= k < |gs| ==>
         PipeList(args)[k].args == gs[k].args && (gs[k].cut.Some? ==> gs[k].cut.value == "|"))
  {
    var gs := Split(args, PipeCuts, 0, []);
    SplitRoundTrip(args, PipeCuts, 0, []);
    SplitShape(args, PipeCuts, 0, []);
    PipeNodesAt(gs);
    assert [] + args == args;
  }

  lemma {:induction false} PipeNodesAt(gs: seq<Group>)
    ensures |PipeNodes(gs)| == |gs|
    ensures forall k :: 0 <= k < |gs| ==> PipeNodes(gs)[k] == PipeNode(gs[k].args)
  {
    if gs != [] {
      PipeNodesAt(gs[1..]);
    }
  }

  // ------------------------------------------------ where the cuts fall

  lemma {:induction false} DepthAfterSnoc(g: seq<string>, t: string, depth: int)
    ensures DepthAfter(g + [t], depth) == DepthAfter(g, depth) + Delta(t)
    decreases |g|
  {
    if g == [] {
      assert (g + [t])[1..] == [];
    } else {
      assert (g + [t])[0] == g[0] && (g + [t])[1..] == g[1..] + [t];
      DepthAfterSnoc(g[1..], t, depth + Delta(g[0]));
    }
  }

  lemma {:induction false} CutCountSnoc(g: seq<string>, t: string, cuts: set<string>, depth: int)
    ensures CutCount(g + [t], cuts, depth)
         == CutCount(g, cuts, depth) + (if DepthAfter(g, depth) + Delta(t) <= 0 && t in cuts then 1 else 0)
    decreases |g|
  {
    if g == [] {
      assert (g + [t])[0] == t && (g + [t])[1..] == [];
    } else {
      assert (g + [t])[0] == g[0] && (g + [t])[1..] == g[1..] + [t];
      CutCountSnoc(g[1..], t, cuts, depth + Delta(g[0]));
    }
  }

  /**
   * Read in order from `depth`, no group's arguments hold a separator of the
   * set met at depth 0 or below, and each group's own separator is met at
   * depth 0 or below: the groups are cut exactly where parse_sep,
   * parse_logic and parse_pipe cut.
   */
  predicate Clean(gs: seq<Group>, cuts: set<string>, depth: int)
    decreases |gs|
  {
    gs == [] ||
    (CutCount(gs[0].args, cuts, depth) == 0 &&
     var d := DepthAfter(gs[0].args, depth);
     match gs[0].cut
     case None => Clean(gs[1..], cuts, d)
     case Some(t) => d + Delta(t) <= 0 && Clean(gs[1..], cuts, d + Delta(t)))
  }

  /** The walk cuts only at separators met at depth 0 or below, and at every one of them. */
  lemma {:induction false} SplitClean(args: seq<string>, cuts: set<string>, depth: int, group: seq<string>, d0: int)
    requires CutCount(group, cuts, d0) == 0 && DepthAfter(group, d0) == depth
    ensures Clean(Split(args, cuts, depth, group), cuts, d0)
    decreases |args|
  {
    if args != [] {
      var t := args[0];
      var d := depth + Delta(t);
      DepthAfterSnoc(group, t, d0);
      CutCountSnoc(group, t, cuts, d0);
      if d > 0 || t !in cuts {
        assert Split(args, cuts, depth, group) == Split(args[1..], cuts, d, group + [t]);
        SplitClean(args[1..], cuts, d, group + [t], d0);
      } else {
        var rest := Split(args[1..], cuts, d, []);
        var r := [Group(group, Some(t))] + rest;
        assert Split(args, cuts, depth, group) == r;
        SplitClean(args[1..], cuts, d, [], d);
        assert r[1..] == rest;
      }
    }
  }

  /** Tokens holding no separator met at depth 0 or below all join the open group. */
  lemma {:induction false} SplitNoCut(a: seq<string>, rest: seq<string>, cuts: set<string>, depth: int, group: seq<string>)
    requires CutCount(a, cuts, depth) == 0
    ensures Split(a + rest, cuts, depth, group) == Split(rest, cuts, DepthAfter(a, depth), group + a)
    decreases |a|
  {
    if a == [] {
      assert a + rest == rest && group + a == group;
    } else {
      var t := a[0];
      var s := a + rest;
      assert s[0] == t && s[1..] == a[1..] + rest;
      SplitNoCut(a[1..], rest, cuts, depth + Delta(t), group + [t]);
      assert group + [t] + a[1..] == group + a;
    }
  }

  lemma WellCutTail(gs: seq<Group>, cuts: set<string>)
    requires gs != [] && WellCut(gs, cuts)
    ensures WellCut(gs[1..], cuts)
  {
    assert forall k :: 0 <= k < |gs| - 1 ==> gs[1..][k] == gs[k + 1];
  }

  /** A well-cut, clean group list is the walk of the tokens it stands for. */
  lemma {:induction false} CleanIsSplit(gs: seq<Group>, cuts: set<string>, depth: int)
    requires WellCut(gs, cuts) && Clean(gs, cuts, depth)
    ensures Split(Unsplit(gs), cuts, depth, []) == gs
    decreases |gs|
  {
    if gs != [] {
      var a := gs[0].args;
      var d := DepthAfter(a, depth);
      WellCutTail(gs, cuts);
      match gs[0].cut
      case None =>
        assert |gs| == 1 && a != [];
        assert Unsplit(gs) == a + [] by {
          assert gs[1..] == [];
        }
        SplitNoCut(a, [], cuts, depth, []);
        assert [] + a == a;
      case Some(t) =>
        var tail := Unsplit(gs[1..]);
        assert Unsplit(gs) == a + ([t] + tail);
        SplitNoCut(a, [t] + tail, cuts, depth, []);
        assert [] + a == a;
        assert ([t] + tail)[0] == t && ([t] + tail)[1..] == tail;
        CleanIsSplit(gs[1..], cuts, d + Delta(t));
        assert gs == [Group(a, Some(t))] + gs[1..];
    }
  }

  /**
   * The walk is characterised: a group list is the walk of `args` exactly
   * when it stands for `args`, is well cut and is clean.
   */
  lemma SplitCharacterised(args: seq<string>, gs: seq<Group>, cuts: set<string>)
    ensures gs == Split(args, cuts, 0, []) <==> (Unsplit(gs) == args && WellCut(gs, cuts) && Clean(gs, cuts, 0))
  {
    SplitShape(args, cuts, 0, []);
    SplitRoundTrip(args, cuts, 0, []);
    SplitClean(args, cuts, 0, [], 0);
    assert [] + args == args;
    if Unsplit(gs) == args && WellCut(gs, cuts) && Clean(gs, cuts, 0) {
      CleanIsSplit(gs, cuts, 0);
    }
  }

  /** parse_sep cuts at every `;` and `&` met at depth 0 or below and nowhere else. */
  lemma SepListClean(args: seq<string>)
    ensures var gs := Split(args, SepCuts, 0, []);
      Clean(gs, SepCuts, 0) && |SepList(args)| == |gs| &&
      forall k :: 0 <= k < |gs| ==> SepList(args)[k] == SepNodeOf(gs[k])
  {
    SplitClean(args, SepCuts, 0, [], 0);
    SepNodesAt(Split(args, SepCuts, 0, []));
  }

  /** parse_logic cuts at every `&&` and `||` met at depth 0 or below and nowhere else. */
  lemma LogicListClean(args: seq<string>)
    ensures var gs := Split(args, LogicCuts, 0, []);
      Clean(gs, LogicCuts, 0) && |LogicList(args)| == |gs| &&
      forall k :: 0 <= k < |gs| ==> LogicList(args)[k] == LogicNodeOf(gs[k])
  {
    SplitClean(args, LogicCuts, 0, [], 0);
    LogicNodesAt(Split(args, LogicCuts, 0, []));
  }

  /** parse_pipe cuts at every `|` met at depth 0 or below and nowhere else. */
  lemma PipeListClean(args: seq<string>)
    ensures var gs := Split(args, PipeCuts, 0, []);
      Clean(gs, PipeCuts, 0) && |PipeList(args)| == |gs| &&
      forall k :: 0 <= k < |gs| ==> PipeList(args)[k].args == gs[k].args
  {
    SplitClean(args, PipeCuts, 0, [], 0);
    PipeNodesAt(Split(args, PipeCuts, 0, []));
  }
}
