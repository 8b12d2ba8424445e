/**
 * The tree pass of the Chrome 109 plugin: guarded fallbacks are inserted beside their source rules.
 *
 * A stylesheet is a tree of nodes; every declaration carries its position in the source file, which clones keep, and
 * whether the pass has added it.
 * `rw` is the rewriting of one declaration value (ColorMix.Replace for the known theme colours).
 */
module CssFallbacks {
  import opened Text
  import ColorMix
  import opened Selectors

  datatype Node =
    | Decl(source: nat, added: bool, prop: string, value: string)
    | Rule(selectors: seq<string>, nodes: seq<Node>)
    | AtRule(name: string, params: string, nodes: seq<Node>)
    | Statement(text: string)  // a comment, or an at-rule without a block

  const LEGACY := "not (color: oklch(1 0 0))"

  type Rewriter = string -> string

  predicate IsKeyframes(name: string) {
    EndsWith(name, "keyframes")
  }

  /** The positive feature gate `@supports (color: color-mix(...))`. */
  predicate IsGate(name: string, params: string) {
    && name == "supports"
    && StartsWith(params, "(color:")
    && StartsWith(TrimLeft(params[7..], ColorMix.IsSpace), "color-mix(")
  }

  lemma GateHasGap(params: string) returns (gap: string, rest: string)
    requires IsGate("supports", params)
    ensures Blank(gap, ColorMix.IsSpace) && params == "(color:" + gap + "color-mix(" + rest
  {
    var tail := params[7..];
    gap := TrimLeftSplits(tail, ColorMix.IsSpace);
    var target := TrimLeft(tail, ColorMix.IsSpace);
    rest := target[10..];
    assert target == "color-mix(" + rest && tail == gap + target;
    Regroup("(color:", gap, target);
    Regroup("(color:" + gap, "color-mix(", rest);
  }

  lemma GateAfterGap(params: string, gap: string, rest: string)
    requires Blank(gap, ColorMix.IsSpace) && params == "(color:" + gap + "color-mix(" + rest
    ensures IsGate("supports", params)
  {
    var target := "color-mix(" + rest;
    assert params[..7] == "(color:" && params[7..] == gap + target;
    TrimLeftBlankPrefix(gap, target, ColorMix.IsSpace);
    assert target[0] == 'c' && TrimLeft(target, ColorMix.IsSpace) == target;
  }

  /** A gate asks, after any white space, for a color-mix. */
  lemma GateSpelled(name: string, params: string)
    ensures IsGate(name, params) <==>
            name == "supports" && exists gap, rest :: Blank(gap, ColorMix.IsSpace) && params == "(color:" + gap + "color-mix(" + rest
  {
    if IsGate(name, params) {
      var gap, rest := GateHasGap(params);
    }
    if gap, rest :| Blank(gap, ColorMix.IsSpace) && params == "(color:" + gap + "color-mix(" + rest {
      GateAfterGap(params, gap, rest);
    }
  }

  /** Keyframes may carry a vendor prefix. */
  lemma KeyframesSpelled(name: string)
    ensures IsKeyframes(name) <==> exists prefix :: name == prefix + "keyframes"
  {
    if IsKeyframes(name) {
      assert name == name[..|name| - 9] + "keyframes";
    }
  }

  // ---------------------------------------------------------------- cloning and inserting

  predicate HasDecl(nodes: seq<Node>) {
    exists i :: 0 <= i < |nodes| && nodes[i].Decl?
  }

  /** The scoped clones of the rewritten declarations of a node. */
  function Fallbacks(n: Node, rw: Rewriter): seq<Node>
    decreases n, 0
  {
    match n
    case Decl(s, _, p, v) => if rw(v) == v then [] else [Decl(s, true, p, rw(v))]
    case Statement(_) => []
    case AtRule(name, params, kids) =>
      if IsKeyframes(name) then []
      else
        var children := AllFallbacks(kids, rw);
        if children == [] || IsGate(name, params) then children else [AtRule(name, params, children)]
    case Rule(selectors, kids) =>
      var children := AllFallbacks(kids, rw);
      if children == [] then []
      else [Rule(if HasDecl(children) then ScopeAll(selectors) else selectors, children)]
  }

  function AllFallbacks(nodes: seq<Node>, rw: Rewriter): seq<Node>
    decreases nodes, 1
  {
    if nodes == [] then [] else Fallbacks(nodes[0], rw) + AllFallbacks(nodes[1..], rw)
  }

  function Decls(nodes: seq<Node>): (r: seq<Node>)
    ensures forall i | 0 <= i < |r| :: r[i].Decl?
  {
    if nodes == [] then [] else (if nodes[0].Decl? then [nodes[0]] else []) + Decls(nodes[1..])
  }

  function Guarded(nodes: seq<Node>): Node {
    AtRule("supports", LEGACY, nodes)
  }

  /** What stands in the container where n stood. */
  function Inserted(n: Node, rw: Rewriter): seq<Node>
    decreases n, 0
  {
    match n
    case Decl(_, _, _, _) => [n]
    case Statement(_) => [n]
    case AtRule(name, params, kids) =>
      if IsKeyframes(name) then [n]
      else if IsGate(name, params) then
        var fallbacks := AllFallbacks(kids, rw);
        if fallbacks == [] then [n] else [n, Guarded(fallbacks)]
      else [AtRule(name, params, InsertedAll(kids, rw))]
    case Rule(selectors, kids) =>
      var declarations := AllFallbacks(Decls(kids), rw);
      var node := Rule(selectors, InsertedAll(kids, rw));
      if declarations == [] then [node] else [node, Guarded([Rule(ScopeAll(selectors), declarations)])]
  }

  function InsertedAll(nodes: seq<Node>, rw: Rewriter): seq<Node>
    decreases nodes, 1
  {
    if nodes == [] then [] else Inserted(nodes[0], rw) + InsertedAll(nodes[1..], rw)
  }

  lemma {:induction false} InsertedAppend(a: seq<Node>, b: seq<Node>, rw: Rewriter)
    ensures InsertedAll(a + b, rw) == InsertedAll(a, rw) + InsertedAll(b, rw)
  {
    if a == [] {
      assert a + b == b;
    } else {
      assert (a + b)[1..] == a[1..] + b;
      InsertedAppend(a[1..], b, rw);
    }
  }

  /** One more node of the snapshot replaced in place. */
  lemma InsertedStep(nodes: seq<Node>, i: nat, before: seq<Node>, rw: Rewriter)
    requires i < |nodes| && before == InsertedAll(nodes[..i], rw) + nodes[i..]
    ensures var at := |InsertedAll(nodes[..i], rw)|;
            && at < |before| && before[at] == nodes[i]
            && before[..at] + Inserted(nodes[i], rw) + before[at + 1..]
               == InsertedAll(nodes[..i + 1], rw) + nodes[i + 1..]
            && |InsertedAll(nodes[..i + 1], rw)| == at + |Inserted(nodes[i], rw)|
  {
    var done := InsertedAll(nodes[..i], rw);
    assert nodes[..i + 1] == nodes[..i] + [nodes[i]];
    InsertedAppend(nodes[..i], [nodes[i]], rw);
    assert [nodes[i]][1..] == [];
    assert before[..|done|] == done && before[|done| + 1..] == nodes[i + 1..];
  }

  /**
   * The insertion loop over a snapshot of the container's nodes. `container` is changed in place: the node at
   * `at` gets its recursively changed children and, when there is one, its fallback right after it.
   */
  method InsertScopedColorFallbacks(nodes: seq<Node>, rw: Rewriter) returns (container: seq<Node>)
    ensures container == InsertedAll(nodes, rw)
    decreases nodes
  {
    container := nodes;
    var at := 0;
    assert nodes[..0] == [];
    for i := 0 to |nodes|
      invariant container == InsertedAll(nodes[..i], rw) + nodes[i..]
      invariant at == |InsertedAll(nodes[..i], rw)|
    {
      InsertedStep(nodes, i, container, rw);
      var node := nodes[i];
      var after: seq<Node> := [];
      if node.AtRule? && IsKeyframes(node.name) {
      } else if node.AtRule? && IsGate(node.name, node.params) {
        var fallbacks := AllFallbacks(node.nodes, rw);
        if fallbacks != [] { after := [Guarded(fallbacks)]; }
      } else if node.AtRule? {
        var children := InsertScopedColorFallbacks(node.nodes, rw);
        node := AtRule(node.name, node.params, children);
      } else if node.Rule? {
        var declarations := AllFallbacks(Decls(node.nodes), rw);
        var children := InsertScopedColorFallbacks(node.nodes, rw);
        if declarations != [] { after := [Guarded([Rule(ScopeAll(node.selectors), declarations)])]; }
        node := Rule(node.selectors, children);
      }
      assert [node] + after == Inserted(nodes[i], rw);
      container := container[..at] + ([node] + after) + container[at + 1..];
      at := at + 1 + |after|;
    }
    assert nodes[..|nodes|] == nodes;
  }

  // ---------------------------------------------------------------- how a browser reads the tree

  datatype Frame = RuleFrame(selectors: seq<string>) | AtFrame(name: string, params: string)

  /** An active declaration with the rules and at-rules around it. */
  datatype Out = Out(source: nat, context: seq<Frame>, prop: string, value: string, added: bool)

  /** Which `@supports` conditions hold. */
  type Browser = string -> bool

  function Read(n: Node, holds: Browser, context: seq<Frame>): seq<Out>
    decreases n, 0
  {
    match n
    case Decl(s, added, p, v) => [Out(s, context, p, v, added)]
    case Statement(_) => []
    case Rule(selectors, kids) => ReadAll(kids, holds, context + [RuleFrame(selectors)])
    case AtRule(name, params, kids) =>
      if name != "supports" then ReadAll(kids, holds, context + [AtFrame(name, params)])
      else if holds(params) then ReadAll(kids, holds, context)
      else []
  }

  function ReadAll(nodes: seq<Node>, holds: Browser, context: seq<Frame>): seq<Out>
    decreases nodes, 1
  {
    if nodes == [] then [] else Read(nodes[0], holds, context) + ReadAll(nodes[1..], holds, context)
  }

  lemma ReadTwo(a: Node, b: Node, holds: Browser, context: seq<Frame>)
    ensures ReadAll([a, b], holds, context) == Read(a, holds, context) + Read(b, holds, context)
    ensures ReadAll([a], holds, context) == Read(a, holds, context)
  {
    assert [a, b][1..] == [b] && [b][1..] == [] && [a][1..] == [];
    assert forall n :: ReadAll([n], holds, context) == Read(n, holds, context) + ReadAll([n][1..], holds, context);
  }

  lemma {:induction false} ReadAppend(a: seq<Node>, b: seq<Node>, holds: Browser, context: seq<Frame>)
    ensures ReadAll(a + b, holds, context) == ReadAll(a, holds, context) + ReadAll(b, holds, context)
  {
    if a == [] {
      assert a + b == b;
    } else {
      assert (a + b)[1..] == a[1..] + b;
      ReadAppend(a[1..], b, holds, context);
    }
  }

  /** A browser without oklch and without color-mix. */
  ghost predicate IsLegacy(holds: Browser) {
    holds(LEGACY) && forall params: string | IsGate("supports", params) :: !holds(params)
  }

  function LegacyRead(nodes: seq<Node>, rw: Rewriter, holds: Browser, context: seq<Frame>): seq<Out> {
    ReadAll(InsertedAll(nodes, rw), holds, context)
  }

  /** A tree as it was parsed: the pass has added nothing to it yet. */
  ghost predicate Parsed(n: Node)
    decreases n, 0
  {
    match n
    case Decl(_, added, _, _) => !added
    case Statement(_) => true
    case Rule(_, kids) => AllParsed(kids)
    case AtRule(_, _, kids) => AllParsed(kids)
  }

  ghost predicate AllParsed(nodes: seq<Node>)
    decreases nodes, 1
  {
    nodes == [] || (Parsed(nodes[0]) && AllParsed(nodes[1..]))
  }

  ghost predicate NoneAdded(outs: seq<Out>) {
    forall k | 0 <= k < |outs| :: !outs[k].added
  }

  lemma {:induction false} ParsedReads(n: Node, holds: Browser, context: seq<Frame>)
    requires Parsed(n)
    ensures NoneAdded(Read(n, holds, context))
    decreases n, 0
  {
    match n
    case Rule(selectors, kids) => AllParsedReads(kids, holds, context + [RuleFrame(selectors)]);
    case AtRule(name, params, kids) =>
      AllParsedReads(kids, holds, context + [AtFrame(name, params)]);
      AllParsedReads(kids, holds, context);
    case _ =>
  }

  lemma {:induction false} AllParsedReads(nodes: seq<Node>, holds: Browser, context: seq<Frame>)
    requires AllParsed(nodes)
    ensures NoneAdded(ReadAll(nodes, holds, context))
    decreases nodes, 1
  {
    if nodes != [] {
      ParsedReads(nodes[0], holds, context);
      AllParsedReads(nodes[1..], holds, context);
    }
  }

  /** What a reader does with an `@supports` rule: leave it, use its content, or skip it. */
  datatype Verdict = Keep | Dissolve | Remove

  type Reader = string -> Verdict

  function Active(n: Node, reader: Reader): seq<Node>
    decreases n, 0
  {
    match n
    case Decl(_, _, _, _) => [n]
    case Statement(_) => [n]
    case Rule(selectors, kids) => [Rule(selectors, ActiveAll(kids, reader))]
    case AtRule(name, params, kids) =>
      var children := ActiveAll(kids, reader);
      if name != "supports" || reader(params).Keep? then [AtRule(name, params, children)]
      else if reader(params).Dissolve? then children
      else []
  }

  function ActiveAll(nodes: seq<Node>, reader: Reader): seq<Node>
    decreases nodes, 1
  {
    if nodes == [] then [] else Active(nodes[0], reader) + ActiveAll(nodes[1..], reader)
  }

  lemma {:induction false} ActiveAppend(a: seq<Node>, b: seq<Node>, reader: Reader)
    ensures ActiveAll(a + b, reader) == ActiveAll(a, reader) + ActiveAll(b, reader)
  {
    if a == [] {
      assert a + b == b;
    } else {
      assert (a + b)[1..] == a[1..] + b;
      ActiveAppend(a[1..], b, reader);
    }
  }

  // ---------------------------------------------------------------- modern browsers see no change

  lemma {:induction false} ActiveUnchanged(n: Node, rw: Rewriter, reader: Reader)
    requires reader(LEGACY).Remove?
    ensures ActiveAll(Inserted(n, rw), reader) == Active(n, reader)
    decreases n, 0
  {
    OneActive(n, reader);
    match n
    case Decl(_, _, _, _) =>
    case Statement(_) =>
    case AtRule(name, params, kids) =>
      if IsKeyframes(name) {
      } else if IsGate(name, params) {
        GuardedIsInactive(n, AllFallbacks(kids, rw), reader);
      } else {
        AllActiveUnchanged(kids, rw, reader);
        OneActive(AtRule(name, params, InsertedAll(kids, rw)), reader);
      }
    case Rule(selectors, kids) =>
      AllActiveUnchanged(kids, rw, reader);
      var node := Rule(selectors, InsertedAll(kids, rw));
      OneActive(node, reader);
      GuardedIsInactive(node, [Rule(ScopeAll(selectors), AllFallbacks(Decls(kids), rw))], reader);
  }

  lemma OneActive(n: Node, reader: Reader)
    ensures ActiveAll([n], reader) == Active(n, reader)
  {
    assert [n][1..] == [];
  }

  lemma GuardedIsInactive(n: Node, fallbacks: seq<Node>, reader: Reader)
    requires reader(LEGACY).Remove?
    ensures ActiveAll([n, Guarded(fallbacks)], reader) == Active(n, reader)
  {
    assert [n, Guarded(fallbacks)][1..] == [Guarded(fallbacks)];
    OneActive(Guarded(fallbacks), reader);
  }

  /** A reader that skips the guarded blocks, as every browser with oklch does, reads the transformed tree as the original. */
  lemma {:induction false} AllActiveUnchanged(nodes: seq<Node>, rw: Rewriter, reader: Reader)
    requires reader(LEGACY).Remove?
    ensures ActiveAll(InsertedAll(nodes, rw), reader) == ActiveAll(nodes, reader)
    decreases nodes, 1
  {
    if nodes != [] {
      ActiveUnchanged(nodes[0], rw, reader);
      AllActiveUnchanged(nodes[1..], rw, reader);
      ActiveAppend(Inserted(nodes[0], rw), InsertedAll(nodes[1..], rw), reader);
    }
  }

  ghost predicate NoGuarded(nodes: seq<Node>)
    decreases nodes
  {
    forall i | 0 <= i < |nodes| ::
      match nodes[i]
      case Rule(_, kids) => NoGuarded(kids)
      case AtRule(name, params, kids) => !(name == "supports" && params == LEGACY) && NoGuarded(kids)
      case _ => true
  }

  function StripGuarded(params: string): Verdict {
    if params == LEGACY then Remove else Keep
  }

  lemma {:induction false} NothingToStrip(nodes: seq<Node>)
    requires NoGuarded(nodes)
    ensures ActiveAll(nodes, StripGuarded) == nodes
  {
    if nodes != [] {
      match nodes[0] {
        case Rule(_, kids) => NothingToStrip(kids);
        case AtRule(_, _, kids) => NothingToStrip(kids);
        case _ =>
      }
      NothingToStrip(nodes[1..]);
      assert nodes == [nodes[0]] + nodes[1..];
    }
  }

  /** Removing the guarded blocks from the result gives the original stylesheet back. */
  lemma OriginalStaysIntact(nodes: seq<Node>, rw: Rewriter)
    requires NoGuarded(nodes)
    ensures ActiveAll(InsertedAll(nodes, rw), StripGuarded) == nodes
  {
    AllActiveUnchanged(nodes, rw, StripGuarded);
    NothingToStrip(nodes);
  }

  // ---------------------------------------------------------------- which declarations get a fallback

  /** Position, property and new value of a fallback. */
  type Fact = (nat, string, string)

  ghost function Facts(outs: seq<Out>): set<Fact> {
    set o | o in outs && o.added :: (o.source, o.prop, o.value)
  }

  /**
   * The declarations that are due a fallback: rewritten ones outside keyframes and inactive conditions whose
   * parent is a rule, or that stand anywhere below a positive color-mix gate.
   */
  ghost function Due(n: Node, rw: Rewriter, holds: Browser, gated: bool, inRule: bool): set<Fact>
    decreases n, 0
  {
    match n
    case Decl(s, _, p, v) => if rw(v) != v && (gated || inRule) then {(s, p, rw(v))} else {}
    case Statement(_) => {}
    case Rule(_, kids) => AllDue(kids, rw, holds, gated, true)
    case AtRule(name, params, kids) =>
      if IsKeyframes(name) then {}
      else if IsGate(name, params) then AllDue(kids, rw, holds, true, false)
      else if name == "supports" && !holds(params) then {}
      else AllDue(kids, rw, holds, gated, false)
  }

  ghost function AllDue(nodes: seq<Node>, rw: Rewriter, holds: Browser, gated: bool, inRule: bool): set<Fact>
    decreases nodes, 1
  {
    if nodes == [] then {} else Due(nodes[0], rw, holds, gated, inRule) + AllDue(nodes[1..], rw, holds, gated, inRule)
  }

  lemma FactsAppend(a: seq<Out>, b: seq<Out>)
    ensures Facts(a + b) == Facts(a) + Facts(b)
  {
  }

  lemma {:induction false} ClonesAreDue(n: Node, rw: Rewriter, holds: Browser, context: seq<Frame>, inRule: bool)
    requires IsLegacy(holds)
    ensures Facts(ReadAll(Fallbacks(n, rw), holds, context)) == Due(n, rw, holds, true, inRule)
    decreases n, 0
  {
    match n
    case Decl(s, _, p, v) => ReadTwo(Decl(s, true, p, rw(v)), n, holds, context);
    case Statement(_) =>
    case AtRule(name, params, kids) =>
      if !IsKeyframes(name) {
        var node := AtRule(name, params, AllFallbacks(kids, rw));
        ReadTwo(node, node, holds, context);
        AllClonesAreDue(kids, rw, holds, context, false);
        AllClonesAreDue(kids, rw, holds, context + [AtFrame(name, params)], false);
      }
    case Rule(selectors, kids) =>
      var children := AllFallbacks(kids, rw);
      var frame := if HasDecl(children) then ScopeAll(selectors) else selectors;
      ReadTwo(Rule(frame, children), n, holds, context);
      AllClonesAreDue(kids, rw, holds, context + [RuleFrame(frame)], true);
  }

  lemma {:induction false} AllClonesAreDue(nodes: seq<Node>, rw: Rewriter, holds: Browser, context: seq<Frame>, inRule: bool)
    requires IsLegacy(holds)
    ensures Facts(ReadAll(AllFallbacks(nodes, rw), holds, context)) == AllDue(nodes, rw, holds, true, inRule)
    decreases nodes, 1
  {
    if nodes != [] {
      ClonesAreDue(nodes[0], rw, holds, context, inRule);
      AllClonesAreDue(nodes[1..], rw, holds, context, inRule);
      ReadAppend(Fallbacks(nodes[0], rw), AllFallbacks(nodes[1..], rw), holds, context);
      FactsAppend(ReadAll(Fallbacks(nodes[0], rw), holds, context), ReadAll(AllFallbacks(nodes[1..], rw), holds, context));
    }
  }

  /** Being in a rule adds exactly the rewritten declarations of that rule. */
  lemma {:induction false} DueInRule(nodes: seq<Node>, rw: Rewriter, holds: Browser)
    ensures AllDue(nodes, rw, holds, false, true) ==
            AllDue(nodes, rw, holds, false, false) + AllDue(Decls(nodes), rw, holds, true, true)
    decreases nodes
  {
    if nodes != [] {
      DueInRule(nodes[1..], rw, holds);
      if nodes[0].Decl? {
        assert ([nodes[0]] + Decls(nodes[1..]))[1..] == Decls(nodes[1..]);
      } else {
        assert [] + Decls(nodes[1..]) == Decls(nodes[1..]);
      }
    }
  }

  lemma NoneAddedNoFacts(outs: seq<Out>)
    requires NoneAdded(outs)
    ensures Facts(outs) == {}
  {
  }

  lemma {:induction false} OneGetsDueFallbacks(n: Node, rw: Rewriter, holds: Browser, context: seq<Frame>)
    requires IsLegacy(holds) && Parsed(n)
    ensures Facts(ReadAll(Inserted(n, rw), holds, context)) == Due(n, rw, holds, false, false)
    decreases n, 0
  {
    ReadTwo(n, n, holds, context);
    ParsedReads(n, holds, context);
    NoneAddedNoFacts(Read(n, holds, context));
    match n
    case Decl(_, _, _, _) =>
    case Statement(_) =>
    case AtRule(name, params, kids) =>
      if IsKeyframes(name) {
      } else if IsGate(name, params) {
        var fallbacks := AllFallbacks(kids, rw);
        AllClonesAreDue(kids, rw, holds, context, false);
        ReadTwo(n, Guarded(fallbacks), holds, context);
        assert Read(Guarded(fallbacks), holds, context) == ReadAll(fallbacks, holds, context);
      } else {
        var node := AtRule(name, params, InsertedAll(kids, rw));
        ReadTwo(node, node, holds, context);
        GetDueFallbacks(kids, rw, holds, context + [AtFrame(name, params)]);
        GetDueFallbacks(kids, rw, holds, context);
      }
    case Rule(selectors, kids) =>
      GetDueFallbacks(kids, rw, holds, context + [RuleFrame(selectors)]);
      RuleGetsDueFallbacks(selectors, kids, rw, holds, context);
  }

  lemma RuleGetsDueFallbacks(selectors: seq<string>, kids: seq<Node>, rw: Rewriter, holds: Browser, context: seq<Frame>)
    requires IsLegacy(holds)
    requires Facts(LegacyRead(kids, rw, holds, context + [RuleFrame(selectors)])) == AllDue(kids, rw, holds, false, false)
    ensures Facts(ReadAll(Inserted(Rule(selectors, kids), rw), holds, context)) == AllDue(kids, rw, holds, false, true)
  {
    var node := Rule(selectors, InsertedAll(kids, rw));
    var scoped := Rule(ScopeAll(selectors), AllFallbacks(Decls(kids), rw));
    ReadTwo(node, Guarded([scoped]), holds, context);
    ReadTwo(scoped, scoped, holds, context);
    AllClonesAreDue(Decls(kids), rw, holds, context + [RuleFrame(ScopeAll(selectors))], true);
    DueInRule(kids, rw, holds);
    FactsAppend(Read(node, holds, context), Read(Guarded([scoped]), holds, context));
  }

  /** Legacy browsers read exactly the fallbacks that are due, each with the rewritten value. */
  lemma {:induction false} GetDueFallbacks(nodes: seq<Node>, rw: Rewriter, holds: Browser, context: seq<Frame>)
    requires IsLegacy(holds) && AllParsed(nodes)
    ensures Facts(LegacyRead(nodes, rw, holds, context)) == AllDue(nodes, rw, holds, false, false)
    decreases nodes, 1
  {
    if nodes != [] {
      OneGetsDueFallbacks(nodes[0], rw, holds, context);
      GetDueFallbacks(nodes[1..], rw, holds, context);
      ReadAppend(Inserted(nodes[0], rw), InsertedAll(nodes[1..], rw), holds, context);
      FactsAppend(ReadAll(Inserted(nodes[0], rw), holds, context), LegacyRead(nodes[1..], rw, holds, context));
    }
  }
}
