/** Where the fallbacks apply: which of them are limited to the registered page surfaces. */
module FallbackScopes {
  import opened Text
  import opened Selectors
  import opened CssFallbacks

  /** These selectors are limited to the surfaces. */
  ghost predicate Scoped(selectors: seq<string>) {
    exists plain :: selectors == ScopeAll(plain)
  }

  ghost predicate ScopedFrame(f: Frame) {
    f.RuleFrame? && Scoped(f.selectors)
  }

  /**
   * Some rule around the declaration is limited to the surfaces. Nested selectors are relative to their parent rule, and
   * at-rules in between only narrow it down.
   */
  ghost predicate IsScoped(context: seq<Frame>) {
    exists i | 0 <= i < |context| :: ScopedFrame(context[i])
  }

  ghost predicate FallbacksScoped(outs: seq<Out>) {
    forall k | 0 <= k < |outs| && outs[k].added :: IsScoped(outs[k].context)
  }

  /** No rule of the tree is limited to the surfaces yet. */
  ghost predicate Unscoped(n: Node)
    decreases n, 0
  {
    match n
    case Rule(selectors, kids) => !Scoped(selectors) && AllUnscoped(kids)
    case AtRule(_, _, kids) => AllUnscoped(kids)
    case _ => true
  }

  ghost predicate AllUnscoped(nodes: seq<Node>)
    decreases nodes, 1
  {
    nodes == [] || (Unscoped(nodes[0]) && AllUnscoped(nodes[1..]))
  }

  /** A rewritten declaration, itself or behind nothing but gates. */
  predicate Loose(n: Node, rw: Rewriter)
    decreases n, 0
  {
    match n
    case Decl(_, _, _, v) => rw(v) != v
    case AtRule(name, params, kids) => !IsKeyframes(name) && IsGate(name, params) && SomeLoose(kids, rw)
    case _ => false
  }

  predicate SomeLoose(nodes: seq<Node>, rw: Rewriter)
    decreases nodes, 1
  {
    nodes != [] && (Loose(nodes[0], rw) || SomeLoose(nodes[1..], rw))
  }

  /**
   * Below a gate: around every rewritten declaration stands a rule with a rewritten declaration of its own. `scoped` says
   * whether the surroundings below the gate hold such a rule.
   */
  predicate FitsInGate(n: Node, rw: Rewriter, scoped: bool)
    decreases n, 0
  {
    match n
    case Decl(_, _, _, v) => rw(v) == v || scoped
    case Statement(_) => true
    case Rule(_, kids) => AllFitInGate(kids, rw, scoped || SomeLoose(kids, rw))
    case AtRule(name, params, kids) => IsKeyframes(name) || AllFitInGate(kids, rw, scoped)
  }

  predicate AllFitInGate(nodes: seq<Node>, rw: Rewriter, scoped: bool)
    decreases nodes, 1
  {
    nodes == [] || (FitsInGate(nodes[0], rw, scoped) && AllFitInGate(nodes[1..], rw, scoped))
  }

  /** Everything outside gates fits. */
  predicate Fits(n: Node, rw: Rewriter)
    decreases n, 0
  {
    match n
    case Rule(_, kids) => AllFit(kids, rw)
    case AtRule(name, params, kids) =>
      IsKeyframes(name) || (if IsGate(name, params) then AllFitInGate(kids, rw, false) else AllFit(kids, rw))
    case _ => true
  }

  predicate AllFit(nodes: seq<Node>, rw: Rewriter)
    decreases nodes, 1
  {
    nodes == [] || (Fits(nodes[0], rw) && AllFit(nodes[1..], rw))
  }

  lemma HasDeclAppend(a: seq<Node>, b: seq<Node>)
    ensures HasDecl(a + b) <==> HasDecl(a) || HasDecl(b)
  {
    assert forall i | 0 <= i < |a| :: (a + b)[i] == a[i];
    assert forall i | 0 <= i < |b| :: (a + b)[|a| + i] == b[i];
  }

  lemma {:induction false} LooseClones(n: Node, rw: Rewriter)
    ensures HasDecl(Fallbacks(n, rw)) <==> Loose(n, rw)
    decreases n, 0
  {
    match n
    case Decl(s, _, p, v) =>
      if rw(v) != v {
        assert Fallbacks(n, rw)[0].Decl?;
      }
    case AtRule(_, _, kids) => AllLooseClones(kids, rw);
    case _ =>
  }

  lemma {:induction false} AllLooseClones(nodes: seq<Node>, rw: Rewriter)
    ensures HasDecl(AllFallbacks(nodes, rw)) <==> SomeLoose(nodes, rw)
    decreases nodes, 1
  {
    if nodes != [] {
      LooseClones(nodes[0], rw);
      AllLooseClones(nodes[1..], rw);
      HasDeclAppend(Fallbacks(nodes[0], rw), AllFallbacks(nodes[1..], rw));
    }
  }

  /** A legacy browser in which every other condition holds. */
  ghost predicate IsWidest(holds: Browser) {
    forall params: string :: holds(params) <==> !IsGate("supports", params)
  }

  /** One direction for every legacy browser, both for the widest one. */
  ghost predicate Decides(fits: bool, outs: seq<Out>, holds: Browser) {
    (fits ==> FallbacksScoped(outs)) && (IsWidest(holds) && FallbacksScoped(outs) ==> fits)
  }

  lemma DecidesBoth(f: bool, g: bool, a: seq<Out>, b: seq<Out>, holds: Browser)
    requires Decides(f, a, holds) && Decides(g, b, holds)
    ensures Decides(f && g, a + b, holds)
  {
    ScopedBoth(a, b);
  }

  lemma ScopedBoth(a: seq<Out>, b: seq<Out>)
    ensures FallbacksScoped(a + b) <==> FallbacksScoped(a) && FallbacksScoped(b)
  {
    assert forall i | 0 <= i < |a| :: (a + b)[i] == a[i];
    assert forall i | 0 <= i < |b| :: (a + b)[|a| + i] == b[i];
  }

  lemma OneOut(o: Out)
    ensures FallbacksScoped([o]) <==> (o.added ==> IsScoped(o.context))
  {
    assert [o][0] == o;
  }

  lemma FrameScoped(context: seq<Frame>, f: Frame)
    ensures IsScoped(context + [f]) <==> IsScoped(context) || ScopedFrame(f)
  {
    var longer := context + [f];
    assert longer[|context|] == f;
    if i :| 0 <= i < |context| && ScopedFrame(context[i]) {
      assert longer[i] == context[i];
    }
  }

  lemma {:induction false} ClonesDecided(n: Node, rw: Rewriter, holds: Browser, context: seq<Frame>)
    requires IsLegacy(holds) && Unscoped(n)
    ensures Decides(FitsInGate(n, rw, IsScoped(context)), ReadAll(Fallbacks(n, rw), holds, context), holds)
    decreases n, 0
  {
    match n
    case Decl(s, _, p, v) =>
      ReadTwo(Decl(s, true, p, rw(v)), n, holds, context);
      OneOut(Out(s, context, p, rw(v), true));
    case Statement(_) =>
    case AtRule(name, params, kids) =>
      if !IsKeyframes(name) {
        var node := AtRule(name, params, AllFallbacks(kids, rw));
        ReadTwo(node, node, holds, context);
        AllClonesDecided(kids, rw, holds, context);
        FrameScoped(context, AtFrame(name, params));
        AllClonesDecided(kids, rw, holds, context + [AtFrame(name, params)]);
      }
    case Rule(selectors, kids) =>
      var children := AllFallbacks(kids, rw);
      var frame := RuleFrame(if HasDecl(children) then ScopeAll(selectors) else selectors);
      AllLooseClones(kids, rw);
      FrameScoped(context, frame);
      ReadTwo(Rule(frame.selectors, children), n, holds, context);
      AllClonesDecided(kids, rw, holds, context + [frame]);
  }

  lemma {:induction false} AllClonesDecided(nodes: seq<Node>, rw: Rewriter, holds: Browser, context: seq<Frame>)
    requires IsLegacy(holds) && AllUnscoped(nodes)
    ensures Decides(AllFitInGate(nodes, rw, IsScoped(context)), ReadAll(AllFallbacks(nodes, rw), holds, context), holds)
    decreases nodes, 1
  {
    if nodes != [] {
      ClonesDecided(nodes[0], rw, holds, context);
      AllClonesDecided(nodes[1..], rw, holds, context);
      ReadAppend(Fallbacks(nodes[0], rw), AllFallbacks(nodes[1..], rw), holds, context);
      DecidesBoth(FitsInGate(nodes[0], rw, IsScoped(context)), AllFitInGate(nodes[1..], rw, IsScoped(context)),
                  ReadAll(Fallbacks(nodes[0], rw), holds, context), ReadAll(AllFallbacks(nodes[1..], rw), holds, context), holds);
    }
  }

  lemma {:induction false} DeclsAreScoped(nodes: seq<Node>, rw: Rewriter, holds: Browser, context: seq<Frame>)
    requires IsScoped(context)
    ensures FallbacksScoped(ReadAll(AllFallbacks(Decls(nodes), rw), holds, context))
  {
    if nodes != [] {
      var rest := AllFallbacks(Decls(nodes[1..]), rw);
      DeclsAreScoped(nodes[1..], rw, holds, context);
      if nodes[0].Decl? {
        assert ([nodes[0]] + Decls(nodes[1..]))[1..] == Decls(nodes[1..]);
        ReadAppend(Fallbacks(nodes[0], rw), rest, holds, context);
        ReadTwo(Decl(nodes[0].source, true, nodes[0].prop, rw(nodes[0].value)), nodes[0], holds, context);
        ScopedBoth(ReadAll(Fallbacks(nodes[0], rw), holds, context), ReadAll(rest, holds, context));
      } else {
        assert [] + Decls(nodes[1..]) == Decls(nodes[1..]);
      }
    }
  }

  lemma {:induction false} OneDecided(n: Node, rw: Rewriter, holds: Browser, context: seq<Frame>)
    requires IsLegacy(holds) && Parsed(n) && Unscoped(n) && !IsScoped(context)
    ensures Decides(Fits(n, rw), ReadAll(Inserted(n, rw), holds, context), holds)
    decreases n, 0
  {
    ReadTwo(n, n, holds, context);
    ParsedReads(n, holds, context);
    match n
    case Decl(_, _, _, _) =>
    case Statement(_) =>
    case AtRule(name, params, kids) =>
      if IsKeyframes(name) {
      } else if IsGate(name, params) {
        GateDecided(name, params, kids, rw, holds, context);
      } else {
        var node := AtRule(name, params, InsertedAll(kids, rw));
        ReadTwo(node, node, holds, context);
        FrameScoped(context, AtFrame(name, params));
        AllDecided(kids, rw, holds, context + [AtFrame(name, params)]);
        AllDecided(kids, rw, holds, context);
      }
    case Rule(selectors, kids) =>
      FrameScoped(context, RuleFrame(selectors));
      AllDecided(kids, rw, holds, context + [RuleFrame(selectors)]);
      RuleDecided(selectors, kids, rw, holds, context);
  }

  lemma GateDecided(name: string, params: string, kids: seq<Node>, rw: Rewriter, holds: Browser, context: seq<Frame>)
    requires IsLegacy(holds) && !IsKeyframes(name) && IsGate(name, params) && AllUnscoped(kids) && !IsScoped(context)
    ensures Decides(AllFitInGate(kids, rw, false), ReadAll(Inserted(AtRule(name, params, kids), rw), holds, context), holds)
  {
    var n, fallbacks := AtRule(name, params, kids), AllFallbacks(kids, rw);
    AllClonesDecided(kids, rw, holds, context);
    ReadTwo(n, Guarded(fallbacks), holds, context);
    assert ReadAll(Inserted(n, rw), holds, context) == ReadAll(fallbacks, holds, context);
  }

  lemma RuleDecided(selectors: seq<string>, kids: seq<Node>, rw: Rewriter, holds: Browser, context: seq<Frame>)
    requires IsLegacy(holds)
    requires Decides(AllFit(kids, rw), LegacyRead(kids, rw, holds, context + [RuleFrame(selectors)]), holds)
    ensures Decides(AllFit(kids, rw), ReadAll(Inserted(Rule(selectors, kids), rw), holds, context), holds)
  {
    var node := Rule(selectors, InsertedAll(kids, rw));
    var scoped := Rule(ScopeAll(selectors), AllFallbacks(Decls(kids), rw));
    var inner := context + [RuleFrame(ScopeAll(selectors))];
    FrameScoped(context, RuleFrame(ScopeAll(selectors)));
    DeclsAreScoped(kids, rw, holds, inner);
    ReadTwo(node, Guarded([scoped]), holds, context);
    ReadTwo(scoped, scoped, holds, context);
    ScopedBoth(Read(node, holds, context), ReadAll(AllFallbacks(Decls(kids), rw), holds, inner));
  }

  lemma {:induction false} AllDecided(nodes: seq<Node>, rw: Rewriter, holds: Browser, context: seq<Frame>)
    requires IsLegacy(holds) && AllParsed(nodes) && AllUnscoped(nodes) && !IsScoped(context)
    ensures Decides(AllFit(nodes, rw), LegacyRead(nodes, rw, holds, context), holds)
    decreases nodes, 1
  {
    if nodes != [] {
      OneDecided(nodes[0], rw, holds, context);
      AllDecided(nodes[1..], rw, holds, context);
      ReadAppend(Inserted(nodes[0], rw), InsertedAll(nodes[1..], rw), holds, context);
      DecidesBoth(Fits(nodes[0], rw), AllFit(nodes[1..], rw),
                  ReadAll(Inserted(nodes[0], rw), holds, context), LegacyRead(nodes[1..], rw, holds, context), holds);
    }
  }

  lemma WidestIsLegacy() returns (holds: Browser)
    ensures IsWidest(holds) && IsLegacy(holds)
  {
    holds := (params: string) => !IsGate("supports", params);
    assert LEGACY[0] != "(color:"[0];
  }

  /**
   * In every legacy browser every fallback is limited to the registered surfaces exactly when, below each gate, every
   * rewritten declaration stands, at any depth, in a rule that has a rewritten declaration of its own.
   */
  lemma FallbacksStayInScope(nodes: seq<Node>, rw: Rewriter)
    requires AllParsed(nodes) && AllUnscoped(nodes)
    ensures (forall holds | IsLegacy(holds) :: FallbacksScoped(LegacyRead(nodes, rw, holds, []))) <==> AllFit(nodes, rw)
  {
    forall holds | IsLegacy(holds) ensures Decides(AllFit(nodes, rw), LegacyRead(nodes, rw, holds, []), holds) {
      AllDecided(nodes, rw, holds, []);
    }
    var widest := WidestIsLegacy();
    assert Decides(AllFit(nodes, rw), LegacyRead(nodes, rw, widest, []), widest);
  }

  lemma ScopedIsLong(selectors: seq<string>)
    ensures selectors != [] ==> |ScopeAll(selectors)[0]| >= 8
  {
    if selectors != [] {
      assert |Scope(selectors[0])| >= 8;
    }
  }

  lemma ShortIsNotScoped(selector: string)
    requires |selector| < 8
    ensures !Scoped([selector])
  {
    forall plain: seq<string> ensures ScopeAll(plain) != [selector] {
      ScopedIsLong(plain);
    }
  }

  lemma OneNode(n: Node, rw: Rewriter, scoped: bool)
    ensures AllParsed([n]) == Parsed(n) && AllUnscoped([n]) == Unscoped(n) && AllFit([n], rw) == Fits(n, rw)
    ensures AllFitInGate([n], rw, scoped) == FitsInGate(n, rw, scoped) && SomeLoose([n], rw) == Loose(n, rw)
  {
    var rest := [n][1..];
    assert rest == [] && AllParsed(rest) && AllUnscoped(rest) && AllFit(rest, rw) && AllFitInGate(rest, rw, scoped);
    assert !SomeLoose(rest, rw);
  }

  lemma TwoNodes(n: Node, m: Node, rw: Rewriter, scoped: bool)
    ensures AllParsed([n, m]) == (Parsed(n) && Parsed(m)) && AllUnscoped([n, m]) == (Unscoped(n) && Unscoped(m))
    ensures AllFitInGate([n, m], rw, scoped) == (FitsInGate(n, rw, scoped) && FitsInGate(m, rw, scoped))
    ensures SomeLoose([n, m], rw) == (Loose(n, rw) || Loose(m, rw))
  {
    assert [n, m][1..] == [m];
    OneNode(m, rw, scoped);
  }

  /** A gate nested in a rule escapes the scopes, but not when the gate stands in another one. */
  lemma NestedGateEscapesScope(rw: Rewriter, gate: string, d: Node)
    requires IsGate("supports", gate) && d.Decl? && !d.added && rw(d.value) != d.value
    ensures var escapes := [Rule([".a"], [AtRule("supports", gate, [d])])];
            AllParsed(escapes) && AllUnscoped(escapes) && !AllFit(escapes, rw)
    ensures var stays := [AtRule("supports", gate, [Rule([".a"], [AtRule("supports", gate, [d])])])];
            AllParsed(stays) && AllUnscoped(stays) && AllFit(stays, rw)
  {
    var inner := AtRule("supports", gate, [d]);
    var rule := Rule([".a"], [inner]);
    ShortIsNotScoped(".a");
    OneNode(d, rw, false);
    OneNode(d, rw, true);
    OneNode(inner, rw, true);
    OneNode(inner, rw, false);
    OneNode(rule, rw, false);
    OneNode(AtRule("supports", gate, [rule]), rw, false);
    assert !IsKeyframes("supports");
    assert !Fits(inner, rw) && Loose(inner, rw) && FitsInGate(inner, rw, true);
  }

  /** Below a gate an at-rule in a rule escapes them when the rule has no rewritten declaration of its own, and only then. */
  lemma AtRuleEscapesScope(rw: Rewriter, gate: string, d: Node, name: string, params: string)
    requires IsGate("supports", gate) && d.Decl? && !d.added && rw(d.value) != d.value
    requires !IsKeyframes(name) && !IsGate(name, params)
    ensures var escapes := [AtRule("supports", gate, [Rule([".a"], [AtRule(name, params, [d])])])];
            AllParsed(escapes) && AllUnscoped(escapes) && !AllFit(escapes, rw)
    ensures var stays := [AtRule("supports", gate, [Rule([".a"], [d, AtRule(name, params, [d])])])];
            AllParsed(stays) && AllUnscoped(stays) && AllFit(stays, rw)
  {
    var inner := AtRule(name, params, [d]);
    var alone, both := Rule([".a"], [inner]), Rule([".a"], [d, inner]);
    ShortIsNotScoped(".a");
    OneNode(d, rw, false);
    OneNode(d, rw, true);
    OneNode(inner, rw, false);
    OneNode(alone, rw, false);
    TwoNodes(d, inner, rw, true);
    OneNode(both, rw, false);
    OneNode(AtRule("supports", gate, [alone]), rw, false);
    OneNode(AtRule("supports", gate, [both]), rw, false);
    assert !IsKeyframes("supports");
    assert Loose(d, rw) && !Loose(inner, rw) && !FitsInGate(alone, rw, false) && FitsInGate(both, rw, false);
  }
}
