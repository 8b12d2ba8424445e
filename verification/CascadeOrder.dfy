/**
 * The order in which a legacy browser reads the transformed stylesheet, and what that means for the cascade.
 */
module CascadeOrder {
  import opened Text
  import opened Selectors
  import opened CssFallbacks

  // ---------------------------------------------------------------- positions

  function Sources(n: Node): set<nat>
    decreases n, 0
  {
    match n
    case Decl(s, _, _, _) => {s}
    case Statement(_) => {}
    case Rule(_, kids) => AllSources(kids)
    case AtRule(_, _, kids) => AllSources(kids)
  }

  function AllSources(nodes: seq<Node>): set<nat>
    decreases nodes, 1
  {
    if nodes == [] then {} else Sources(nodes[0]) + AllSources(nodes[1..])
  }

  ghost predicate Below(a: set<nat>, b: set<nat>) {
    forall x, y | x in a && y in b :: x < y
  }

  /** The declarations stand in the order of their positions, as a parser numbers them. */
  ghost predicate Ordered(n: Node)
    decreases n, 0
  {
    match n
    case Rule(_, kids) => AllOrdered(kids)
    case AtRule(_, _, kids) => AllOrdered(kids)
    case _ => true
  }

  ghost predicate AllOrdered(nodes: seq<Node>)
    decreases nodes, 1
  {
    nodes == []
    || (Ordered(nodes[0]) && AllOrdered(nodes[1..]) && Below(Sources(nodes[0]), AllSources(nodes[1..])))
  }

  ghost predicate Ascending(outs: seq<Out>) {
    forall p, q | 0 <= p < q < |outs| :: outs[p].source < outs[q].source
  }

  ghost predicate From(outs: seq<Out>, sources: set<nat>) {
    forall p | 0 <= p < |outs| :: outs[p].source in sources
  }

  lemma {:induction false} ReadInOrder(n: Node, holds: Browser, context: seq<Frame>)
    ensures From(Read(n, holds, context), Sources(n))
    ensures Ordered(n) ==> Ascending(Read(n, holds, context))
    decreases n, 0
  {
    match n
    case Rule(selectors, kids) => AllReadInOrder(kids, holds, context + [RuleFrame(selectors)]);
    case AtRule(name, params, kids) =>
      AllReadInOrder(kids, holds, context + [AtFrame(name, params)]);
      AllReadInOrder(kids, holds, context);
    case _ =>
  }

  lemma {:induction false} AllReadInOrder(nodes: seq<Node>, holds: Browser, context: seq<Frame>)
    ensures From(ReadAll(nodes, holds, context), AllSources(nodes))
    ensures AllOrdered(nodes) ==> Ascending(ReadAll(nodes, holds, context))
    decreases nodes, 1
  {
    if nodes != [] {
      ReadInOrder(nodes[0], holds, context);
      AllReadInOrder(nodes[1..], holds, context);
    }
  }

  lemma {:induction false} OrderedAppend(a: seq<Node>, b: seq<Node>)
    requires AllOrdered(a) && AllOrdered(b) && Below(AllSources(a), AllSources(b))
    ensures AllOrdered(a + b)
  {
    if a == [] {
      assert a + b == b;
    } else {
      assert (a + b)[1..] == a[1..] + b;
      OrderedAppend(a[1..], b);
      SourcesAppend(a[1..], b);
    }
  }

  lemma {:induction false} SourcesAppend(a: seq<Node>, b: seq<Node>)
    ensures AllSources(a + b) == AllSources(a) + AllSources(b)
  {
    if a == [] {
      assert a + b == b;
    } else {
      assert (a + b)[1..] == a[1..] + b;
      SourcesAppend(a[1..], b);
    }
  }

  lemma OneSource(n: Node)
    ensures AllSources([n]) == Sources(n)
    ensures Ordered(n) ==> AllOrdered([n])
  {
    assert [n][1..] == [] && AllSources([]) == {} && AllOrdered([]);
    assert AllSources([n]) == Sources(n) + AllSources([n][1..]);
    assert Ordered(n) ==> AllOrdered([n][1..]);
  }

  /** Cloned fallbacks keep positions and order. */
  lemma {:induction false} FallbacksInOrder(n: Node, rw: Rewriter)
    ensures AllSources(Fallbacks(n, rw)) <= Sources(n)
    ensures Ordered(n) ==> AllOrdered(Fallbacks(n, rw))
    decreases n, 0
  {
    match n
    case Decl(s, _, p, v) => OneSource(Decl(s, true, p, rw(v)));
    case Statement(_) =>
    case AtRule(name, params, kids) =>
      AllFallbacksInOrder(kids, rw);
      OneSource(AtRule(name, params, AllFallbacks(kids, rw)));
    case Rule(selectors, kids) =>
      AllFallbacksInOrder(kids, rw);
      var children := AllFallbacks(kids, rw);
      OneSource(Rule(if HasDecl(children) then ScopeAll(selectors) else selectors, children));
  }

  lemma {:induction false} AllFallbacksInOrder(nodes: seq<Node>, rw: Rewriter)
    ensures AllSources(AllFallbacks(nodes, rw)) <= AllSources(nodes)
    ensures AllOrdered(nodes) ==> AllOrdered(AllFallbacks(nodes, rw))
    decreases nodes, 1
  {
    if nodes != [] {
      FallbacksInOrder(nodes[0], rw);
      AllFallbacksInOrder(nodes[1..], rw);
      SourcesAppend(Fallbacks(nodes[0], rw), AllFallbacks(nodes[1..], rw));
      if AllOrdered(nodes) {
        OrderedAppend(Fallbacks(nodes[0], rw), AllFallbacks(nodes[1..], rw));
      }
    }
  }

  lemma {:induction false} DeclsInOrder(nodes: seq<Node>)
    ensures AllSources(Decls(nodes)) <= AllSources(nodes)
    ensures AllOrdered(nodes) ==> AllOrdered(Decls(nodes))
  {
    if nodes != [] {
      DeclsInOrder(nodes[1..]);
      if nodes[0].Decl? {
        assert ([nodes[0]] + Decls(nodes[1..]))[1..] == Decls(nodes[1..]);
      } else {
        assert [] + Decls(nodes[1..]) == Decls(nodes[1..]);
      }
    }
  }

  /** The positions of the declarations that stand directly in a rule with these nodes. */
  function OwnSources(nodes: seq<Node>): set<nat> {
    AllSources(Decls(nodes))
  }

  // ---------------------------------------------------------------- which pairs change places

  /** A fallback that a rule with these nodes gets for one of its own declarations. */
  predicate OwnFallback(kids: seq<Node>, o: Out) {
    o.added && o.source in OwnSources(kids)
  }

  /** A rule outside gates holds both; p is one of its own fallbacks, and q is not. */
  predicate Passes(n: Node, p: Out, q: Out)
    decreases n, 0
  {
    match n
    case Rule(_, kids) =>
      (OwnFallback(kids, p) && q.source in AllSources(kids) && !OwnFallback(kids, q)) || SomePass(kids, p, q)
    case AtRule(name, params, kids) => !IsKeyframes(name) && !IsGate(name, params) && SomePass(kids, p, q)
    case _ => false
  }

  predicate SomePass(nodes: seq<Node>, p: Out, q: Out)
    decreases nodes, 1
  {
    nodes != [] && (Passes(nodes[0], p, q) || SomePass(nodes[1..], p, q))
  }

  /** Pairs are read against the order of the source exactly when the later one is such a fallback. */
  ghost predicate OrderedBut(outs: seq<Out>, nodes: seq<Node>) {
    forall i, j | 0 <= i < j < |outs| ::
      && (outs[i].source > outs[j].source ==> SomePass(nodes, outs[j], outs[i]))
      && (outs[i].source < outs[j].source ==> !SomePass(nodes, outs[i], outs[j]))
  }

  lemma {:induction false} PassIsInside(n: Node, p: Out, q: Out)
    requires Passes(n, p, q)
    ensures p.source in Sources(n) && q.source in Sources(n)
    decreases n, 0
  {
    match n
    case Rule(_, kids) =>
      DeclsInOrder(kids);
      if SomePass(kids, p, q) {
        SomePassIsInside(kids, p, q);
      }
    case AtRule(_, _, kids) => SomePassIsInside(kids, p, q);
  }

  lemma {:induction false} SomePassIsInside(nodes: seq<Node>, p: Out, q: Out)
    requires SomePass(nodes, p, q)
    ensures p.source in AllSources(nodes) && q.source in AllSources(nodes)
    decreases nodes, 1
  {
    if Passes(nodes[0], p, q) {
      PassIsInside(nodes[0], p, q);
    } else {
      SomePassIsInside(nodes[1..], p, q);
    }
  }

  /** What passes in a nested rule does not stand directly in the outer one. */
  lemma {:induction false} PassIsNotOwn(nodes: seq<Node>, p: Out, q: Out)
    requires AllOrdered(nodes) && SomePass(nodes, p, q)
    ensures p.source !in OwnSources(nodes) && q.source !in OwnSources(nodes)
  {
    DeclsInOrder(nodes[1..]);
    OwnOfFirst(nodes);
    if Passes(nodes[0], p, q) {
      PassIsInside(nodes[0], p, q);
    } else {
      SomePassIsInside(nodes[1..], p, q);
      PassIsNotOwn(nodes[1..], p, q);
    }
  }

  lemma OwnOfFirst(nodes: seq<Node>)
    requires nodes != []
    ensures OwnSources(nodes) == (if nodes[0].Decl? then Sources(nodes[0]) else {}) + OwnSources(nodes[1..])
  {
    if nodes[0].Decl? {
      assert ([nodes[0]] + Decls(nodes[1..]))[1..] == Decls(nodes[1..]);
    } else {
      assert [] + Decls(nodes[1..]) == Decls(nodes[1..]);
    }
  }

  /** Two readings side by side. */
  lemma SideBySide(x: seq<Out>, y: seq<Out>, n: Node, rest: seq<Node>)
    requires From(x, Sources(n)) && From(y, AllSources(rest)) && Below(Sources(n), AllSources(rest))
    requires OrderedBut(x, [n]) && OrderedBut(y, rest)
    ensures OrderedBut(x + y, [n] + rest)
  {
    forall i, j | 0 <= i < j < |x + y|
      ensures (x + y)[i].source > (x + y)[j].source ==> SomePass([n] + rest, (x + y)[j], (x + y)[i])
      ensures (x + y)[i].source < (x + y)[j].source ==> !SomePass([n] + rest, (x + y)[i], (x + y)[j])
    {
      var a, b := (x + y)[i], (x + y)[j];
      PassOfEither(n, rest, a, b);
      PassOfEither(n, rest, b, a);
      if j < |x| {
        assert a == x[i] && b == x[j];
      } else if i >= |x| {
        assert a == y[i - |x|] && b == y[j - |x|];
      } else {
        assert a == x[i] && b == y[j - |x|];
      }
    }
  }

  lemma PassOfEither(n: Node, rest: seq<Node>, p: Out, q: Out)
    ensures SomePass([n] + rest, p, q) <==> SomePass([n], p, q) || SomePass(rest, p, q)
    ensures SomePass([n], p, q) ==> p.source in Sources(n) && q.source in Sources(n)
    ensures SomePass(rest, p, q) ==> p.source in AllSources(rest) && q.source in AllSources(rest)
  {
    assert ([n] + rest)[1..] == rest && [n][1..] == [];
    if Passes(n, p, q) {
      PassIsInside(n, p, q);
    }
    if SomePass(rest, p, q) {
      SomePassIsInside(rest, p, q);
    }
  }

  /** What stands directly in a rule has been read there before its fallbacks. */
  ghost predicate OwnAreOriginal(outs: seq<Out>, kids: seq<Node>) {
    forall i | 0 <= i < |outs| && outs[i].source in OwnSources(kids) :: !outs[i].added
  }

  ghost predicate AllOwnFallbacks(outs: seq<Out>, kids: seq<Node>) {
    forall i | 0 <= i < |outs| :: OwnFallback(kids, outs[i])
  }

  lemma RulePass(selectors: seq<string>, kids: seq<Node>, p: Out, q: Out)
    ensures SomePass([Rule(selectors, kids)], p, q)
       <==> (OwnFallback(kids, p) && q.source in AllSources(kids) && !OwnFallback(kids, q)) || SomePass(kids, p, q)
  {
    assert [Rule(selectors, kids)][1..] == [];
  }

  lemma RulePair(a: Out, b: Out, selectors: seq<string>, kids: seq<Node>)
    requires AllOrdered(kids) && a.source in AllSources(kids) && b.source in AllSources(kids)
    ensures OwnFallback(kids, a) && OwnFallback(kids, b) ==> !SomePass([Rule(selectors, kids)], a, b)
    ensures !OwnFallback(kids, a) && OwnFallback(kids, b) ==>
              !SomePass([Rule(selectors, kids)], a, b) && SomePass([Rule(selectors, kids)], b, a)
    ensures !OwnFallback(kids, a) ==> (SomePass([Rule(selectors, kids)], a, b) <==> SomePass(kids, a, b))
  {
    RulePass(selectors, kids, a, b);
    RulePass(selectors, kids, b, a);
    if SomePass(kids, a, b) {
      PassIsNotOwn(kids, a, b);
    }
  }

  /** A rule followed by its own fallbacks. */
  lemma RuleAndFallbacks(x: seq<Out>, y: seq<Out>, selectors: seq<string>, kids: seq<Node>)
    requires AllOrdered(kids)
    requires From(x, AllSources(kids)) && OrderedBut(x, kids) && OwnAreOriginal(x, kids)
    requires From(y, AllSources(kids)) && Ascending(y) && AllOwnFallbacks(y, kids)
    ensures OrderedBut(x + y, [Rule(selectors, kids)])
  {
    forall i, j | 0 <= i < j < |x + y|
      ensures (x + y)[i].source > (x + y)[j].source ==> SomePass([Rule(selectors, kids)], (x + y)[j], (x + y)[i])
      ensures (x + y)[i].source < (x + y)[j].source ==> !SomePass([Rule(selectors, kids)], (x + y)[i], (x + y)[j])
    {
      var a, b := (x + y)[i], (x + y)[j];
      assert a == if i < |x| then x[i] else y[i - |x|];
      assert b == if j < |x| then x[j] else y[j - |x|];
      RulePair(a, b, selectors, kids);
      RulePair(b, a, selectors, kids);
    }
  }

  // ---------------------------------------------------------------- the reading of the transformed tree

  lemma {:induction false} OwnReadOriginal(nodes: seq<Node>, rw: Rewriter, holds: Browser, context: seq<Frame>)
    requires IsLegacy(holds) && AllParsed(nodes) && AllOrdered(nodes)
    ensures OwnAreOriginal(LegacyRead(nodes, rw, holds, context), nodes)
  {
    if nodes != [] {
      var first, rest := ReadAll(Inserted(nodes[0], rw), holds, context), LegacyRead(nodes[1..], rw, holds, context);
      OwnReadOriginal(nodes[1..], rw, holds, context);
      ReadAppend(Inserted(nodes[0], rw), InsertedAll(nodes[1..], rw), holds, context);
      ReadTwo(nodes[0], nodes[0], holds, context);
      OwnOfFirst(nodes);
      DeclsInOrder(nodes[1..]);
      OneLegacySources(nodes[0], rw, holds, context);
      LegacySources(nodes[1..], rw, holds, context);
      OwnOfBoth(first, rest, nodes);
    }
  }

  lemma OwnOfBoth(first: seq<Out>, rest: seq<Out>, nodes: seq<Node>)
    requires nodes != [] && Below(Sources(nodes[0]), AllSources(nodes[1..]))
    requires OwnSources(nodes[1..]) <= AllSources(nodes[1..])
    requires From(first, Sources(nodes[0])) && From(rest, AllSources(nodes[1..])) && OwnAreOriginal(rest, nodes[1..])
    requires nodes[0].Decl? ==> NoneAdded(first)
    ensures OwnAreOriginal(first + rest, nodes)
  {
    OwnOfFirst(nodes);
    assert forall s | s in Sources(nodes[0]) :: s !in AllSources(nodes[1..]);
    forall i | 0 <= i < |first + rest| && (first + rest)[i].source in OwnSources(nodes) ensures !(first + rest)[i].added {
      var o := (first + rest)[i];
      if i < |first| {
        assert o == first[i] && o.source in Sources(nodes[0]);
      } else {
        assert o == rest[i - |first|] && o.source in AllSources(nodes[1..]);
      }
    }
  }

  lemma {:induction false} OneLegacySources(n: Node, rw: Rewriter, holds: Browser, context: seq<Frame>)
    ensures From(ReadAll(Inserted(n, rw), holds, context), Sources(n))
    decreases n, 0
  {
    InsertedSources(n, rw);
    AllReadInOrder(Inserted(n, rw), holds, context);
  }

  lemma LegacySources(nodes: seq<Node>, rw: Rewriter, holds: Browser, context: seq<Frame>)
    ensures From(LegacyRead(nodes, rw, holds, context), AllSources(nodes))
  {
    AllInsertedSources(nodes, rw);
    AllReadInOrder(InsertedAll(nodes, rw), holds, context);
  }

  lemma TwoSources(a: Node, b: Node)
    ensures AllSources([a, b]) == Sources(a) + Sources(b) && AllSources([a]) == Sources(a)
  {
    assert [a, b] == [a] + [b];
    SourcesAppend([a], [b]);
    OneSource(a);
    OneSource(b);
  }

  /** The pass neither loses a position nor makes one up. */
  lemma {:induction false} InsertedSources(n: Node, rw: Rewriter)
    ensures AllSources(Inserted(n, rw)) == Sources(n)
    decreases n, 0
  {
    TwoSources(n, n);
    match n
    case Decl(_, _, _, _) =>
    case Statement(_) =>
    case AtRule(name, params, kids) =>
      AllInsertedSources(kids, rw);
      AllFallbacksInOrder(kids, rw);
      TwoSources(n, Guarded(AllFallbacks(kids, rw)));
      OneSource(AtRule(name, params, InsertedAll(kids, rw)));
    case Rule(selectors, kids) =>
      var scoped := Rule(ScopeAll(selectors), AllFallbacks(Decls(kids), rw));
      AllInsertedSources(kids, rw);
      AllFallbacksInOrder(Decls(kids), rw);
      DeclsInOrder(kids);
      OneSource(scoped);
      TwoSources(Rule(selectors, InsertedAll(kids, rw)), Guarded([scoped]));
  }

  lemma {:induction false} AllInsertedSources(nodes: seq<Node>, rw: Rewriter)
    ensures AllSources(InsertedAll(nodes, rw)) == AllSources(nodes)
    decreases nodes, 1
  {
    if nodes != [] {
      InsertedSources(nodes[0], rw);
      AllInsertedSources(nodes[1..], rw);
      SourcesAppend(Inserted(nodes[0], rw), InsertedAll(nodes[1..], rw));
    }
  }

  ghost predicate AllAdded(nodes: seq<Node>) {
    forall i | 0 <= i < |nodes| :: nodes[i].Decl? && nodes[i].added
  }

  lemma {:induction false} DeclFallbacks(nodes: seq<Node>, rw: Rewriter)
    requires forall i | 0 <= i < |nodes| :: nodes[i].Decl?
    ensures AllAdded(AllFallbacks(nodes, rw))
  {
    if nodes != [] {
      DeclFallbacks(nodes[1..], rw);
    }
  }

  lemma {:induction false} AddedReads(nodes: seq<Node>, holds: Browser, context: seq<Frame>)
    requires AllAdded(nodes)
    ensures forall k | 0 <= k < |ReadAll(nodes, holds, context)| :: ReadAll(nodes, holds, context)[k].added
  {
    if nodes != [] {
      AddedReads(nodes[1..], holds, context);
    }
  }

  lemma OwnFallbacksRead(kids: seq<Node>, rw: Rewriter, holds: Browser, context: seq<Frame>)
    requires AllOrdered(kids)
    ensures var y := ReadAll(AllFallbacks(Decls(kids), rw), holds, context);
            From(y, AllSources(kids)) && Ascending(y) && AllOwnFallbacks(y, kids)
  {
    var fallbacks := AllFallbacks(Decls(kids), rw);
    DeclsInOrder(kids);
    AllFallbacksInOrder(Decls(kids), rw);
    AllReadInOrder(fallbacks, holds, context);
    DeclFallbacks(Decls(kids), rw);
    AddedReads(fallbacks, holds, context);
    var y := ReadAll(fallbacks, holds, context);
    forall i | 0 <= i < |y| ensures OwnFallback(kids, y[i]) && y[i].source in AllSources(kids) {
      assert y[i].source in AllSources(fallbacks) && y[i].added;
    }
  }

  lemma RuleRead(selectors: seq<string>, kids: seq<Node>, rw: Rewriter, holds: Browser, context: seq<Frame>)
    requires IsLegacy(holds)
    ensures ReadAll(Inserted(Rule(selectors, kids), rw), holds, context)
         == LegacyRead(kids, rw, holds, context + [RuleFrame(selectors)])
            + ReadAll(AllFallbacks(Decls(kids), rw), holds, context + [RuleFrame(ScopeAll(selectors))])
  {
    var node := Rule(selectors, InsertedAll(kids, rw));
    var scoped := Rule(ScopeAll(selectors), AllFallbacks(Decls(kids), rw));
    ReadTwo(node, Guarded([scoped]), holds, context);
    ReadTwo(scoped, scoped, holds, context);
  }

  lemma AscendingIsOrderedBut(outs: seq<Out>, nodes: seq<Node>)
    requires Ascending(outs) && forall p, q :: !SomePass(nodes, p, q)
    ensures OrderedBut(outs, nodes)
  {
  }

  lemma NoPass(n: Node)
    requires match n case Rule(_, _) => false case AtRule(name, params, _) => IsKeyframes(name) || IsGate(name, params) case _ => true
    ensures forall p, q :: !SomePass([n], p, q)
  {
    assert [n][1..] == [];
  }

  lemma {:induction false} OneLegacyOrder(n: Node, rw: Rewriter, holds: Browser, context: seq<Frame>)
    requires IsLegacy(holds) && Parsed(n) && Ordered(n)
    ensures OrderedBut(ReadAll(Inserted(n, rw), holds, context), [n])
    decreases n, 0
  {
    ReadTwo(n, n, holds, context);
    ReadInOrder(n, holds, context);
    match n
    case Decl(_, _, _, _) => NoPass(n);
    case Statement(_) => NoPass(n);
    case AtRule(name, params, kids) =>
      if IsKeyframes(name) {
        NoPass(n);
      } else if IsGate(name, params) {
        var fallbacks := AllFallbacks(kids, rw);
        AllFallbacksInOrder(kids, rw);
        AllReadInOrder(fallbacks, holds, context);
        ReadTwo(n, Guarded(fallbacks), holds, context);
        NoPass(n);
      } else {
        LegacyOrder(kids, rw, holds, context + [AtFrame(name, params)]);
        LegacyOrder(kids, rw, holds, context);
        AtRuleOrder(name, params, kids, rw, holds, context);
      }
    case Rule(selectors, kids) =>
      LegacyOrder(kids, rw, holds, context + [RuleFrame(selectors)]);
      RuleOrder(selectors, kids, rw, holds, context);
  }

  lemma RuleOrder(selectors: seq<string>, kids: seq<Node>, rw: Rewriter, holds: Browser, context: seq<Frame>)
    requires IsLegacy(holds) && AllParsed(kids) && AllOrdered(kids)
    requires OrderedBut(LegacyRead(kids, rw, holds, context + [RuleFrame(selectors)]), kids)
    ensures OrderedBut(ReadAll(Inserted(Rule(selectors, kids), rw), holds, context), [Rule(selectors, kids)])
  {
    var inner, scoped := context + [RuleFrame(selectors)], context + [RuleFrame(ScopeAll(selectors))];
    LegacySources(kids, rw, holds, inner);
    OwnReadOriginal(kids, rw, holds, inner);
    OwnFallbacksRead(kids, rw, holds, scoped);
    RuleRead(selectors, kids, rw, holds, context);
    RuleAndFallbacks(LegacyRead(kids, rw, holds, inner), ReadAll(AllFallbacks(Decls(kids), rw), holds, scoped), selectors, kids);
  }

  lemma AtRuleOrder(name: string, params: string, kids: seq<Node>, rw: Rewriter, holds: Browser, context: seq<Frame>)
    requires !IsKeyframes(name) && !IsGate(name, params)
    requires OrderedBut(LegacyRead(kids, rw, holds, context + [AtFrame(name, params)]), kids)
    requires OrderedBut(LegacyRead(kids, rw, holds, context), kids)
    ensures OrderedBut(ReadAll(Inserted(AtRule(name, params, kids), rw), holds, context), [AtRule(name, params, kids)])
  {
    var node := AtRule(name, params, InsertedAll(kids, rw));
    ReadTwo(node, node, holds, context);
    assert [AtRule(name, params, kids)][1..] == [];
  }

  /**
   * The legacy reading follows the source order, except exactly that a rule's own fallbacks come after everything else
   * in that rule.
   */
  lemma {:induction false} LegacyOrder(nodes: seq<Node>, rw: Rewriter, holds: Browser, context: seq<Frame>)
    requires IsLegacy(holds) && AllParsed(nodes) && AllOrdered(nodes)
    ensures OrderedBut(LegacyRead(nodes, rw, holds, context), nodes)
    decreases nodes, 1
  {
    if nodes != [] {
      OneLegacyOrder(nodes[0], rw, holds, context);
      LegacyOrder(nodes[1..], rw, holds, context);
      OneLegacySources(nodes[0], rw, holds, context);
      LegacySources(nodes[1..], rw, holds, context);
      ReadAppend(Inserted(nodes[0], rw), InsertedAll(nodes[1..], rw), holds, context);
      SideBySide(ReadAll(Inserted(nodes[0], rw), holds, context), LegacyRead(nodes[1..], rw, holds, context), nodes[0], nodes[1..]);
      assert nodes == [nodes[0]] + nodes[1..];
    }
  }

  /**
   * Of two declarations read by a legacy browser, the one that stands later in the source is read first exactly when the
   * other one is an own fallback of a rule that holds them both, and it is none itself.
   */
  lemma ReadFirstExactly(nodes: seq<Node>, rw: Rewriter, holds: Browser, p: nat, q: nat)
    requires IsLegacy(holds) && AllParsed(nodes) && AllOrdered(nodes)
    requires var outs := LegacyRead(nodes, rw, holds, []); p < |outs| && q < |outs| && outs[p].source < outs[q].source
    ensures var outs := LegacyRead(nodes, rw, holds, []); q < p <==> SomePass(nodes, outs[p], outs[q])
  {
    LegacyOrder(nodes, rw, holds, []);
  }

  // ---------------------------------------------------------------- the cascade

  /** The specificity of a declaration for an element: in every rule around it, that of the selector which matches. */
  function Rank(context: seq<Frame>, choice: nat -> nat, functional: Functional): Specificity {
    if context == [] then Nothing
    else
      var n := |context| - 1;
      Rank(context[..n], choice, functional).Plus(
        match context[n]
        case AtFrame(_, _) => Nothing
        case RuleFrame(selectors) =>
          if choice(n) < |selectors| then SpecificityOf(selectors[choice(n)], functional) else Nothing)
  }

  /** The same rules and at-rules, some of the rules limited to the registered surfaces. */
  ghost predicate SameFrame(a: Frame, b: Frame) {
    a == b || (a.RuleFrame? && b.RuleFrame? && a.selectors == ScopeAll(b.selectors))
  }

  ghost predicate SameFrames(a: seq<Frame>, b: seq<Frame>) {
    |a| == |b| && forall i | 0 <= i < |a| :: SameFrame(a[i], b[i])
  }

  ghost predicate ScopableFrames(context: seq<Frame>) {
    forall i | 0 <= i < |context| && context[i].RuleFrame? :: AllScopable(context[i].selectors)
  }

  ghost predicate AllScopable(selectors: seq<string>) {
    forall i | 0 <= i < |selectors| :: Scopable(selectors[i])
  }

  ghost predicate ScopableNode(n: Node)
    decreases n, 0
  {
    match n
    case Rule(selectors, kids) => AllScopable(selectors) && ScopableNodes(kids)
    case AtRule(_, _, kids) => ScopableNodes(kids)
    case _ => true
  }

  ghost predicate ScopableNodes(nodes: seq<Node>)
    decreases nodes, 1
  {
    nodes == [] || (ScopableNode(nodes[0]) && ScopableNodes(nodes[1..]))
  }

  lemma SameFrameRank(a: Frame, b: Frame, i: nat, functional: Functional)
    requires a.RuleFrame? && b.RuleFrame? && SameFrame(a, b) && AllScopable(b.selectors) && i < |b.selectors|
    ensures |a.selectors| == |b.selectors|
    ensures SpecificityOf(a.selectors[i], functional) == SpecificityOf(b.selectors[i], functional)
  {
    if a != b {
      ScopeAllAt(b.selectors, i);
      ScopeKeepsSpecificity(b.selectors[i], functional);
    }
  }

  lemma {:induction false} SameRank(a: seq<Frame>, b: seq<Frame>, choice: nat -> nat, functional: Functional)
    requires SameFrames(a, b) && ScopableFrames(b)
    ensures Rank(a, choice, functional) == Rank(b, choice, functional)
  {
    if a != [] {
      var n := |a| - 1;
      SameRank(a[..n], b[..n], choice, functional);
      assert SameFrame(a[n], b[n]);
      if b[n].RuleFrame? && choice(n) < |b[n].selectors| {
        SameFrameRank(a[n], b[n], choice(n), functional);
      }
    }
  }

  /** Every condition holds, so that every declaration of a tree is read. */
  const Everything: Browser := (params: string) => true

  /** The declaration that o was written as, or was made from. */
  ghost predicate StemsFrom(o: Out, w: Out) {
    o.source == w.source && o.prop == w.prop && SameFrames(o.context, w.context) && ScopableFrames(w.context)
  }

  ghost predicate HasStem(o: Out, written: seq<Out>) {
    exists j :: 0 <= j < |written| && StemsFrom(o, written[j])
  }

  ghost predicate Stem(outs: seq<Out>, written: seq<Out>) {
    forall k | 0 <= k < |outs| :: HasStem(outs[k], written)
  }

  lemma StemInBoth(o: Out, x: seq<Out>, y: seq<Out>)
    ensures HasStem(o, x) || HasStem(o, y) ==> HasStem(o, x + y)
  {
    if j :| 0 <= j < |x| && StemsFrom(o, x[j]) {
      assert (x + y)[j] == x[j];
    } else if j :| 0 <= j < |y| && StemsFrom(o, y[j]) {
      assert (x + y)[|x| + j] == y[j];
    }
  }

  lemma StemEither(a: seq<Out>, b: seq<Out>, x: seq<Out>)
    requires Stem(a, x) && Stem(b, x)
    ensures Stem(a + b, x)
  {
  }

  lemma StemTogether(a: seq<Out>, b: seq<Out>, x: seq<Out>, y: seq<Out>)
    requires Stem(a, x) && Stem(b, y)
    ensures Stem(a + b, x + y)
  {
    forall o ensures HasStem(o, x) || HasStem(o, y) ==> HasStem(o, x + y) {
      StemInBoth(o, x, y);
    }
  }

  lemma FramesWith(a: seq<Frame>, b: seq<Frame>, f: Frame, g: Frame)
    requires SameFrames(a, b) && ScopableFrames(b) && SameFrame(f, g) && (g.RuleFrame? ==> AllScopable(g.selectors))
    ensures SameFrames(a + [f], b + [g]) && ScopableFrames(b + [g])
  {
  }

  lemma {:induction false} ReadStems(n: Node, holds: Browser, a: seq<Frame>, b: seq<Frame>)
    requires SameFrames(a, b) && ScopableFrames(b) && ScopableNode(n)
    ensures Stem(Read(n, holds, a), Read(n, Everything, b))
    decreases n, 0
  {
    match n
    case Decl(_, _, _, _) => assert StemsFrom(Read(n, holds, a)[0], Read(n, Everything, b)[0]);
    case Statement(_) =>
    case Rule(selectors, kids) =>
      FramesWith(a, b, RuleFrame(selectors), RuleFrame(selectors));
      AllReadStem(kids, holds, a + [RuleFrame(selectors)], b + [RuleFrame(selectors)]);
    case AtRule(name, params, kids) =>
      FramesWith(a, b, AtFrame(name, params), AtFrame(name, params));
      AllReadStem(kids, holds, a + [AtFrame(name, params)], b + [AtFrame(name, params)]);
      AllReadStem(kids, holds, a, b);
  }

  lemma {:induction false} AllReadStem(nodes: seq<Node>, holds: Browser, a: seq<Frame>, b: seq<Frame>)
    requires SameFrames(a, b) && ScopableFrames(b) && ScopableNodes(nodes)
    ensures Stem(ReadAll(nodes, holds, a), ReadAll(nodes, Everything, b))
    decreases nodes, 1
  {
    if nodes != [] {
      ReadStems(nodes[0], holds, a, b);
      AllReadStem(nodes[1..], holds, a, b);
      StemTogether(Read(nodes[0], holds, a), ReadAll(nodes[1..], holds, a),
                   Read(nodes[0], Everything, b), ReadAll(nodes[1..], Everything, b));
    }
  }

  lemma {:induction false} ClonesStem(n: Node, rw: Rewriter, holds: Browser, a: seq<Frame>, b: seq<Frame>)
    requires SameFrames(a, b) && ScopableFrames(b) && ScopableNode(n)
    ensures Stem(ReadAll(Fallbacks(n, rw), holds, a), Read(n, Everything, b))
    decreases n, 0
  {
    match n
    case Decl(s, _, p, v) =>
      ReadTwo(Decl(s, true, p, rw(v)), n, holds, a);
      assert StemsFrom(Out(s, a, p, rw(v), true), Read(n, Everything, b)[0]);
    case Statement(_) =>
    case AtRule(name, params, kids) =>
      if !IsKeyframes(name) {
        var node := AtRule(name, params, AllFallbacks(kids, rw));
        ReadTwo(node, node, holds, a);
        FramesWith(a, b, AtFrame(name, params), AtFrame(name, params));
        AllClonesStem(kids, rw, holds, a + [AtFrame(name, params)], b + [AtFrame(name, params)]);
        AllClonesStem(kids, rw, holds, a, b);
      }
    case Rule(selectors, kids) =>
      var children := AllFallbacks(kids, rw);
      var frame := if HasDecl(children) then ScopeAll(selectors) else selectors;
      ReadTwo(Rule(frame, children), n, holds, a);
      FramesWith(a, b, RuleFrame(frame), RuleFrame(selectors));
      AllClonesStem(kids, rw, holds, a + [RuleFrame(frame)], b + [RuleFrame(selectors)]);
  }

  lemma {:induction false} AllClonesStem(nodes: seq<Node>, rw: Rewriter, holds: Browser, a: seq<Frame>, b: seq<Frame>)
    requires SameFrames(a, b) && ScopableFrames(b) && ScopableNodes(nodes)
    ensures Stem(ReadAll(AllFallbacks(nodes, rw), holds, a), ReadAll(nodes, Everything, b))
    decreases nodes, 1
  {
    if nodes != [] {
      ClonesStem(nodes[0], rw, holds, a, b);
      AllClonesStem(nodes[1..], rw, holds, a, b);
      ReadAppend(Fallbacks(nodes[0], rw), AllFallbacks(nodes[1..], rw), holds, a);
      StemTogether(ReadAll(Fallbacks(nodes[0], rw), holds, a), ReadAll(AllFallbacks(nodes[1..], rw), holds, a),
                   Read(nodes[0], Everything, b), ReadAll(nodes[1..], Everything, b));
    }
  }

  lemma {:induction false} DeclsStem(nodes: seq<Node>, rw: Rewriter, holds: Browser, a: seq<Frame>, b: seq<Frame>)
    requires SameFrames(a, b) && ScopableFrames(b)
    ensures Stem(ReadAll(AllFallbacks(Decls(nodes), rw), holds, a), ReadAll(nodes, Everything, b))
  {
    if nodes != [] {
      var rest := AllFallbacks(Decls(nodes[1..]), rw);
      DeclsStem(nodes[1..], rw, holds, a, b);
      if nodes[0].Decl? {
        assert ([nodes[0]] + Decls(nodes[1..]))[1..] == Decls(nodes[1..]);
        ClonesStem(nodes[0], rw, holds, a, b);
        ReadAppend(Fallbacks(nodes[0], rw), rest, holds, a);
        StemTogether(ReadAll(Fallbacks(nodes[0], rw), holds, a), ReadAll(rest, holds, a),
                     Read(nodes[0], Everything, b), ReadAll(nodes[1..], Everything, b));
      } else {
        assert [] + Decls(nodes[1..]) == Decls(nodes[1..]);
        StemTogether([], ReadAll(rest, holds, a), Read(nodes[0], Everything, b), ReadAll(nodes[1..], Everything, b));
        assert [] + ReadAll(rest, holds, a) == ReadAll(rest, holds, a);
      }
    }
  }

  lemma {:induction false} OneLegacyStems(n: Node, rw: Rewriter, holds: Browser, a: seq<Frame>, b: seq<Frame>)
    requires IsLegacy(holds) && SameFrames(a, b) && ScopableFrames(b) && ScopableNode(n)
    ensures Stem(ReadAll(Inserted(n, rw), holds, a), Read(n, Everything, b))
    decreases n, 0
  {
    ReadTwo(n, n, holds, a);
    ReadStems(n, holds, a, b);
    match n
    case Decl(_, _, _, _) =>
    case Statement(_) =>
    case AtRule(name, params, kids) =>
      if IsKeyframes(name) {
      } else if IsGate(name, params) {
        var fallbacks := AllFallbacks(kids, rw);
        AllClonesStem(kids, rw, holds, a, b);
        ReadTwo(n, Guarded(fallbacks), holds, a);
        assert ReadAll(Inserted(n, rw), holds, a) == ReadAll(fallbacks, holds, a);
      } else {
        var node := AtRule(name, params, InsertedAll(kids, rw));
        FramesWith(a, b, AtFrame(name, params), AtFrame(name, params));
        LegacyStems(kids, rw, holds, a + [AtFrame(name, params)], b + [AtFrame(name, params)]);
        LegacyStems(kids, rw, holds, a, b);
        ReadTwo(node, node, holds, a);
      }
    case Rule(selectors, kids) =>
      FramesWith(a, b, RuleFrame(selectors), RuleFrame(selectors));
      FramesWith(a, b, RuleFrame(ScopeAll(selectors)), RuleFrame(selectors));
      LegacyStems(kids, rw, holds, a + [RuleFrame(selectors)], b + [RuleFrame(selectors)]);
      DeclsStem(kids, rw, holds, a + [RuleFrame(ScopeAll(selectors))], b + [RuleFrame(selectors)]);
      RuleRead(selectors, kids, rw, holds, a);
      StemEither(LegacyRead(kids, rw, holds, a + [RuleFrame(selectors)]),
                 ReadAll(AllFallbacks(Decls(kids), rw), holds, a + [RuleFrame(ScopeAll(selectors))]),
                 ReadAll(kids, Everything, b + [RuleFrame(selectors)]));
  }

  /** Whatever a legacy browser reads was written in the same rules and at-rules, but for the scopes. */
  lemma {:induction false} LegacyStems(nodes: seq<Node>, rw: Rewriter, holds: Browser, a: seq<Frame>, b: seq<Frame>)
    requires IsLegacy(holds) && SameFrames(a, b) && ScopableFrames(b) && ScopableNodes(nodes)
    ensures Stem(LegacyRead(nodes, rw, holds, a), ReadAll(nodes, Everything, b))
    decreases nodes, 1
  {
    if nodes != [] {
      OneLegacyStems(nodes[0], rw, holds, a, b);
      LegacyStems(nodes[1..], rw, holds, a, b);
      ReadAppend(Inserted(nodes[0], rw), InsertedAll(nodes[1..], rw), holds, a);
      StemTogether(ReadAll(Inserted(nodes[0], rw), holds, a), LegacyRead(nodes[1..], rw, holds, a),
                   Read(nodes[0], Everything, b), ReadAll(nodes[1..], Everything, b));
    }
  }

  /** A fallback has the specificity of the declaration it was made from, for every element. */
  lemma RankIsKept(nodes: seq<Node>, rw: Rewriter, holds: Browser, functional: Functional, o: Out, w: Out, choice: nat -> nat)
    requires IsLegacy(holds) && AllOrdered(nodes) && ScopableNodes(nodes)
    requires o in LegacyRead(nodes, rw, holds, []) && w in ReadAll(nodes, Everything, []) && o.source == w.source
    ensures Rank(o.context, choice, functional) == Rank(w.context, choice, functional)
  {
    var outs, written := LegacyRead(nodes, rw, holds, []), ReadAll(nodes, Everything, []);
    LegacyStems(nodes, rw, holds, [], []);
    AllReadInOrder(nodes, Everything, []);
    var k :| 0 <= k < |outs| && outs[k] == o;
    var j :| 0 <= j < |written| && StemsFrom(o, written[j]);
    var v :| 0 <= v < |written| && written[v] == w;
    assert j == v;
    SameRank(o.context, w.context, choice, functional);
  }

  /** The first of two matching declarations is beaten by the second one: by its rank, or by coming later at the same one. */
  ghost predicate Beaten(outs: seq<Out>, p: nat, q: nat, rank: Out -> Specificity)
    requires p < |outs| && q < |outs|
  {
    rank(outs[p]).Less(rank(outs[q])) || (rank(outs[p]) == rank(outs[q]) && p < q)
  }

  /** The ranks of what is read, for an element that the given selectors match. */
  function Ranks(choices: Out -> (nat -> nat), functional: Functional): Out -> Specificity {
    (o: Out) => Rank(o.context, choices(o), functional)
  }

  /**
   * The cascade: a declaration that comes later in the source with at least the rank that the earlier one has there beats
   * it, and any fallback made from it, unless that is an own fallback of a rule around both.
   */
  lemma LaterRuleStillWins(nodes: seq<Node>, rw: Rewriter, holds: Browser, functional: Functional, p: nat, q: nat,
                           v: Out, w: Out, choices: Out -> (nat -> nat))
    requires IsLegacy(holds) && AllParsed(nodes) && AllOrdered(nodes) && ScopableNodes(nodes)
    requires v in ReadAll(nodes, Everything, []) && w in ReadAll(nodes, Everything, []) && v.source < w.source
    requires var outs := LegacyRead(nodes, rw, holds, []);
             && p < |outs| && q < |outs| && outs[p].source == v.source && outs[q].source == w.source
             && !Rank(w.context, choices(outs[q]), functional).Less(Rank(v.context, choices(outs[p]), functional))
             && !SomePass(nodes, outs[p], outs[q])
    ensures Beaten(LegacyRead(nodes, rw, holds, []), p, q, Ranks(choices, functional))
  {
    var outs := LegacyRead(nodes, rw, holds, []);
    var a, b := outs[p], outs[q];
    ReadFirstExactly(nodes, rw, holds, p, q);
    assert p < q;
    RankIsKept(nodes, rw, holds, functional, a, v, choices(a));
    RankIsKept(nodes, rw, holds, functional, b, w, choices(b));
    NotLess(Rank(a.context, choices(a), functional), Rank(b.context, choices(b), functional));
  }

  lemma NotLess(x: Specificity, y: Specificity)
    ensures y.Less(x) || x.Less(y) || x == y
  {
  }

  /** Inside one rule the order does change: a fallback comes after a later declaration of the same property. */
  lemma SameRuleIsReordered(rw: Rewriter, holds: Browser)
    requires IsLegacy(holds) && rw("mix") == "rgb" && rw("red") == "red"
    ensures var nodes := [Rule([".a"], [Decl(1, false, "color", "mix"), Decl(2, false, "color", "red")])];
            LegacyRead(nodes, rw, holds, []) ==
            [Out(1, [RuleFrame([".a"])], "color", "mix", false), Out(2, [RuleFrame([".a"])], "color", "red", false),
             Out(1, [RuleFrame(ScopeAll([".a"]))], "color", "rgb", true)]
  {
    var d, e, f := Decl(1, false, "color", "mix"), Decl(2, false, "color", "red"), Decl(1, true, "color", "rgb");
    var rule := Rule([".a"], [d, e]);
    TwoDecls(d, e, rw);
    OneInserted(rule, rw);
    assert "mix"[0] != "rgb"[0];
    assert Decls([d, e]) == [d, e] && AllFallbacks([d, e], rw) == [f];
    assert [] + [RuleFrame([".a"])] == [RuleFrame([".a"])];
    assert [] + [RuleFrame(ScopeAll([".a"]))] == [RuleFrame(ScopeAll([".a"]))];
    RuleRead([".a"], [d, e], rw, holds, []);
    ReadTwo(d, e, holds, [RuleFrame([".a"])]);
    ReadTwo(f, e, holds, [RuleFrame(ScopeAll([".a"]))]);
  }

  lemma TwoDecls(d: Node, e: Node, rw: Rewriter)
    requires d.Decl? && e.Decl? && rw(e.value) == e.value
    ensures Decls([d, e]) == [d, e] && InsertedAll([d, e], rw) == [d, e] && AllFallbacks([d, e], rw) == Fallbacks(d, rw)
  {
    assert [d, e][1..] == [e] && [e][1..] == [];
    assert Decls([e]) == [e] && InsertedAll([e], rw) == [e] && AllFallbacks([e], rw) == [];
  }

  lemma OneInserted(n: Node, rw: Rewriter)
    ensures InsertedAll([n], rw) == Inserted(n, rw)
  {
    assert [n][1..] == [];
  }
}
