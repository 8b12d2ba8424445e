/**
 * What the theme tables hold: for every token, what its last declaration says in the rules of a theme, wherever in the
 * stylesheet these stand.
 */
module ThemeTables {
  import opened Text
  import opened CssFallbacks
  import opened ThemeAliases
  import opened CssPlugin
  import ColorMix

  /** A child of a rule, with the rule's selectors. */
  datatype Placed = Placed(selectors: seq<string>, node: Node)

  function Own(selectors: seq<string>, kids: seq<Node>): seq<Placed> {
    seq(|kids|, i requires 0 <= i < |kids| => Placed(selectors, kids[i]))
  }

  /** The children of all rules at any depth: those of a rule before those of the rules nested in it. */
  function Children(nodes: seq<Node>): seq<Placed> {
    if nodes == [] then []
    else (match nodes[0]
          case Rule(selectors, kids) => Own(selectors, kids) + Children(kids)
          case AtRule(_, _, kids) => Children(kids)
          case _ => []) + Children(nodes[1..])
  }

  /** The rule is the dark theme's, or one of the light theme's. */
  predicate InTheme(p: Placed, dark: bool) {
    if dark then p.selectors == [".dark"] else ":root" in p.selectors || ":host" in p.selectors
  }

  /** The value refers to that custom property. */
  predicate RefersTo(value: string, name: string) {
    ColorMix.IsTokenName(name) && value == "var(" + name + ")"
  }

  /** The declaration gives the token a colour or an alias. */
  ghost predicate Defines(p: Placed, dark: bool, token: string, formats: Formats) {
    && InTheme(p, dark) && p.node.Decl? && p.node.prop == token && IsCustom(token)
    && (formats.color(p.node.value).Some? || exists name :: RefersTo(p.node.value, name))
  }

  ghost predicate Defined(ps: seq<Placed>, dark: bool, token: string, formats: Formats) {
    exists k | 0 <= k < |ps| :: Defines(ps[k], dark, token, formats)
  }

  ghost predicate IsFirst(ps: seq<Placed>, dark: bool, k: nat, token: string, formats: Formats) {
    k < |ps| && Defines(ps[k], dark, token, formats) && forall m | 0 <= m < k :: !Defines(ps[m], dark, token, formats)
  }

  ghost predicate IsLast(ps: seq<Placed>, dark: bool, k: nat, token: string, formats: Formats) {
    k < |ps| && Defines(ps[k], dark, token, formats) && forall m | k < m < |ps| :: !Defines(ps[m], dark, token, formats)
  }

  /** The entry says what the declaration says. */
  ghost predicate Says(e: Entry, n: Node, formats: Formats) {
    && n.Decl? && e.token == n.prop && e.color == formats.color(n.value)
    && forall name :: e.alias == Some(name) <==> RefersTo(n.value, name)
  }

  ghost predicate HoldsLast(table: seq<Entry>, ps: seq<Placed>, dark: bool, formats: Formats) {
    forall e :: e in table <==> exists k | 0 <= k < |ps| :: IsLast(ps, dark, k, e.token, formats) && Says(e, ps[k].node, formats)
  }

  ghost predicate HasToken(table: seq<Entry>, token: string) {
    exists x | 0 <= x < |table| :: table[x].token == token
  }

  ghost predicate HoldsOnce(table: seq<Entry>) {
    forall x, y | 0 <= x < y < |table| :: table[x].token != table[y].token
  }

  ghost predicate InOrderOfFirst(table: seq<Entry>, ps: seq<Placed>, dark: bool, formats: Formats) {
    forall x, y, j, k | 0 <= x < y < |table| && IsFirst(ps, dark, j, table[x].token, formats)
                        && IsFirst(ps, dark, k, table[y].token, formats) :: j < k
  }

  // ---------------------------------------------------------------- one declaration after another

  function Next(table: seq<Entry>, p: Placed, dark: bool, formats: Formats): seq<Entry> {
    if InTheme(p, dark) && EntryOf(p.node, formats).Some? then Put(table, EntryOf(p.node, formats).value) else table
  }

  function Fold(table: seq<Entry>, ps: seq<Placed>, dark: bool, formats: Formats): seq<Entry>
    decreases ps
  {
    if ps == [] then table else Fold(Next(table, ps[0], dark, formats), ps[1..], dark, formats)
  }

  lemma {:induction false} FoldBoth(table: seq<Entry>, a: seq<Placed>, b: seq<Placed>, dark: bool, formats: Formats)
    ensures Fold(table, a + b, dark, formats) == Fold(Fold(table, a, dark, formats), b, dark, formats)
    decreases a
  {
    if a == [] {
      assert a + b == b;
    } else {
      assert (a + b)[0] == a[0] && (a + b)[1..] == a[1..] + b;
      FoldBoth(Next(table, a[0], dark, formats), a[1..], b, dark, formats);
    }
  }

  lemma {:induction false} FoldOwn(table: seq<Entry>, selectors: seq<string>, kids: seq<Node>, dark: bool, formats: Formats)
    ensures Fold(table, Own(selectors, kids), dark, formats) ==
            if InTheme(Placed(selectors, Statement("")), dark) then PutAll(table, kids, formats) else table
    decreases kids
  {
    if kids != [] {
      var own := Own(selectors, kids);
      assert own[0] == Placed(selectors, kids[0]) && own[1..] == Own(selectors, kids[1..]);
      FoldOwn(Next(table, own[0], dark, formats), selectors, kids[1..], dark, formats);
    }
  }

  function TableOf(theme: Theme, dark: bool): seq<Entry> {
    if dark then theme.dark else theme.light
  }

  lemma {:induction false} CollectFolds(n: Node, theme: Theme, dark: bool, formats: Formats)
    ensures TableOf(Collect(n, theme, formats), dark) == Fold(TableOf(theme, dark), Children([n]), dark, formats)
    decreases n, 0
  {
    assert [n][1..] == [];
    match n
    case Rule(selectors, kids) =>
      var next := if selectors == [".dark"] then theme.(dark := PutAll(theme.dark, kids, formats))
                  else if ":root" in selectors || ":host" in selectors then theme.(light := PutAll(theme.light, kids, formats))
                  else theme;
      FoldOwn(TableOf(theme, dark), selectors, kids, dark, formats);
      CollectAllFolds(kids, next, dark, formats);
      FoldBoth(TableOf(theme, dark), Own(selectors, kids), Children(kids), dark, formats);
      assert Children([n]) == Own(selectors, kids) + Children(kids);
    case AtRule(_, _, kids) =>
      CollectAllFolds(kids, theme, dark, formats);
      assert Children([n]) == Children(kids);
    case _ =>
  }

  lemma {:induction false} CollectAllFolds(nodes: seq<Node>, theme: Theme, dark: bool, formats: Formats)
    ensures TableOf(CollectAll(nodes, theme, formats), dark) == Fold(TableOf(theme, dark), Children(nodes), dark, formats)
    decreases nodes, 1
  {
    if nodes != [] {
      CollectFolds(nodes[0], theme, dark, formats);
      CollectAllFolds(nodes[1..], Collect(nodes[0], theme, formats), dark, formats);
      assert [nodes[0]][1..] == [];
      assert Children(nodes) == Children([nodes[0]]) + Children(nodes[1..]);
      FoldBoth(TableOf(theme, dark), Children([nodes[0]]), Children(nodes[1..]), dark, formats);
    }
  }

  // ---------------------------------------------------------------- what a table holds after each of them

  lemma VarRefers(value: string, name: string)
    ensures ColorMix.IsVar(value) && ColorMix.VarName(value) == name <==> RefersTo(value, name)
  {
    if ColorMix.IsVar(value) {
      var own := ColorMix.VarName(value);
      assert value[..4] == ['v', 'a', 'r', '('];
      assert value == value[..4] + own + [')'];
    }
    if RefersTo(value, name) {
      assert value[..4] == "var(" && value[4..|value| - 1] == name;
    }
  }

  lemma AliasSays(e: Entry, value: string)
    ensures (forall name :: e.alias == Some(name) <==> RefersTo(value, name)) <==>
            e.alias == if ColorMix.IsVar(value) then Some(ColorMix.VarName(value)) else None
  {
    forall name ensures ColorMix.IsVar(value) && ColorMix.VarName(value) == name <==> RefersTo(value, name) {
      VarRefers(value, name);
    }
    if ColorMix.IsVar(value) {
      assert RefersTo(value, ColorMix.VarName(value));
    }
    if e.alias.Some? {
      assert e.alias == Some(e.alias.value);
    }
  }

  /** An entry is made of exactly the declarations that define their token, and says what they say. */
  lemma EntryDefines(p: Placed, dark: bool, token: string, formats: Formats)
    ensures Defines(p, dark, token, formats) <==>
            InTheme(p, dark) && EntryOf(p.node, formats).Some? && EntryOf(p.node, formats).value.token == token
  {
    if p.node.Decl? {
      var value := p.node.value;
      if ColorMix.IsVar(value) {
        VarRefers(value, ColorMix.VarName(value));
      }
      if name :| RefersTo(value, name) {
        VarRefers(value, name);
      }
      assert StartsWith(p.node.prop, "--") <==> IsCustom(p.node.prop);
    }
  }

  lemma EntrySays(n: Node, e: Entry, formats: Formats)
    requires EntryOf(n, formats).Some?
    ensures Says(e, n, formats) <==> e == EntryOf(n, formats).value
  {
    AliasSays(e, n.value);
  }

  lemma {:induction false} PutShape(table: seq<Entry>, e: Entry)
    requires HoldsOnce(table)
    ensures var after := Put(table, e);
            && |table| <= |after| <= |table| + 1 && (|after| == |table| <==> HasToken(table, e.token))
            && (forall x | 0 <= x < |table| :: after[x] == if table[x].token == e.token then e else table[x])
            && (|after| > |table| ==> after[|table|] == e)
  {
    if table != [] {
      var rest := table[1..];
      assert forall x | 0 <= x < |rest| :: rest[x] == table[x + 1];
      PutShape(rest, e);
      if table[0].token != e.token && HasToken(table, e.token) {
        var x :| 0 <= x < |table| && table[x].token == e.token;
        assert rest[x - 1].token == e.token;
      }
    }
  }

  /** What the table holds after the given declarations. */
  ghost predicate Holds(table: seq<Entry>, ps: seq<Placed>, dark: bool, formats: Formats) {
    && HoldsLast(table, ps, dark, formats) && HoldsOnce(table) && InOrderOfFirst(table, ps, dark, formats)
    && forall token :: HasToken(table, token) <==> Defined(ps, dark, token, formats)
  }

  lemma LastOfMore(ps: seq<Placed>, p: Placed, dark: bool, k: nat, token: string, formats: Formats)
    ensures IsLast(ps + [p], dark, k, token, formats) <==>
            if Defines(p, dark, token, formats) then k == |ps| else IsLast(ps, dark, k, token, formats)
    ensures IsFirst(ps + [p], dark, k, token, formats) <==>
            IsFirst(ps, dark, k, token, formats)
            || (k == |ps| && Defines(p, dark, token, formats) && !Defined(ps, dark, token, formats))
    ensures Defined(ps + [p], dark, token, formats) <==> Defined(ps, dark, token, formats) || Defines(p, dark, token, formats)
  {
    var more := ps + [p];
    assert more[|ps|] == p;
    assert forall m | 0 <= m < |ps| :: more[m] == ps[m];
  }

  lemma NothingMore(table: seq<Entry>, ps: seq<Placed>, p: Placed, dark: bool, formats: Formats)
    requires Holds(table, ps, dark, formats) && forall token :: !Defines(p, dark, token, formats)
    ensures Holds(table, ps + [p], dark, formats)
  {
    forall token, k: nat ensures IsLast(ps + [p], dark, k, token, formats) <==> IsLast(ps, dark, k, token, formats)
      ensures IsFirst(ps + [p], dark, k, token, formats) <==> IsFirst(ps, dark, k, token, formats)
      ensures Defined(ps + [p], dark, token, formats) <==> Defined(ps, dark, token, formats)
    {
      LastOfMore(ps, p, dark, k, token, formats);
    }
    forall e ensures e in table <==>
      exists k | 0 <= k < |ps + [p]| :: IsLast(ps + [p], dark, k, e.token, formats) && Says(e, (ps + [p])[k].node, formats)
    {
      if e in table {
        var k :| 0 <= k < |ps| && IsLast(ps, dark, k, e.token, formats) && Says(e, ps[k].node, formats);
        assert (ps + [p])[k] == ps[k] && IsLast(ps + [p], dark, k, e.token, formats);
      }
      if k :| 0 <= k < |ps + [p]| && IsLast(ps + [p], dark, k, e.token, formats) && Says(e, (ps + [p])[k].node, formats) {
        assert IsLast(ps, dark, k, e.token, formats) && (ps + [p])[k] == ps[k];
      }
    }
  }

  lemma OneMore(table: seq<Entry>, ps: seq<Placed>, p: Placed, dark: bool, formats: Formats, own: Entry)
    requires Holds(table, ps, dark, formats) && InTheme(p, dark) && EntryOf(p.node, formats) == Some(own)
    ensures HoldsLast(Put(table, own), ps + [p], dark, formats)
  {
    var more, after := ps + [p], Put(table, own);
    PutShape(table, own);
    forall e ensures e in after <==>
      exists k | 0 <= k < |more| :: IsLast(more, dark, k, e.token, formats) && Says(e, more[k].node, formats)
    {
      EntryDefines(p, dark, e.token, formats);
      PutMembers(table, own, e);
      if e.token == own.token {
        EntrySays(p.node, e, formats);
        LastOfMore(ps, p, dark, |ps|, e.token, formats);
        assert more[|ps|] == p;
        forall k | 0 <= k < |more| && IsLast(more, dark, k, e.token, formats) ensures k == |ps| {
          LastOfMore(ps, p, dark, k, e.token, formats);
        }
      } else {
        forall k | 0 <= k < |more|
          ensures IsLast(more, dark, k, e.token, formats) <==> k < |ps| && IsLast(ps, dark, k, e.token, formats)
        {
          LastOfMore(ps, p, dark, k, e.token, formats);
        }
        assert forall k | 0 <= k < |ps| :: more[k] == ps[k];
      }
    }
  }

  lemma PutMembers(table: seq<Entry>, own: Entry, e: Entry)
    requires HoldsOnce(table)
    ensures e in Put(table, own) <==> if e.token == own.token then e == own else e in table
  {
    var after := Put(table, own);
    PutShape(table, own);
    if e in table && e.token != own.token {
      var x :| 0 <= x < |table| && table[x] == e;
      assert after[x] == e;
    }
    if HasToken(table, own.token) {
      var x :| 0 <= x < |table| && table[x].token == own.token;
      assert after[x] == own;
    }
  }

  lemma OwnPlace(table: seq<Entry>, own: Entry, x: nat)
    requires HoldsOnce(table) && x < |Put(table, own)|
    ensures x < |table| ==> Put(table, own)[x].token == table[x].token && HasToken(table, table[x].token)
    ensures x >= |table| ==> x == |table| && Put(table, own)[x].token == own.token && !HasToken(table, own.token)
  {
    PutShape(table, own);
  }

  lemma PutTokens(table: seq<Entry>, own: Entry, token: string)
    requires HoldsOnce(table)
    ensures HasToken(Put(table, own), token) <==> HasToken(table, token) || token == own.token
  {
    var after := Put(table, own);
    PutShape(table, own);
    if x :| 0 <= x < |table| && table[x].token == token {
      assert after[x].token == token;
    }
    if x :| 0 <= x < |after| && after[x].token == token {
      OwnPlace(table, own, x);
    }
    PutMembers(table, own, own);
  }

  lemma OneMoreToken(table: seq<Entry>, ps: seq<Placed>, p: Placed, dark: bool, formats: Formats, own: Entry)
    requires HoldsOnce(table) && InTheme(p, dark) && EntryOf(p.node, formats) == Some(own)
    requires forall token :: HasToken(table, token) <==> Defined(ps, dark, token, formats)
    ensures forall token :: HasToken(Put(table, own), token) <==> Defined(ps + [p], dark, token, formats)
  {
    forall token ensures HasToken(Put(table, own), token) <==> Defined(ps + [p], dark, token, formats) {
      LastOfMore(ps, p, dark, 0, token, formats);
      EntryDefines(p, dark, token, formats);
      PutTokens(table, own, token);
    }
  }

  lemma PutHoldsOnce(table: seq<Entry>, own: Entry)
    requires HoldsOnce(table)
    ensures HoldsOnce(Put(table, own))
  {
    PutShape(table, own);
  }

  lemma PairInOrder(table: seq<Entry>, ps: seq<Placed>, p: Placed, dark: bool, formats: Formats, own: Entry,
                    x: nat, y: nat, j: nat, k: nat)
    requires HoldsOnce(table) && InOrderOfFirst(table, ps, dark, formats) && x < y < |Put(table, own)|
    requires forall token :: HasToken(table, token) <==> Defined(ps, dark, token, formats)
    requires IsFirst(ps + [p], dark, j, Put(table, own)[x].token, formats)
    requires IsFirst(ps + [p], dark, k, Put(table, own)[y].token, formats)
    ensures j < k
  {
    var tx, ty := Put(table, own)[x].token, Put(table, own)[y].token;
    OwnPlace(table, own, x);
    OwnPlace(table, own, y);
    LastOfMore(ps, p, dark, j, tx, formats);
    LastOfMore(ps, p, dark, k, ty, formats);
    if y < |table| {
      assert tx == table[x].token && ty == table[y].token;
    }
  }

  lemma OneMoreInOrder(table: seq<Entry>, ps: seq<Placed>, p: Placed, dark: bool, formats: Formats, own: Entry)
    requires Holds(table, ps, dark, formats) && InTheme(p, dark) && EntryOf(p.node, formats) == Some(own)
    ensures InOrderOfFirst(Put(table, own), ps + [p], dark, formats)
  {
    var more, after := ps + [p], Put(table, own);
    forall x, y, j, k | 0 <= x < y < |after| && IsFirst(more, dark, j, after[x].token, formats)
                        && IsFirst(more, dark, k, after[y].token, formats)
      ensures j < k
    {
      PairInOrder(table, ps, p, dark, formats, own, x, y, j, k);
    }
  }

  lemma NextHolds(table: seq<Entry>, ps: seq<Placed>, p: Placed, dark: bool, formats: Formats)
    requires Holds(table, ps, dark, formats)
    ensures Holds(Next(table, p, dark, formats), ps + [p], dark, formats)
  {
    if InTheme(p, dark) && EntryOf(p.node, formats).Some? {
      var own := EntryOf(p.node, formats).value;
      OneMore(table, ps, p, dark, formats, own);
      OneMoreToken(table, ps, p, dark, formats, own);
      PutHoldsOnce(table, own);
      OneMoreInOrder(table, ps, p, dark, formats, own);
    } else {
      forall token ensures !Defines(p, dark, token, formats) {
        EntryDefines(p, dark, token, formats);
      }
      NothingMore(table, ps, p, dark, formats);
    }
  }

  lemma {:induction false} FoldHolds(table: seq<Entry>, done: seq<Placed>, ps: seq<Placed>, dark: bool, formats: Formats)
    requires Holds(table, done, dark, formats)
    ensures Holds(Fold(table, ps, dark, formats), done + ps, dark, formats)
    decreases ps
  {
    if ps == [] {
      assert done + ps == done;
    } else {
      NextHolds(table, done, ps[0], dark, formats);
      FoldHolds(Next(table, ps[0], dark, formats), done + [ps[0]], ps[1..], dark, formats);
      assert done + [ps[0]] + ps[1..] == done + ps;
    }
  }

  /**
   * For every stylesheet, the table of the dark theme holds exactly what the last declaration of each token says among
   * those of the rules `.dark`, and the table of the light theme the same of the rules that list `:root` or `:host`, at any
   * depth. Each token is there once, in the order of first declarations.
   */
  lemma TablesHoldLast(nodes: seq<Node>, formats: Formats, dark: bool)
    ensures var table := if dark then ThemeOf(nodes, formats).dark else ThemeOf(nodes, formats).light;
            && HoldsLast(table, Children(nodes), dark, formats) && HoldsOnce(table)
            && InOrderOfFirst(table, Children(nodes), dark, formats)
            && forall token :: HasToken(table, token) <==> Defined(Children(nodes), dark, token, formats)
  {
    CollectAllFolds(nodes, Theme([], []), dark, formats);
    assert Holds([], [], dark, formats);
    FoldHolds([], [], Children(nodes), dark, formats);
    assert [] + Children(nodes) == Children(nodes);
  }
}
