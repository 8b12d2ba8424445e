/**
 * What the custom properties of the appended block are worth, in the light and in the dark theme, and what colours the
 * rewritten values therefore denote.
 */
module ThemeResolution {
  import opened Text
  import opened ThemeAliases
  import opened CssFallbacks
  import opened CssPlugin
  import opened FallbackColors
  import opened CompatibilityScopes
  import ColorMix

  // ---------------------------------------------------------------- the theme as it was written

  /** The entry of a token in one table. */
  function Find(table: seq<Entry>, token: string): Option<Entry> {
    if table == [] then None
    else
      var later := Find(table[1..], token);
      if later.Some? then later else if table[0].token == token then Some(table[0]) else None
  }

  lemma {:induction false} FindInBoth(a: seq<Entry>, b: seq<Entry>, token: string)
    ensures Find(a + b, token) == if Find(b, token).Some? then Find(b, token) else Find(a, token)
  {
    if a == [] {
      assert a + b == b;
    } else {
      assert (a + b)[1..] == a[1..] + b;
      FindInBoth(a[1..], b, token);
    }
  }

  /** The entries that apply in one theme, later ones overriding earlier ones: the dark theme overrides the light one. */
  function InOrder(theme: Theme, dark: bool): seq<Entry> {
    if dark then theme.light + theme.dark else theme.light
  }

  function Visible(theme: Theme, dark: bool, token: string): Option<Entry> {
    Find(InOrder(theme, dark), token)
  }

  /** A chain of aliases that ends at a colour, in one theme. */
  ghost predicate ColorChain(theme: Theme, dark: bool, chain: seq<string>, color: ThemeColor) {
    chain != [] &&
    match Visible(theme, dark, chain[0])
    case None => false
    case Some(e) =>
      if e.color.Some? then |chain| == 1 && e.color == Some(color)
      else |chain| > 1 && e.alias == Some(chain[1]) && ColorChain(theme, dark, chain[1..], color)
  }

  /** What colour the token has in one theme. */
  ghost predicate HasColor(theme: Theme, dark: bool, token: string, color: ThemeColor) {
    exists chain :: ColorChain(theme, dark, chain, color) && chain[0] == token
  }

  lemma {:induction false} ColorChainIsUnique(theme: Theme, dark: bool, x: seq<string>, c: ThemeColor, y: seq<string>, d: ThemeColor)
    requires ColorChain(theme, dark, x, c) && ColorChain(theme, dark, y, d) && x[0] == y[0]
    ensures c == d
  {
    if |x| > 1 {
      ColorChainIsUnique(theme, dark, x[1..], c, y[1..], d);
    }
  }

  lemma HasOneColor(theme: Theme, dark: bool, token: string, c: ThemeColor, d: ThemeColor)
    requires HasColor(theme, dark, token, c) && HasColor(theme, dark, token, d)
    ensures c == d
  {
    var x :| ColorChain(theme, dark, x, c) && x[0] == token;
    var y :| ColorChain(theme, dark, y, d) && y[0] == token;
    ColorChainIsUnique(theme, dark, x, c, y, d);
  }

  lemma {:induction false} FindIsEntry(table: seq<Entry>, token: string)
    requires Find(table, token).Some?
    ensures Find(table, token).value in table && Find(table, token).value.token == token
  {
    if Find(table[1..], token).Some? {
      FindIsEntry(table[1..], token);
    }
  }

  lemma VisibleIsEntry(theme: Theme, dark: bool, token: string)
    requires Visible(theme, dark, token).Some?
    ensures Visible(theme, dark, token).value in theme.All() && Visible(theme, dark, token).value.token == token
  {
    FindIsEntry(InOrder(theme, dark), token);
    assert forall e | e in InOrder(theme, dark) :: e in theme.All();
  }

  /** A token with a colour in one theme is known. */
  lemma {:induction false} ColoredIsKnown(theme: Theme, known: set<string>, dark: bool, chain: seq<string>, color: ThemeColor)
    requires IsKnown(theme, known) && ColorChain(theme, dark, chain, color)
    ensures chain[0] in known
  {
    VisibleIsEntry(theme, dark, chain[0]);
    var e := Visible(theme, dark, chain[0]).value;
    if |chain| == 1 {
      ColoredReaches(theme.All(), e);
    } else {
      ColoredIsKnown(theme, known, dark, chain[1..], color);
      AliasReaches(theme.All(), e);
    }
  }

  // ---------------------------------------------------------------- the values of the appended block

  /** The last declaration of a property in one context. */
  function LastOf(outs: seq<Out>, context: seq<Frame>, prop: string): Option<string> {
    if outs == [] then None
    else
      var later := LastOf(outs[1..], context, prop);
      if later.Some? then later
      else if outs[0].context == context && outs[0].prop == prop then Some(outs[0].value) else None
  }

  const LightContext := [RuleFrame([Roots()])]
  const DarkContext := [RuleFrame([".dark " + Roots()])]

  /** The value that a surface gets for a property; the selector for the dark theme is the more specific one. */
  function SurfaceValue(outs: seq<Out>, dark: bool, prop: string): Option<string> {
    if dark && LastOf(outs, DarkContext, prop).Some? then LastOf(outs, DarkContext, prop) else LastOf(outs, LightContext, prop)
  }

  /** References followed to a text that is none. */
  ghost predicate ValueChain(values: Properties, chain: seq<string>, text: string) {
    chain != [] &&
    match values(chain[0])
    case None => false
    case Some(value) =>
      if ColorMix.IsVar(value) then |chain| > 1 && chain[1] == ColorMix.VarName(value) && ValueChain(values, chain[1..], text)
      else |chain| == 1 && text == value
  }

  ghost predicate Resolves(values: Properties, prop: string, text: string) {
    exists chain :: ValueChain(values, chain, text) && chain[0] == prop
  }

  lemma {:induction false} ValueChainIsUnique(values: Properties, x: seq<string>, a: string, y: seq<string>, b: string)
    requires ValueChain(values, x, a) && ValueChain(values, y, b) && x[0] == y[0]
    ensures a == b
  {
    if |x| > 1 {
      ValueChainIsUnique(values, x[1..], a, y[1..], b);
    }
  }

  /** The computed value of a property; a reference to nothing, or in a circle, leaves none. */
  ghost function Computed(values: Properties, prop: string): Option<string> {
    if text: string :| Resolves(values, prop, text) then Some(text) else None
  }

  lemma ComputedExactly(values: Properties, prop: string, text: string)
    ensures Computed(values, prop) == Some(text) <==> Resolves(values, prop, text)
  {
    if Resolves(values, prop, text) {
      var other := Computed(values, prop).value;
      var x :| ValueChain(values, x, text) && x[0] == prop;
      var y :| ValueChain(values, y, other) && y[0] == prop;
      ValueChainIsUnique(values, x, text, y, other);
    }
  }

  // ---------------------------------------------------------------- what the block declares

  const GENERATED := "--chrome109-"

  /** What is declared for a token: the token itself, its channels and its alpha. */
  datatype Part = Whole | Channels | Alpha

  function PropertyOf(part: Part, token: string): string
    requires IsCustom(token)
  {
    match part
    case Whole => token
    case Channels => ColorMix.ChannelsProperty(token)
    case Alpha => ColorMix.AlphaProperty(token)
  }

  function StaticText(part: Part, c: ThemeColor): string {
    match part
    case Whole => "rgb(" + c.channels + " / " + c.alpha + ")"
    case Channels => c.channels
    case Alpha => c.alpha
  }

  /** The value declared for one part of an entry. */
  function PartText(part: Part, e: Entry): string
    requires IsEntry(e)
  {
    if e.color.Some? then StaticText(part, e.color.value) else ColorMix.VarText(PropertyOf(part, e.alias.value))
  }

  /** Static texts are no references. */
  ghost predicate AllStatic(table: seq<Entry>) {
    forall e | e in table :: e.color.Some? ==> !ColorMix.IsVar(e.color.value.channels) && !ColorMix.IsVar(e.color.value.alpha)
  }

  function Suffix(part: Part): string {
    if part.Channels? then "-rgb" else "-alpha"
  }

  lemma PropertyShape(part: Part, token: string)
    requires IsCustom(token) && part != Whole
    ensures PropertyOf(part, token) == GENERATED + (token[2..] + Suffix(part)) && StartsWith(PropertyOf(part, token), GENERATED)
  {
  }

  lemma SuffixesDiffer(a: string, b: string)
    ensures a + "-rgb" != b + "-alpha"
  {
    assert (a + "-rgb")[|a + "-rgb"| - 1] == 'b';
    assert (b + "-alpha")[|b + "-alpha"| - 1] == 'a';
  }

  lemma GeneratedIsInjective(part: Part, token: string, other: Part, u: string)
    requires IsCustom(token) && IsCustom(u) && part != Whole && other != Whole
    ensures PropertyOf(part, token) == PropertyOf(other, u) <==> part == other && token == u
  {
    PropertyShape(part, token);
    PropertyShape(other, u);
    if PropertyOf(part, token) == PropertyOf(other, u) {
      SamePrefix(GENERATED, token[2..] + Suffix(part), u[2..] + Suffix(other));
      SuffixesDiffer(token[2..], u[2..]);
      SuffixesDiffer(u[2..], token[2..]);
      SameSuffix(token[2..], u[2..], Suffix(part));
      assert token == token[..2] + token[2..] && u == u[..2] + u[2..];
    }
  }

  /** Two different things are declared under one name; one of them is a token with a generated name. */
  ghost predicate Rivals(part: Part, token: string, other: Part, u: string) {
    IsCustom(token) && IsCustom(u) && (part, token) != (other, u) && PropertyOf(part, token) == PropertyOf(other, u)
  }

  /** A generated name is longer than its token, so nobody is his own rival, and only whole tokens have generated rivals. */
  lemma RivalShape(part: Part, token: string, other: Part, u: string)
    requires Rivals(part, token, other, u)
    ensures token != u && ((part == Whole) != (other == Whole))
  {
    if part != Whole {
      PropertyShape(part, token);
    }
    if other != Whole {
      PropertyShape(other, u);
    }
    if part != Whole && other != Whole {
      GeneratedIsInjective(part, token, other, u);
    }
  }

  lemma RivalIsUnique(part: Part, token: string, p: Part, u: string, q: Part, w: string)
    requires Rivals(part, token, p, u) && Rivals(part, token, q, w)
    ensures p == q && u == w
  {
    RivalShape(part, token, p, u);
    RivalShape(part, token, q, w);
    if part == Whole {
      GeneratedIsInjective(p, u, q, w);
    }
  }

  function Declared(nodes: seq<Node>, prop: string): Option<string> {
    if nodes == [] then None
    else
      var later := Declared(nodes[1..], prop);
      if later.Some? then later else if nodes[0].Decl? && nodes[0].prop == prop then Some(nodes[0].value) else None
  }

  lemma {:induction false} DeclaredInBoth(a: seq<Node>, b: seq<Node>, prop: string)
    ensures Declared(a + b, prop) == if Declared(b, prop).Some? then Declared(b, prop) else Declared(a, prop)
  {
    if a == [] {
      assert a + b == b;
    } else {
      assert (a + b)[1..] == a[1..] + b;
      DeclaredInBoth(a[1..], b, prop);
    }
  }

  lemma DeclaredInThree(a: Node, b: Node, c: Node, prop: string)
    requires a.Decl? && b.Decl? && c.Decl?
    ensures Declared([a, b, c], prop) ==
            if c.prop == prop then Some(c.value) else if b.prop == prop then Some(b.value)
            else if a.prop == prop then Some(a.value) else None
  {
    assert [a, b, c][1..] == [b, c] && [b, c][1..] == [c] && [c][1..] == [];
    assert Declared([c], prop) == if c.prop == prop then Some(c.value) else None;
  }

  /** Which part of an entry bears a name, if any; no two do. */
  lemma TokenDeclared(e: Entry, prop: string)
    requires IsEntry(e)
    ensures Declared(TokenDecls(e), prop) ==
            if PropertyOf(Alpha, e.token) == prop then Some(PartText(Alpha, e))
            else if PropertyOf(Channels, e.token) == prop then Some(PartText(Channels, e))
            else if PropertyOf(Whole, e.token) == prop then Some(PartText(Whole, e)) else None
  {
    var ds := TokenDecls(e);
    assert ds == [ds[0], ds[1], ds[2]];
    DeclaredInThree(ds[0], ds[1], ds[2], prop);
  }

  /** What an entry declares under the name of a part of a token that has a rival. */
  lemma TokenOrRival(e: Entry, part: Part, token: string, other: Part, u: string)
    requires IsEntry(e) && Rivals(part, token, other, u)
    ensures token != u
    ensures Declared(TokenDecls(e), PropertyOf(part, token)) ==
            if e.token == token then Some(PartText(part, e)) else if e.token == u then Some(PartText(other, e)) else None
  {
    TokenDeclared(e, PropertyOf(part, token));
    RivalShape(part, token, other, u);
    forall p: Part ensures PropertyOf(p, e.token) == PropertyOf(part, token) <==> (p, e.token) == (part, token) || (p, e.token) == (other, u) {
      if Rivals(part, token, p, e.token) {
        RivalIsUnique(part, token, other, u, p, e.token);
      }
    }
  }

  lemma TokenAlone(e: Entry, part: Part, token: string)
    requires IsEntry(e) && IsCustom(token) && forall other, u :: !Rivals(part, token, other, u)
    ensures Declared(TokenDecls(e), PropertyOf(part, token)) == if e.token == token then Some(PartText(part, e)) else None
  {
    TokenDeclared(e, PropertyOf(part, token));
    forall p: Part ensures PropertyOf(p, e.token) == PropertyOf(part, token) <==> (p, e.token) == (part, token) {
      assert !Rivals(part, token, p, e.token);
    }
  }

  // ---------------------------------------------------------------- which declaration is read

  /** The last place of a token in a table, -1 if there is none. */
  function LastPlace(table: seq<Entry>, token: string): int {
    if table == [] then -1
    else
      var later := LastPlace(table[1..], token);
      if later >= 0 then later + 1 else if table[0].token == token then 0 else -1
  }

  lemma {:induction false} FindIsLastPlace(table: seq<Entry>, token: string)
    ensures -1 <= LastPlace(table, token) < |table|
    ensures Find(table, token) == if LastPlace(table, token) >= 0 then Some(table[LastPlace(table, token)]) else None
  {
    if table != [] {
      FindIsLastPlace(table[1..], token);
    }
  }

  /** Where a token is declared last in the rule of a table; unknown tokens are not declared. */
  function Place(table: seq<Entry>, known: set<string>, token: string): int {
    if token in known then LastPlace(table, token) else -1
  }

  /** What is declared there for one of its parts. */
  function LastText(table: seq<Entry>, known: set<string>, part: Part, token: string): Option<string>
    requires WellFormed(table)
  {
    FindIsLastPlace(table, token);
    var place := Place(table, known, token);
    if place >= 0 then Some(PartText(part, table[place])) else None
  }

  /** The first entry counts only if the others do not hold the token. */
  lemma FirstText(table: seq<Entry>, known: set<string>, part: Part, token: string)
    requires WellFormed(table) && table != []
    ensures var place := Place(table[1..], known, token);
            && -1 <= place && Place(table, known, token) ==
                 (if place >= 0 then place + 1 else if token in known && table[0].token == token then 0 else -1)
            && LastText(table, known, part, token) ==
                 (if place >= 0 then LastText(table[1..], known, part, token)
                  else if token in known && table[0].token == token then Some(PartText(part, table[0])) else None)
  {
    FindIsLastPlace(table[1..], token);
  }

  /** A known token with the same name for one of its parts is declared later, with a different text. */
  ghost predicate Displaces(table: seq<Entry>, known: set<string>, part: Part, token: string, other: Part, u: string)
    requires WellFormed(table)
  {
    && Rivals(part, token, other, u) && Place(table, known, u) > Place(table, known, token)
    && LastText(table, known, other, u) != LastText(table, known, part, token)
  }

  ghost predicate Displaced(table: seq<Entry>, known: set<string>, part: Part, token: string)
    requires WellFormed(table)
  {
    exists other, u :: Displaces(table, known, part, token, other, u)
  }

  lemma {:induction false} RivalsDeclared(table: seq<Entry>, known: set<string>, part: Part, token: string, other: Part, u: string)
    requires WellFormed(table) && Rivals(part, token, other, u)
    ensures Declared(ThemeDecls(table, known), PropertyOf(part, token)) ==
            if Place(table, known, u) > Place(table, known, token) then LastText(table, known, other, u)
            else LastText(table, known, part, token)
  {
    if table != [] {
      var own := if table[0].token in known then TokenDecls(table[0]) else [];
      RivalsDeclared(table[1..], known, part, token, other, u);
      TokenOrRival(table[0], part, token, other, u);
      DeclaredInBoth(own, ThemeDecls(table[1..], known), PropertyOf(part, token));
      FirstText(table, known, part, token);
      FirstText(table, known, other, u);
    }
  }

  lemma {:induction false} AloneDeclared(table: seq<Entry>, known: set<string>, part: Part, token: string)
    requires WellFormed(table) && IsCustom(token) && forall other, u :: !Rivals(part, token, other, u)
    ensures Declared(ThemeDecls(table, known), PropertyOf(part, token)) == LastText(table, known, part, token)
  {
    if table != [] {
      var own := if table[0].token in known then TokenDecls(table[0]) else [];
      AloneDeclared(table[1..], known, part, token);
      TokenAlone(table[0], part, token);
      DeclaredInBoth(own, ThemeDecls(table[1..], known), PropertyOf(part, token));
      FirstText(table, known, part, token);
    }
  }

  lemma OnlyRivalDisplaces(table: seq<Entry>, known: set<string>, part: Part, token: string, other: Part, u: string)
    requires WellFormed(table) && Rivals(part, token, other, u)
    ensures Displaced(table, known, part, token) <==> Displaces(table, known, part, token, other, u)
  {
    if p, w :| Displaces(table, known, part, token, p, w) {
      RivalIsUnique(part, token, other, u, p, w);
    }
  }

  /**
   * In the declarations of a table, what is read for a part of a token is what its last entry declares for it, exactly
   * when no known token displaces it: one with that very name for one of its parts, a later entry and a different text.
   */
  lemma DeclaredExactly(table: seq<Entry>, known: set<string>, part: Part, token: string)
    requires WellFormed(table) && IsCustom(token)
    ensures Declared(ThemeDecls(table, known), PropertyOf(part, token)) == LastText(table, known, part, token)
       <==> !Displaced(table, known, part, token)
  {
    if other, u :| Rivals(part, token, other, u) {
      RivalsDeclared(table, known, part, token, other, u);
      OnlyRivalDisplaces(table, known, part, token, other, u);
    } else {
      AloneDeclared(table, known, part, token);
    }
  }

  lemma {:induction false} DeclsOfBoth(a: seq<Entry>, b: seq<Entry>, known: set<string>)
    requires WellFormed(a) && WellFormed(b)
    ensures WellFormed(a + b) && ThemeDecls(a + b, known) == ThemeDecls(a, known) + ThemeDecls(b, known)
  {
    if a == [] {
      assert a + b == b;
    } else {
      assert (a + b)[1..] == a[1..] + b;
      DeclsOfBoth(a[1..], b, known);
    }
  }

  // ---------------------------------------------------------------- reading the block

  lemma {:induction false} LastOfBoth(a: seq<Out>, b: seq<Out>, context: seq<Frame>, prop: string)
    ensures LastOf(a + b, context, prop) == if LastOf(b, context, prop).Some? then LastOf(b, context, prop) else LastOf(a, context, prop)
  {
    if a == [] {
      assert a + b == b;
    } else {
      assert (a + b)[1..] == a[1..] + b;
      LastOfBoth(a[1..], b, context, prop);
    }
  }

  ghost predicate AllDecls(nodes: seq<Node>) {
    forall i | 0 <= i < |nodes| :: nodes[i].Decl?
  }

  lemma {:induction false} DeclsRead(nodes: seq<Node>, holds: Browser, own: seq<Frame>, context: seq<Frame>, prop: string)
    requires AllDecls(nodes)
    ensures LastOf(ReadAll(nodes, holds, own), context, prop) == if own == context then Declared(nodes, prop) else None
  {
    if nodes != [] {
      DeclsRead(nodes[1..], holds, own, context, prop);
      var d := nodes[0];
      var o := Out(d.source, own, d.prop, d.value, d.added);
      assert Read(d, holds, own) == [o] && ([o] + ReadAll(nodes[1..], holds, own))[1..] == ReadAll(nodes[1..], holds, own);
    }
  }

  lemma {:induction false} ThemeDeclsAreDecls(table: seq<Entry>, known: set<string>)
    requires WellFormed(table)
    ensures AllDecls(ThemeDecls(table, known))
  {
    if table != [] {
      ThemeDeclsAreDecls(table[1..], known);
    }
  }

  lemma ThemeRuleRead(selector: string, declarations: seq<Node>, holds: Browser, context: seq<Frame>, prop: string)
    requires AllDecls(declarations)
    ensures LastOf(ReadAll(ThemeRule(selector, declarations), holds, []), context, prop)
         == if context == [RuleFrame([selector])] then Declared(declarations, prop) else None
  {
    var rule := Rule([selector], declarations);
    ReadTwo(rule, rule, holds, []);
    assert [] + [RuleFrame([selector])] == [RuleFrame([selector])];
    DeclsRead(declarations, holds, [RuleFrame([selector])], context, prop);
  }

  const Foreground := AtRule("layer", "base", [Rule([ForegroundScopes()], [Decl(0, true, "color", "var(--foreground)")])])

  lemma ForegroundRead(holds: Browser, context: seq<Frame>, prop: string)
    requires |context| == 1
    ensures LastOf(ReadAll([Foreground], holds, []), context, prop) == None
  {
    var d := Decl(0, true, "color", "var(--foreground)");
    var rule := Rule([ForegroundScopes()], [d]);
    var layer := [AtFrame("layer", "base")];
    assert [] + layer == layer;
    ReadTwo(Foreground, Foreground, holds, []);
    ReadTwo(rule, rule, holds, layer);
    var own := layer + [RuleFrame([ForegroundScopes()])];
    assert |own| == 2;
    DeclsRead([d], holds, own, context, prop);
  }

  /** The two rules of the block, light and dark. */
  lemma BlockRead(theme: Theme, known: set<string>, holds: Browser, context: seq<Frame>, prop: string)
    requires IsLegacy(holds) && WellFormed(theme.All()) && (context == LightContext || context == DarkContext)
    ensures WellFormed(theme.light) && WellFormed(theme.dark)
    ensures LastOf(Read(Compatibility(theme, known), holds, []), context, prop)
         == Declared(ThemeDecls(if context == DarkContext then theme.dark else theme.light, known), prop)
  {
    AllSplits(theme);
    var light, dark := ThemeDecls(theme.light, known), ThemeDecls(theme.dark, known);
    var x, y := ThemeRule(Roots(), light), ThemeRule(".dark " + Roots(), dark);
    assert Compatibility(theme, known) == Guarded(x + y + [Foreground]);
    ReadAppend(x + y, [Foreground], holds, []);
    ReadAppend(x, y, holds, []);
    ThemeDeclsAreDecls(theme.light, known);
    ThemeDeclsAreDecls(theme.dark, known);
    ThemeRuleRead(Roots(), light, holds, context, prop);
    ThemeRuleRead(".dark " + Roots(), dark, holds, context, prop);
    ForegroundRead(holds, context, prop);
    ContextsDiffer();
    LastOfBoth(ReadAll(x, holds, []), ReadAll(y, holds, []), context, prop);
    LastOfBoth(ReadAll(x + y, holds, []), ReadAll([Foreground], holds, []), context, prop);
  }

  lemma ContextsDiffer()
    ensures LightContext != DarkContext
  {
    assert |".dark " + Roots()| == |Roots()| + 6;
    assert LightContext[0].selectors[0] != DarkContext[0].selectors[0];
  }

  /** The values on a surface, as a legacy browser reads them from the block. */
  function BlockValues(theme: Theme, known: set<string>, holds: Browser, dark: bool): Properties
    requires WellFormed(theme.All())
  {
    (prop: string) => SurfaceValue(Read(Compatibility(theme, known), holds, []), dark, prop)
  }

  lemma OrderIsWellFormed(theme: Theme, dark: bool)
    requires WellFormed(theme.All())
    ensures WellFormed(InOrder(theme, dark))
  {
    assert forall e | e in InOrder(theme, dark) :: e in theme.All();
  }

  /** On a surface the declarations of the applying entries count, in order. */
  lemma SurfaceReads(theme: Theme, known: set<string>, holds: Browser, dark: bool, prop: string)
    requires IsLegacy(holds) && WellFormed(theme.All())
    ensures WellFormed(InOrder(theme, dark))
    ensures BlockValues(theme, known, holds, dark)(prop) == Declared(ThemeDecls(InOrder(theme, dark), known), prop)
  {
    AllSplits(theme);
    ContextsDiffer();
    OrderIsWellFormed(theme, dark);
    BlockRead(theme, known, holds, LightContext, prop);
    BlockRead(theme, known, holds, DarkContext, prop);
    DeclsOfBoth(theme.light, theme.dark, known);
    DeclaredInBoth(ThemeDecls(theme.light, known), ThemeDecls(theme.dark, known), prop);
  }

  ghost predicate Undisplaced(theme: Theme, known: set<string>, dark: bool, part: Part, token: string)
    requires WellFormed(theme.All())
  {
    OrderIsWellFormed(theme, dark);
    !Displaced(InOrder(theme, dark), known, part, token)
  }

  /** In either theme a surface reads the parts of a token as the theme has them exactly when nothing displaces them. */
  lemma SurfaceReadsExactly(theme: Theme, known: set<string>, holds: Browser, dark: bool, part: Part, token: string)
    requires IsLegacy(holds) && WellFormed(theme.All()) && IsCustom(token)
    ensures WellFormed(InOrder(theme, dark))
    ensures BlockValues(theme, known, holds, dark)(PropertyOf(part, token)) == LastText(InOrder(theme, dark), known, part, token)
       <==> Undisplaced(theme, known, dark, part, token)
  {
    SurfaceReads(theme, known, holds, dark, PropertyOf(part, token));
    DeclaredExactly(InOrder(theme, dark), known, part, token);
  }

  /** In that theme the block declares the parts of x as references to those of y. */
  ghost predicate Refers(theme: Theme, known: set<string>, dark: bool, x: string, y: string) {
    x in known &&
    match Visible(theme, dark, x)
    case None => false
    case Some(e) => e.color.None? && e.alias == Some(y)
  }

  ghost predicate Path(theme: Theme, known: set<string>, dark: bool, path: seq<string>) {
    path != [] && (|path| == 1 || (Refers(theme, known, dark, path[0], path[1]) && Path(theme, known, dark, path[1..])))
  }

  /** Nothing displaces that part of the token, nor of any token that its references lead to. */
  ghost predicate NoClash(theme: Theme, known: set<string>, dark: bool, part: Part, token: string)
    requires WellFormed(theme.All())
  {
    forall path | Path(theme, known, dark, path) && path[0] == token :: Undisplaced(theme, known, dark, part, path[|path| - 1])
  }

  lemma NoClashHere(theme: Theme, known: set<string>, dark: bool, part: Part, token: string)
    requires WellFormed(theme.All()) && NoClash(theme, known, dark, part, token)
    ensures Undisplaced(theme, known, dark, part, token)
  {
    assert Path(theme, known, dark, [token]);
  }

  lemma NoClashBeyond(theme: Theme, known: set<string>, dark: bool, part: Part, token: string, next: string)
    requires WellFormed(theme.All()) && NoClash(theme, known, dark, part, token) && Refers(theme, known, dark, token, next)
    ensures NoClash(theme, known, dark, part, next)
  {
    forall path | Path(theme, known, dark, path) && path[0] == next
      ensures Undisplaced(theme, known, dark, part, path[|path| - 1])
    {
      var longer := [token] + path;
      assert longer[1..] == path && Path(theme, known, dark, longer) && longer[|longer| - 1] == path[|path| - 1];
    }
  }

  /** A surface declares an undisplaced part exactly if the token is known and its theme has it. */
  lemma PartsDeclared(theme: Theme, known: set<string>, holds: Browser, dark: bool, part: Part, token: string)
    requires IsLegacy(holds) && WellFormed(theme.All()) && IsCustom(token)
    requires Undisplaced(theme, known, dark, part, token)
    ensures Visible(theme, dark, token).Some? ==> IsEntry(Visible(theme, dark, token).value)
    ensures BlockValues(theme, known, holds, dark)(PropertyOf(part, token)) ==
            if token in known && Visible(theme, dark, token).Some? then Some(PartText(part, Visible(theme, dark, token).value))
            else None
  {
    SurfaceReadsExactly(theme, known, holds, dark, part, token);
    FindIsLastPlace(InOrder(theme, dark), token);
  }

  // ---------------------------------------------------------------- the block resolves as the theme does

  lemma ReferenceIsVar(name: string)
    requires ColorMix.IsTokenName(name)
    ensures ColorMix.IsVar(ColorMix.VarText(name)) && ColorMix.VarName(ColorMix.VarText(name)) == name
  {
    var text := ColorMix.VarText(name);
    assert text[4..|text| - 1] == name;
  }

  lemma PropertyIsName(part: Part, token: string)
    requires IsCustom(token) && ColorMix.IsTokenName(token)
    ensures ColorMix.IsTokenName(PropertyOf(part, token))
  {
    if part != Whole {
      PropertyShape(part, token);
      SuffixIsName(part);
      var property := PropertyOf(part, token);
      assert property == GENERATED + token[2..] + Suffix(part);
      assert forall i | 0 <= i < |GENERATED| :: ColorMix.IsNameChar(GENERATED[i]);
    }
  }

  lemma SuffixIsName(part: Part)
    ensures forall i | 0 <= i < |Suffix(part)| :: ColorMix.IsNameChar(Suffix(part)[i])
  {
  }

  lemma StaticIsNoReference(part: Part, e: Entry)
    requires AllStatic([e]) && e.color.Some?
    ensures !ColorMix.IsVar(StaticText(part, e.color.value))
  {
    assert e in [e];
    if part == Whole {
      assert StaticText(part, e.color.value)[0] == 'r';
    }
  }

  /** The value of one part of a visible entry is its static text, or refers to the same part of its alias. */
  lemma PartIsStaticOrReference(part: Part, e: Entry)
    requires IsEntry(e) && AllStatic([e])
    ensures e.color.Some? ==> !ColorMix.IsVar(PartText(part, e))
    ensures e.color.None? ==>
              ColorMix.IsVar(PartText(part, e)) && ColorMix.VarName(PartText(part, e)) == PropertyOf(part, e.alias.value)
  {
    if e.color.Some? {
      StaticIsNoReference(part, e);
    } else {
      PropertyIsName(part, e.alias.value);
      ReferenceIsVar(PropertyOf(part, e.alias.value));
    }
  }

  lemma {:induction false} ColorChainResolves(theme: Theme, known: set<string>, holds: Browser, dark: bool, part: Part,
                                              chain: seq<string>, color: ThemeColor) returns (values: seq<string>)
    requires IsLegacy(holds) && WellFormed(theme.All()) && AllStatic(theme.All()) && IsKnown(theme, known)
    requires ColorChain(theme, dark, chain, color) && IsCustom(chain[0]) && NoClash(theme, known, dark, part, chain[0])
    ensures ValueChain(BlockValues(theme, known, holds, dark), values, StaticText(part, color))
    ensures values[0] == PropertyOf(part, chain[0])
    decreases chain
  {
    var token := chain[0];
    VisibleIsEntry(theme, dark, token);
    ColoredIsKnown(theme, known, dark, chain, color);
    NoClashHere(theme, known, dark, part, token);
    PartsDeclared(theme, known, holds, dark, part, token);
    var e := Visible(theme, dark, token).value;
    PartIsStaticOrReference(part, e);
    if e.color.Some? {
      values := [PropertyOf(part, token)];
    } else {
      NoClashBeyond(theme, known, dark, part, token, chain[1]);
      var rest := ColorChainResolves(theme, known, holds, dark, part, chain[1..], color);
      values := [PropertyOf(part, token)] + rest;
      assert values[1..] == rest;
    }
  }

  lemma {:induction false} ValueChainHasColor(theme: Theme, known: set<string>, holds: Browser, dark: bool, part: Part,
                                              token: string, values: seq<string>, text: string)
    returns (chain: seq<string>, color: ThemeColor)
    requires IsLegacy(holds) && WellFormed(theme.All()) && AllStatic(theme.All())
    requires IsCustom(token) && NoClash(theme, known, dark, part, token)
    requires ValueChain(BlockValues(theme, known, holds, dark), values, text) && values[0] == PropertyOf(part, token)
    ensures ColorChain(theme, dark, chain, color) && chain[0] == token && text == StaticText(part, color)
    decreases values
  {
    NoClashHere(theme, known, dark, part, token);
    PartsDeclared(theme, known, holds, dark, part, token);
    VisibleIsEntry(theme, dark, token);
    var e := Visible(theme, dark, token).value;
    PartIsStaticOrReference(part, e);
    if e.color.Some? {
      chain, color := [token], e.color.value;
    } else {
      NoClashBeyond(theme, known, dark, part, token, e.alias.value);
      var rest;
      rest, color := ValueChainHasColor(theme, known, holds, dark, part, e.alias.value, values[1..], text);
      chain := [token] + rest;
      assert chain[1..] == rest;
    }
  }

  /**
   * Unless it is displaced there or at an alias that it leads to, a part of a token resolves in either theme, through the
   * aliases of the block, exactly when the token has a colour in that theme, and then to that colour's text.
   */
  lemma PartsResolve(theme: Theme, known: set<string>, holds: Browser, dark: bool, part: Part, token: string, text: string)
    requires IsLegacy(holds) && WellFormed(theme.All()) && AllStatic(theme.All()) && IsKnown(theme, known)
    requires IsCustom(token) && NoClash(theme, known, dark, part, token)
    ensures Computed(BlockValues(theme, known, holds, dark), PropertyOf(part, token)) == Some(text)
       <==> exists color :: HasColor(theme, dark, token, color) && text == StaticText(part, color)
  {
    var values := BlockValues(theme, known, holds, dark);
    ComputedExactly(values, PropertyOf(part, token), text);
    if Resolves(values, PropertyOf(part, token), text) {
      var x :| ValueChain(values, x, text) && x[0] == PropertyOf(part, token);
      var chain, color := ValueChainHasColor(theme, known, holds, dark, part, token, x, text);
      assert HasColor(theme, dark, token, color);
    }
    forall color | HasColor(theme, dark, token, color) && text == StaticText(part, color)
      ensures Resolves(values, PropertyOf(part, token), text)
    {
      var chain :| ColorChain(theme, dark, chain, color) && chain[0] == token;
      var x := ColorChainResolves(theme, known, holds, dark, part, chain, color);
    }
  }

  lemma NoColorNoValue(theme: Theme, known: set<string>, holds: Browser, dark: bool, part: Part, token: string)
    requires IsLegacy(holds) && WellFormed(theme.All()) && AllStatic(theme.All()) && IsKnown(theme, known)
    requires IsCustom(token) && NoClash(theme, known, dark, part, token) && forall color :: !HasColor(theme, dark, token, color)
    ensures Computed(BlockValues(theme, known, holds, dark), PropertyOf(part, token)) == None
  {
    var computed := Computed(BlockValues(theme, known, holds, dark), PropertyOf(part, token));
    if computed.Some? {
      PartsResolve(theme, known, holds, dark, part, token, computed.value);
    }
  }

  // ---------------------------------------------------------------- the colour of a rewritten value

  /** The properties of a surface: those of the block, and the shadow alpha that the page sets. */
  ghost function SurfaceProperties(theme: Theme, known: set<string>, holds: Browser, dark: bool, shadow: string): Properties
    requires WellFormed(theme.All())
  {
    (prop: string) => if prop == SHADOW_PROPERTY then Some(shadow) else Computed(BlockValues(theme, known, holds, dark), prop)
  }

  function StaticColor(c: ThemeColor, reading: Reading): Color {
    ColorOf(c.channels, reading.number(c.alpha), reading)
  }

  lemma GeneratedIsNoShadow(part: Part, token: string)
    requires IsCustom(token) && part != Whole
    ensures PropertyOf(part, token) != SHADOW_PROPERTY
  {
    PropertyShape(part, token);
    assert SHADOW_PROPERTY[2] == 't' && GENERATED[2] == 'c';
    assert PropertyOf(part, token)[2] == GENERATED[2];
  }

  lemma SurfaceGives(theme: Theme, known: set<string>, holds: Browser, dark: bool, shadow: string, token: string,
                     color: ThemeColor, reading: Reading)
    requires IsLegacy(holds) && WellFormed(theme.All()) && AllStatic(theme.All()) && IsKnown(theme, known)
    requires IsCustom(token) && NoClash(theme, known, dark, Channels, token) && NoClash(theme, known, dark, Alpha, token)
    requires HasColor(theme, dark, token, color)
    ensures Gives(SurfaceProperties(theme, known, holds, dark, shadow), token, StaticColor(color, reading), reading)
  {
    GeneratedIsNoShadow(Channels, token);
    GeneratedIsNoShadow(Alpha, token);
    PartsResolve(theme, known, holds, dark, Channels, token, StaticText(Channels, color));
    PartsResolve(theme, known, holds, dark, Alpha, token, StaticText(Alpha, color));
  }

  lemma SurfaceGivesNothing(theme: Theme, known: set<string>, holds: Browser, dark: bool, shadow: string, token: string)
    requires IsLegacy(holds) && WellFormed(theme.All()) && AllStatic(theme.All()) && IsKnown(theme, known)
    requires IsCustom(token) && NoClash(theme, known, dark, Channels, token)
    requires forall color :: !HasColor(theme, dark, token, color)
    ensures SurfaceProperties(theme, known, holds, dark, shadow)(ColorMix.ChannelsProperty(token)).None?
  {
    GeneratedIsNoShadow(Channels, token);
    NoColorNoValue(theme, known, holds, dark, Channels, token);
  }

  /**
   * Every rewritten span spelled a mix of a known token, and on a surface the text in its place denotes the colour of
   * that mix, in either theme; it denotes none exactly when the token has no colour in that theme.
   */
  lemma RewrittenSpansKeepTheirColor(nodes: seq<Node>, known: set<string>, formats: Formats, holds: Browser, dark: bool,
                                     shadow: string, reading: Reading, span: string) returns (m: ColorMix.Mix)
    requires IsLegacy(holds) && AllStatic(ThemeOf(nodes, formats).All()) && IsKnown(ThemeOf(nodes, formats), known)
    requires ColorMix.Describe(span, known).Some?
    requires NoClash(ThemeOf(nodes, formats), known, dark, Channels, ColorMix.Describe(span, known).value.token)
    requires NoClash(ThemeOf(nodes, formats), known, dark, Alpha, ColorMix.Describe(span, known).value.token)
    requires AllExact(ColorMix.Describe(span, known).value.weights, formats.decimal, reading)
    ensures m.Mixed? && ColorMix.Spells(span, m) && ColorMix.TokenOf(m) in known
    ensures ColorMix.Fallback(span, known, formats.decimal).Some?
    ensures var properties := SurfaceProperties(ThemeOf(nodes, formats), known, holds, dark, shadow);
            var color := TextColor(ColorMix.Fallback(span, known, formats.decimal).value, properties, reading);
            && (color.Some? <==> exists c :: HasColor(ThemeOf(nodes, formats), dark, ColorMix.TokenOf(m), c))
            && forall c | HasColor(ThemeOf(nodes, formats), dark, ColorMix.TokenOf(m), c) ::
                 color.Some? && SameColor(Meaning(m, _ => StaticColor(c, reading), Weighing(properties, reading)), color.value)
  {
    var theme := ThemeOf(nodes, formats);
    m := ColorMix.DescribeSound(span, known);
    ColorMix.DescribedTokenIsName(span, known);
    var token := ColorMix.TokenOf(m);
    KnownIsCustom(theme, known, token);
    MixColor(theme, known, holds, dark, shadow, reading, formats.decimal, m);
  }

  lemma KnownIsCustom(theme: Theme, known: set<string>, token: string)
    requires WellFormed(theme.All()) && IsKnown(theme, known) && token in known
    ensures IsCustom(token)
  {
    var chain :| IsChain(theme.All(), chain) && chain[0] == token;
    if |chain| > 1 {
      assert Aliased(theme.All(), chain[0], chain[1]);
    }
  }

  lemma MixColor(theme: Theme, known: set<string>, holds: Browser, dark: bool, shadow: string, reading: Reading,
                 decimal: string -> string, m: ColorMix.Mix)
    requires IsLegacy(holds) && WellFormed(theme.All()) && AllStatic(theme.All()) && IsKnown(theme, known)
    requires m.Mixed? && IsCustom(ColorMix.TokenOf(m)) && ColorMix.IsTokenName(ColorMix.TokenOf(m))
    requires NoClash(theme, known, dark, Channels, ColorMix.TokenOf(m))
    requires NoClash(theme, known, dark, Alpha, ColorMix.TokenOf(m))
    requires AllExact(ColorMix.WeightsOf(m), decimal, reading)
    ensures var properties := SurfaceProperties(theme, known, holds, dark, shadow);
            var d := ColorMix.Description(ColorMix.TokenOf(m), ColorMix.WeightsOf(m));
            var color := TextColor(ColorMix.FallbackText(d, decimal), properties, reading);
            && (color.Some? <==> exists c :: HasColor(theme, dark, ColorMix.TokenOf(m), c))
            && forall c | HasColor(theme, dark, ColorMix.TokenOf(m), c) ::
                 color.Some? && SameColor(Meaning(m, _ => StaticColor(c, reading), Weighing(properties, reading)), color.value)
  {
    var properties := SurfaceProperties(theme, known, holds, dark, shadow);
    var token := ColorMix.TokenOf(m);
    if exists c :: HasColor(theme, dark, token, c) {
      forall c | HasColor(theme, dark, token, c)
        ensures var d := ColorMix.Description(token, ColorMix.WeightsOf(m));
                var color := TextColor(ColorMix.FallbackText(d, decimal), properties, reading);
                color.Some? && SameColor(Meaning(m, _ => StaticColor(c, reading), Weighing(properties, reading)), color.value)
      {
        SurfaceGives(theme, known, holds, dark, shadow, token, c, reading);
        FallbackDenotesMix(m, decimal, properties, reading, _ => StaticColor(c, reading));
      }
    } else {
      SurfaceGivesNothing(theme, known, holds, dark, shadow, token);
      FallbackWithoutColor(ColorMix.Description(token, ColorMix.WeightsOf(m)), decimal, properties, reading);
    }
  }

  // ---------------------------------------------------------------- a token with a colour in one theme only

  function HalfTheme(a: string, white: ThemeColor, b: string): Theme {
    Theme([Entry(a, Some(white), None)], [Entry(a, None, Some(b))])
  }

  lemma FindOne(e: Entry, token: string)
    ensures Find([e], token) == if e.token == token then Some(e) else None
  {
    var rest := [e][1..];
    assert rest == [] && Find(rest, token) == None;
  }

  lemma HalfThemeShows(a: string, white: ThemeColor, b: string)
    requires a != b
    ensures var theme := HalfTheme(a, white, b);
            && Visible(theme, false, a) == Some(theme.light[0]) && Visible(theme, true, a) == Some(theme.dark[0])
            && Visible(theme, true, b) == None
            && theme.All() == [theme.light[0], theme.dark[0]]
  {
    var theme := HalfTheme(a, white, b);
    FindOne(theme.light[0], a);
    FindOne(theme.dark[0], a);
    FindOne(theme.light[0], b);
    FindOne(theme.dark[0], b);
  }

  lemma HalfThemeColors(a: string, white: ThemeColor, b: string, c: ThemeColor)
    requires a != b
    ensures HasColor(HalfTheme(a, white, b), false, a, white) && !HasColor(HalfTheme(a, white, b), true, a, c)
  {
    var theme := HalfTheme(a, white, b);
    HalfThemeShows(a, white, b);
    assert ColorChain(theme, false, [a], white);
    forall chain | chain != [] && chain[0] == a ensures !ColorChain(theme, true, chain, c) {
      if |chain| > 1 && chain[1] == b {
        assert !ColorChain(theme, true, chain[1..], c);
      }
    }
  }

  lemma HalfThemeRefers(holds: Browser, a: string, white: ThemeColor, b: string, known: set<string>)
    requires IsLegacy(holds) && a != b && IsCustom(a) && ColorMix.IsTokenName(b) && a in known
    requires WellFormed(HalfTheme(a, white, b).All()) && Undisplaced(HalfTheme(a, white, b), known, true, Channels, a)
    ensures BlockValues(HalfTheme(a, white, b), known, holds, true)(ColorMix.ChannelsProperty(a)) ==
            Some(ColorMix.VarText(ColorMix.ChannelsProperty(b)))
  {
    HalfThemeShows(a, white, b);
    PartsDeclared(HalfTheme(a, white, b), known, holds, true, Channels, a);
  }

  lemma HalfThemeIsStatic(a: string, white: ThemeColor, b: string)
    requires a != b && !ColorMix.IsVar(white.channels) && !ColorMix.IsVar(white.alpha)
    ensures AllStatic(HalfTheme(a, white, b).All())
  {
    HalfThemeShows(a, white, b);
  }

  lemma HalfThemeComputes(holds: Browser, a: string, white: ThemeColor, b: string, known: set<string>)
    requires IsLegacy(holds) && a != b && IsCustom(a) && IsKnown(HalfTheme(a, white, b), known)
    requires WellFormed(HalfTheme(a, white, b).All()) && AllStatic(HalfTheme(a, white, b).All())
    requires NoClash(HalfTheme(a, white, b), known, true, Channels, a)
    ensures Computed(BlockValues(HalfTheme(a, white, b), known, holds, true), ColorMix.ChannelsProperty(a)) == None
  {
    forall c ensures !HasColor(HalfTheme(a, white, b), true, a, c) {
      HalfThemeColors(a, white, b, c);
    }
    NoColorNoValue(HalfTheme(a, white, b), known, holds, true, Channels, a);
  }

  /** A token whose dark alias leads nowhere is known all the same; in the dark theme its parts refer to nothing. */
  lemma DarkAliasLeadsNowhere(holds: Browser, a: string, white: ThemeColor, b: string, known: set<string>)
    requires IsLegacy(holds) && a != b && IsCustom(a) && ColorMix.IsTokenName(b) && a != ColorMix.ChannelsProperty(b)
    requires !ColorMix.IsVar(white.channels) && !ColorMix.IsVar(white.alpha)
    requires IsKnown(HalfTheme(a, white, b), known)
    ensures a in known && WellFormed(HalfTheme(a, white, b).All()) && AllStatic(HalfTheme(a, white, b).All())
    ensures NoClash(HalfTheme(a, white, b), known, true, Channels, a)
    ensures HasColor(HalfTheme(a, white, b), false, a, white) && forall c :: !HasColor(HalfTheme(a, white, b), true, a, c)
    ensures BlockValues(HalfTheme(a, white, b), known, holds, true)(ColorMix.ChannelsProperty(a)) ==
            Some(ColorMix.VarText(ColorMix.ChannelsProperty(b)))
    ensures Computed(BlockValues(HalfTheme(a, white, b), known, holds, true), ColorMix.ChannelsProperty(a)) == None
  {
    HalfThemeColors(a, white, b, white);
    forall c ensures !HasColor(HalfTheme(a, white, b), true, a, c) {
      HalfThemeColors(a, white, b, c);
    }
    HalfThemeIsStatic(a, white, b);
    HalfIsKnown(a, white, b, known);
    HalfThemeHasNoClash(a, white, b, known);
    NoClashHere(HalfTheme(a, white, b), known, true, Channels, a);
    HalfThemeRefers(holds, a, white, b, known);
    HalfThemeComputes(holds, a, white, b, known);
  }

  lemma HalfIsKnown(a: string, white: ThemeColor, b: string, known: set<string>)
    requires a != b && IsKnown(HalfTheme(a, white, b), known)
    ensures a in known
  {
    HalfThemeShows(a, white, b);
    assert ColorChain(HalfTheme(a, white, b), false, [a], white);
    ColoredIsKnown(HalfTheme(a, white, b), known, false, [a], white);
  }

  lemma HalfThemeHasNoClash(a: string, white: ThemeColor, b: string, known: set<string>)
    requires a != b && IsCustom(a) && ColorMix.IsTokenName(b) && a != ColorMix.ChannelsProperty(b)
    requires IsKnown(HalfTheme(a, white, b), known)
    ensures WellFormed(HalfTheme(a, white, b).All()) && NoClash(HalfTheme(a, white, b), known, true, Channels, a)
  {
    var theme := HalfTheme(a, white, b);
    HalfThemeShows(a, white, b);
    assert WellFormed(theme.All());
    forall path | Path(theme, known, true, path) && path[0] == a
      ensures Undisplaced(theme, known, true, Channels, path[|path| - 1])
    {
      PathsInHalf(a, white, b, known, path);
      HalfIsUndisplaced(a, white, b, known, path[|path| - 1]);
    }
  }

  lemma PathsInHalf(a: string, white: ThemeColor, b: string, known: set<string>, path: seq<string>)
    requires a != b && Path(HalfTheme(a, white, b), known, true, path) && path[0] == a
    ensures path[|path| - 1] == a || path[|path| - 1] == b
  {
    HalfThemeShows(a, white, b);
    if |path| > 1 {
      assert path[1] == b && path[1..][0] == b;
      assert |path[1..]| == 1;
    }
  }

  lemma HalfIsUndisplaced(a: string, white: ThemeColor, b: string, known: set<string>, token: string)
    requires a != b && IsCustom(a) && ColorMix.IsTokenName(b) && a != ColorMix.ChannelsProperty(b)
    requires IsKnown(HalfTheme(a, white, b), known) && (token == a || token == b) && WellFormed(HalfTheme(a, white, b).All())
    ensures Undisplaced(HalfTheme(a, white, b), known, true, Channels, token)
  {
    var theme := HalfTheme(a, white, b);
    HalfThemeShows(a, white, b);
    var table := InOrder(theme, true);
    OrderIsWellFormed(theme, true);
    HalfKnows(a, white, b, known);
    forall other, u ensures !Displaces(table, known, Channels, token, other, u) {
      FindIsLastPlace(table, u);
      FindIsLastPlace(table, token);
      if Rivals(Channels, token, other, u) {
        RivalShape(Channels, token, other, u);
      }
    }
  }

  lemma HalfKnows(a: string, white: ThemeColor, b: string, known: set<string>)
    requires IsKnown(HalfTheme(a, white, b), known)
    ensures known <= {a}
  {
    var entries := HalfTheme(a, white, b).All();
    assert forall e | e in entries :: e.token == a;
    forall token | token in known ensures token == a {
      var chain :| IsChain(entries, chain) && chain[0] == token;
      if |chain| > 1 {
        assert Aliased(entries, chain[0], chain[1]);
      }
    }
  }

  // ---------------------------------------------------------------- a token with a generated name

  lemma BothKnown(x: Entry, y: Entry, known: set<string>)
    requires x.color.Some? && y.color.Some? && IsKnown(Theme([x, y], []), known)
    ensures x.token in known && y.token in known
  {
    var entries := Theme([x, y], []).All();
    assert x in entries && y in entries;
    ColoredReaches(entries, x);
    ColoredReaches(entries, y);
  }

  lemma PlaceOfTwo(x: Entry, y: Entry, known: set<string>)
    requires x.token != y.token && x.token in known && y.token in known
    ensures Place([x, y], known, x.token) == 0 && Place([x, y], known, y.token) == 1
  {
    assert [x, y][1..] == [y] && [y][1..] == [];
    assert LastPlace([y], y.token) == 0 && LastPlace([y], x.token) == -1;
  }

  function ClashingTheme(a: string, white: ThemeColor, other: ThemeColor, later: bool): Theme
    requires IsCustom(a)
  {
    var x, y := Entry(a, Some(white), None), Entry(ColorMix.ChannelsProperty(a), Some(other), None);
    Theme(if later then [x, y] else [y, x], [])
  }

  lemma ClashingTexts(a: string, white: ThemeColor, other: ThemeColor, later: bool, known: set<string>)
    requires IsCustom(a) && IsKnown(ClashingTheme(a, white, other, later), known)
    ensures var table := ClashingTheme(a, white, other, later).light;
            && WellFormed(table) && Rivals(Channels, a, Whole, ColorMix.ChannelsProperty(a))
            && LastText(table, known, Channels, a) == Some(white.channels)
            && LastText(table, known, Whole, ColorMix.ChannelsProperty(a)) == Some(StaticText(Whole, other))
            && (Place(table, known, ColorMix.ChannelsProperty(a)) > Place(table, known, a) <==> later)
  {
    var table := ClashingTheme(a, white, other, later).light;
    assert |ColorMix.ChannelsProperty(a)| > |a|;
    BothKnown(table[0], table[1], known);
    PlaceOfTwo(table[0], table[1], known);
  }

  /** A token with a generated name takes the place of the channels of another one when it comes later, and only then. */
  lemma GeneratedNameClashes(holds: Browser, a: string, white: ThemeColor, other: ThemeColor, known: set<string>, later: bool)
    requires IsLegacy(holds) && IsCustom(a) && StaticText(Whole, other) != white.channels
    requires IsKnown(ClashingTheme(a, white, other, later), known)
    ensures var theme := ClashingTheme(a, white, other, later);
            && WellFormed(theme.All()) && (Undisplaced(theme, known, false, Channels, a) <==> !later)
            && BlockValues(theme, known, holds, false)(ColorMix.ChannelsProperty(a)) ==
               Some(if later then StaticText(Whole, other) else white.channels)
  {
    var theme := ClashingTheme(a, white, other, later);
    assert theme.All() == theme.light;
    ClashingTexts(a, white, other, later, known);
    SurfaceReads(theme, known, holds, false, ColorMix.ChannelsProperty(a));
    RivalsDeclared(theme.light, known, Channels, a, Whole, ColorMix.ChannelsProperty(a));
    SurfaceReadsExactly(theme, known, holds, false, Channels, a);
  }
}
