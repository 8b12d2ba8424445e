/** The plugin as a whole: theme collection, alias closure, insertion, and the appended compatibility block. */
module CssPlugin {
  import opened Text
  import opened CssFallbacks
  import opened CascadeOrder
  import opened ThemeAliases
  import ColorMix
  import opened CompatibilityScopes

  const FOREGROUND := "--foreground"

  // ---------------------------------------------------------------- the theme tables

  /** `Map.set`: a token defined again keeps its place and takes the new value. */
  function Put(table: seq<Entry>, e: Entry): seq<Entry> {
    if table == [] then [e]
    else if table[0].token == e.token then [e] + table[1..]
    else [table[0]] + Put(table[1..], e)
  }

  /** The static colours of the source, and its decimal printing of a percentage, are parameters. */
  datatype Formats = Formats(color: string -> Option<ThemeColor>, decimal: string -> string)

  datatype Theme = Theme(light: seq<Entry>, dark: seq<Entry>) {
    function All(): seq<Entry> { light + dark }
  }

  function EntryOf(n: Node, formats: Formats): Option<Entry> {
    if !n.Decl? || !StartsWith(n.prop, "--") then None
    else
      var color := formats.color(n.value);
      var alias := if ColorMix.IsVar(n.value) then Some(ColorMix.VarName(n.value)) else None;
      if color.Some? || alias.Some? then Some(Entry(n.prop, color, alias)) else None
  }

  function PutAll(table: seq<Entry>, nodes: seq<Node>, formats: Formats): seq<Entry>
    decreases nodes
  {
    if nodes == [] then table
    else
      var next := match EntryOf(nodes[0], formats) case None => table case Some(e) => Put(table, e);
      PutAll(next, nodes[1..], formats)
  }

  /** The walk over all rules, outer rules before the rules nested in them. */
  function Collect(n: Node, theme: Theme, formats: Formats): Theme
    decreases n, 0
  {
    match n
    case Rule(selectors, kids) =>
      var next := if selectors == [".dark"] then theme.(dark := PutAll(theme.dark, kids, formats))
                  else if ":root" in selectors || ":host" in selectors then theme.(light := PutAll(theme.light, kids, formats))
                  else theme;
      CollectAll(kids, next, formats)
    case AtRule(_, _, kids) => CollectAll(kids, theme, formats)
    case _ => theme
  }

  function CollectAll(nodes: seq<Node>, theme: Theme, formats: Formats): Theme
    decreases nodes, 1
  {
    if nodes == [] then theme else CollectAll(nodes[1..], Collect(nodes[0], theme, formats), formats)
  }

  // ---------------------------------------------------------------- the compatibility block

  /** The name of a custom property. */
  predicate IsCustom(name: string) {
    |name| >= 2 && name[0] == '-' && name[1] == '-'
  }

  predicate IsEntry(e: Entry) {
    IsCustom(e.token) && (e.color.Some? || e.alias.Some?) && (e.alias.Some? ==> ColorMix.IsTokenName(e.alias.value))
  }

  /** The three custom properties of one theme token; generated declarations carry position 0. */
  function TokenDecls(e: Entry): seq<Node>
    requires IsEntry(e)
  {
    match e.color
    case Some(c) =>
      [Decl(0, true, e.token, "rgb(" + c.channels + " / " + c.alpha + ")"),
       Decl(0, true, ColorMix.ChannelsProperty(e.token), c.channels),
       Decl(0, true, ColorMix.AlphaProperty(e.token), c.alpha)]
    case None =>
      [Decl(0, true, e.token, ColorMix.VarText(e.alias.value)),
       Decl(0, true, ColorMix.ChannelsProperty(e.token), ColorMix.VarText(ColorMix.ChannelsProperty(e.alias.value))),
       Decl(0, true, ColorMix.AlphaProperty(e.token), ColorMix.VarText(ColorMix.AlphaProperty(e.alias.value)))]
  }

  ghost predicate WellFormed(table: seq<Entry>) {
    forall e | e in table :: IsEntry(e)
  }

  function ThemeDecls(table: seq<Entry>, known: set<string>): seq<Node>
    requires WellFormed(table)
  {
    if table == [] then []
    else (if table[0].token in known then TokenDecls(table[0]) else []) + ThemeDecls(table[1..], known)
  }

  function ThemeRule(selector: string, declarations: seq<Node>): seq<Node> {
    if declarations == [] then [] else [Rule([selector], declarations)]
  }

  function Compatibility(theme: Theme, known: set<string>): Node
    requires WellFormed(theme.All())
  {
    AllSplits(theme);
    Guarded(ThemeRule(Roots(), ThemeDecls(theme.light, known))
            + ThemeRule(".dark " + Roots(), ThemeDecls(theme.dark, known))
            + [AtRule("layer", "base", [Rule([ForegroundScopes()], [Decl(0, true, "color", "var(--foreground)")])])])
  }

  lemma AllSplits(theme: Theme)
    requires WellFormed(theme.All())
    ensures WellFormed(theme.light) && WellFormed(theme.dark)
  {
    assert forall e | e in theme.light :: e in theme.All();
    assert forall e | e in theme.dark :: e in theme.All();
  }

  lemma {:induction false} PutKeepsWellFormed(table: seq<Entry>, e: Entry)
    requires WellFormed(table) && WellFormed([e])
    ensures WellFormed(Put(table, e))
  {
    assert e in [e];
    if table != [] && table[0].token != e.token {
      PutKeepsWellFormed(table[1..], e);
    }
  }

  lemma EntryIsWellFormed(n: Node, formats: Formats)
    ensures EntryOf(n, formats).Some? ==> WellFormed([EntryOf(n, formats).value])
  {
  }

  lemma {:induction false} PutAllKeepsWellFormed(table: seq<Entry>, nodes: seq<Node>, formats: Formats)
    requires WellFormed(table)
    ensures WellFormed(PutAll(table, nodes, formats))
    decreases nodes
  {
    if nodes != [] {
      EntryIsWellFormed(nodes[0], formats);
      if EntryOf(nodes[0], formats).Some? {
        PutKeepsWellFormed(table, EntryOf(nodes[0], formats).value);
      }
      PutAllKeepsWellFormed(match EntryOf(nodes[0], formats) case None => table case Some(e) => Put(table, e),
                            nodes[1..], formats);
    }
  }

  lemma {:induction false} CollectKeepsWellFormed(n: Node, theme: Theme, formats: Formats)
    requires WellFormed(theme.light) && WellFormed(theme.dark)
    ensures WellFormed(Collect(n, theme, formats).light) && WellFormed(Collect(n, theme, formats).dark)
    decreases n, 0
  {
    match n
    case Rule(selectors, kids) =>
      PutAllKeepsWellFormed(theme.dark, kids, formats);
      PutAllKeepsWellFormed(theme.light, kids, formats);
      CollectAllKeepsWellFormed(kids, theme, formats);
      CollectAllKeepsWellFormed(kids, theme.(dark := PutAll(theme.dark, kids, formats)), formats);
      CollectAllKeepsWellFormed(kids, theme.(light := PutAll(theme.light, kids, formats)), formats);
    case AtRule(_, _, kids) => CollectAllKeepsWellFormed(kids, theme, formats);
    case _ =>
  }

  lemma {:induction false} CollectAllKeepsWellFormed(nodes: seq<Node>, theme: Theme, formats: Formats)
    requires WellFormed(theme.light) && WellFormed(theme.dark)
    ensures WellFormed(CollectAll(nodes, theme, formats).light) && WellFormed(CollectAll(nodes, theme, formats).dark)
    decreases nodes, 1
  {
    if nodes != [] {
      CollectKeepsWellFormed(nodes[0], theme, formats);
      CollectAllKeepsWellFormed(nodes[1..], Collect(nodes[0], theme, formats), formats);
    }
  }

  // ---------------------------------------------------------------- the pass

  ghost predicate IsKnown(theme: Theme, known: set<string>) {
    forall token :: token in known <==> Reaches(theme.All(), token)
  }

  function ThemeOf(nodes: seq<Node>, formats: Formats): (theme: Theme)
    ensures WellFormed(theme.All())
  {
    CollectAllKeepsWellFormed(nodes, Theme([], []), formats);
    CollectAll(nodes, Theme([], []), formats)
  }

  function RewriterFor(known: set<string>, formats: Formats): Rewriter {
    value => ColorMix.Replace(value, known, formats.decimal)
  }

  /** The stylesheet after the pass, given the known colours. */
  function Transformed(nodes: seq<Node>, known: set<string>, formats: Formats): seq<Node> {
    if FOREGROUND !in known then nodes
    else InsertedAll(nodes, RewriterFor(known, formats)) + [Compatibility(ThemeOf(nodes, formats), known)]
  }

  class Stylesheet {
    var nodes: seq<Node>

    constructor (nodes: seq<Node>)
      ensures this.nodes == nodes
    {
      this.nodes := nodes;
    }

    method OnceExit(formats: Formats) returns (known: set<string>)
      modifies this
      ensures IsKnown(ThemeOf(old(nodes), formats), known)
      ensures nodes == Transformed(old(nodes), known, formats)
    {
      var theme := ThemeOf(nodes, formats);
      known := KnownColors(theme.All());
      if FOREGROUND !in known {
        return;
      }
      var compatibility := Compatibility(theme, known);
      nodes := InsertScopedColorFallbacks(nodes, RewriterFor(known, formats));
      nodes := nodes + [compatibility];
    }
  }

  /** Removing the guarded blocks gives the original back, so modern browsers see no change. */
  lemma PassIsInvisible(nodes: seq<Node>, known: set<string>, formats: Formats, reader: Reader)
    requires reader(LEGACY).Remove?
    ensures ActiveAll(Transformed(nodes, known, formats), reader) == ActiveAll(nodes, reader)
  {
    if FOREGROUND in known {
      var rw, block := RewriterFor(known, formats), Compatibility(ThemeOf(nodes, formats), known);
      AllActiveUnchanged(nodes, rw, reader);
      ActiveAppend(InsertedAll(nodes, rw), [block], reader);
      OneActive(block, reader);
    }
  }

  /** A legacy browser reads the inserted tree in cascade order, then the compatibility block. */
  lemma PassKeepsCascadeOrder(nodes: seq<Node>, known: set<string>, formats: Formats, holds: Browser)
    requires IsLegacy(holds) && AllParsed(nodes) && AllOrdered(nodes) && FOREGROUND in known
    ensures var rw := RewriterFor(known, formats);
            && ReadAll(Transformed(nodes, known, formats), holds, []) ==
               LegacyRead(nodes, rw, holds, []) + Read(Compatibility(ThemeOf(nodes, formats), known), holds, [])
            && OrderedBut(LegacyRead(nodes, rw, holds, []), nodes)
            && forall value :: rw(value) == ColorMix.Replace(value, known, formats.decimal)
  {
    var rw, block := RewriterFor(known, formats), Compatibility(ThemeOf(nodes, formats), known);
    LegacyOrder(nodes, rw, holds, []);
    ReadAppend(InsertedAll(nodes, rw), [block], holds, []);
    ReadTwo(block, block, holds, []);
  }
}
