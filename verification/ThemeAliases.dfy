/** Which theme tokens are colours: those that reach a directly coloured token through aliases. */
module ThemeAliases {
  import opened Text

  /** The static sRGB form of a colour, as the text of its channels and of its alpha. */
  datatype ThemeColor = ThemeColor(channels: string, alpha: string)

  /** One custom property of the light or the dark theme. */
  datatype Entry = Entry(token: string, color: Option<ThemeColor>, alias: Option<string>)

  function Tokens(entries: seq<Entry>): set<string> {
    set e | e in entries :: e.token
  }

  ghost predicate Colored(entries: seq<Entry>, token: string) {
    exists e | e in entries :: e.token == token && e.color.Some?
  }

  ghost predicate Aliased(entries: seq<Entry>, token: string, target: string) {
    exists e | e in entries :: e.token == token && e.alias == Some(target)
  }

  /** A chain of aliases, in either theme, that ends at a directly coloured token. */
  ghost predicate IsChain(entries: seq<Entry>, chain: seq<string>) {
    && chain != []
    && Colored(entries, chain[|chain| - 1])
    && forall i | 0 <= i < |chain| - 1 :: Aliased(entries, chain[i], chain[i + 1])
  }

  ghost predicate Reaches(entries: seq<Entry>, token: string) {
    exists chain :: IsChain(entries, chain) && chain[0] == token
  }

  ghost predicate Closed(entries: seq<Entry>, tokens: set<string>) {
    forall e | e in entries :: (e.color.Some? || (e.alias.Some? && e.alias.value in tokens)) ==> e.token in tokens
  }

  lemma ColoredReaches(entries: seq<Entry>, e: Entry)
    requires e in entries && e.color.Some?
    ensures Reaches(entries, e.token)
  {
    assert IsChain(entries, [e.token]);
  }

  lemma AliasReaches(entries: seq<Entry>, e: Entry)
    requires e in entries && e.alias.Some? && Reaches(entries, e.alias.value)
    ensures Reaches(entries, e.token)
  {
    var chain :| IsChain(entries, chain) && chain[0] == e.alias.value;
    assert IsChain(entries, [e.token] + chain);
  }

  /** Closed sets contain every token that reaches a colour. */
  lemma {:induction false} ChainStaysInClosed(entries: seq<Entry>, chain: seq<string>, tokens: set<string>)
    requires IsChain(entries, chain) && Closed(entries, tokens)
    ensures chain[0] in tokens
  {
    if |chain| > 1 {
      assert IsChain(entries, chain[1..]);
      ChainStaysInClosed(entries, chain[1..], tokens);
      assert Aliased(entries, chain[0], chain[1]);
    }
  }

  ghost predicate Sound(entries: seq<Entry>, tokens: set<string>) {
    tokens <= Tokens(entries) && forall token | token in tokens :: Reaches(entries, token)
  }

  method DirectColors(entries: seq<Entry>) returns (known: set<string>)
    ensures Sound(entries, known)
    ensures forall e | e in entries && e.color.Some? :: e.token in known
  {
    known := {};
    for i := 0 to |entries|
      invariant Sound(entries, known)
      invariant forall k | 0 <= k < i && entries[k].color.Some? :: entries[k].token in known
    {
      if entries[i].color.Some? {
        ColoredReaches(entries, entries[i]);
        known := known + {entries[i].token};
      }
    }
  }

  /** One pass over all entries; tokens added earlier in the pass already count. */
  method AliasPass(entries: seq<Entry>, before: set<string>) returns (known: set<string>)
    requires Sound(entries, before)
    ensures before <= known && Sound(entries, known)
    ensures forall e | e in entries && e.alias.Some? && e.alias.value in before :: e.token in known
  {
    known := before;
    for i := 0 to |entries|
      invariant before <= known && Sound(entries, known)
      invariant forall k | 0 <= k < i && entries[k].alias.Some? && entries[k].alias.value in before :: entries[k].token in known
    {
      if entries[i].alias.Some? && entries[i].alias.value in known {
        AliasReaches(entries, entries[i]);
        known := known + {entries[i].token};
      }
    }
  }

  /** The closure loop: it stops when a pass over all entries adds no token. */
  method KnownColors(entries: seq<Entry>) returns (known: set<string>)
    ensures forall token :: token in known <==> Reaches(entries, token)
  {
    known := DirectColors(entries);
    SubsetSize(known, Tokens(entries));
    var previousSize := -1;
    while previousSize != |known|
      invariant Sound(entries, known)
      invariant forall e | e in entries && e.color.Some? :: e.token in known
      invariant previousSize <= |known| <= |Tokens(entries)|
      invariant previousSize == |known| ==> Closed(entries, known)
      decreases |Tokens(entries)| - |known|, previousSize != |known|
    {
      var before := known;
      previousSize := |known|;
      known := AliasPass(entries, before);
      SubsetSize(before, known);
      SubsetSize(known, Tokens(entries));
    }
    SoundAndClosed(entries, known);
  }

  lemma SoundAndClosed(entries: seq<Entry>, known: set<string>)
    requires Sound(entries, known) && Closed(entries, known)
    ensures forall token :: token in known <==> Reaches(entries, token)
  {
    forall token | Reaches(entries, token) ensures token in known {
      var chain :| IsChain(entries, chain) && chain[0] == token;
      ChainStaysInClosed(entries, chain, known);
    }
  }

  /** The tokens that reach a colour are the least closed set. */
  lemma ReachingIsLeastClosed(entries: seq<Entry>, known: set<string>, tokens: set<string>)
    requires forall token :: token in known <==> Reaches(entries, token)
    ensures Closed(entries, known)
    ensures Closed(entries, tokens) ==> known <= tokens
  {
    forall e | e in entries && e.color.Some? ensures e.token in known {
      ColoredReaches(entries, e);
    }
    forall e | e in entries && e.alias.Some? && e.alias.value in known ensures e.token in known {
      AliasReaches(entries, e);
    }
    if Closed(entries, tokens) {
      forall token | token in known ensures token in tokens {
        var chain :| IsChain(entries, chain) && chain[0] == token;
        ChainStaysInClosed(entries, chain, tokens);
      }
    }
  }

  /** Aliases that only lead to each other are no colours, however they are declared. */
  lemma AliasCyclesAreExcluded(entries: seq<Entry>, cycle: set<string>, token: string)
    requires token in cycle
    requires forall e | e in entries && e.token in cycle :: e.color.None? && (e.alias.Some? ==> e.alias.value in cycle)
    ensures !Reaches(entries, token)
  {
    if Reaches(entries, token) {
      var chain :| IsChain(entries, chain) && chain[0] == token;
      ChainStaysInCycle(entries, cycle, chain);
    }
  }

  lemma {:induction false} ChainStaysInCycle(entries: seq<Entry>, cycle: set<string>, chain: seq<string>)
    requires chain != [] && chain[0] in cycle
    requires forall e | e in entries && e.token in cycle :: e.color.None? && (e.alias.Some? ==> e.alias.value in cycle)
    ensures !IsChain(entries, chain)
  {
    if IsChain(entries, chain) && |chain| > 1 {
      assert Aliased(entries, chain[0], chain[1]);
      assert IsChain(entries, chain[1..]);
      ChainStaysInCycle(entries, cycle, chain[1..]);
    }
  }

  /** The order of the declarations, and their division into themes, does not matter. */
  lemma DeclarationOrderDoesNotMatter(entries: seq<Entry>, reordered: seq<Entry>, token: string)
    requires forall e :: e in entries <==> e in reordered
    ensures Reaches(entries, token) <==> Reaches(reordered, token)
  {
    forall chain ensures IsChain(entries, chain) <==> IsChain(reordered, chain) {
      forall t ensures Colored(entries, t) <==> Colored(reordered, t) {}
      forall t, u ensures Aliased(entries, t, u) <==> Aliased(reordered, t, u) {}
    }
  }
}
