/**
 * Rich text of the knowledge base as HTML token streams: the sanitizer, the text extractor and the media detector.
 * Tag names are lower-cased, as the three loops do first with every token; the rules for safe URLs and the decoding of
 * character references are parameters.
 */
module KnowledgeContent {
  import opened Text

  datatype Attribute = Attribute(key: string, value: string)

  datatype Token =
    | Words(data: string)
    | Start(name: string, attributes: seq<Attribute>)
    | SelfClosing(name: string, attributes: seq<Attribute>)
    | End(name: string)
    | Other   // comments and document types

  datatype Rules = Rules(safeLink: string -> bool, safeSource: string -> bool)

  /** URLs are judged after trimming. */
  ghost predicate Stable(rules: Rules) {
    forall v :: rules.safeLink(TrimSpace(v)) == rules.safeLink(v) && rules.safeSource(TrimSpace(v)) == rules.safeSource(v)
  }

  const Allowed: set<string> :=
    {"a", "b", "blockquote", "br", "div", "em", "h3", "h4", "i", "img", "li", "ol", "p", "span", "strong", "u", "ul"}

  const Void: set<string> := {"br", "img"}

  const Dropping: set<string> :=
    {"base", "button", "embed", "form", "iframe", "input", "link", "math", "meta", "object", "option", "script", "select",
     "source", "style", "svg", "textarea", "video"}

  const Breaking: set<string> := {"blockquote", "br", "div", "h3", "h4", "li", "ol", "p", "ul"}

  lemma TagSets()
    ensures Allowed !! Dropping && Void <= Allowed && Breaking <= Allowed
    ensures "video" in Dropping && "source" in Dropping && "img" in Void && "br" in Void && "img" !in Breaking
  {
  }

  // ---------------------------------------------------------------- dropped regions

  datatype Region = Region(tag: string, depth: nat)

  predicate Opens(t: Token) {
    t.Start? && t.name in Dropping
  }

  /** The open region after one more token. */
  function Enter(region: Option<Region>, t: Token): Option<Region> {
    match region
    case None => if Opens(t) then Some(Region(t.name, 1)) else None
    case Some(r) =>
      if t.Start? && t.name == r.tag then Some(Region(r.tag, r.depth + 1))
      else if t.End? && t.name == r.tag then (if r.depth <= 1 then None else Some(Region(r.tag, r.depth - 1)))
      else region
  }

  /** The open region before position n. */
  function RegionAt(ts: seq<Token>, n: nat): Option<Region>
    requires n <= |ts|
  {
    if n == 0 then None else Enter(RegionAt(ts, n - 1), ts[n - 1])
  }

  /** Start tags minus end tags of one name between two positions. */
  function Balance(ts: seq<Token>, i: nat, n: nat, tag: string): int
    requires n <= |ts|
  {
    if n <= i then 0
    else Balance(ts, i, n - 1, tag) + (if ts[n - 1] == End(tag) then -1 else if ts[n - 1].Start? && ts[n - 1].name == tag then 1 else 0)
  }

  ghost predicate NeverBalanced(ts: seq<Token>, i: nat, n: nat, tag: string)
    requires n <= |ts|
  {
    forall k: nat | i <= k <= n :: 0 <= Balance(ts, i, k, tag)
  }

  /** Position i opens a region which its own end tags have not balanced before position n. */
  ghost predicate OpenSince(ts: seq<Token>, i: nat, n: nat)
    requires i < n <= |ts|
  {
    RegionAt(ts, i).None? && Opens(ts[i]) && NeverBalanced(ts, i + 1, n, ts[i].name)
  }

  lemma {:induction false} StaysOpen(ts: seq<Token>, i: nat, n: nat)
    requires i < n <= |ts| && OpenSince(ts, i, n)
    ensures RegionAt(ts, n) == Some(Region(ts[i].name, 1 + Balance(ts, i + 1, n, ts[i].name)))
    decreases n
  {
    assert 0 <= Balance(ts, i + 1, n, ts[i].name);
    if n > i + 1 {
      StaysOpen(ts, i, n - 1);
    }
  }

  lemma {:induction false} Opener(ts: seq<Token>, n: nat) returns (i: nat)
    requires n <= |ts| && RegionAt(ts, n).Some?
    ensures i < n && OpenSince(ts, i, n)
  {
    if RegionAt(ts, n - 1).None? {
      i := n - 1;
    } else {
      i := Opener(ts, n - 1);
      StaysOpen(ts, i, n - 1);
      assert 0 <= Balance(ts, i + 1, n, ts[i].name);
    }
  }

  /** A position lies in a dropped region exactly when an unbalanced opening tag stands before it. */
  lemma DroppedExactly(ts: seq<Token>, n: nat)
    requires n <= |ts|
    ensures RegionAt(ts, n).Some? <==> exists i :: 0 <= i < n && OpenSince(ts, i, n)
  {
    if RegionAt(ts, n).Some? {
      var i := Opener(ts, n);
    }
    if i :| 0 <= i < n && OpenSince(ts, i, n) {
      StaysOpen(ts, i, n);
    }
  }

  // ---------------------------------------------------------------- attributes

  /** The pieces of the first n elements, in order. */
  function Collect<A, B>(pieces: A -> seq<B>, xs: seq<A>, n: nat): seq<B>
    requires n <= |xs|
  {
    if n == 0 then [] else Collect(pieces, xs, n - 1) + pieces(xs[n - 1])
  }

  lemma {:induction false} CollectAll<A, B>(pieces: A -> seq<B>, xs: seq<A>, n: nat, p: B -> bool)
    requires n <= |xs| && forall i | 0 <= i < n :: forall j | 0 <= j < |pieces(xs[i])| :: p(pieces(xs[i])[j])
    ensures forall k | 0 <= k < |Collect(pieces, xs, n)| :: p(Collect(pieces, xs, n)[k])
  {
    if n > 0 {
      CollectAll(pieces, xs, n - 1, p);
    }
  }

  lemma {:induction false} CollectSame<A>(pieces: A -> seq<A>, xs: seq<A>, n: nat)
    requires n <= |xs| && forall i | 0 <= i < n :: pieces(xs[i]) == [xs[i]]
    ensures Collect(pieces, xs, n) == xs[..n]
  {
    if n > 0 {
      CollectSame(pieces, xs, n - 1);
      assert xs[..n] == xs[..n - 1] + [xs[n - 1]];
    }
  }

  lemma {:induction false} CollectHas<A, B>(pieces: A -> seq<B>, xs: seq<A>, n: nat, i: nat, j: nat) returns (k: nat)
    requires i < n <= |xs| && j < |pieces(xs[i])|
    ensures k < |Collect(pieces, xs, n)| && Collect(pieces, xs, n)[k] == pieces(xs[i])[j]
  {
    if i == n - 1 {
      k := |Collect(pieces, xs, n - 1)| + j;
    } else {
      k := CollectHas(pieces, xs, n - 1, i, j);
    }
  }

  predicate Reads(key: string, name: string) {
    var k := TrimSpace(key);
    |k| == |name| && forall i | 0 <= i < |k| :: Lower(k[i]) == name[i]
  }

  function Lower(c: char): char {
    if 'A' <= c <= 'Z' then c - 'A' + 'a' else c
  }

  /** strings.EqualFold with "src": the long s folds to s. */
  predicate FoldsToSource(key: string) {
    |key| == 3 && (Lower(key[0]) == 's' || key[0] == '\U{17F}') && Lower(key[1]) == 'r' && Lower(key[2]) == 'c'
  }

  predicate CountsAsSource(rules: Rules, a: Attribute) {
    FoldsToSource(a.key) && rules.safeSource(a.value)
  }

  predicate HasSource(rules: Rules, attributes: seq<Attribute>) {
    exists i | 0 <= i < |attributes| :: CountsAsSource(rules, attributes[i])
  }

  method FindSource(rules: Rules, attributes: seq<Attribute>) returns (found: bool)
    ensures found == HasSource(rules, attributes)
  {
    for i := 0 to |attributes|
      invariant forall k | 0 <= k < i :: !CountsAsSource(rules, attributes[k])
    {
      if CountsAsSource(rules, attributes[i]) {
        return true;
      }
    }
    return false;
  }

  const NewWindow := Attribute("target", "_blank")
  const NoReferrer := Attribute("rel", "noreferrer")

  datatype Key = Href | Source | Alternative | OtherKey

  function KeyOf(key: string): Key {
    if Reads(key, "href") then Href else if Reads(key, "src") then Source else if Reads(key, "alt") then Alternative
    else OtherKey
  }

  function Spelling(key: Key): string {
    match key
    case Href => "href"
    case Source => "src"
    case Alternative => "alt"
    case OtherKey => ""
  }

  datatype Kind = Link | Image | Bare

  function KindOf(name: string): Kind {
    if name == "a" then Link else if name == "img" then Image else Bare
  }

  predicate Keeps(rules: Rules, kind: Kind, key: Key, value: string) {
    match key
    case Href => kind.Link? && rules.safeLink(value)
    case Source => kind.Image? && rules.safeSource(value)
    case Alternative => kind.Image?
    case OtherKey => false
  }

  /** What is kept of one attribute of a link or of an image. */
  function KeptAttribute(rules: Rules, kind: Kind, a: Attribute): seq<Attribute> {
    if Keeps(rules, kind, KeyOf(a.key), a.value) then [Attribute(Spelling(KeyOf(a.key)), TrimSpace(a.value))] else []
  }

  function Keeper(rules: Rules, kind: Kind): Attribute -> seq<Attribute> {
    (a: Attribute) => KeptAttribute(rules, kind, a)
  }

  function KeptAttributes(rules: Rules, kind: Kind, attributes: seq<Attribute>, n: nat): seq<Attribute>
    requires n <= |attributes|
  {
    Collect(Keeper(rules, kind), attributes, n)
  }

  function Closing(kind: Kind): seq<Attribute> {
    if kind.Link? then [NewWindow, NoReferrer] else []
  }

  function SafeAttributes(rules: Rules, kind: Kind, attributes: seq<Attribute>): seq<Attribute> {
    KeptAttributes(rules, kind, attributes, |attributes|) + Closing(kind)
  }

  method SanitizeAttributes(rules: Rules, name: string, attributes: seq<Attribute>) returns (safe: seq<Attribute>)
    ensures safe == SafeAttributes(rules, KindOf(name), attributes)
  {
    safe := [];
    for i := 0 to |attributes|
      invariant safe == KeptAttributes(rules, KindOf(name), attributes, i)
    {
      var a := attributes[i];
      var key := KeyOf(a.key);
      match KindOf(name)
      case Link =>
        if key.Href? && rules.safeLink(a.value) {
          safe := safe + [Attribute(Spelling(key), TrimSpace(a.value))];
        }
      case Image =>
        if (key.Source? && rules.safeSource(a.value)) || key.Alternative? {
          safe := safe + [Attribute(Spelling(key), TrimSpace(a.value))];
        }
      case Bare =>
    }
    if KindOf(name).Link? {
      safe := safe + [NewWindow, NoReferrer];
    }
  }

  /** An attribute the sanitizer writes for a tag. */
  ghost predicate SafeAttribute(rules: Rules, kind: Kind, a: Attribute) {
    && TrimSpace(a.value) == a.value && a.key == Spelling(KeyOf(a.key)) && Keeps(rules, kind, KeyOf(a.key), a.value)
  }

  ghost predicate AllSafe(rules: Rules, kind: Kind, attributes: seq<Attribute>) {
    forall i | 0 <= i < |attributes| :: SafeAttribute(rules, kind, attributes[i])
  }

  lemma KeyOfSpelling(key: Key)
    ensures KeyOf(Spelling(key)) == key && (FoldsToSource(Spelling(key)) <==> key == Source)
  {
    match key
    case Href => assert Reads("href", "href");
    case Source => assert Reads("src", "src") && !Reads("src", "href");
    case Alternative => assert Reads("alt", "alt") && !Reads("alt", "src") && !Reads("alt", "href");
    case OtherKey => assert !Reads("", "alt") && !Reads("", "src") && !Reads("", "href");
  }

  lemma KeptIsSafe(rules: Rules, kind: Kind, a: Attribute)
    requires Stable(rules)
    ensures AllSafe(rules, kind, KeptAttribute(rules, kind, a))
  {
    TrimOfTight(TrimSpace(a.value));
    KeyOfSpelling(KeyOf(a.key));
  }

  lemma ClosingIsNotKept(rules: Rules)
    ensures KeptAttribute(rules, Link, NewWindow) == [] && KeptAttribute(rules, Link, NoReferrer) == []
  {
    assert !Reads("target", "href") && !Reads("rel", "href");
  }

  lemma KeptAreSafe(rules: Rules, kind: Kind, attributes: seq<Attribute>, n: nat)
    requires Stable(rules) && n <= |attributes|
    ensures AllSafe(rules, kind, KeptAttributes(rules, kind, attributes, n))
  {
    var safe := (a: Attribute) => SafeAttribute(rules, kind, a);
    forall i | 0 <= i < n
      ensures forall j | 0 <= j < |Keeper(rules, kind)(attributes[i])| :: safe(Keeper(rules, kind)(attributes[i])[j])
    {
      KeptIsSafe(rules, kind, attributes[i]);
    }
    CollectAll(Keeper(rules, kind), attributes, n, safe);
  }

  lemma SafeIsKept(rules: Rules, kind: Kind, a: Attribute)
    requires SafeAttribute(rules, kind, a)
    ensures KeptAttribute(rules, kind, a) == [a]
  {
  }

  /** Kept attributes are kept as they are. */
  lemma SafeAreKept(rules: Rules, kind: Kind, attributes: seq<Attribute>, n: nat)
    requires n <= |attributes| && forall i | 0 <= i < n :: SafeAttribute(rules, kind, attributes[i])
    ensures KeptAttributes(rules, kind, attributes, n) == attributes[..n]
  {
    forall i | 0 <= i < n ensures Keeper(rules, kind)(attributes[i]) == [attributes[i]] {
      SafeIsKept(rules, kind, attributes[i]);
    }
    CollectSame(Keeper(rules, kind), attributes, n);
  }

  lemma LinkAttributesAgain(rules: Rules, kept: seq<Attribute>)
    requires AllSafe(rules, Link, kept)
    ensures SafeAttributes(rules, Link, kept + [NewWindow, NoReferrer]) == kept + [NewWindow, NoReferrer]
  {
    var safe := kept + [NewWindow, NoReferrer];
    assert safe[..|kept|] == kept && safe[|kept|] == NewWindow && safe[|kept| + 1] == NoReferrer && |safe| == |kept| + 2;
    SafeAreKept(rules, Link, safe, |kept|);
    ClosingIsNotKept(rules);
    assert KeptAttributes(rules, Link, safe, |kept| + 1) == kept;
  }

  /** Sanitizing attributes again changes nothing. */
  lemma SafeAttributesAgain(rules: Rules, kind: Kind, attributes: seq<Attribute>)
    requires Stable(rules)
    ensures var safe := SafeAttributes(rules, kind, attributes); SafeAttributes(rules, kind, safe) == safe
  {
    var kept := KeptAttributes(rules, kind, attributes, |attributes|);
    KeptAreSafe(rules, kind, attributes, |attributes|);
    if kind.Link? {
      LinkAttributesAgain(rules, kept);
    } else {
      assert kept + [] == kept;
      SafeAreKept(rules, kind, kept, |kept|);
    }
  }

  // ---------------------------------------------------------------- the sanitizer

  function RenderStart(rules: Rules, name: string, attributes: seq<Attribute>, selfClosing: bool): seq<Token> {
    if name == "img" && !HasSource(rules, attributes) then []
    else [Start(name, SafeAttributes(rules, KindOf(name), attributes))] + (if selfClosing && name !in Void then [End(name)] else [])
  }

  /** What one token outside dropped regions leaves in the output. */
  function Render(rules: Rules, t: Token): seq<Token> {
    match t
    case Words(data) => [t]
    case Start(name, attributes) => if name in Allowed then RenderStart(rules, name, attributes, false) else []
    case SelfClosing(name, attributes) => if name in Allowed then RenderStart(rules, name, attributes, true) else []
    case End(name) => if name in Allowed && name !in Void then [t] else []
    case Other => []
  }

  /** The output of the first n tokens. */
  function Sanitized(rules: Rules, ts: seq<Token>, n: nat): seq<Token>
    requires n <= |ts|
  {
    if n == 0 then []
    else Sanitized(rules, ts, n - 1) + (if RegionAt(ts, n - 1).None? then Render(rules, ts[n - 1]) else [])
  }

  method RenderStartTag(rules: Rules, out: seq<Token>, name: string, attributes: seq<Attribute>, selfClosing: bool)
    returns (result: seq<Token>)
    ensures result == out + RenderStart(rules, name, attributes, selfClosing)
  {
    if name == "img" {
      var found := FindSource(rules, attributes);
      if !found {
        return out;
      }
    }
    var safe := SanitizeAttributes(rules, name, attributes);
    result := out + [Start(name, safe)];
    if name in Void {
      return;
    }
    if selfClosing {
      result := result + [End(name)];
    }
  }

  function CurrentRegion(dropTag: string, depth: int): Option<Region> {
    if dropTag == "" || depth <= 0 then None else Some(Region(dropTag, depth))
  }

  /** A token inside a dropped region. */
  method StepInRegion(tag: string, level: int, t: Token) returns (dropTag: string, depth: int)
    requires tag != "" && level >= 1
    ensures CurrentRegion(dropTag, depth) == Enter(Some(Region(tag, level)), t)
    ensures dropTag != "" ==> depth >= 1
  {
    dropTag, depth := tag, level;
    if t.Start? && t.name == dropTag {
      depth := depth + 1;
    } else if t.End? && t.name == dropTag {
      depth := depth - 1;
      if depth <= 0 {
        dropTag := "";
      }
    }
  }

  method SanitizeTokens(rules: Rules, ts: seq<Token>) returns (out: seq<Token>)
    ensures out == Sanitized(rules, ts, |ts|)
  {
    out := [];
    var dropTag, depth := "", 0;
    for i := 0 to |ts|
      invariant out == Sanitized(rules, ts, i)
      invariant dropTag != "" ==> depth >= 1
      invariant RegionAt(ts, i) == CurrentRegion(dropTag, depth)
    {
      TagSets();
      var t := ts[i];
      if dropTag != "" {
        dropTag, depth := StepInRegion(dropTag, depth, t);
        continue;
      }
      match t
      case Words(data) =>
        out := out + [t];
      case Start(name, attributes) =>
        if name !in Allowed {
          if name in Dropping {
            dropTag, depth := name, 1;
          }
          continue;
        }
        out := RenderStartTag(rules, out, name, attributes, false);
      case SelfClosing(name, attributes) =>
        if name !in Allowed {
          continue;
        }
        out := RenderStartTag(rules, out, name, attributes, true);
      case End(name) =>
        if name in Allowed && name !in Void {
          out := out + [t];
        }
      case Other =>
    }
  }

  // ---------------------------------------------------------------- output as a document

  /** Writing one more token: neighbouring texts run together. */
  function Append(doc: seq<Token>, t: Token): seq<Token> {
    if !t.Words? then doc + [t]
    else if t.data == "" then doc
    else if doc != [] && doc[|doc| - 1].Words? then doc[..|doc| - 1] + [Words(doc[|doc| - 1].data + t.data)]
    else doc + [t]
  }

  function Joined(ts: seq<Token>, n: nat): seq<Token>
    requires n <= |ts|
  {
    if n == 0 then [] else Append(Joined(ts, n - 1), ts[n - 1])
  }

  function TrimStart(doc: seq<Token>): seq<Token> {
    if doc != [] && doc[0].Words? then
      var data := TrimLeft(doc[0].data, UnicodeSpace);
      (if data == "" then [] else [Words(data)]) + doc[1..]
    else doc
  }

  function TrimEnd(doc: seq<Token>): seq<Token> {
    if doc != [] && doc[|doc| - 1].Words? then
      var data := TrimRight(doc[|doc| - 1].data, UnicodeSpace);
      doc[..|doc| - 1] + (if data == "" then [] else [Words(data)])
    else doc
  }

  /** The sanitized document: texts joined, white space trimmed at both ends. */
  function Document(rules: Rules, ts: seq<Token>): seq<Token> {
    var out := Sanitized(rules, ts, |ts|);
    TrimEnd(TrimStart(Joined(out, |out|)))
  }

  /** Line ends as the tokenizer reads them: carriage returns become line feeds. */
  function Newlines(s: string): string {
    if s == "" then ""
    else if s[0] != '\r' then [s[0]] + Newlines(s[1..])
    else if |s| > 1 && s[1] == '\n' then ['\n'] + Newlines(s[2..])
    else ['\n'] + Newlines(s[1..])
  }

  function ReadAttributes(attributes: seq<Attribute>): seq<Attribute> {
    seq(|attributes|, i requires 0 <= i < |attributes| => Attribute(attributes[i].key, Newlines(attributes[i].value)))
  }

  function ReadToken(t: Token): Token {
    match t
    case Words(data) => Words(Newlines(data))
    case Start(name, attributes) => Start(name, ReadAttributes(attributes))
    case SelfClosing(name, attributes) => SelfClosing(name, ReadAttributes(attributes))
    case _ => t
  }

  /** The tokens of a written document. */
  function Tokens(doc: seq<Token>): seq<Token> {
    seq(|doc|, i requires 0 <= i < |doc| => ReadToken(doc[i]))
  }

  // ---------------------------------------------------------------- normal form

  ghost predicate NoReturn(s: string) {
    forall i | 0 <= i < |s| :: s[i] != '\r'
  }

  ghost predicate PlainAttribute(a: Attribute) {
    FoldsToSource(a.key) ==> KeyOf(a.key) == Source
  }

  ghost predicate Plain(attributes: seq<Attribute>) {
    forall i | 0 <= i < |attributes| :: PlainAttribute(attributes[i])
  }

  ghost predicate NoReturns(attributes: seq<Attribute>) {
    forall i | 0 <= i < |attributes| :: NoReturn(attributes[i].value)
  }

  /** A token of a document; a settled one also has no carriage return and no image without a source. */
  ghost predicate Fine(rules: Rules, t: Token, settled: bool) {
    match t
    case Words(data) => settled ==> NoReturn(data)
    case Start(name, attributes) =>
      && name in Allowed && SafeAttributes(rules, KindOf(name), attributes) == attributes && Plain(attributes)
      && (settled ==> NoReturns(attributes) && (name == "img" ==> HasSource(rules, attributes)))
    case End(name) => name in Allowed && name !in Void
    case _ => false
  }

  ghost predicate AllFine(rules: Rules, ts: seq<Token>, settled: bool) {
    forall i | 0 <= i < |ts| :: Fine(rules, ts[i], settled)
  }

  /** Texts are not empty and never neighbours. */
  ghost predicate Canonical(doc: seq<Token>) {
    forall i | 0 <= i < |doc| && doc[i].Words? :: doc[i].data != "" && (i + 1 < |doc| ==> !doc[i + 1].Words?)
  }

  ghost predicate TightEnds(doc: seq<Token>) {
    doc != [] ==>
      && (doc[0].Words? && doc[0].data != "" ==> !UnicodeSpace(doc[0].data[0]))
      && (doc[|doc| - 1].Words? && doc[|doc| - 1].data != "" ==>
            !UnicodeSpace(doc[|doc| - 1].data[|doc[|doc| - 1].data| - 1]))
  }

  /** An input token without carriage returns and without an attribute that only folds to src. */
  ghost predicate PlainToken(t: Token) {
    match t
    case Words(data) => NoReturn(data)
    case Start(_, attributes) => Plain(attributes) && NoReturns(attributes)
    case SelfClosing(_, attributes) => Plain(attributes) && NoReturns(attributes)
    case _ => true
  }

  lemma KeptIsPlain(rules: Rules, kind: Kind, a: Attribute)
    ensures Plain(KeptAttribute(rules, kind, a))
    ensures NoReturn(a.value) ==> NoReturns(KeptAttribute(rules, kind, a))
  {
    KeyOfSpelling(KeyOf(a.key));
    if NoReturn(a.value) {
      TrimLeftKeeps(a.value, UnicodeSpace, c => c != '\r');
      TrimRightKeeps(TrimLeft(a.value, UnicodeSpace), UnicodeSpace, c => c != '\r');
    }
  }

  lemma KeptArePlain(rules: Rules, kind: Kind, attributes: seq<Attribute>)
    ensures Plain(KeptAttributes(rules, kind, attributes, |attributes|))
    ensures NoReturns(attributes) ==> NoReturns(KeptAttributes(rules, kind, attributes, |attributes|))
  {
    var kept := Keeper(rules, kind);
    var plain := (a: Attribute) => PlainAttribute(a);
    var noReturn := (a: Attribute) => NoReturn(a.value);
    forall i | 0 <= i < |attributes|
      ensures forall j | 0 <= j < |kept(attributes[i])| :: plain(kept(attributes[i])[j])
      ensures NoReturns(attributes) ==> forall j | 0 <= j < |kept(attributes[i])| :: noReturn(kept(attributes[i])[j])
    {
      KeptIsPlain(rules, kind, attributes[i]);
    }
    CollectAll(kept, attributes, |attributes|, plain);
    if NoReturns(attributes) {
      CollectAll(kept, attributes, |attributes|, noReturn);
    }
  }

  lemma SafeArePlain(rules: Rules, kind: Kind, attributes: seq<Attribute>)
    ensures Plain(SafeAttributes(rules, kind, attributes))
    ensures NoReturns(attributes) ==> NoReturns(SafeAttributes(rules, kind, attributes))
  {
    KeptArePlain(rules, kind, attributes);
    assert Plain(Closing(kind)) && NoReturns(Closing(kind));
  }

  /** An image that counts as having a source keeps it, unless the key only folds to src. */
  lemma SourceIsKept(rules: Rules, attributes: seq<Attribute>)
    requires Stable(rules) && Plain(attributes) && HasSource(rules, attributes)
    ensures HasSource(rules, KeptAttributes(rules, Image, attributes, |attributes|))
  {
    var i :| 0 <= i < |attributes| && CountsAsSource(rules, attributes[i]);
    assert PlainAttribute(attributes[i]);
    KeyOfSpelling(Source);
    var k := CollectHas(Keeper(rules, Image), attributes, |attributes|, i, 0);
    assert CountsAsSource(rules, KeptAttributes(rules, Image, attributes, |attributes|)[k]);
  }

  lemma RenderStartIsFine(rules: Rules, name: string, attributes: seq<Attribute>, selfClosing: bool, settled: bool)
    requires Stable(rules) && name in Allowed && (settled ==> Plain(attributes) && NoReturns(attributes))
    ensures AllFine(rules, RenderStart(rules, name, attributes, selfClosing), settled)
  {
    SafeAttributesAgain(rules, KindOf(name), attributes);
    SafeArePlain(rules, KindOf(name), attributes);
    if settled && name == "img" && HasSource(rules, attributes) {
      SourceIsKept(rules, attributes);
      assert SafeAttributes(rules, Image, attributes) == KeptAttributes(rules, Image, attributes, |attributes|);
    }
  }

  lemma RenderIsFine(rules: Rules, t: Token, settled: bool)
    requires Stable(rules) && (settled ==> PlainToken(t))
    ensures AllFine(rules, Render(rules, t), settled)
  {
    if (t.Start? || t.SelfClosing?) && t.name in Allowed {
      RenderStartIsFine(rules, t.name, t.attributes, t.SelfClosing?, settled);
    }
  }

  lemma {:induction false} SanitizedIsFine(rules: Rules, ts: seq<Token>, n: nat, settled: bool)
    requires Stable(rules) && n <= |ts| && (settled ==> forall i | 0 <= i < |ts| :: PlainToken(ts[i]))
    ensures AllFine(rules, Sanitized(rules, ts, n), settled)
  {
    if n > 0 {
      SanitizedIsFine(rules, ts, n - 1, settled);
      RenderIsFine(rules, ts[n - 1], settled);
    }
  }

  lemma AppendIsFine(rules: Rules, doc: seq<Token>, t: Token, settled: bool)
    requires AllFine(rules, doc, settled) && Fine(rules, t, settled)
    ensures AllFine(rules, Append(doc, t), settled)
  {
    if t.Words? && t.data != "" && doc != [] && doc[|doc| - 1].Words? {
      var last := doc[|doc| - 1];
      assert Fine(rules, last, settled);
      assert Fine(rules, Words(last.data + t.data), settled);
    }
  }

  lemma AppendIsCanonical(doc: seq<Token>, t: Token)
    requires Canonical(doc)
    ensures Canonical(Append(doc, t))
  {
  }

  lemma {:induction false} JoinedIsFine(rules: Rules, ts: seq<Token>, n: nat, settled: bool)
    requires n <= |ts| && AllFine(rules, ts, settled)
    ensures AllFine(rules, Joined(ts, n), settled) && Canonical(Joined(ts, n))
  {
    if n > 0 {
      JoinedIsFine(rules, ts, n - 1, settled);
      AppendIsFine(rules, Joined(ts, n - 1), ts[n - 1], settled);
      AppendIsCanonical(Joined(ts, n - 1), ts[n - 1]);
    }
  }

  lemma TrimStartIsFine(rules: Rules, doc: seq<Token>, settled: bool)
    requires AllFine(rules, doc, settled) && Canonical(doc)
    ensures var d := TrimStart(doc);
            AllFine(rules, d, settled) && Canonical(d) && (d != [] && d[0].Words? ==> !UnicodeSpace(d[0].data[0]))
  {
    if doc != [] && doc[0].Words? && settled {
      TrimLeftKeeps(doc[0].data, UnicodeSpace, c => c != '\r');
    }
  }

  lemma TrimEndIsFine(rules: Rules, doc: seq<Token>, settled: bool)
    requires AllFine(rules, doc, settled)
    ensures AllFine(rules, TrimEnd(doc), settled)
  {
    if doc != [] && doc[|doc| - 1].Words? && settled {
      TrimRightKeeps(doc[|doc| - 1].data, UnicodeSpace, c => c != '\r');
    }
  }

  lemma TrimEndIsCanonical(doc: seq<Token>)
    requires Canonical(doc) && (doc != [] && doc[0].Words? ==> !UnicodeSpace(doc[0].data[0]))
    ensures Canonical(TrimEnd(doc)) && TightEnds(TrimEnd(doc))
  {
  }

  /** Every document uses only allowed tags with their normalized attributes, in canonical text. */
  lemma DocumentsAreFine(rules: Rules, ts: seq<Token>, settled: bool)
    requires Stable(rules) && (settled ==> forall i | 0 <= i < |ts| :: PlainToken(ts[i]))
    ensures AllFine(rules, Document(rules, ts), settled)
    ensures Canonical(Document(rules, ts)) && TightEnds(Document(rules, ts))
  {
    var out := Sanitized(rules, ts, |ts|);
    SanitizedIsFine(rules, ts, |ts|, settled);
    JoinedIsFine(rules, out, |out|, settled);
    TrimStartIsFine(rules, Joined(out, |out|), settled);
    TrimEndIsFine(rules, TrimStart(Joined(out, |out|)), settled);
    TrimEndIsCanonical(TrimStart(Joined(out, |out|)));
  }

  // ---------------------------------------------------------------- sanitizing again

  lemma {:induction false} NewlinesAgain(s: string)
    ensures NoReturn(Newlines(s)) && (NoReturn(s) ==> Newlines(s) == s)
    decreases |s|
  {
    if s != "" {
      NewlinesAgain(s[1..]);
      if |s| > 1 {
        NewlinesAgain(s[2..]);
      }
    }
  }

  lemma ReadFine(rules: Rules, t: Token, settled: bool)
    requires Fine(rules, t, settled)
    ensures PlainToken(ReadToken(t)) && (settled ==> ReadToken(t) == t)
  {
    match t
    case Words(data) => NewlinesAgain(data);
    case Start(_, attributes) =>
      var read := ReadAttributes(attributes);
      forall i | 0 <= i < |attributes|
        ensures NoReturn(read[i].value) && PlainAttribute(read[i]) && (settled ==> read[i] == attributes[i])
      {
        NewlinesAgain(attributes[i].value);
        assert PlainAttribute(attributes[i]);
      }
    case _ =>
  }

  lemma RenderAgain(rules: Rules, t: Token)
    requires Fine(rules, t, true)
    ensures Render(rules, t) == [t] && !Opens(t)
  {
    TagSets();
  }

  lemma {:induction false} SanitizedAgain(rules: Rules, doc: seq<Token>, n: nat)
    requires n <= |doc| && AllFine(rules, doc, true)
    ensures RegionAt(doc, n).None? && Sanitized(rules, doc, n) == doc[..n]
  {
    if n > 0 {
      SanitizedAgain(rules, doc, n - 1);
      RenderAgain(rules, doc[n - 1]);
      assert doc[..n] == doc[..n - 1] + [doc[n - 1]];
    }
  }

  lemma {:induction false} JoinedAgain(doc: seq<Token>, n: nat)
    requires n <= |doc| && Canonical(doc)
    ensures Joined(doc, n) == doc[..n]
  {
    if n > 0 {
      JoinedAgain(doc, n - 1);
      assert doc[..n] == doc[..n - 1] + [doc[n - 1]];
      if n > 1 {
        assert doc[..n - 1][n - 2] == doc[n - 2];
      }
    }
  }

  lemma TightIsTrimmed(doc: seq<Token>)
    requires Canonical(doc) && TightEnds(doc)
    ensures TrimEnd(TrimStart(doc)) == doc
  {
    if doc != [] && doc[0].Words? {
      assert TrimLeft(doc[0].data, UnicodeSpace) == doc[0].data;
      assert [doc[0]] + doc[1..] == doc;
    }
    assert TrimStart(doc) == doc;
    if doc != [] && doc[|doc| - 1].Words? {
      assert TrimRight(doc[|doc| - 1].data, UnicodeSpace) == doc[|doc| - 1].data;
      assert doc[..|doc| - 1] + [doc[|doc| - 1]] == doc;
    }
  }

  ghost predicate AllPlain(ts: seq<Token>) {
    forall i | 0 <= i < |ts| :: PlainToken(ts[i])
  }

  lemma TokensArePlain(rules: Rules, doc: seq<Token>, settled: bool)
    requires AllFine(rules, doc, settled)
    ensures AllPlain(Tokens(doc)) && (settled ==> Tokens(doc) == doc)
  {
    forall i | 0 <= i < |doc| ensures PlainToken(ReadToken(doc[i])) && (settled ==> ReadToken(doc[i]) == doc[i]) {
      ReadFine(rules, doc[i], settled);
    }
  }

  /**
   * Sanitizing what the sanitizer wrote changes nothing exactly when it wrote no carriage return and no image without
   * a source.
   */
  lemma SanitizingAgain(rules: Rules, ts: seq<Token>)
    requires Stable(rules)
    ensures var doc := Document(rules, ts);
            Document(rules, Tokens(doc)) == doc <==> AllFine(rules, doc, true)
  {
    var doc := Document(rules, ts);
    DocumentsAreFine(rules, ts, false);
    TokensArePlain(rules, doc, false);
    DocumentsAreFine(rules, Tokens(doc), true);
    if AllFine(rules, doc, true) {
      TokensArePlain(rules, doc, true);
      SanitizedAgain(rules, doc, |doc|);
      assert doc[..|doc|] == doc;
      JoinedAgain(doc, |doc|);
      TightIsTrimmed(doc);
    }
  }

  /** For every input without carriage returns and without a key that merely folds to src, once is enough. */
  lemma PlainInputsSettleAtOnce(rules: Rules, ts: seq<Token>)
    requires Stable(rules) && AllPlain(ts)
    ensures Document(rules, Tokens(Document(rules, ts))) == Document(rules, ts)
  {
    DocumentsAreFine(rules, ts, true);
    SanitizingAgain(rules, ts);
  }

  /** For every input at all, twice is enough. */
  lemma AllInputsSettleAtSecond(rules: Rules, ts: seq<Token>)
    requires Stable(rules)
    ensures var once := Document(rules, ts);
            var twice := Document(rules, Tokens(once));
            Document(rules, Tokens(twice)) == twice
  {
    DocumentsAreFine(rules, ts, false);
    TokensArePlain(rules, Document(rules, ts), false);
    PlainInputsSettleAtOnce(rules, Tokens(Document(rules, ts)));
  }

  // ---------------------------------------------------------------- which inputs settle at once

  /** A text as it is, and a mark for every other token. */
  function Face(t: Token): string {
    if t.Words? then t.data else "|"
  }

  function Faces(ts: seq<Token>, n: nat): string
    requires n <= |ts|
  {
    if n == 0 then "" else Faces(ts, n - 1) + Face(ts[n - 1])
  }

  /** The input outside dropped regions: its texts, and a mark for each tag that is written. */
  function Shown(rules: Rules, t: Token): string {
    match t
    case Words(data) => data
    case Start(name, attributes) => if IsWritten(rules, name, attributes) then "|" else ""
    case SelfClosing(name, attributes) => if !IsWritten(rules, name, attributes) then "" else if name in Void then "|" else "||"
    case End(name) => if name in Allowed && name !in Void then "|" else ""
    case Other => ""
  }

  predicate IsWritten(rules: Rules, name: string, attributes: seq<Attribute>) {
    name in Allowed && (name == "img" ==> HasSource(rules, attributes))
  }

  function ShownText(rules: Rules, ts: seq<Token>, n: nat): string
    requires n <= |ts|
  {
    if n == 0 then ""
    else ShownText(rules, ts, n - 1) + (if RegionAt(ts, n - 1).None? then Shown(rules, ts[n - 1]) else "")
  }

  predicate IsSource(rules: Rules, a: Attribute) {
    KeyOf(a.key) == Source && rules.safeSource(a.value)
  }

  ghost predicate KeepsNoReturn(rules: Rules, kind: Kind, a: Attribute) {
    Keeps(rules, kind, KeyOf(a.key), a.value) ==> NoReturn(TrimSpace(a.value))
  }

  /** Nothing kept of the tag holds a carriage return, and an image has a source under its own name. */
  ghost predicate TagSettles(rules: Rules, t: Token) {
    (t.Start? || t.SelfClosing?) && IsWritten(rules, t.name, t.attributes) ==>
      && (forall i | 0 <= i < |t.attributes| :: KeepsNoReturn(rules, KindOf(t.name), t.attributes[i]))
      && (t.name == "img" ==> exists i | 0 <= i < |t.attributes| :: IsSource(rules, t.attributes[i]))
  }

  /** The tags outside dropped regions settle. */
  ghost predicate AllTagsSettle(rules: Rules, ts: seq<Token>, n: nat)
    requires n <= |ts|
  {
    forall i | 0 <= i < n && RegionAt(ts, i).None? :: TagSettles(rules, ts[i])
  }

  /** No carriage return is left after trimming, in texts or attributes, and every image that is kept has a source. */
  ghost predicate Settles(rules: Rules, ts: seq<Token>) {
    NoReturn(TrimSpace(ShownText(rules, ts, |ts|))) && AllTagsSettle(rules, ts, |ts|)
  }

  lemma {:induction false} FacesConcat(a: seq<Token>, b: seq<Token>, n: nat)
    requires n <= |b|
    ensures Faces(a + b, |a| + n) == Faces(a, |a|) + Faces(b, n)
  {
    if n > 0 {
      FacesConcat(a, b, n - 1);
      assert (a + b)[|a| + n - 1] == b[n - 1];
    } else {
      FacesPrefix(a, b, |a|);
    }
  }

  lemma {:induction false} FacesPrefix(a: seq<Token>, b: seq<Token>, n: nat)
    requires n <= |a|
    ensures Faces(a + b, n) == Faces(a, n)
  {
    if n > 0 {
      FacesPrefix(a, b, n - 1);
    }
  }

  lemma FacesOne(t: Token)
    ensures Faces([t], 1) == Face(t)
  {
    assert Faces([t], 0) == "";
  }

  lemma FacesOfBoth(a: seq<Token>, b: seq<Token>)
    ensures Faces(a + b, |a + b|) == Faces(a, |a|) + Faces(b, |b|)
  {
    FacesConcat(a, b, |b|);
  }

  lemma PieceShows(rules: Rules, before: seq<Token>, t: Token)
    ensures var after := before + Render(rules, t);
            Faces(after, |after|) == Faces(before, |before|) + Shown(rules, t)
  {
    RenderShows(rules, t);
    FacesOfBoth(before, Render(rules, t));
  }

  lemma NextPiece(rules: Rules, ts: seq<Token>, n: nat)
    requires 0 < n <= |ts|
    ensures Sanitized(rules, ts, n)
         == if RegionAt(ts, n - 1).None? then Sanitized(rules, ts, n - 1) + Render(rules, ts[n - 1]) else Sanitized(rules, ts, n - 1)
  {
  }

  lemma RenderShows(rules: Rules, t: Token)
    ensures Faces(Render(rules, t), |Render(rules, t)|) == Shown(rules, t)
  {
    var out := Render(rules, t);
    if |out| == 1 {
      FacesOne(out[0]);
    } else if |out| == 2 {
      assert Faces(out, 1) == Face(out[0]);
    }
  }

  lemma {:induction false} SanitizedShows(rules: Rules, ts: seq<Token>, n: nat)
    requires n <= |ts|
    ensures Faces(Sanitized(rules, ts, n), |Sanitized(rules, ts, n)|) == ShownText(rules, ts, n)
  {
    if n > 0 {
      SanitizedShows(rules, ts, n - 1);
      NextPiece(rules, ts, n);
      if RegionAt(ts, n - 1).None? {
        PieceShows(rules, Sanitized(rules, ts, n - 1), ts[n - 1]);
      }
    }
  }

  lemma AppendFaces(doc: seq<Token>, t: Token)
    ensures Faces(Append(doc, t), |Append(doc, t)|) == Faces(doc, |doc|) + Face(t)
  {
    if t.Words? && t.data != "" && doc != [] && doc[|doc| - 1].Words? {
      var front, last := doc[..|doc| - 1], doc[|doc| - 1];
      assert doc == front + [last];
      FacesPrefix(front, [last], |front|);
      FacesPrefix(front, [Words(last.data + t.data)], |front|);
    } else {
      FacesPrefix(doc, [t], |doc|);
    }
  }

  lemma {:induction false} JoinedFaces(ts: seq<Token>, n: nat)
    requires n <= |ts|
    ensures Faces(Joined(ts, n), |Joined(ts, n)|) == Faces(ts, n)
  {
    if n > 0 {
      JoinedFaces(ts, n - 1);
      AppendFaces(Joined(ts, n - 1), ts[n - 1]);
    }
  }

  lemma TrimLeftOfConcat(a: string, b: string)
    requires b == "" || !UnicodeSpace(b[0])
    ensures TrimLeft(a + b, UnicodeSpace) == TrimLeft(a, UnicodeSpace) + b
    decreases |a|
  {
    if a != "" {
      assert (a + b)[1..] == a[1..] + b;
      TrimLeftOfConcat(a[1..], b);
    } else {
      assert a + b == b;
    }
  }

  lemma TrimRightOfConcat(a: string, b: string)
    requires a == "" || !UnicodeSpace(a[|a| - 1])
    ensures TrimRight(a + b, UnicodeSpace) == a + TrimRight(b, UnicodeSpace)
    decreases |b|
  {
    if b == "" {
      assert a + b == a;
    } else {
      assert (a + b)[|a + b| - 1] == b[|b| - 1];
      assert (a + b)[..|a + b| - 1] == a + b[..|b| - 1];
      TrimRightOfConcat(a, b[..|b| - 1]);
    }
  }

  lemma MarkStarts(ts: seq<Token>)
    requires ts != [] && !ts[0].Words?
    ensures Faces(ts, |ts|) != "" && Faces(ts, |ts|)[0] == '|'
  {
    assert ts == [ts[0]] + ts[1..];
    FacesConcat([ts[0]], ts[1..], |ts| - 1);
    FacesOne(ts[0]);
  }

  /** What trimming makes of a text at an end. */
  function TextToken(data: string): seq<Token> {
    if data == "" then [] else [Words(data)]
  }

  lemma TextTokenFaces(data: string)
    ensures Faces(TextToken(data), |TextToken(data)|) == data
  {
    if data != "" {
      FacesOne(Words(data));
    }
  }

  lemma TrimFirst(data: string, rest: seq<Token>)
    requires rest != [] ==> !rest[0].Words?
    ensures var doc := TextToken(TrimLeft(data, UnicodeSpace)) + rest;
            Faces(doc, |doc|) == TrimLeft(data + Faces(rest, |rest|), UnicodeSpace)
  {
    if rest != [] {
      MarkStarts(rest);
    }
    TrimLeftOfConcat(data, Faces(rest, |rest|));
    TextTokenFaces(TrimLeft(data, UnicodeSpace));
    FacesOfBoth(TextToken(TrimLeft(data, UnicodeSpace)), rest);
  }

  lemma TrimStartFaces(doc: seq<Token>)
    requires Canonical(doc)
    ensures Faces(TrimStart(doc), |TrimStart(doc)|) == TrimLeft(Faces(doc, |doc|), UnicodeSpace)
  {
    if doc != [] && doc[0].Words? {
      TrimFirst(doc[0].data, doc[1..]);
      FacesOfBoth([doc[0]], doc[1..]);
      FacesOne(doc[0]);
      assert doc == [doc[0]] + doc[1..];
    } else if doc != [] {
      MarkStarts(doc);
    }
  }

  lemma TrimLast(front: seq<Token>, data: string)
    requires front != [] ==> !front[|front| - 1].Words?
    ensures var doc := front + TextToken(TrimRight(data, UnicodeSpace));
            Faces(doc, |doc|) == TrimRight(Faces(front, |front|) + data, UnicodeSpace)
  {
    if front != [] {
      MarkEnds(front);
    }
    TrimRightOfConcat(Faces(front, |front|), data);
    TextTokenFaces(TrimRight(data, UnicodeSpace));
    FacesOfBoth(front, TextToken(TrimRight(data, UnicodeSpace)));
  }

  lemma MarkEnds(ts: seq<Token>)
    requires ts != [] && !ts[|ts| - 1].Words?
    ensures Faces(ts, |ts|) != "" && Faces(ts, |ts|)[|Faces(ts, |ts|)| - 1] == '|'
  {
    assert Face(ts[|ts| - 1]) == "|";
  }

  lemma LastText(doc: seq<Token>, data: string)
    requires doc != [] && doc[|doc| - 1] == Words(data)
    ensures Faces(doc, |doc|) == Faces(doc[..|doc| - 1], |doc| - 1) + data
    ensures TrimEnd(doc) == doc[..|doc| - 1] + TextToken(TrimRight(data, UnicodeSpace))
  {
    FacesPrefix(doc[..|doc| - 1], [doc[|doc| - 1]], |doc| - 1);
    assert doc == doc[..|doc| - 1] + [doc[|doc| - 1]];
  }

  lemma TrimEndFaces(doc: seq<Token>)
    requires Canonical(doc)
    ensures Faces(TrimEnd(doc), |TrimEnd(doc)|) == TrimRight(Faces(doc, |doc|), UnicodeSpace)
  {
    if doc != [] && doc[|doc| - 1].Words? {
      LastText(doc, doc[|doc| - 1].data);
      TrimLast(doc[..|doc| - 1], doc[|doc| - 1].data);
    } else if doc != [] {
      MarkEnds(doc);
    }
  }

  lemma {:induction false} JoinedIsCanonical(ts: seq<Token>, n: nat)
    requires n <= |ts|
    ensures Canonical(Joined(ts, n))
  {
    if n > 0 {
      JoinedIsCanonical(ts, n - 1);
      AppendIsCanonical(Joined(ts, n - 1), ts[n - 1]);
    }
  }

  /** The document shows the trimmed text of the input outside dropped regions. */
  lemma DocumentShows(rules: Rules, ts: seq<Token>)
    ensures Faces(Document(rules, ts), |Document(rules, ts)|) == TrimSpace(ShownText(rules, ts, |ts|))
  {
    var out := Sanitized(rules, ts, |ts|);
    var doc := Joined(out, |out|);
    SanitizedShows(rules, ts, |ts|);
    JoinedFaces(out, |out|);
    JoinedIsCanonical(out, |out|);
    TrimStartFaces(doc);
    assert Canonical(TrimStart(doc));
    TrimEndFaces(TrimStart(doc));
  }

  /** Texts without carriage returns. */
  ghost predicate TextsSettle(ts: seq<Token>, n: nat)
    requires n <= |ts|
  {
    forall i | 0 <= i < n && ts[i].Words? :: NoReturn(ts[i].data)
  }

  lemma {:induction false} FacesSettle(ts: seq<Token>, n: nat)
    requires n <= |ts|
    ensures NoReturn(Faces(ts, n)) <==> TextsSettle(ts, n)
  {
    if n > 0 {
      FacesSettle(ts, n - 1);
      NoReturnConcat(Faces(ts, n - 1), Face(ts[n - 1]));
    }
  }

  lemma NoReturnConcat(a: string, b: string)
    ensures NoReturn(a + b) <==> NoReturn(a) && NoReturn(b)
  {
    if NoReturn(a + b) {
      forall i | 0 <= i < |a| ensures a[i] != '\r' {
        assert (a + b)[i] == a[i];
      }
      forall i | 0 <= i < |b| ensures b[i] != '\r' {
        assert (a + b)[|a| + i] == b[i];
      }
    }
  }

  /** A written tag without carriage returns, and with a source if it is an image. */
  ghost predicate TagSettled(rules: Rules, t: Token) {
    t.Start? ==> NoReturns(t.attributes) && (t.name == "img" ==> HasSource(rules, t.attributes))
  }

  ghost predicate TagsSettled(rules: Rules, ts: seq<Token>) {
    forall i | 0 <= i < |ts| :: TagSettled(rules, ts[i])
  }

  lemma TagsOfBoth(rules: Rules, a: seq<Token>, b: seq<Token>)
    ensures TagsSettled(rules, a + b) <==> TagsSettled(rules, a) && TagsSettled(rules, b)
  {
    if TagsSettled(rules, a + b) {
      forall i | 0 <= i < |a| ensures TagSettled(rules, a[i]) {
        assert (a + b)[i] == a[i];
      }
      forall i | 0 <= i < |b| ensures TagSettled(rules, b[i]) {
        assert (a + b)[|a| + i] == b[i];
      }
    }
  }

  lemma TagsOfOne(rules: Rules, t: Token)
    ensures TagsSettled(rules, [t]) <==> TagSettled(rules, t)
  {
    assert [t][0] == t;
  }

  lemma AppendTags(rules: Rules, doc: seq<Token>, t: Token)
    ensures TagsSettled(rules, Append(doc, t)) <==> TagsSettled(rules, doc) && TagSettled(rules, t)
  {
    TagsOfOne(rules, t);
    TagsOfBoth(rules, doc, [t]);
    if t.Words? && t.data != "" && doc != [] && doc[|doc| - 1].Words? {
      var front, last := doc[..|doc| - 1], doc[|doc| - 1];
      assert doc == front + [last];
      TagsOfBoth(rules, front, [last]);
      TagsOfBoth(rules, front, [Words(last.data + t.data)]);
    }
  }

  lemma {:induction false} JoinedTags(rules: Rules, ts: seq<Token>, n: nat)
    requires n <= |ts|
    ensures TagsSettled(rules, Joined(ts, n)) <==> forall i | 0 <= i < n :: TagSettled(rules, ts[i])
  {
    if n > 0 {
      JoinedTags(rules, ts, n - 1);
      AppendTags(rules, Joined(ts, n - 1), ts[n - 1]);
    }
  }

  lemma TextTokenTags(rules: Rules, data: string)
    ensures TagsSettled(rules, TextToken(data)) && TagSettled(rules, Words(data))
  {
  }

  lemma StartTags(rules: Rules, doc: seq<Token>)
    ensures TagsSettled(rules, TrimStart(doc)) <==> TagsSettled(rules, doc)
  {
    if doc != [] && doc[0].Words? {
      var first, rest := doc[0], doc[1..];
      TextTokenTags(rules, TrimLeft(first.data, UnicodeSpace));
      TextTokenTags(rules, first.data);
      TagsOfBoth(rules, TextToken(TrimLeft(first.data, UnicodeSpace)), rest);
      TagsOfOne(rules, first);
      TagsOfBoth(rules, [first], rest);
      assert doc == [first] + rest;
      assert TrimStart(doc) == TextToken(TrimLeft(first.data, UnicodeSpace)) + rest;
    }
  }

  lemma EndTags(rules: Rules, doc: seq<Token>)
    ensures TagsSettled(rules, TrimEnd(doc)) <==> TagsSettled(rules, doc)
  {
    if doc != [] && doc[|doc| - 1].Words? {
      var front, last := doc[..|doc| - 1], doc[|doc| - 1];
      TextTokenTags(rules, TrimRight(last.data, UnicodeSpace));
      TextTokenTags(rules, last.data);
      TagsOfBoth(rules, front, TextToken(TrimRight(last.data, UnicodeSpace)));
      TagsOfOne(rules, last);
      TagsOfBoth(rules, front, [last]);
      assert doc == front + [last];
      assert TrimEnd(doc) == front + TextToken(TrimRight(last.data, UnicodeSpace));
    }
  }

  lemma KeptReturns(rules: Rules, kind: Kind, attributes: seq<Attribute>)
    ensures NoReturns(KeptAttributes(rules, kind, attributes, |attributes|))
       <==> forall i | 0 <= i < |attributes| :: KeepsNoReturn(rules, kind, attributes[i])
  {
    var keeper, noReturn := Keeper(rules, kind), (a: Attribute) => NoReturn(a.value);
    var kept := KeptAttributes(rules, kind, attributes, |attributes|);
    if forall i | 0 <= i < |attributes| :: KeepsNoReturn(rules, kind, attributes[i]) {
      forall i | 0 <= i < |attributes| ensures forall j | 0 <= j < |keeper(attributes[i])| :: noReturn(keeper(attributes[i])[j]) {
        assert KeepsNoReturn(rules, kind, attributes[i]);
      }
      CollectAll(keeper, attributes, |attributes|, noReturn);
      assert forall k | 0 <= k < |kept| :: noReturn(kept[k]);
    }
    if NoReturns(kept) {
      forall i | 0 <= i < |attributes| ensures KeepsNoReturn(rules, kind, attributes[i]) {
        if Keeps(rules, kind, KeyOf(attributes[i].key), attributes[i].value) {
          var k := CollectHas(keeper, attributes, |attributes|, i, 0);
          assert NoReturn(kept[k].value);
        }
      }
    }
  }

  /** A kept source was an attribute read as src. */
  lemma KeptSource(rules: Rules, attributes: seq<Attribute>)
    requires Stable(rules)
    ensures HasSource(rules, KeptAttributes(rules, Image, attributes, |attributes|))
       <==> exists i | 0 <= i < |attributes| :: IsSource(rules, attributes[i])
  {
    var keeper, missing := Keeper(rules, Image), (a: Attribute) => !CountsAsSource(rules, a);
    var kept := KeptAttributes(rules, Image, attributes, |attributes|);
    if i :| 0 <= i < |attributes| && IsSource(rules, attributes[i]) {
      KeyOfSpelling(Source);
      var k := CollectHas(keeper, attributes, |attributes|, i, 0);
      assert CountsAsSource(rules, kept[k]);
    } else {
      forall i | 0 <= i < |attributes| ensures forall j | 0 <= j < |keeper(attributes[i])| :: missing(keeper(attributes[i])[j]) {
        assert !IsSource(rules, attributes[i]);
        KeyOfSpelling(KeyOf(attributes[i].key));
      }
      CollectAll(keeper, attributes, |attributes|, missing);
      assert forall k | 0 <= k < |kept| :: missing(kept[k]);
    }
  }

  lemma StartSettled(rules: Rules, name: string, attributes: seq<Attribute>)
    requires Stable(rules) && IsWritten(rules, name, attributes)
    ensures TagSettled(rules, Start(name, SafeAttributes(rules, KindOf(name), attributes)))
       <==> TagSettles(rules, Start(name, attributes))
  {
    var kind := KindOf(name);
    var kept := KeptAttributes(rules, kind, attributes, |attributes|);
    KeptReturns(rules, kind, attributes);
    if name == "img" {
      KeptSource(rules, attributes);
      assert SafeAttributes(rules, kind, attributes) == kept;
    } else if name == "a" {
      NoReturnsConcat(kept, [NewWindow, NoReferrer]);
    } else {
      assert SafeAttributes(rules, kind, attributes) == kept;
    }
  }

  lemma NoReturnsConcat(a: seq<Attribute>, b: seq<Attribute>)
    ensures NoReturns(a + b) <==> NoReturns(a) && NoReturns(b)
  {
    if NoReturns(a + b) {
      forall i | 0 <= i < |a| ensures NoReturn(a[i].value) {
        assert (a + b)[i] == a[i];
      }
      forall i | 0 <= i < |b| ensures NoReturn(b[i].value) {
        assert (a + b)[|a| + i] == b[i];
      }
    }
  }

  lemma RenderTags(rules: Rules, t: Token)
    requires Stable(rules)
    ensures TagsSettled(rules, Render(rules, t)) <==> TagSettles(rules, t)
  {
    if (t.Start? || t.SelfClosing?) && IsWritten(rules, t.name, t.attributes) {
      var tag := Start(t.name, SafeAttributes(rules, KindOf(t.name), t.attributes));
      StartSettled(rules, t.name, t.attributes);
      TagsOfOne(rules, tag);
      TagsOfBoth(rules, [tag], [End(t.name)]);
      assert [tag] + [] == [tag];
    }
  }

  lemma NextSettles(rules: Rules, ts: seq<Token>, n: nat)
    requires 0 < n <= |ts|
    ensures AllTagsSettle(rules, ts, n)
       <==> AllTagsSettle(rules, ts, n - 1) && (RegionAt(ts, n - 1).None? ==> TagSettles(rules, ts[n - 1]))
  {
  }

  lemma {:induction false} SanitizedTags(rules: Rules, ts: seq<Token>, n: nat)
    requires Stable(rules) && n <= |ts|
    ensures TagsSettled(rules, Sanitized(rules, ts, n)) <==> AllTagsSettle(rules, ts, n)
  {
    if n > 0 {
      SanitizedTags(rules, ts, n - 1);
      NextPiece(rules, ts, n);
      RenderTags(rules, ts[n - 1]);
      TagsOfBoth(rules, Sanitized(rules, ts, n - 1), Render(rules, ts[n - 1]));
      NextSettles(rules, ts, n);
    }
  }

  lemma DocumentTags(rules: Rules, ts: seq<Token>)
    requires Stable(rules)
    ensures TagsSettled(rules, Document(rules, ts))
       <==> AllTagsSettle(rules, ts, |ts|)
  {
    var out := Sanitized(rules, ts, |ts|);
    SanitizedTags(rules, ts, |ts|);
    JoinedTags(rules, out, |out|);
    StartTags(rules, Joined(out, |out|));
    EndTags(rules, TrimStart(Joined(out, |out|)));
  }

  lemma FineOnceMore(rules: Rules, doc: seq<Token>)
    requires AllFine(rules, doc, false)
    ensures AllFine(rules, doc, true) <==> TextsSettle(doc, |doc|) && TagsSettled(rules, doc)
  {
    if AllFine(rules, doc, true) {
      forall i | 0 <= i < |doc| ensures TagSettled(rules, doc[i]) && (doc[i].Words? ==> NoReturn(doc[i].data)) {
        assert Fine(rules, doc[i], true);
      }
    }
    if TextsSettle(doc, |doc|) && TagsSettled(rules, doc) {
      forall i | 0 <= i < |doc| ensures Fine(rules, doc[i], true) {
        assert Fine(rules, doc[i], false) && TagSettled(rules, doc[i]);
      }
    }
  }

  /** Exactly these inputs are sanitized once and for all. */
  lemma SettlesExactly(rules: Rules, ts: seq<Token>)
    requires Stable(rules)
    ensures Document(rules, Tokens(Document(rules, ts))) == Document(rules, ts) <==> Settles(rules, ts)
  {
    var doc := Document(rules, ts);
    SanitizingAgain(rules, ts);
    DocumentsAreFine(rules, ts, false);
    FineOnceMore(rules, doc);
    DocumentShows(rules, ts);
    FacesSettle(doc, |doc|);
    DocumentTags(rules, ts);
  }

  lemma OneText(rules: Rules, data: string)
    requires data != "" && Tight(data, UnicodeSpace)
    ensures Document(rules, [Words(data)]) == [Words(data)]
  {
    var doc := [Words(data)];
    assert RegionAt(doc, 0) == None && Sanitized(rules, doc, 0) == [];
    assert Sanitized(rules, doc, 1) == doc;
    assert Joined(doc, 0) == [] && Joined(doc, 1) == doc;
    TightIsTrimmed(doc);
  }

  lemma ReturnIsRead()
    ensures Newlines("a\rb") == "a\nb"
  {
    assert "a\rb"[1..] == "\rb" && "\rb"[1..] == "b" && "b"[1..] == "";
    assert Newlines("b") == "b";
  }

  /** A decoded carriage return between characters is read back as a line feed. */
  lemma ReturnIsNotSettled(rules: Rules)
    ensures var once := Document(rules, [Words("a\rb")]);
            once == [Words("a\rb")] && Document(rules, Tokens(once)) == [Words("a\nb")]
  {
    OneText(rules, "a\rb");
    OneText(rules, "a\nb");
    ReturnIsRead();
    assert Tokens([Words("a\rb")]) == [Words("a\nb")];
  }

  lemma LongSKey()
    ensures var key := "\U{17F}rc"; FoldsToSource(key) && KeyOf(key) == OtherKey
  {
    var key := "\U{17F}rc";
    assert TrimSpace(key) == key;
    assert !Reads(key, "src") && !Reads(key, "href") && !Reads(key, "alt");
  }

  lemma OneToken(rules: Rules, t: Token)
    requires !t.Words? && |Render(rules, t)| <= 1 && forall i | 0 <= i < |Render(rules, t)| :: !Render(rules, t)[i].Words?
    ensures Document(rules, [t]) == Render(rules, t)
  {
    var out := Render(rules, t);
    assert RegionAt([t], 0) == None && Sanitized(rules, [t], 0) == [];
    assert Sanitized(rules, [t], 1) == out;
    assert Joined(out, 0) == [];
    assert Joined(out, |out|) == out;
  }

  /** An image whose key only folds to src is written without a source, and the second time not at all. */
  lemma LongSIsNotSettled(rules: Rules, value: string)
    requires rules.safeSource(value)
    ensures var once := Document(rules, [Start("img", [Attribute("\U{17F}rc", value)])]);
            once == [Start("img", [])] && Document(rules, Tokens(once)) == []
  {
    TagSets();
    LongSKey();
    var a := Attribute("\U{17F}rc", value);
    assert CountsAsSource(rules, [a][0]);
    assert KeptAttributes(rules, Image, [a], 0) == [] && KeptAttribute(rules, Image, a) == [];
    assert KeptAttributes(rules, Image, [a], 1) == [];
    assert SafeAttributes(rules, Image, [a]) == [];
    OneToken(rules, Start("img", [a]));
    var once := [Start("img", [])];
    assert ReadAttributes([]) == [] && Tokens(once) == [ReadToken(once[0])];
    OneToken(rules, Start("img", []));
  }

  // ---------------------------------------------------------------- media

  predicate Names(t: Token, tags: set<string>) {
    (t.Start? || t.SelfClosing?) && t.name in tags
  }

  const Videos: set<string> := {"video", "source"}
  const Images: set<string> := {"img"}

  ghost predicate Mentions(ts: seq<Token>, tags: set<string>) {
    exists i | 0 <= i < |ts| :: Names(ts[i], tags)
  }

  method DetectMedia(ts: seq<Token>) returns (hasImage: bool, hasVideo: bool)
    ensures hasImage == Mentions(ts, Images) && hasVideo == Mentions(ts, Videos)
    ensures hasImage <==> exists i | 0 <= i < |ts| :: (ts[i].Start? || ts[i].SelfClosing?) && ts[i].name == "img"
    ensures hasVideo <==>
            exists i | 0 <= i < |ts| :: (ts[i].Start? || ts[i].SelfClosing?) && (ts[i].name == "video" || ts[i].name == "source")
  {
    hasImage, hasVideo := false, false;
    for i := 0 to |ts|
      invariant hasImage <==> exists k | 0 <= k < i :: Names(ts[k], Images)
      invariant hasVideo <==> exists k | 0 <= k < i :: Names(ts[k], Videos)
    {
      if Names(ts[i], Images) {
        hasImage := true;
      } else if Names(ts[i], Videos) {
        hasVideo := true;
      }
      if hasImage && hasVideo {
        return;
      }
    }
  }

  /** A stored entry never has a video. */
  lemma DocumentsHaveNoVideo(rules: Rules, ts: seq<Token>)
    requires Stable(rules)
    ensures !Mentions(Tokens(Document(rules, ts)), Videos)
  {
    var doc := Document(rules, ts);
    DocumentsAreFine(rules, ts, false);
    forall i | 0 <= i < |doc| ensures !Names(Tokens(doc)[i], Videos) {
      assert Fine(rules, doc[i], false);
      TagSets();
    }
  }
}
