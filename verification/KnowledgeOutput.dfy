/**
 * What the sanitizer writes, tag by tag and attribute by attribute: which tokens of the input leave something in the
 * output, and what exactly they leave.
 */
module KnowledgeOutput {
  import opened Text
  import opened KnowledgeContent

  // ---------------------------------------------------------------- attributes

  /** The text is the given name in any mixture of its lower-case and upper-case letters. */
  predicate Cased(s: string, low: string, up: string) {
    |s| == |low| == |up| && forall i | 0 <= i < |s| :: s[i] == low[i] || s[i] == up[i]
  }

  /** The sanitizer keeps the attribute, under that key. */
  predicate IsKept(rules: Rules, tag: string, a: Attribute, key: string) {
    || (tag == "a" && key == "href" && Cased(TrimSpace(a.key), "href", "HREF") && rules.safeLink(a.value))
    || (tag == "img" && key == "src" && Cased(TrimSpace(a.key), "src", "SRC") && rules.safeSource(a.value))
    || (tag == "img" && key == "alt" && Cased(TrimSpace(a.key), "alt", "ALT"))
  }

  /** The places are in order, and are those of all attributes that are kept. */
  ghost predicate Selects(rules: Rules, tag: string, input: seq<Attribute>, places: seq<nat>) {
    && (forall k | 0 <= k < |places| :: places[k] < |input|)
    && (forall j, k | 0 <= j < k < |places| :: places[j] < places[k])
    && (forall i, key | 0 <= i < |input| && IsKept(rules, tag, input[i], key) :: i in places)
  }

  /** What is written is what is kept, with trimmed values. */
  ghost predicate Writes(rules: Rules, tag: string, input: seq<Attribute>, places: seq<nat>, kept: seq<Attribute>) {
    && |kept| == |places| && Selects(rules, tag, input, places)
    && forall k | 0 <= k < |kept| ::
         IsKept(rules, tag, input[places[k]], kept[k].key) && kept[k].value == TrimSpace(input[places[k]].value)
  }

  function Window(tag: string): seq<Attribute> {
    if tag == "a" then [Attribute("target", "_blank"), Attribute("rel", "noreferrer")] else []
  }

  lemma ReadsIsCased(key: string)
    ensures Reads(key, "href") <==> Cased(TrimSpace(key), "href", "HREF")
    ensures Reads(key, "src") <==> Cased(TrimSpace(key), "src", "SRC")
    ensures Reads(key, "alt") <==> Cased(TrimSpace(key), "alt", "ALT")
  {
  }

  lemma NotTwoKeys(s: string)
    ensures !(Cased(s, "href", "HREF") && Cased(s, "src", "SRC")) && !(Cased(s, "src", "SRC") && Cased(s, "alt", "ALT"))
    ensures !(Cased(s, "href", "HREF") && Cased(s, "alt", "ALT"))
  {
    if Cased(s, "src", "SRC") {
      assert s[0] == "src"[0] || s[0] == "SRC"[0];
    }
    if Cased(s, "alt", "ALT") {
      assert s[0] == "alt"[0] || s[0] == "ALT"[0];
    }
  }

  lemma KeptIsKept(rules: Rules, tag: string, a: Attribute)
    ensures var kept := KeptAttribute(rules, KindOf(tag), a);
            || (|kept| == 1 && IsKept(rules, tag, a, kept[0].key) && kept[0].value == TrimSpace(a.value))
            || (kept == [] && forall key :: !IsKept(rules, tag, a, key))
  {
    ReadsIsCased(a.key);
    NotTwoKeys(TrimSpace(a.key));
  }

  lemma SelectsOne(rules: Rules, tag: string, input: seq<Attribute>, places: seq<nat>, a: Attribute)
    requires Selects(rules, tag, input, places)
    ensures Selects(rules, tag, input + [a], places + [|input|])
  {
    var more, all := input + [a], places + [|input|];
    forall i, key | 0 <= i < |more| && IsKept(rules, tag, more[i], key) ensures i in all {
      if i < |input| {
        assert more[i] == input[i] && i in places;
      } else {
        assert all[|places|] == i;
      }
    }
  }

  lemma WritesOne(rules: Rules, tag: string, input: seq<Attribute>, places: seq<nat>, kept: seq<Attribute>, a: Attribute, own: Attribute)
    requires Writes(rules, tag, input, places, kept)
    requires IsKept(rules, tag, a, own.key) && own.value == TrimSpace(a.value)
    ensures Writes(rules, tag, input + [a], places + [|input|], kept + [own])
  {
    SelectsOne(rules, tag, input, places, a);
    var more, all := input + [a], places + [|input|];
    assert more[|input|] == a;
    assert forall k | 0 <= k < |kept| :: all[k] == places[k] && more[places[k]] == input[places[k]];
  }

  lemma WritesNone(rules: Rules, tag: string, input: seq<Attribute>, places: seq<nat>, kept: seq<Attribute>, a: Attribute)
    requires Writes(rules, tag, input, places, kept) && forall key :: !IsKept(rules, tag, a, key)
    ensures Writes(rules, tag, input + [a], places, kept)
  {
    var more := input + [a];
    assert more[|input|] == a;
    assert forall k | 0 <= k < |kept| :: more[places[k]] == input[places[k]];
    forall i, key | 0 <= i < |more| && IsKept(rules, tag, more[i], key) ensures i in places {
      assert more[i] == input[i];
    }
  }

  lemma KeptNext(rules: Rules, kind: Kind, input: seq<Attribute>, n: nat)
    requires 0 < n <= |input|
    ensures input[..n] == input[..n - 1] + [input[n - 1]]
    ensures KeptAttributes(rules, kind, input, n)
         == KeptAttributes(rules, kind, input, n - 1) + KeptAttribute(rules, kind, input[n - 1])
  {
  }

  lemma {:induction false} KeptWrites(rules: Rules, tag: string, input: seq<Attribute>, n: nat) returns (places: seq<nat>)
    requires n <= |input|
    ensures Writes(rules, tag, input[..n], places, KeptAttributes(rules, KindOf(tag), input, n))
  {
    if n == 0 {
      places := [];
    } else {
      var a := input[n - 1];
      places := KeptWrites(rules, tag, input, n - 1);
      var before, kept := KeptAttributes(rules, KindOf(tag), input, n - 1), KeptAttribute(rules, KindOf(tag), a);
      KeptNext(rules, KindOf(tag), input, n);
      KeptIsKept(rules, tag, a);
      if kept == [] {
        assert before + kept == before;
        WritesNone(rules, tag, input[..n - 1], places, before, a);
      } else {
        assert kept == [kept[0]];
        WritesOne(rules, tag, input[..n - 1], places, before, a, kept[0]);
        places := places + [n - 1];
      }
    }
  }

  /**
   * What is written of the attributes of a tag: of a link exactly the safe `href`s and then the two fixed attributes, of an
   * image exactly the safe `src`s and the `alt`s, each trimmed and in order, and of other tags nothing.
   */
  lemma AttributesWritten(rules: Rules, tag: string, input: seq<Attribute>) returns (kept: seq<Attribute>, places: seq<nat>)
    ensures SafeAttributes(rules, KindOf(tag), input) == kept + Window(tag)
    ensures Writes(rules, tag, input, places, kept)
  {
    kept := KeptAttributes(rules, KindOf(tag), input, |input|);
    places := KeptWrites(rules, tag, input, |input|);
    assert input[..|input|] == input;
  }

  // ---------------------------------------------------------------- tokens

  /** An image is written for a safe source; the long s counts as a letter of its key. */
  predicate ShowsImage(rules: Rules, input: seq<Attribute>) {
    exists i | 0 <= i < |input| ::
      rules.safeSource(input[i].value)
      && (Cased(input[i].key, "src", "SRC") || Cased(input[i].key, "src", ['\U{17F}', 'R', 'C']))
  }

  ghost predicate StartWritten(rules: Rules, tag: string, input: seq<Attribute>, t: Token) {
    && t.Start? && t.name == tag
    && exists kept, places :: t.attributes == kept + Window(tag) && Writes(rules, tag, input, places, kept)
  }

  ghost predicate TagWritten(rules: Rules, tag: string, input: seq<Attribute>, selfClosing: bool, piece: seq<Token>) {
    if tag !in Allowed || (tag == "img" && !ShowsImage(rules, input)) then piece == []
    else if selfClosing && tag != "br" && tag != "img" then
      |piece| == 2 && StartWritten(rules, tag, input, piece[0]) && piece[1] == End(tag)
    else |piece| == 1 && StartWritten(rules, tag, input, piece[0])
  }

  /** What one token outside dropped regions leaves in the output. */
  ghost predicate Written(rules: Rules, t: Token, piece: seq<Token>) {
    match t
    case Words(data) => piece == [t]
    case Start(tag, input) => TagWritten(rules, tag, input, false, piece)
    case SelfClosing(tag, input) => TagWritten(rules, tag, input, true, piece)
    case End(tag) => piece == if tag in Allowed && tag != "br" && tag != "img" then [t] else []
    case Other => piece == []
  }

  /** Before position n a start tag with dropped content, itself not dropped, has not been balanced. */
  ghost predicate Dropped(ts: seq<Token>, n: nat)
    requires n <= |ts|
  {
    exists i: nat | i < n ::
      !Dropped(ts, i) && ts[i].Start? && ts[i].name in Dropping && NeverBalanced(ts, i + 1, n, ts[i].name)
  }

  lemma {:induction false} DroppedIsRegion(ts: seq<Token>, n: nat)
    requires n <= |ts|
    ensures Dropped(ts, n) <==> RegionAt(ts, n).Some?
  {
    forall i: nat | i < n
      ensures OpenSince(ts, i, n) <==>
              !Dropped(ts, i) && ts[i].Start? && ts[i].name in Dropping && NeverBalanced(ts, i + 1, n, ts[i].name)
    {
      DroppedIsRegion(ts, i);
    }
    DroppedExactly(ts, n);
  }

  lemma SourceIsCased(key: string)
    ensures FoldsToSource(key) <==> Cased(key, "src", "SRC") || Cased(key, "src", ['\U{17F}', 'R', 'C'])
  {
  }

  lemma ImageIsShown(rules: Rules, input: seq<Attribute>)
    ensures HasSource(rules, input) <==> ShowsImage(rules, input)
  {
    forall i | 0 <= i < |input|
      ensures FoldsToSource(input[i].key)
          <==> Cased(input[i].key, "src", "SRC") || Cased(input[i].key, "src", ['\U{17F}', 'R', 'C'])
    {
      SourceIsCased(input[i].key);
    }
    assert HasSource(rules, input) <==> exists i | 0 <= i < |input| :: CountsAsSource(rules, input[i]);
  }

  lemma StartIsWritten(rules: Rules, tag: string, input: seq<Attribute>, selfClosing: bool)
    requires tag in Allowed
    ensures TagWritten(rules, tag, input, selfClosing, RenderStart(rules, tag, input, selfClosing))
  {
    ImageIsShown(rules, input);
    var kept, places := AttributesWritten(rules, tag, input);
    assert StartWritten(rules, tag, input, Start(tag, SafeAttributes(rules, KindOf(tag), input)));
  }

  lemma TokenIsWritten(rules: Rules, t: Token)
    ensures Written(rules, t, Render(rules, t))
  {
    if (t.Start? || t.SelfClosing?) && t.name in Allowed {
      StartIsWritten(rules, t.name, t.attributes, t.SelfClosing?);
    }
  }

  function Flat(pieces: seq<seq<Token>>): seq<Token> {
    if pieces == [] then [] else Flat(pieces[..|pieces| - 1]) + pieces[|pieces| - 1]
  }

  ghost predicate PieceFits(rules: Rules, ts: seq<Token>, i: nat, piece: seq<Token>)
    requires i < |ts|
  {
    if Dropped(ts, i) then piece == [] else Written(rules, ts[i], piece)
  }

  ghost predicate PiecesFit(rules: Rules, ts: seq<Token>, pieces: seq<seq<Token>>) {
    |pieces| <= |ts| && forall i | 0 <= i < |pieces| :: PieceFits(rules, ts, i, pieces[i])
  }

  lemma FlatNext(pieces: seq<seq<Token>>, piece: seq<Token>)
    ensures Flat(pieces + [piece]) == Flat(pieces) + piece
  {
    assert (pieces + [piece])[..|pieces|] == pieces;
  }

  lemma OneMorePiece(rules: Rules, ts: seq<Token>, pieces: seq<seq<Token>>, piece: seq<Token>)
    requires |pieces| < |ts| && PiecesFit(rules, ts, pieces) && PieceFits(rules, ts, |pieces|, piece)
    ensures PiecesFit(rules, ts, pieces + [piece])
  {
    var more := pieces + [piece];
    forall i | 0 <= i < |more| ensures PieceFits(rules, ts, i, more[i]) {
      assert more[i] == if i < |pieces| then pieces[i] else piece;
      if i < |pieces| {
        assert PieceFits(rules, ts, i, pieces[i]);
      }
    }
  }

  lemma {:induction false} PrefixPieces(rules: Rules, ts: seq<Token>, n: nat) returns (pieces: seq<seq<Token>>)
    requires n <= |ts|
    ensures |pieces| == n && PiecesFit(rules, ts, pieces) && Sanitized(rules, ts, n) == Flat(pieces)
  {
    if n == 0 {
      pieces := [];
    } else {
      var before := PrefixPieces(rules, ts, n - 1);
      DroppedIsRegion(ts, n - 1);
      TokenIsWritten(rules, ts[n - 1]);
      var piece := if RegionAt(ts, n - 1).None? then Render(rules, ts[n - 1]) else [];
      OneMorePiece(rules, ts, before, piece);
      FlatNext(before, piece);
      pieces := before + [piece];
    }
  }

  /** For every input, the output is what its tokens outside dropped regions leave, one after the other. */
  lemma OutputPieces(rules: Rules, ts: seq<Token>) returns (pieces: seq<seq<Token>>)
    ensures |pieces| == |ts| && PiecesFit(rules, ts, pieces) && Sanitized(rules, ts, |ts|) == Flat(pieces)
  {
    pieces := PrefixPieces(rules, ts, |ts|);
  }

  // ---------------------------------------------------------------- the document

  /** All tokens but the texts. */
  function Tags(ts: seq<Token>): seq<Token> {
    if ts == [] then []
    else Tags(ts[..|ts| - 1]) + if ts[|ts| - 1].Words? then [] else [ts[|ts| - 1]]
  }

  lemma {:induction false} TagsOfBoth(a: seq<Token>, b: seq<Token>)
    ensures Tags(a + b) == Tags(a) + Tags(b)
  {
    if b == [] {
      assert a + b == a;
    } else {
      assert (a + b)[..|a + b| - 1] == a + b[..|b| - 1];
      TagsOfBoth(a, b[..|b| - 1]);
    }
  }

  lemma TagsOfOne(t: Token)
    ensures Tags([t]) == if t.Words? then [] else [t]
  {
    assert [t][..0] == [];
  }

  lemma AppendTags(doc: seq<Token>, t: Token)
    ensures Tags(Append(doc, t)) == Tags(doc) + Tags([t])
  {
    TagsOfOne(t);
    TagsOfBoth(doc, [t]);
    if t.Words? && doc != [] && doc[|doc| - 1].Words? {
      var front, last := doc[..|doc| - 1], Words(doc[|doc| - 1].data + t.data);
      TagsOfBoth(front, [last]);
      TagsOfOne(last);
    }
  }

  lemma {:induction false} JoinedTags(ts: seq<Token>, n: nat)
    requires n <= |ts|
    ensures Tags(Joined(ts, n)) == Tags(ts[..n])
  {
    if n > 0 {
      var before, last := ts[..n - 1], [ts[n - 1]];
      assert ts[..n] == before + last;
      TagsOfBoth(before, last);
      JoinedTags(ts, n - 1);
      AppendTags(Joined(ts, n - 1), ts[n - 1]);
    }
  }

  lemma TrimmedTags(doc: seq<Token>)
    ensures Tags(TrimStart(doc)) == Tags(doc) && Tags(TrimEnd(doc)) == Tags(doc)
  {
    if doc != [] && doc[0].Words? {
      var data := TrimLeft(doc[0].data, UnicodeSpace);
      assert doc == [doc[0]] + doc[1..];
      TagsOfBoth([doc[0]], doc[1..]);
      TagsOfOne(doc[0]);
      TagsOfBoth(if data == "" then [] else [Words(data)], doc[1..]);
      TagsOfOne(Words(data));
    }
    if doc != [] && doc[|doc| - 1].Words? {
      var front, data := doc[..|doc| - 1], TrimRight(doc[|doc| - 1].data, UnicodeSpace);
      TagsOfBoth(front, if data == "" then [] else [Words(data)]);
      TagsOfOne(Words(data));
    }
  }

  /** The document has the tags of the output, in order. */
  lemma DocumentTags(rules: Rules, ts: seq<Token>)
    ensures Tags(Document(rules, ts)) == Tags(Sanitized(rules, ts, |ts|))
  {
    var out := Sanitized(rules, ts, |ts|);
    JoinedTags(out, |out|);
    assert out[..|out|] == out;
    TrimmedTags(Joined(out, |out|));
    TrimmedTags(TrimStart(Joined(out, |out|)));
  }

  /** The attributes of a written tag are safe ones. */
  ghost predicate SafeTag(rules: Rules, tag: string, attributes: seq<Attribute>) {
    exists kept :: attributes == kept + Window(tag) && forall k | 0 <= k < |kept| ::
      && TrimSpace(kept[k].value) == kept[k].value
      && (|| (tag == "a" && kept[k].key == "href" && rules.safeLink(kept[k].value))
          || (tag == "img" && kept[k].key == "src" && rules.safeSource(kept[k].value))
          || (tag == "img" && kept[k].key == "alt"))
  }

  lemma FineIsSafe(rules: Rules, tag: string, attributes: seq<Attribute>)
    requires Stable(rules) && SafeAttributes(rules, KindOf(tag), attributes) == attributes
    ensures SafeTag(rules, tag, attributes)
  {
    var kept, places := AttributesWritten(rules, tag, attributes);
    forall k | 0 <= k < |kept| ensures TrimSpace(kept[k].value) == kept[k].value {
      TrimOfTight(TrimSpace(attributes[places[k]].value));
    }
  }

  /**
   * Every document consists of texts, of allowed tags, links with safe addresses only and images with safe sources only, and
   * of allowed end tags.
   */
  lemma DocumentsAreSafe(rules: Rules, ts: seq<Token>)
    requires Stable(rules)
    ensures forall i | 0 <= i < |Document(rules, ts)| ::
              match Document(rules, ts)[i]
              case Words(_) => true
              case Start(tag, attributes) => tag in Allowed && SafeTag(rules, tag, attributes)
              case End(tag) => tag in Allowed && tag != "br" && tag != "img"
              case _ => false
  {
    DocumentsAreFine(rules, ts, false);
    var doc := Document(rules, ts);
    forall i | 0 <= i < |doc|
      ensures match doc[i]
              case Words(_) => true
              case Start(tag, attributes) => tag in Allowed && SafeTag(rules, tag, attributes)
              case End(tag) => tag in Allowed && tag != "br" && tag != "img"
              case _ => false
    {
      assert Fine(rules, doc[i], false);
      if doc[i].Start? {
        FineIsSafe(rules, doc[i].name, doc[i].attributes);
      }
    }
  }
}
