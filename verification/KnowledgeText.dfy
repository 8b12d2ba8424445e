/**
 * The plain text of a knowledge entry, extracted from its rich text, and how it survives sanitizing.
 */
module KnowledgeText {
  import opened Text
  import opened KnowledgeContent

  // ---------------------------------------------------------------- lines of words

  /** strings.Split at line feeds. */
  function SplitLines(s: string): (lines: seq<string>)
    ensures lines != []
  {
    if s == "" then [""]
    else
      var rest := SplitLines(s[1..]);
      if s[0] == '\n' then [""] + rest else [[s[0]] + rest[0]] + rest[1..]
  }

  /** strings.Fields. */
  function Fields(s: string): (words: seq<string>)
    ensures s != "" && !UnicodeSpace(s[0]) ==> words != []
  {
    if s == "" then []
    else
      var rest := Fields(s[1..]);
      if UnicodeSpace(s[0]) then rest
      else if |s| == 1 || UnicodeSpace(s[1]) then [[s[0]]] + rest
      else [[s[0]] + rest[0]] + rest[1..]
  }

  function KeptLines(lines: seq<string>, n: nat): seq<seq<string>>
    requires n <= |lines|
  {
    if n == 0 then []
    else KeptLines(lines, n - 1) + (if Fields(lines[n - 1]) == [] then [] else [Fields(lines[n - 1])])
  }

  /** The words of every line that has any. */
  function Lines(s: string): seq<seq<string>> {
    KeptLines(SplitLines(s), |SplitLines(s)|)
  }

  function Spaced(lines: seq<seq<string>>): seq<string> {
    seq(|lines|, i requires 0 <= i < |lines| => Join(lines[i], " "))
  }

  function Layout(lines: seq<seq<string>>): string {
    TrimSpace(Join(Spaced(lines), "\n"))
  }

  method NormalizeText(value: string) returns (text: string)
    ensures text == Layout(Lines(value))
  {
    var lines := SplitLines(value);
    var normalized: seq<string> := [];
    for i := 0 to |lines|
      invariant normalized == Spaced(KeptLines(lines, i))
    {
      var fields := Fields(lines[i]);
      if fields == [] {
        continue;
      }
      normalized := normalized + [Join(fields, " ")];
    }
    return TrimSpace(Join(normalized, "\n"));
  }

  lemma {:induction false} SplitAtBreak(a: string, b: string)
    ensures SplitLines(a + "\n" + b) == SplitLines(a) + SplitLines(b)
  {
    var s := a + "\n" + b;
    if a == "" {
      assert s[1..] == b;
    } else {
      assert s[1..] == a[1..] + "\n" + b;
      SplitAtBreak(a[1..], b);
    }
  }

  lemma {:induction false} KeptConcat(a: seq<string>, b: seq<string>, n: nat)
    requires n <= |b|
    ensures KeptLines(a + b, |a| + n) == KeptLines(a, |a|) + KeptLines(b, n)
  {
    if n == 0 {
      KeptPrefix(a, b, |a|);
    } else {
      KeptConcat(a, b, n - 1);
      assert (a + b)[|a| + n - 1] == b[n - 1];
    }
  }

  lemma {:induction false} KeptPrefix(a: seq<string>, b: seq<string>, n: nat)
    requires n <= |a|
    ensures KeptLines(a + b, n) == KeptLines(a, n)
  {
    if n > 0 {
      KeptPrefix(a, b, n - 1);
    }
  }

  /** A line feed separates. */
  lemma LinesAtBreak(a: string, b: string)
    ensures Lines(a + "\n" + b) == Lines(a) + Lines(b)
  {
    SplitAtBreak(a, b);
    KeptConcat(SplitLines(a), SplitLines(b), |SplitLines(b)|);
  }

  lemma LinesOfNothing()
    ensures Lines("") == []
  {
    assert KeptLines([""], 0) == [] && KeptLines([""], 1) == [];
  }

  lemma LinesAfterSpace(c: char, s: string)
    requires UnicodeSpace(c)
    ensures Lines([c] + s) == Lines(s)
  {
    if c == '\n' {
      LinesAtBreak("", s);
      LinesOfNothing();
      assert [c] + s == "" + "\n" + s;
    } else {
      var lines := SplitLines(s);
      assert ([c] + s)[1..] == s;
      assert SplitLines([c] + s) == [[c] + lines[0]] + lines[1..];
      assert ([c] + lines[0])[1..] == lines[0];
      FirstLineMatters([c] + lines[0], lines[0], lines[1..]);
      assert [lines[0]] + lines[1..] == lines;
    }
  }

  lemma FirstLineMatters(x: string, y: string, rest: seq<string>)
    requires Fields(x) == Fields(y)
    ensures KeptLines([x] + rest, 1 + |rest|) == KeptLines([y] + rest, 1 + |rest|)
  {
    KeptConcat([x], rest, |rest|);
    KeptConcat([y], rest, |rest|);
    assert KeptLines([x], 0) == [] && KeptLines([y], 0) == [];
  }

  lemma {:induction false} BlankBefore(blank: string, s: string)
    requires Blank(blank, UnicodeSpace)
    ensures Lines(blank + s) == Lines(s)
  {
    if blank == "" {
      assert blank + s == s;
    } else {
      BlankBefore(blank[1..], s);
      LinesAfterSpace(blank[0], blank[1..] + s);
      assert blank + s == [blank[0]] + (blank[1..] + s);
    }
  }

  function WithLast(lines: seq<string>, c: char): seq<string>
    requires lines != []
  {
    lines[..|lines| - 1] + [lines[|lines| - 1] + [c]]
  }

  lemma HeadAndLast(h: char, lines: seq<string>, c: char)
    requires lines != []
    ensures WithLast([[h] + lines[0]] + lines[1..], c) == [[h] + WithLast(lines, c)[0]] + WithLast(lines, c)[1..]
  {
    var headed := [[h] + lines[0]] + lines[1..];
    if |lines| == 1 {
      assert [h] + lines[0] + [c] == [h] + (lines[0] + [c]);
      assert headed == [[h] + lines[0]];
    } else {
      assert headed[|headed| - 1] == lines[|lines| - 1];
      assert WithLast(headed, c)[0] == [h] + lines[0];
      assert forall i | 0 < i < |lines| :: WithLast(headed, c)[i] == WithLast(lines, c)[i];
    }
  }

  lemma {:induction false} SplitLast(s: string, c: char)
    requires c != '\n'
    ensures SplitLines(s + [c]) == WithLast(SplitLines(s), c)
  {
    if s == "" {
      assert s + [c] == [c] && [c][1..] == "" && [c] + "" == "" + [c];
    } else {
      assert (s + [c])[1..] == s[1..] + [c];
      SplitLast(s[1..], c);
      var rest := SplitLines(s[1..]);
      if s[0] == '\n' {
        assert ([""] + rest)[..|rest|] == [""] + rest[..|rest| - 1];
      } else {
        HeadAndLast(s[0], rest, c);
      }
    }
  }

  lemma {:induction false} FieldsBeforeSpace(s: string, c: char)
    requires UnicodeSpace(c)
    ensures Fields(s + [c]) == Fields(s)
  {
    if s == "" {
      assert (s + [c])[1..] == "";
    } else {
      assert (s + [c])[1..] == s[1..] + [c];
      FieldsBeforeSpace(s[1..], c);
    }
  }

  lemma LinesBeforeSpace(s: string, c: char)
    requires UnicodeSpace(c)
    ensures Lines(s + [c]) == Lines(s)
  {
    if c == '\n' {
      LinesAtBreak(s, "");
      LinesOfNothing();
      assert s + [c] == s + "\n" + "";
    } else {
      var lines := SplitLines(s);
      var front, last := lines[..|lines| - 1], lines[|lines| - 1];
      SplitLast(s, c);
      FieldsBeforeSpace(last, c);
      assert lines == front + [last];
      KeptPrefix(front, [last], |front|);
      KeptPrefix(front, [last + [c]], |front|);
    }
  }

  lemma {:induction false} BlankAfter(s: string, blank: string)
    requires Blank(blank, UnicodeSpace)
    ensures Lines(s + blank) == Lines(s)
  {
    if blank == "" {
      assert s + blank == s;
    } else {
      var front := blank[..|blank| - 1];
      BlankAfter(s, front);
      LinesBeforeSpace(s + front, blank[|blank| - 1]);
      assert s + blank == s + front + [blank[|blank| - 1]];
    }
  }

  // ---------------------------------------------------------------- extracted text

  /** The text one token contributes. */
  function Piece(decode: string -> string, t: Token): string {
    match t
    case Words(data) => decode(data)
    case Start(name, _) => if name in Breaking then "\n" else ""
    case SelfClosing(name, _) => if name in Breaking then "\n" else ""
    case End(name) => if name in Breaking then "\n" else ""
    case Other => ""
  }

  /** The text of the first n tokens. */
  function Extracted(decode: string -> string, ts: seq<Token>, n: nat): string
    requires n <= |ts|
  {
    if n == 0 then ""
    else Extracted(decode, ts, n - 1) + (if RegionAt(ts, n - 1).None? then Piece(decode, ts[n - 1]) else "")
  }

  function ContentText(decode: string -> string, ts: seq<Token>): string {
    Layout(Lines(Extracted(decode, ts, |ts|)))
  }

  lemma DroppedTagsDoNotBreak()
    ensures Dropping !! Breaking
  {
  }

  lemma ExtractedNext(decode: string -> string, ts: seq<Token>, n: nat)
    requires n < |ts|
    ensures Extracted(decode, ts, n + 1) ==
            if RegionAt(ts, n).None? && !Opens(ts[n]) then Extracted(decode, ts, n) + Piece(decode, ts[n])
            else Extracted(decode, ts, n)
  {
    DroppedTagsDoNotBreak();
    assert Extracted(decode, ts, n) + "" == Extracted(decode, ts, n);
  }

  method WriteToken(decode: string -> string, builder: string, t: Token) returns (result: string)
    ensures result == builder + Piece(decode, t)
  {
    match t
    case Words(data) => result := builder + decode(data);
    case Start(name, _) => result := builder + (if name in Breaking then "\n" else "");
    case SelfClosing(name, _) => result := builder + (if name in Breaking then "\n" else "");
    case End(name) => result := builder + (if name in Breaking then "\n" else "");
    case Other => result := builder;
  }

  method ExtractText(decode: string -> string, ts: seq<Token>) returns (text: string)
    ensures text == ContentText(decode, ts)
  {
    var builder := "";
    var dropTag, depth := "", 0;
    for i := 0 to |ts|
      invariant builder == Extracted(decode, ts, i)
      invariant dropTag != "" ==> depth >= 1
      invariant RegionAt(ts, i) == CurrentRegion(dropTag, depth)
    {
      ExtractedNext(decode, ts, i);
      var t := ts[i];
      if dropTag != "" {
        dropTag, depth := StepInRegion(dropTag, depth, t);
        continue;
      }
      if Opens(t) {
        dropTag, depth := t.name, 1;
        continue;
      }
      builder := WriteToken(decode, builder, t);
    }
    text := NormalizeText(builder);
  }

  /** Text in which nothing is left to decode and no line end to convert. */
  predicate Settled(c: char) {
    c != '&' && c != '\r'
  }

  ghost predicate SettledText(s: string) {
    forall i | 0 <= i < |s| :: Settled(s[i])
  }

  ghost predicate SettledTexts(ts: seq<Token>) {
    forall i | 0 <= i < |ts| && ts[i].Words? :: SettledText(ts[i].data)
  }

  /** Decoding changes nothing where there is no ampersand. */
  ghost predicate Decodes(decode: string -> string) {
    forall s | SettledText(s) :: decode(s) == s
  }

  const Verbatim: string -> string := (s: string) => s

  /** End tags of br, which the extractor breaks lines at and the sanitizer removes. */
  function WithoutBreakEnds(ts: seq<Token>): seq<Token> {
    seq(|ts|, i requires 0 <= i < |ts| => if ts[i] == End("br") then Other else ts[i])
  }

  lemma {:induction false} SameRegions(ts: seq<Token>, n: nat)
    requires n <= |ts|
    ensures RegionAt(WithoutBreakEnds(ts), n) == RegionAt(ts, n) && (RegionAt(ts, n).Some? ==> RegionAt(ts, n).value.tag in Dropping)
  {
    if n > 0 {
      SameRegions(ts, n - 1);
      assert "br" !in Dropping;
    }
  }

  lemma {:induction false} NothingToDecode(decode: string -> string, ts: seq<Token>, n: nat)
    requires Decodes(decode) && SettledTexts(ts) && n <= |ts|
    ensures Extracted(decode, ts, n) == Extracted(Verbatim, ts, n)
  {
    if n > 0 {
      NothingToDecode(decode, ts, n - 1);
    }
  }

  /** Tokens that open no region contribute one after the other. */
  function Whole(ts: seq<Token>, n: nat): string
    requires n <= |ts|
  {
    if n == 0 then "" else Whole(ts, n - 1) + Piece(Verbatim, ts[n - 1])
  }

  lemma {:induction false} WholePrefix(a: seq<Token>, b: seq<Token>, n: nat)
    requires n <= |a|
    ensures Whole(a + b, n) == Whole(a, n)
  {
    if n > 0 {
      WholePrefix(a, b, n - 1);
    }
  }

  lemma {:induction false} WholeConcat(a: seq<Token>, b: seq<Token>, n: nat)
    requires n <= |b|
    ensures Whole(a + b, |a| + n) == Whole(a, |a|) + Whole(b, n)
  {
    if n == 0 {
      WholePrefix(a, b, |a|);
    } else {
      WholeConcat(a, b, n - 1);
      assert (a + b)[|a| + n - 1] == b[n - 1];
    }
  }

  lemma {:induction false} FineIsWhole(rules: Rules, doc: seq<Token>, n: nat)
    requires n <= |doc| && AllFine(rules, doc, false)
    ensures RegionAt(doc, n).None? && Extracted(Verbatim, doc, n) == Whole(doc, n)
  {
    if n > 0 {
      FineIsWhole(rules, doc, n - 1);
      TagSets();
      assert Fine(rules, doc[n - 1], false);
    }
  }

  lemma DoubleBreak(a: string, rest: string)
    ensures Lines(a + "\n" + rest) == Lines(a + "\n\n" + rest)
  {
    LinesAtBreak(a, rest);
    LinesAtBreak(a, "\n" + rest);
    LinesAfterSpace('\n', rest);
    assert a + "\n\n" + rest == a + "\n" + ("\n" + rest);
  }

  function WholeText(ts: seq<Token>): string {
    Whole(ts, |ts|)
  }

  lemma TextConcat(a: seq<Token>, b: seq<Token>)
    ensures WholeText(a + b) == WholeText(a) + WholeText(b)
  {
    WholeConcat(a, b, |b|);
  }

  lemma TextThen(a: seq<Token>, t: Token)
    ensures WholeText(a + [t]) == WholeText(a) + Piece(Verbatim, t)
  {
    TextConcat(a, [t]);
    assert Whole([t], 0) == "" && Whole([t], 1) == "" + Piece(Verbatim, t);
  }

  lemma TextAfter(t: Token, b: seq<Token>)
    ensures WholeText([t] + b) == Piece(Verbatim, t) + WholeText(b)
  {
    TextThen([], t);
    assert [] + [t] == [t];
    TextConcat([t], b);
  }

  function BreakPiece(t: Token): string {
    if t == End("br") then "" else Piece(Verbatim, t)
  }

  /** What the sanitizer writes for a token reads as the token's own text, but for a doubled line break. */
  lemma RenderedText(rules: Rules, t: Token)
    requires !Opens(t)
    ensures var text := WholeText(Render(rules, t));
            text == BreakPiece(t) || (text == "\n\n" && BreakPiece(t) == "\n")
  {
    TagSets();
    var out := Render(rules, t);
    if |out| > 0 {
      assert Whole(out, 1) == Piece(Verbatim, out[0]);
    }
    if |out| > 1 {
      assert Whole(out, 2) == Piece(Verbatim, out[0]) + Piece(Verbatim, out[1]);
    }
  }

  lemma OpeningText(rules: Rules, t: Token)
    requires Opens(t)
    ensures Render(rules, t) == [] && BreakPiece(t) == ""
  {
    TagSets();
    DroppedTagsDoNotBreak();
  }

  lemma TokenText(rules: Rules, t: Token, source: string, written: string, rest: string)
    requires Lines(source + (BreakPiece(t) + rest)) == Lines(written + (BreakPiece(t) + rest))
    ensures Lines(source + BreakPiece(t) + rest) == Lines(written + WholeText(Render(rules, t)) + rest)
  {
    Regroup(source, BreakPiece(t), rest);
    Regroup(written, BreakPiece(t), rest);
    if Opens(t) {
      OpeningText(rules, t);
    } else {
      RenderedText(rules, t);
      DoubleBreak(written, rest);
    }
  }

  /** What the n-th token adds to the input's text. */
  function SourcePiece(ts: seq<Token>, n: nat): string
    requires n < |ts|
  {
    if RegionAt(ts, n).None? then BreakPiece(ts[n]) else ""
  }

  /** What it adds to the output's text. */
  function WrittenPiece(rules: Rules, ts: seq<Token>, n: nat): string
    requires n < |ts|
  {
    if RegionAt(ts, n).None? then WholeText(Render(rules, ts[n])) else ""
  }

  lemma SourceNext(ts: seq<Token>, n: nat)
    requires n < |ts|
    ensures Extracted(Verbatim, WithoutBreakEnds(ts), n + 1)
         == Extracted(Verbatim, WithoutBreakEnds(ts), n) + SourcePiece(ts, n)
  {
    SameRegions(ts, n);
  }

  lemma WrittenNext(rules: Rules, ts: seq<Token>, n: nat)
    requires n < |ts|
    ensures WholeText(Sanitized(rules, ts, n + 1)) == WholeText(Sanitized(rules, ts, n)) + WrittenPiece(rules, ts, n)
  {
    TextConcat(Sanitized(rules, ts, n), if RegionAt(ts, n).None? then Render(rules, ts[n]) else []);
  }

  lemma PiecesAgree(rules: Rules, ts: seq<Token>, n: nat, source: string, written: string, rest: string)
    requires n < |ts|
    requires Lines(source + (SourcePiece(ts, n) + rest)) == Lines(written + (SourcePiece(ts, n) + rest))
    ensures Lines(source + SourcePiece(ts, n) + rest) == Lines(written + WrittenPiece(rules, ts, n) + rest)
  {
    if RegionAt(ts, n).None? {
      TokenText(rules, ts[n], source, written, rest);
    } else {
      Regroup(source, "", rest);
      Regroup(written, "", rest);
    }
  }

  /** Whatever follows, the input without closing br tags and the output have the same lines. */
  lemma {:induction false} SanitizedText(rules: Rules, ts: seq<Token>, n: nat, rest: string)
    requires n <= |ts|
    ensures Lines(Extracted(Verbatim, WithoutBreakEnds(ts), n) + rest) == Lines(WholeText(Sanitized(rules, ts, n)) + rest)
    decreases n
  {
    if n > 0 {
      var m := n - 1;
      SanitizedText(rules, ts, m, SourcePiece(ts, m) + rest);
      PiecesAgree(rules, ts, m, Extracted(Verbatim, WithoutBreakEnds(ts), m), WholeText(Sanitized(rules, ts, m)), rest);
      SourceNext(ts, m);
      WrittenNext(rules, ts, m);
    }
  }

  lemma AppendText(doc: seq<Token>, t: Token)
    ensures WholeText(Append(doc, t)) == WholeText(doc) + Piece(Verbatim, t)
  {
    if t.Words? && t.data != "" && doc != [] && doc[|doc| - 1].Words? {
      var front, last := doc[..|doc| - 1], doc[|doc| - 1];
      assert doc == front + [last];
      TextThen(front, last);
      TextThen(front, Words(last.data + t.data));
      assert WholeText(front) + (last.data + t.data) == WholeText(front) + last.data + t.data;
    } else if !(t.Words? && t.data == "") {
      TextThen(doc, t);
    }
  }

  lemma {:induction false} JoinedText(ts: seq<Token>, n: nat)
    requires n <= |ts|
    ensures WholeText(Joined(ts, n)) == Whole(ts, n)
  {
    if n > 0 {
      JoinedText(ts, n - 1);
      AppendText(Joined(ts, n - 1), ts[n - 1]);
    }
  }

  lemma TextFirst(data: string, rest: seq<Token>)
    ensures WholeText((if data == "" then [] else [Words(data)]) + rest) == data + WholeText(rest)
  {
    if data == "" {
      assert [] + rest == rest;
    } else {
      TextAfter(Words(data), rest);
    }
  }

  lemma BlankThen(blank: string, left: string, tail: string)
    requires Blank(blank, UnicodeSpace)
    ensures Lines(blank + left + tail) == Lines(left + tail)
  {
    Regroup(blank, left, tail);
    BlankBefore(blank, left + tail);
  }

  lemma SplitFirst(doc: seq<Token>)
    requires doc != []
    ensures WholeText(doc) == Piece(Verbatim, doc[0]) + WholeText(doc[1..])
  {
    assert doc == [doc[0]] + doc[1..];
    TextAfter(doc[0], doc[1..]);
  }

  lemma TrimStartText(doc: seq<Token>)
    ensures Lines(WholeText(TrimStart(doc))) == Lines(WholeText(doc))
  {
    if doc != [] && doc[0].Words? {
      var left := TrimLeft(doc[0].data, UnicodeSpace);
      var blank := TrimLeftSplits(doc[0].data, UnicodeSpace);
      SplitFirst(doc);
      TextFirst(left, doc[1..]);
      BlankThen(blank, left, WholeText(doc[1..]));
    }
  }

  lemma TrimEndText(doc: seq<Token>)
    ensures Lines(WholeText(TrimEnd(doc))) == Lines(WholeText(doc))
  {
    if doc != [] && doc[|doc| - 1].Words? {
      var front, last := doc[..|doc| - 1], doc[|doc| - 1];
      var right := TrimRight(last.data, UnicodeSpace);
      var blank := TrimRightSplits(last.data, UnicodeSpace);
      var head := WholeText(front);
      assert doc == front + [last];
      TextThen(front, last);
      TextThen(front, Words(right));
      assert front + [] == front && head + "" == head;
      assert WholeText(TrimEnd(doc)) == head + right;
      assert head + (right + blank) == head + right + blank;
      BlankAfter(head + right, blank);
    }
  }

  // ---------------------------------------------------------------- settled texts stay settled

  ghost predicate SettledWords(t: Token) {
    t.Words? ==> SettledText(t.data)
  }

  lemma {:induction false} SanitizedStaysSettled(rules: Rules, ts: seq<Token>, n: nat)
    requires SettledTexts(ts) && n <= |ts|
    ensures SettledTexts(Sanitized(rules, ts, n))
  {
    if n > 0 {
      SanitizedStaysSettled(rules, ts, n - 1);
      assert SettledTexts(Render(rules, ts[n - 1]));
    }
  }

  lemma AppendStaysSettled(doc: seq<Token>, t: Token)
    requires SettledTexts(doc) && SettledWords(t)
    ensures SettledTexts(Append(doc, t))
  {
    if t.Words? && t.data != "" && doc != [] && doc[|doc| - 1].Words? {
      var last := doc[|doc| - 1];
      assert SettledText(last.data);
      assert SettledText(last.data + t.data);
    }
  }

  lemma {:induction false} JoinedStaysSettled(ts: seq<Token>, n: nat)
    requires SettledTexts(ts) && n <= |ts|
    ensures SettledTexts(Joined(ts, n))
  {
    if n > 0 {
      JoinedStaysSettled(ts, n - 1);
      AppendStaysSettled(Joined(ts, n - 1), ts[n - 1]);
    }
  }

  lemma TrimStartStaysSettled(doc: seq<Token>)
    requires SettledTexts(doc)
    ensures SettledTexts(TrimStart(doc))
  {
    if doc != [] && doc[0].Words? {
      TrimLeftKeeps(doc[0].data, UnicodeSpace, Settled);
    }
  }

  lemma TrimEndStaysSettled(doc: seq<Token>)
    requires SettledTexts(doc)
    ensures SettledTexts(TrimEnd(doc))
  {
    if doc != [] && doc[|doc| - 1].Words? {
      TrimRightKeeps(doc[|doc| - 1].data, UnicodeSpace, Settled);
    }
  }

  lemma DocumentStaysSettled(rules: Rules, ts: seq<Token>)
    requires SettledTexts(ts)
    ensures SettledTexts(Document(rules, ts))
  {
    var out := Sanitized(rules, ts, |ts|);
    SanitizedStaysSettled(rules, ts, |ts|);
    JoinedStaysSettled(out, |out|);
    TrimStartStaysSettled(Joined(out, |out|));
    TrimEndStaysSettled(TrimStart(Joined(out, |out|)));
  }

  lemma ReadPiece(decode: string -> string, t: Token)
    requires SettledWords(t) && Decodes(decode)
    ensures Piece(decode, ReadToken(t)) == Piece(Verbatim, t)
  {
    if t.Words? {
      NewlinesAgain(t.data);
    }
  }

  lemma {:induction false} RegionsRead(doc: seq<Token>, n: nat)
    requires n <= |doc|
    ensures RegionAt(Tokens(doc), n) == RegionAt(doc, n)
  {
    if n > 0 {
      RegionsRead(doc, n - 1);
    }
  }

  /** Reading settled texts back changes no text. */
  lemma {:induction false} ReadText(decode: string -> string, doc: seq<Token>, n: nat)
    requires SettledTexts(doc) && Decodes(decode) && n <= |doc|
    ensures Extracted(decode, Tokens(doc), n) == Extracted(Verbatim, doc, n)
  {
    if n > 0 {
      var m := n - 1;
      ReadText(decode, doc, m);
      ReadPiece(decode, doc[m]);
      RegionsRead(doc, m);
      assert Tokens(doc)[m] == ReadToken(doc[m]);
    }
  }

  /**
   * When no text holds an ampersand or a carriage return, the text extracted from the sanitized document is the text
   * extracted from the input without its end tags of br.
   */
  lemma ExtractionSurvivesSanitizing(rules: Rules, decode: string -> string, ts: seq<Token>)
    requires Stable(rules) && Decodes(decode) && SettledTexts(ts)
    ensures ContentText(decode, Tokens(Document(rules, ts))) == ContentText(decode, WithoutBreakEnds(ts))
  {
    var doc := Document(rules, ts);
    assert Extracted(decode, Tokens(doc), |doc|) == WholeText(doc) by {
      DocumentStaysSettled(rules, ts);
      ReadText(decode, doc, |doc|);
      DocumentsAreFine(rules, ts, false);
      FineIsWhole(rules, doc, |doc|);
    }
    DocumentText(rules, ts);
    WrittenText(rules, ts);
    NothingToDecode(decode, WithoutBreakEnds(ts), |ts|);
  }

  lemma DocumentText(rules: Rules, ts: seq<Token>)
    ensures Lines(WholeText(Document(rules, ts))) == Lines(WholeText(Sanitized(rules, ts, |ts|)))
  {
    var out := Sanitized(rules, ts, |ts|);
    TrimEndText(TrimStart(Joined(out, |out|)));
    TrimStartText(Joined(out, |out|));
    JoinedText(out, |out|);
  }

  lemma WrittenText(rules: Rules, ts: seq<Token>)
    ensures Lines(Extracted(Verbatim, WithoutBreakEnds(ts), |ts|)) == Lines(WholeText(Sanitized(rules, ts, |ts|)))
  {
    var source, written := Extracted(Verbatim, WithoutBreakEnds(ts), |ts|), WholeText(Sanitized(rules, ts, |ts|));
    SanitizedText(rules, ts, |ts|, "");
    assert source + "" == source && written + "" == written;
  }

  // ---------------------------------------------------------------- the layout determines the lines

  ghost predicate IsWord(w: string) {
    w != "" && forall i | 0 <= i < |w| :: !UnicodeSpace(w[i])
  }

  ghost predicate AreWords(words: seq<string>) {
    forall i | 0 <= i < |words| :: IsWord(words[i])
  }

  ghost predicate AreLines(lines: seq<seq<string>>) {
    forall i | 0 <= i < |lines| :: lines[i] != [] && AreWords(lines[i])
  }

  lemma {:induction false} FieldsAreWords(s: string)
    ensures AreWords(Fields(s))
  {
    if s != "" {
      var rest := Fields(s[1..]);
      FieldsAreWords(s[1..]);
      if !UnicodeSpace(s[0]) && |s| > 1 && !UnicodeSpace(s[1]) {
        assert IsWord(rest[0]);
        assert IsWord([s[0]] + rest[0]);
      }
    }
  }

  lemma {:induction false} KeptAreLines(lines: seq<string>, n: nat)
    requires n <= |lines|
    ensures AreLines(KeptLines(lines, n))
  {
    if n > 0 {
      KeptAreLines(lines, n - 1);
      FieldsAreWords(lines[n - 1]);
    }
  }

  lemma {:induction false} FieldsAtSpace(word: string, rest: string)
    requires IsWord(word)
    ensures Fields(word + " " + rest) == [word] + Fields(rest)
  {
    var s := word + " " + rest;
    assert s[0] == word[0] && s[1] == (if |word| == 1 then ' ' else word[1]);
    assert s[1..] == word[1..] + " " + rest;
    if |word| == 1 {
      assert s[1..][1..] == rest && word == [word[0]];
    } else {
      FieldsAtSpace(word[1..], rest);
      assert word == [word[0]] + word[1..];
    }
  }

  lemma {:induction false} FieldsOfWord(word: string)
    requires IsWord(word)
    ensures Fields(word) == [word]
  {
    if |word| == 1 {
      assert word[1..] == "" && word == [word[0]];
    } else {
      FieldsOfWord(word[1..]);
      assert word == [word[0]] + word[1..];
    }
  }

  lemma {:induction false} FieldsOfJoined(words: seq<string>)
    requires AreWords(words)
    ensures Fields(Join(words, " ")) == words
  {
    if |words| == 1 {
      assert IsWord(words[0]);
      FieldsOfWord(words[0]);
    } else if |words| > 1 {
      assert IsWord(words[0]);
      FieldsOfJoined(words[1..]);
      FieldsAtSpace(words[0], Join(words[1..], " "));
      assert words == [words[0]] + words[1..];
    }
  }

  ghost predicate OneLineOnly(s: string) {
    forall i | 0 <= i < |s| :: s[i] != '\n'
  }

  lemma {:induction false} SplitOneLine(s: string)
    requires OneLineOnly(s)
    ensures SplitLines(s) == [s]
  {
    if s != "" {
      SplitOneLine(s[1..]);
      assert s == [s[0]] + s[1..];
    }
  }

  lemma {:induction false} JoinedIsOneLine(words: seq<string>)
    requires AreWords(words)
    ensures OneLineOnly(Join(words, " "))
  {
    if |words| >= 1 {
      assert IsWord(words[0]);
      JoinedIsOneLine(words[1..]);
    }
  }

  lemma LinesOfJoined(words: seq<string>)
    requires words != [] && AreWords(words)
    ensures Lines(Join(words, " ")) == [words]
  {
    JoinedIsOneLine(words);
    SplitOneLine(Join(words, " "));
    FieldsOfJoined(words);
    KeptOne(Join(words, " "));
  }

  lemma {:induction false} LinesOfSpaced(lines: seq<seq<string>>)
    requires AreLines(lines)
    ensures Lines(Join(Spaced(lines), "\n")) == lines
  {
    if lines == [] {
      LinesOfNothing();
    } else {
      var rest := lines[1..];
      LinesOfJoined(lines[0]);
      assert lines == [lines[0]] + rest;
      if rest != [] {
        LinesOfSpaced(rest);
        assert Spaced(lines)[1..] == Spaced(rest);
        LinesAtBreak(Join(lines[0], " "), Join(Spaced(rest), "\n"));
      }
    }
  }

  lemma LinesOfTrimmed(s: string)
    ensures Lines(TrimSpace(s)) == Lines(s)
  {
    var l, t := TrimSplits(s, UnicodeSpace);
    BlankThen(l, TrimSpace(s), t);
    BlankAfter(TrimSpace(s), t);
  }

  /** The normalized text has the same lines of words; so different lines give different texts. */
  lemma LinesOfLayout(s: string)
    ensures Lines(Layout(Lines(s))) == Lines(s)
  {
    KeptAreLines(SplitLines(s), |SplitLines(s)|);
    LinesOfTrimmed(Join(Spaced(Lines(s)), "\n"));
    LinesOfSpaced(Lines(s));
  }

  // ---------------------------------------------------------------- what removing one line end does

  function LastLine(s: string): string {
    SplitLines(s)[|SplitLines(s)| - 1]
  }

  function FirstLine(s: string): string {
    SplitLines(s)[0]
  }

  predicate HasWord(line: string) {
    Fields(line) != []
  }

  /** The last line of x continued by the first line of y. */
  function Merged(x: seq<string>, y: seq<string>): seq<string>
    requires x != [] && y != []
  {
    x[..|x| - 1] + [x[|x| - 1] + y[0]] + y[1..]
  }

  lemma MergedCons(line: string, x: seq<string>, y: seq<string>)
    requires x != [] && y != []
    ensures Merged([line] + x, y) == [line] + Merged(x, y)
  {
    assert ([line] + x)[..|x|] == [line] + x[..|x| - 1];
  }

  lemma MergedHead(c: char, x: seq<string>, y: seq<string>)
    requires x != [] && y != []
    ensures Merged([[c] + x[0]] + x[1..], y) == [[c] + Merged(x, y)[0]] + Merged(x, y)[1..]
  {
    if |x| == 1 {
      assert [c] + (x[0] + y[0]) == [c] + x[0] + y[0];
      assert x == [x[0]];
    } else {
      assert x == [x[0]] + x[1..];
      MergedCons(x[0], x[1..], y);
      MergedCons([c] + x[0], x[1..], y);
    }
  }

  lemma {:induction false} SplitConcat(a: string, b: string)
    ensures SplitLines(a + b) == Merged(SplitLines(a), SplitLines(b))
  {
    if a == "" {
      var y := SplitLines(b);
      assert a + b == b && "" + y[0] == y[0] && y == [y[0]] + y[1..];
    } else {
      SplitConcat(a[1..], b);
      assert (a + b)[1..] == a[1..] + b;
      if a[0] == '\n' {
        MergedCons("", SplitLines(a[1..]), SplitLines(b));
      } else {
        MergedHead(a[0], SplitLines(a[1..]), SplitLines(b));
      }
    }
  }

  lemma {:induction false} NoWordIsBlank(s: string)
    ensures HasWord(s) <==> !Blank(s, UnicodeSpace)
  {
    if s != "" {
      NoWordIsBlank(s[1..]);
    }
  }

  lemma {:induction false} FieldsAfterBlank(blank: string, s: string)
    requires Blank(blank, UnicodeSpace)
    ensures Fields(blank + s) == Fields(s)
  {
    if blank == "" {
      assert blank + s == s;
    } else {
      assert (blank + s)[1..] == blank[1..] + s;
      FieldsAfterBlank(blank[1..], s);
    }
  }

  lemma {:induction false} FieldsBeforeBlank(s: string, blank: string)
    requires Blank(blank, UnicodeSpace)
    ensures Fields(s + blank) == Fields(s)
  {
    if blank == "" {
      assert s + blank == s;
    } else {
      var front := blank[..|blank| - 1];
      FieldsBeforeBlank(s, front);
      FieldsBeforeSpace(s + front, blank[|blank| - 1]);
      assert s + blank == s + front + [blank[|blank| - 1]];
    }
  }

  function KeptLine(line: string): seq<seq<string>> {
    if HasWord(line) then [Fields(line)] else []
  }

  lemma KeptOne(line: string)
    ensures KeptLines([line], 1) == KeptLine(line)
  {
    assert KeptLines([line], 0) == [];
  }

  /** Two pieces of one line: one of them may be blank, or they run together. */
  lemma LineConcat(a: string, b: string)
    ensures HasWord(a) && HasWord(b) ==> |KeptLine(a + b)| == 1
    ensures !(HasWord(a) && HasWord(b)) ==> KeptLine(a + b) == KeptLine(a) + KeptLine(b)
  {
    NoWordIsBlank(a);
    NoWordIsBlank(b);
    NoWordIsBlank(a + b);
    if Blank(a, UnicodeSpace) {
      FieldsAfterBlank(a, b);
    } else if Blank(b, UnicodeSpace) {
      FieldsBeforeBlank(a, b);
    } else {
      var i :| 0 <= i < |a| && !UnicodeSpace(a[i]);
      assert !UnicodeSpace((a + b)[i]);
    }
  }

  /** The lines but the last one, and but the first one. */
  function FrontLines(s: string): seq<seq<string>> {
    KeptLines(SplitLines(s)[..|SplitLines(s)| - 1], |SplitLines(s)| - 1)
  }

  function TailLines(s: string): seq<seq<string>> {
    KeptLines(SplitLines(s)[1..], |SplitLines(s)| - 1)
  }

  lemma KeptMiddle(front: seq<string>, line: string, tail: seq<string>)
    ensures KeptLines(front + [line] + tail, |front + [line] + tail|) == KeptLines(front, |front|) + KeptLine(line) + KeptLines(tail, |tail|)
  {
    KeptConcat(front + [line], tail, |tail|);
    KeptConcat(front, [line], 1);
    KeptOne(line);
  }

  /** The lines of two texts run together. */
  lemma LinesConcat(a: string, b: string)
    ensures Lines(a + b) == FrontLines(a) + KeptLine(LastLine(a) + FirstLine(b)) + TailLines(b)
  {
    var x, y := SplitLines(a), SplitLines(b);
    SplitConcat(a, b);
    KeptMiddle(x[..|x| - 1], LastLine(a) + FirstLine(b), y[1..]);
  }

  lemma LinesEnds(s: string)
    ensures Lines(s) == FrontLines(s) + KeptLine(LastLine(s)) && Lines(s) == KeptLine(FirstLine(s)) + TailLines(s)
  {
    var x := SplitLines(s);
    KeptOne(x[0]);
    KeptOne(x[|x| - 1]);
    KeptConcat([x[0]], x[1..], |x| - 1);
    KeptConcat(x[..|x| - 1], [x[|x| - 1]], 1);
    assert [x[0]] + x[1..] == x && x[..|x| - 1] + [x[|x| - 1]] == x;
  }

  lemma MiddleTogether<T>(front: seq<T>, x: seq<T>, y: seq<T>, tail: seq<T>)
    ensures (front + x) + (y + tail) == front + (x + y) + tail
  {
  }

  /** Without a line feed between two texts a line is lost exactly when there are words on both of its sides. */
  lemma LinesWithoutBreak(a: string, b: string)
    ensures HasWord(LastLine(a)) && HasWord(FirstLine(b)) ==> |Lines(a + b)| == |Lines(a + "\n" + b)| - 1
    ensures !(HasWord(LastLine(a)) && HasWord(FirstLine(b))) ==> Lines(a + b) == Lines(a + "\n" + b)
  {
    var x, y := LastLine(a), FirstLine(b);
    LinesAtBreak(a, b);
    LinesEnds(a);
    LinesEnds(b);
    MiddleTogether(FrontLines(a), KeptLine(x), KeptLine(y), TailLines(b));
    LinesConcat(a, b);
    LineConcat(x, y);
    if HasWord(x) && HasWord(y) {
      assert |KeptLine(x) + KeptLine(y)| == 2;
    }
  }

  // ---------------------------------------------------------------- the same text before and after

  /** The text of the tokens from position n on, without end tags of br. */
  function Rest(ts: seq<Token>, n: nat): string
    requires n <= |ts|
    decreases |ts| - n
  {
    if n == |ts| then "" else SourcePiece(ts, n) + Rest(ts, n + 1)
  }

  predicate BreakEnd(ts: seq<Token>, i: nat)
    requires i < |ts|
  {
    ts[i] == End("br") && RegionAt(ts, i).None?
  }

  /** A word before it on its line, and one behind it, further end tags of br disregarded. */
  predicate Separates(ts: seq<Token>, i: nat)
    requires i < |ts|
  {
    BreakEnd(ts, i) && HasWord(LastLine(Extracted(Verbatim, ts, i))) && HasWord(FirstLine(Rest(ts, i + 1)))
  }

  /** The lines when only the end tags of br among the first n tokens count. */
  function Partly(ts: seq<Token>, n: nat): seq<seq<string>>
    requires n <= |ts|
  {
    Lines(Extracted(Verbatim, ts, n) + Rest(ts, n))
  }

  lemma PartlyNext(ts: seq<Token>, n: nat)
    requires n < |ts|
    ensures Separates(ts, n) ==> |Partly(ts, n + 1)| == |Partly(ts, n)| + 1
    ensures !Separates(ts, n) ==> Partly(ts, n + 1) == Partly(ts, n)
  {
    var before, rest := Extracted(Verbatim, ts, n), Rest(ts, n + 1);
    if BreakEnd(ts, n) {
      BreakEndPiece();
      assert "" + rest == rest;
      LinesWithoutBreak(before, rest);
    } else {
      assert Extracted(Verbatim, ts, n + 1) == before + SourcePiece(ts, n);
      Regroup(before, SourcePiece(ts, n), rest);
    }
  }

  lemma BreakEndPiece()
    ensures Piece(Verbatim, End("br")) == "\n" && BreakPiece(End("br")) == ""
  {
    TagSets();
    assert "br" in Breaking;
  }

  ghost predicate NoneSeparates(ts: seq<Token>, n: nat)
    requires n <= |ts|
  {
    forall i | 0 <= i < n :: !Separates(ts, i)
  }

  lemma NoneSeparatesNext(ts: seq<Token>, n: nat)
    requires n < |ts|
    ensures NoneSeparates(ts, n + 1) <==> NoneSeparates(ts, n) && !Separates(ts, n)
  {
  }

  lemma {:induction false} PartlyAll(ts: seq<Token>, n: nat)
    requires n <= |ts|
    ensures if NoneSeparates(ts, n) then Partly(ts, n) == Partly(ts, 0) else |Partly(ts, n)| > |Partly(ts, 0)|
  {
    if n > 0 {
      var m := n - 1;
      PartlyAll(ts, m);
      PartlyNext(ts, m);
      NoneSeparatesNext(ts, m);
    }
  }

  lemma {:induction false} RestIsSource(ts: seq<Token>, n: nat)
    requires n <= |ts|
    ensures Extracted(Verbatim, WithoutBreakEnds(ts), |ts|) == Extracted(Verbatim, WithoutBreakEnds(ts), n) + Rest(ts, n)
    decreases |ts| - n
  {
    var source := Extracted(Verbatim, WithoutBreakEnds(ts), n);
    if n < |ts| {
      RestIsSource(ts, n + 1);
      SourceNext(ts, n);
      Regroup(source, SourcePiece(ts, n), Rest(ts, n + 1));
    } else {
      assert source + "" == source;
    }
  }

  /** Lines of words are the same with and without the end tags of br exactly when none separates words. */
  lemma BreakEndsMatter(ts: seq<Token>)
    ensures Lines(Extracted(Verbatim, ts, |ts|)) == Lines(Extracted(Verbatim, WithoutBreakEnds(ts), |ts|)) <==> NoneSeparates(ts, |ts|)
  {
    var all, without := Extracted(Verbatim, ts, |ts|), Extracted(Verbatim, WithoutBreakEnds(ts), |ts|);
    RestIsSource(ts, 0);
    PartlyAll(ts, |ts|);
    assert all + "" == all && "" + Rest(ts, 0) == Rest(ts, 0);
  }

  lemma SameLayout(a: string, b: string)
    ensures Layout(Lines(a)) == Layout(Lines(b)) <==> Lines(a) == Lines(b)
  {
    LinesOfLayout(a);
    LinesOfLayout(b);
  }

  /**
   * When no text holds an ampersand or a carriage return, the text of an entry is the same before and after sanitizing
   * exactly when no end tag of br has words on both sides of its line.
   */
  lemma ExtractionAgreesExactly(rules: Rules, decode: string -> string, ts: seq<Token>)
    requires Stable(rules) && Decodes(decode) && SettledTexts(ts)
    ensures ContentText(decode, Tokens(Document(rules, ts))) == ContentText(decode, ts) <==> NoneSeparates(ts, |ts|)
  {
    ExtractionSurvivesSanitizing(rules, decode, ts);
    NothingToDecode(decode, ts, |ts|);
    NothingToDecode(decode, WithoutBreakEnds(ts), |ts|);
    SameLayout(Extracted(Verbatim, ts, |ts|), Extracted(Verbatim, WithoutBreakEnds(ts), |ts|));
    BreakEndsMatter(ts);
  }

  // ---------------------------------------------------------------- where the texts differ

  lemma OneLetter(c: char)
    requires !UnicodeSpace(c)
    ensures SplitLines([c]) == [[c]] && Fields([c]) == [[c]] && Lines([c]) == [[[c]]]
  {
    assert [c][1..] == "" && [c] + "" == [c];
    KeptOne([c]);
  }

  lemma TwoLines()
    ensures Lines("a\nb") == [["a"], ["b"]] && Layout([["a"], ["b"]]) == "a\nb"
  {
    assert !UnicodeSpace('a') && !UnicodeSpace('b');
    OneLetter('a');
    OneLetter('b');
    LinesAtBreak("a", "b");
    assert "a" + "\n" + "b" == "a\nb";
    assert Spaced([["a"], ["b"]]) == ["a", "b"];
    assert Join(["a", "b"], "\n") == "a" + "\n" + "b";
  }

  /** The layout of a single line of one word is that word. */
  lemma OneLine(words: string)
    requires SplitLines(words) == [words] && Fields(words) != [] && Tight(Join(Fields(words), " "), UnicodeSpace)
    ensures Layout(Lines(words)) == Join(Fields(words), " ")
  {
    KeptOne(words);
    assert Spaced([Fields(words)]) == [Join(Fields(words), " ")];
    TrimOfTight(Join(Fields(words), " "));
  }

  lemma OneWord()
    ensures Layout(Lines("ab")) == "ab"
  {
    assert !UnicodeSpace('a') && !UnicodeSpace('b');
    OneLetter('b');
    assert "ab"[1..] == "b" && ['a'] + "b" == "ab";
    assert SplitLines("ab") == ["ab"] && Fields("ab") == ["ab"];
    OneLine("ab");
  }

  lemma TwoTexts(decode: string -> string, between: Token)
    requires Decodes(decode) && (between == End("br") || between == Other)
    ensures var ts := [Words("a"), between, Words("b")];
            Extracted(decode, ts, 3) == if between == Other then "ab" else "a\nb"
  {
    var ts := [Words("a"), between, Words("b")];
    SettledLetters();
    assert Words("a") == [Words("a"), End("br"), Words("b")][0] && Words("b") == [Words("a"), End("br"), Words("b")][2];
    assert RegionAt(ts, 0) == None && RegionAt(ts, 1) == None && RegionAt(ts, 2) == None;
    assert Extracted(decode, ts, 1) == "a";
    assert Extracted(decode, ts, 2) == "a" + Piece(decode, between);
    assert Extracted(decode, ts, 3) == "a" + Piece(decode, between) + "b";
  }

  lemma SettledLetters()
    ensures SettledTexts([Words("a"), End("br"), Words("b")])
  {
    var a, b := "a", "b";
    assert |a| == 1 && a[0] == 'a' && |b| == 1 && b[0] == 'b';
    assert SettledText(a) && SettledText(b);
  }

  lemma BreakEndBefore(decode: string -> string)
    requires Decodes(decode)
    ensures ContentText(decode, [Words("a"), End("br"), Words("b")]) == "a\nb"
  {
    TwoTexts(decode, End("br"));
    TwoLines();
  }

  lemma BreakEndGone(decode: string -> string)
    requires Decodes(decode)
    ensures ContentText(decode, [Words("a"), Other, Words("b")]) == "ab"
  {
    TwoTexts(decode, Other);
    OneWord();
  }

  /** With an end tag of br between two texts, extraction sees two lines before sanitizing and one word after. */
  lemma BreakEndJoinsLines(rules: Rules, decode: string -> string)
    requires Stable(rules) && Decodes(decode)
    ensures var ts := [Words("a"), End("br"), Words("b")];
            ContentText(decode, ts) == "a\nb" && ContentText(decode, Tokens(Document(rules, ts))) == "ab"
  {
    var ts := [Words("a"), End("br"), Words("b")];
    BreakEndBefore(decode);
    BreakEndGone(decode);
    SettledLetters();
    assert WithoutBreakEnds(ts) == [Words("a"), Other, Words("b")];
    ExtractionSurvivesSanitizing(rules, decode, ts);
  }
}
