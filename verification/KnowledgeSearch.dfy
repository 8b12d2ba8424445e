/**
 * Search over knowledge entries: tokens of a query, the score of an entry, and the database prefilter that chooses the
 * candidates to be scored. Lower-casing and pinyin are parameters.
 */
module KnowledgeSearch {
  import opened Text
  import opened JsonText

  datatype Entry = Entry(
    title: string,
    summary: string,
    contentText: string,
    extracted: string,        // text of the stored rich text, extracted when scoring
    routePath: string,
    category: string,
    keywords: seq<string>,
    viewCount: int)

  /** Lower case of a character, and the pinyin aliases of a text. */
  datatype Language = Language(lower: char -> char, pinyin: string -> string)

  predicate Ascii(c: char) {
    c <= '\U{7F}'
  }

  ghost predicate AsciiOnly(s: string) {
    forall i | 0 <= i < |s| :: Ascii(s[i])
  }

  /** Chinese characters, which have no case. */
  predicate Ideograph(c: char) {
    '\U{4E00}' <= c <= '\U{9FFF}'
  }

  ghost predicate Sound(l: Language) {
    && l.lower(' ') == ' ' && l.lower('[') == '[' && l.lower(']') == ']' && l.lower(',') == ','
    && (forall c | Ideograph(c) :: l.lower(c) == c)
    && (forall c | Escapes(c) :: l.lower(c) == c) && (forall c | !Escapes(c) :: !Escapes(l.lower(c)))
    && (forall c | Ascii(c) :: Ascii(l.lower(c)))
    && (forall s :: AsciiOnly(l.pinyin(s)))
  }

  // ---------------------------------------------------------------- the tokens of a query

  predicate Separates(c: char) {
    c == ' ' || c == ',' || c == '\U{FF0C}' || c == ';' || c == '\U{FF1B}' || c == '\U{3001}' || c == '\n' || c == '\t'
  }

  /** strings.FieldsFunc: the maximal pieces between separators. */
  function FieldsOf(s: string): seq<string> {
    if s == "" then []
    else if Separates(s[0]) then FieldsOf(s[1..])
    else if |s| == 1 || Separates(s[1]) then [[s[0]]] + FieldsOf(s[1..])
    else
      var rest := FieldsOf(s[1..]);
      if rest == [] then [[s[0]]] else [[s[0]] + rest[0]] + rest[1..]
  }

  ghost predicate Unseparated(s: string) {
    forall i | 0 <= i < |s| :: !Separates(s[i])
  }

  lemma {:induction false} FieldsAreUnseparated(s: string)
    ensures forall i | 0 <= i < |FieldsOf(s)| :: Unseparated(FieldsOf(s)[i])
  {
    if s != "" {
      FieldsAreUnseparated(s[1..]);
    }
  }

  const MaxTokens := 8

  /** Different, non-empty and without separators. */
  ghost predicate DistinctWords(tokens: seq<string>) {
    && (forall i | 0 <= i < |tokens| :: tokens[i] != "" && Unseparated(tokens[i]))
    && (forall i, j | 0 <= i < j < |tokens| :: tokens[i] != tokens[j])
  }

  /** A token was put at the word's place or before. */
  ghost predicate PutBy(tokens: seq<string>, places: seq<nat>, word: string, k: nat) {
    exists i | 0 <= i < |tokens| && i < |places| :: places[i] <= k && tokens[i] == word
  }

  ghost predicate InOrder(words: seq<string>, n: nat, tokens: seq<string>, places: seq<nat>)
    requires n <= |words|
  {
    && |places| == |tokens|
    && (forall i | 0 <= i < |places| :: places[i] < n && words[places[i]] == tokens[i])
    && (forall i, j | 0 <= i < j < |places| :: places[i] < places[j])
  }

  /** The tokens are the different words among the first n, each at its first place, in order. */
  ghost predicate FirstPlaces(words: seq<string>, n: nat, tokens: seq<string>, places: seq<nat>)
    requires n <= |words|
  {
    InOrder(words, n, tokens, places) && forall k | 0 <= k < n && words[k] != "" :: PutBy(tokens, places, words[k], k)
  }

  lemma PutByMore(tokens: seq<string>, places: seq<nat>, word: string, k: nat, t: string, n: nat)
    requires |tokens| == |places|
    ensures PutBy(tokens, places, word, k) ==> PutBy(tokens + [t], places + [n], word, k)
    ensures PutBy(tokens + [t], places + [n], t, n)
  {
    assert (tokens + [t])[|tokens|] == t && (places + [n])[|tokens|] == n;
    if i :| 0 <= i < |tokens| && places[i] <= k && tokens[i] == word {
      assert (tokens + [t])[i] == word && (places + [n])[i] == places[i];
    }
  }

  lemma SameWords(words: seq<string>, n: nat, tokens: seq<string>, places: seq<nat>)
    requires n < |words| && FirstPlaces(words, n, tokens, places) && (words[n] == "" || words[n] in tokens)
    ensures FirstPlaces(words, n + 1, tokens, places)
  {
    if words[n] in tokens {
      var i :| 0 <= i < |tokens| && tokens[i] == words[n];
      assert places[i] <= n && PutBy(tokens, places, words[n], n);
    }
  }

  lemma OneMoreWord(words: seq<string>, n: nat, tokens: seq<string>, places: seq<nat>)
    requires n < |words| && FirstPlaces(words, n, tokens, places)
    ensures FirstPlaces(words, n + 1, tokens + [words[n]], places + [n])
  {
    forall k | 0 <= k < n + 1 && words[k] != "" ensures PutBy(tokens + [words[n]], places + [n], words[k], k) {
      PutByMore(tokens, places, words[k], k, words[n], n);
    }
  }

  function Trimmed(fields: seq<string>): seq<string> {
    seq(|fields|, i requires 0 <= i < |fields| => TrimSpace(fields[i]))
  }

  function QueryWords(l: Language, query: string): seq<string> {
    Trimmed(FieldsOf(LowerAll(l, TrimSpace(query))))
  }

  lemma WordsAreUnseparated(l: Language, query: string)
    ensures forall k | 0 <= k < |QueryWords(l, query)| :: Unseparated(QueryWords(l, query)[k])
  {
    var fields := FieldsOf(LowerAll(l, TrimSpace(query)));
    FieldsAreUnseparated(LowerAll(l, TrimSpace(query)));
    forall k | 0 <= k < |fields| ensures Unseparated(Trimmed(fields)[k]) {
      TrimLeftKeeps(fields[k], UnicodeSpace, c => !Separates(c));
      TrimRightKeeps(TrimLeft(fields[k], UnicodeSpace), UnicodeSpace, c => !Separates(c));
    }
  }

  /** The first eight different words of the query. */
  method SearchTokens(l: Language, query: string) returns (tokens: seq<string>)
    ensures |tokens| <= 8 && DistinctWords(tokens)
    ensures var words := QueryWords(l, query);
            exists n, places | 0 <= n <= |words| :: FirstPlaces(words, n, tokens, places) && (|tokens| < 8 ==> n == |words|)
  {
    var words := QueryWords(l, query);
    WordsAreUnseparated(l, query);
    tokens := [];
    var seen: set<string> := {};
    ghost var places: seq<nat> := [];
    for n := 0 to |words|
      invariant |tokens| < MaxTokens && DistinctWords(tokens)
      invariant forall t :: t in seen <==> t in tokens
      invariant FirstPlaces(words, n, tokens, places)
    {
      if words[n] == "" || words[n] in seen {
        SameWords(words, n, tokens, places);
        continue;
      }
      OneMoreWord(words, n, tokens, places);
      seen := seen + {words[n]};
      tokens := tokens + [words[n]];
      places := places + [n];
      if |tokens| >= MaxTokens {
        assert FirstPlaces(words, n + 1, tokens, places);
        return;
      }
    }
    assert FirstPlaces(words, |words|, tokens, places);
  }

  // ---------------------------------------------------------------- occurrences

  predicate MatchAt(l: Language, s: string, token: string, i: nat) {
    i + |token| <= |s| && forall k | 0 <= k < |token| :: l.lower(s[i + k]) == token[k]
  }

  /** strings.Contains of the lower-cased text. */
  predicate Has(l: Language, s: string, token: string) {
    exists i | 0 <= i <= |s| :: MatchAt(l, s, token, i)
  }

  // ---------------------------------------------------------------- the score

  const Aliases: map<string, seq<string>> :=
    map["workflow" := ["\U{6D41}\U{7A0B}", "\U{5DE5}\U{4F5C}\U{6D41}", "\U{95ED}\U{73AF}", "workflow"],
        "status" := ["\U{72B6}\U{6001}", "\U{72B6}\U{6001}\U{673A}", "status"],
        "operation" := ["\U{64CD}\U{4F5C}", "\U{4F5C}\U{4E1A}", "\U{4F7F}\U{7528}", "operation"],
        "exception" := ["\U{5F02}\U{5E38}", "\U{9519}\U{8BEF}", "\U{5931}\U{8D25}", "exception"],
        "terminology" := ["\U{672F}\U{8BED}", "\U{540D}\U{8BCD}", "\U{6982}\U{5FF5}", "terminology"]]

  function AliasesOf(category: string): seq<string> {
    if category in Aliases then Aliases[category] else []
  }

  /** What an entry says itself. */
  function OwnParts(e: Entry): seq<string> {
    [e.title, e.summary, e.contentText, e.extracted, e.routePath, e.category]
  }

  function WrittenParts(e: Entry): seq<string> {
    OwnParts(e) + AliasesOf(e.category) + e.keywords
  }

  function SearchDocument(l: Language, e: Entry): string {
    Join(WrittenParts(e) + [l.pinyin(Join(WrittenParts(e), " "))], " ")
  }

  predicate AnyHas(l: Language, parts: seq<string>, token: string) {
    exists i | 0 <= i < |parts| :: Has(l, parts[i], token)
  }

  /** What one token adds; nothing means the entry does not match. */
  function TokenScore(l: Language, e: Entry, token: string): nat {
    if Has(l, e.title, token) then 12
    else if AnyHas(l, e.keywords, token) then 10
    else if Has(l, e.summary, token) then 8
    else if Has(l, e.routePath, token) then 6
    else if Has(l, SearchDocument(l, e), token) then 3
    else 0
  }

  function Heat(views: int): nat {
    if views >= 100 then 8 else if views >= 50 then 6 else if views >= 20 then 4 else if views >= 5 then 2
    else if views > 0 then 1 else 0
  }

  predicate Matches(l: Language, e: Entry, token: string) {
    Has(l, e.title, token) || AnyHas(l, e.keywords, token) || Has(l, e.summary, token) || Has(l, e.routePath, token)
    || Has(l, SearchDocument(l, e), token)
  }

  function SumScores(l: Language, e: Entry, tokens: seq<string>, n: nat): nat
    requires n <= |tokens|
  {
    if n == 0 then 0 else SumScores(l, e, tokens, n - 1) + TokenScore(l, e, tokens[n - 1])
  }

  /** Positive exactly when every token matches; then the tokens' scores add up, and views only break ties. */
  method Score(l: Language, e: Entry, tokens: seq<string>) returns (score: nat)
    ensures score > 0 <==> forall i | 0 <= i < |tokens| :: Matches(l, e, tokens[i])
    ensures score > 0 && tokens != [] ==> score == SumScores(l, e, tokens, |tokens|) + Heat(e.viewCount)
    ensures score > 0 && tokens != [] ==> 3 * |tokens| <= score - Heat(e.viewCount) <= 12 * |tokens|
    ensures tokens == [] ==> score == 1
  {
    if |tokens| == 0 {
      return 1;
    }
    score := 0;
    for i := 0 to |tokens|
      invariant score == SumScores(l, e, tokens, i) && 3 * i <= score <= 12 * i
      invariant forall k | 0 <= k < i :: Matches(l, e, tokens[k])
    {
      var more := TokenScore(l, e, tokens[i]);
      if more == 0 {
        assert !Matches(l, e, tokens[i]);
        return 0;
      }
      score := score + more;
    }
    score := score + Heat(e.viewCount);
  }

  // ---------------------------------------------------------------- the prefilter

  /** SQL LIKE. */
  predicate Like(s: string, pattern: string)
    decreases pattern
  {
    if pattern == "" then s == ""
    else if pattern[0] == '%' then exists k | 0 <= k <= |s| :: Like(s[k..], pattern[1..])
    else if pattern[0] == '_' then s != "" && Like(s[1..], pattern[1..])
    else if pattern[0] == '\\' then |pattern| > 1 && s != "" && s[0] == pattern[1] && Like(s[1..], pattern[2..])
    else s != "" && s[0] == pattern[0] && Like(s[1..], pattern[1..])
  }

  function LowerAll(l: Language, s: string): string {
    seq(|s|, i requires 0 <= i < |s| => l.lower(s[i]))
  }

  predicate ColumnLike(l: Language, column: string, token: string) {
    Like(LowerAll(l, column), "%" + LowerAll(l, token) + "%")
  }

  predicate Prefilterable(token: string) {
    |token| >= 2 && exists i | 0 <= i < |token| :: !Ascii(token[i])
  }

  /** What the database sees of the keywords: the column is jsonb, so its text is printed by PostgreSQL. */
  function KeywordsText(keywords: seq<string>): string {
    StoredText(keywords)
  }

  function Columns(e: Entry): seq<string> {
    [e.title, e.summary, e.contentText, e.routePath, e.category, KeywordsText(e.keywords)]
  }

  predicate Finds(l: Language, e: Entry, token: string) {
    exists i | 0 <= i < |Columns(e)| :: ColumnLike(l, Columns(e)[i], token)
  }

  /** The WHERE clause: any prefilterable token in any column, or no clause at all. */
  predicate Prefilter(l: Language, e: Entry, tokens: seq<string>) {
    (exists i | 0 <= i < |tokens| :: Prefilterable(tokens[i])) ==>
      exists i | 0 <= i < |tokens| :: Prefilterable(tokens[i]) && Finds(l, e, tokens[i])
  }

  // ---------------------------------------------------------------- substrings and LIKE

  ghost predicate NoEscape(pattern: string) {
    forall i | 0 <= i < |pattern| :: pattern[i] != '\\'
  }

  lemma LikeRest(rest: string)
    ensures Like(rest, "%")
  {
    assert rest[|rest|..] == "" && "%"[1..] == "";
    assert Like(rest[|rest|..], "%"[1..]);
  }

  /** Text that starts with the pattern's own characters; wildcards also match themselves. */
  lemma {:induction false} LikePrefix(s: string, pattern: string)
    requires NoEscape(pattern) && pattern <= s
    ensures Like(s, pattern + "%")
    decreases pattern
  {
    if pattern == "" {
      assert "" + "%" == "%";
      LikeRest(s);
    } else {
      var whole := pattern + "%";
      assert whole[1..] == pattern[1..] + "%" && whole[0] == pattern[0] == s[0];
      assert pattern[1..] <= s[1..];
      LikePrefix(s[1..], pattern[1..]);
      assert Like(s[1..], whole[1..]);
    }
  }

  /** What contains a token without a backslash is LIKE it. */
  lemma HasIsLike(l: Language, s: string, token: string)
    requires Has(l, s, token) && NoEscape(token) && LowerAll(l, token) == token
    ensures ColumnLike(l, s, token)
  {
    var i :| 0 <= i <= |s| && MatchAt(l, s, token, i);
    var lowered := LowerAll(l, s);
    assert forall k | 0 <= k < |token| :: lowered[i..][k] == token[k];
    assert token <= lowered[i..];
    LikePrefix(lowered[i..], token);
    var pattern := "%" + token + "%";
    assert pattern[1..] == token + "%";
    assert Like(lowered[i..], pattern[1..]);
  }

  ghost predicate NoWildcard(pattern: string) {
    NoEscape(pattern) && forall i | 0 <= i < |pattern| :: pattern[i] != '%' && pattern[i] != '_'
  }

  lemma {:induction false} PrefixLike(s: string, pattern: string)
    requires NoWildcard(pattern) && Like(s, pattern + "%")
    ensures pattern <= s
    decreases pattern
  {
    if pattern != "" {
      var whole := pattern + "%";
      assert whole[1..] == pattern[1..] + "%" && whole[0] == pattern[0];
      PrefixLike(s[1..], pattern[1..]);
      assert pattern == [pattern[0]] + pattern[1..];
    }
  }

  /** LIKE with a token that has no wildcards finds exactly the texts that contain it. */
  lemma LikeIsHas(l: Language, s: string, token: string)
    requires NoWildcard(token) && LowerAll(l, token) == token
    ensures ColumnLike(l, s, token) <==> Has(l, s, token)
  {
    if Has(l, s, token) {
      HasIsLike(l, s, token);
    }
    if ColumnLike(l, s, token) {
      var lowered, pattern := LowerAll(l, s), "%" + token + "%";
      assert pattern[1..] == token + "%";
      var i :| 0 <= i <= |lowered| && Like(lowered[i..], pattern[1..]);
      PrefixLike(lowered[i..], token);
      forall k | 0 <= k < |token| ensures l.lower(s[i + k]) == token[k] {
        assert lowered[i..][k] == token[k];
      }
      assert MatchAt(l, s, token, i);
    }
  }

  // ---------------------------------------------------------------- matches lie within one part

  lemma MatchWithin(l: Language, a: string, b: string, c: string, token: string, i: nat)
    requires MatchAt(l, a + b + c, token, i) && |a| <= i && i + |token| <= |a| + |b|
    ensures Has(l, b, token)
  {
    forall k | 0 <= k < |token| ensures l.lower(b[i - |a| + k]) == token[k] {
      assert (a + b + c)[i + k] == b[i - |a| + k];
    }
    assert MatchAt(l, b, token, i - |a|);
  }

  /** No character of the token comes from x. */
  ghost predicate Avoids(l: Language, token: string, x: char) {
    token != "" && forall i | 0 <= i < |token| :: token[i] != l.lower(x)
  }

  lemma {:induction false} MatchAvoids(l: Language, s: string, x: char, token: string, i: nat, p: nat, n: nat)
    requires Avoids(l, token, x) && MatchAt(l, s, token, i)
    requires p < |s| && s[p] == x && n <= |token|
    ensures p < i || i + n <= p
  {
    if n > 0 {
      MatchAvoids(l, s, x, token, i, p, n - 1);
      assert l.lower(s[i + (n - 1)]) == token[n - 1] != l.lower(x);
    }
  }

  /** A token never crosses a character that it avoids. */
  lemma MatchInHalf(l: Language, a: string, x: char, b: string, token: string)
    requires Avoids(l, token, x) && Has(l, a + [x] + b, token)
    ensures Has(l, a, token) || Has(l, b, token)
  {
    var s := a + [x] + b;
    var i :| 0 <= i <= |s| && MatchAt(l, s, token, i);
    MatchAvoids(l, s, x, token, i, |a|, |token|);
    if i + |token| <= |a| {
      assert "" + a + ([x] + b) == s;
      MatchWithin(l, "", a, [x] + b, token, i);
    } else {
      assert (a + [x]) + b + "" == s;
      MatchWithin(l, a + [x], b, "", token, i);
    }
  }

  lemma {:induction false} MatchInPart(l: Language, parts: seq<string>, x: char, token: string)
    requires Avoids(l, token, x) && Has(l, Join(parts, [x]), token)
    ensures AnyHas(l, parts, token)
  {
    if |parts| == 1 {
      assert Has(l, parts[0], token);
    } else if |parts| > 1 {
      MatchInHalf(l, parts[0], x, Join(parts[1..], [x]), token);
      if Has(l, parts[0], token) {
      } else {
        MatchInPart(l, parts[1..], x, token);
        var i :| 0 <= i < |parts[1..]| && Has(l, parts[1..][i], token);
        assert parts[i + 1] == parts[1..][i];
      }
    }
  }

  lemma AsciiHasNoOther(l: Language, s: string, token: string)
    requires Sound(l) && AsciiOnly(s) && Prefilterable(token)
    ensures !Has(l, s, token)
  {
    if i :| 0 <= i <= |s| && MatchAt(l, s, token, i) {
      var k :| 0 <= k < |token| && !Ascii(token[k]);
      assert l.lower(s[i + k]) == token[k];
    }
  }

  // ---------------------------------------------------------------- keywords in their stored text

  lemma {:induction false} EscapedConcat(a: string, b: string)
    ensures EscapedText(a + b) == EscapedText(a) + EscapedText(b)
  {
    if a == "" {
      assert a + b == b;
    } else {
      assert (a + b)[1..] == a[1..] + b;
      EscapedConcat(a[1..], b);
    }
  }

  ghost predicate PlainText(s: string) {
    forall i | 0 <= i < |s| :: !Escapes(s[i])
  }

  lemma {:induction false} PlainEscaped(s: string)
    requires PlainText(s)
    ensures EscapedText(s) == s
  {
    if s != "" {
      PlainEscaped(s[1..]);
    }
  }

  lemma HasInside(l: Language, a: string, s: string, b: string, token: string)
    requires Has(l, s, token)
    ensures Has(l, a + s + b, token)
  {
    var i :| 0 <= i <= |s| && MatchAt(l, s, token, i);
    forall k | 0 <= k < |token| ensures l.lower((a + s + b)[|a| + i + k]) == token[k] {
      assert (a + s + b)[|a| + i + k] == s[i + k];
    }
    assert MatchAt(l, a + s + b, token, |a| + i);
  }

  /** Escaping leaves a match of plain characters in place. */
  lemma MatchSurvivesEscaping(l: Language, keyword: string, token: string)
    requires Sound(l) && PlainText(token) && Has(l, keyword, token)
    ensures Has(l, Quoted(keyword), token)
  {
    var i :| 0 <= i <= |keyword| && MatchAt(l, keyword, token, i);
    var a, s, b := keyword[..i], keyword[i..i + |token|], keyword[i + |token|..];
    forall k | 0 <= k < |s| ensures !Escapes(s[k]) && l.lower(s[k]) == token[k] {
      assert l.lower(keyword[i + k]) == token[k];
    }
    assert keyword == a + s + b;
    EscapedConcat(a + s, b);
    EscapedConcat(a, s);
    PlainEscaped(s);
    assert MatchAt(l, s, token, 0);
    HasInside(l, EscapedText(a), s, EscapedText(b), token);
    HasInside(l, "\"", EscapedText(keyword), "\"", token);
  }

  lemma {:induction false} HasInJoin(l: Language, parts: seq<string>, sep: string, i: nat, token: string)
    requires i < |parts| && Has(l, parts[i], token)
    ensures Has(l, Join(parts, sep), token)
  {
    if |parts| > 1 {
      var rest := Join(parts[1..], sep);
      if i == 0 {
        HasInside(l, "", parts[0], sep + rest, token);
        assert "" + parts[0] + (sep + rest) == parts[0] + sep + rest;
      } else {
        HasInJoin(l, parts[1..], sep, i - 1, token);
        HasInside(l, parts[0] + sep, rest, "", token);
        assert parts[0] + sep + rest + "" == parts[0] + sep + rest;
      }
    }
  }

  lemma KeywordInColumn(l: Language, e: Entry, token: string)
    requires Sound(l) && PlainText(token) && AnyHas(l, e.keywords, token)
    ensures Has(l, KeywordsText(e.keywords), token)
  {
    var i :| 0 <= i < |e.keywords| && Has(l, e.keywords[i], token);
    MatchSurvivesEscaping(l, e.keywords[i], token);
    HasInJoin(l, QuotedAll(e.keywords), SEPARATOR, i, token);
    HasInside(l, "[", Join(QuotedAll(e.keywords), SEPARATOR), "]", token);
  }

  // ---------------------------------------------------------------- stored keywords hold no more than the keywords

  /** Not empty, and without ASCII characters. */
  ghost predicate Wide(token: string) {
    token != "" && forall i | 0 <= i < |token| :: !Ascii(token[i])
  }

  lemma WideAvoids(l: Language, token: string, x: char)
    requires Sound(l) && Wide(token) && Ascii(x)
    ensures Avoids(l, token, x)
  {
  }

  /** JSON escapes are ASCII, and characters that are not escaped stay. */
  lemma EscapedIsAscii(c: char)
    ensures if Escapes(c) then AsciiOnly(Escaped(c)) else Escaped(c) == [c]
  {
  }

  /** At the start of an escaped text a wide token stands only for itself. */
  lemma {:induction false} WideStarts(l: Language, s: string, token: string)
    requires Sound(l) && (forall i | 0 <= i < |token| :: !Ascii(token[i])) && MatchAt(l, EscapedText(s), token, 0)
    ensures MatchAt(l, s, token, 0)
    decreases token
  {
    if token != "" {
      var text := EscapedText(s);
      assert l.lower(text[0 + 0]) == token[0];
      EscapedIsAscii(s[0]);
      assert text[0] == Escaped(s[0])[0] && !Ascii(text[0]);
      assert text == [s[0]] + EscapedText(s[1..]);
      forall k | 0 <= k < |token[1..]| ensures l.lower(EscapedText(s[1..])[0 + k]) == token[1..][k] {
        assert l.lower(text[0 + (k + 1)]) == token[k + 1];
      }
      WideStarts(l, s[1..], token[1..]);
      forall k | 0 <= k < |token| ensures l.lower(s[0 + k]) == token[k] {
        if k > 0 {
          assert l.lower(s[1..][0 + (k - 1)]) == token[1..][k - 1];
        }
      }
    }
  }

  lemma {:induction false} SkipAscii(l: Language, a: string, b: string, token: string)
    requires Sound(l) && Wide(token) && AsciiOnly(a) && Has(l, a + b, token)
    ensures Has(l, b, token)
  {
    if a == "" {
      assert a + b == b;
    } else {
      assert a + b == "" + [a[0]] + (a[1..] + b);
      WideAvoids(l, token, a[0]);
      MatchInHalf(l, "", a[0], a[1..] + b, token);
      SkipAscii(l, a[1..], b, token);
    }
  }

  lemma WideAfterFirst(l: Language, s: string, token: string, i: nat)
    requires Sound(l) && Wide(token) && s != "" && i > 0 && MatchAt(l, EscapedText(s), token, i)
    ensures Has(l, EscapedText(s[1..]), token)
  {
    var rest := EscapedText(s[1..]);
    EscapedIsAscii(s[0]);
    if Escapes(s[0]) {
      SkipAscii(l, Escaped(s[0]), rest, token);
    } else {
      assert [s[0]] + rest + "" == EscapedText(s);
      MatchWithin(l, [s[0]], rest, "", token, i);
    }
  }

  lemma {:induction false} WideInEscaped(l: Language, s: string, token: string)
    requires Sound(l) && Wide(token) && Has(l, EscapedText(s), token)
    ensures Has(l, s, token)
  {
    if s != "" {
      var i :| 0 <= i <= |EscapedText(s)| && MatchAt(l, EscapedText(s), token, i);
      if i == 0 {
        WideStarts(l, s, token);
      } else {
        WideAfterFirst(l, s, token, i);
        WideInEscaped(l, s[1..], token);
        HasInside(l, [s[0]], s[1..], "", token);
        assert [s[0]] + s[1..] + "" == s;
      }
    }
  }

  lemma WideInBrackets(l: Language, open: char, s: string, close: char, token: string)
    requires Sound(l) && Wide(token) && Ascii(open) && Ascii(close) && Has(l, [open] + s + [close], token)
    ensures Has(l, s, token)
  {
    WideAvoids(l, token, close);
    assert [open] + s + [close] + "" == [open] + s + [close];
    MatchInHalf(l, [open] + s, close, "", token);
    SkipAscii(l, [open], s, token);
  }

  lemma {:induction false} WideInJoin(l: Language, parts: seq<string>, token: string)
    requires Sound(l) && Wide(token) && Has(l, Join(parts, SEPARATOR), token)
    ensures AnyHas(l, parts, token)
  {
    if |parts| == 1 {
      assert Has(l, parts[0], token);
    } else if |parts| > 1 {
      var rest := Join(parts[1..], SEPARATOR);
      WideAvoids(l, token, ',');
      assert parts[0] + SEPARATOR + rest == parts[0] + [','] + (" " + rest);
      MatchInHalf(l, parts[0], ',', " " + rest, token);
      if Has(l, parts[0], token) {
      } else {
        SkipAscii(l, " ", rest, token);
        WideInJoin(l, parts[1..], token);
        var i :| 0 <= i < |parts[1..]| && Has(l, parts[1..][i], token);
        assert parts[i + 1] == parts[1..][i];
      }
    }
  }

  lemma WideInKeywords(l: Language, keywords: seq<string>, token: string)
    requires Sound(l) && Wide(token) && Has(l, KeywordsText(keywords), token)
    ensures AnyHas(l, keywords, token)
  {
    WideInBrackets(l, '[', Join(QuotedAll(keywords), SEPARATOR), ']', token);
    WideInJoin(l, QuotedAll(keywords), token);
    var i :| 0 <= i < |keywords| && Has(l, QuotedAll(keywords)[i], token);
    WideInBrackets(l, '"', EscapedText(keywords[i]), '"', token);
    WideInEscaped(l, keywords[i], token);
  }

  // ---------------------------------------------------------------- what stored keywords hide

  ghost predicate NoControl(s: string) {
    forall i | 0 <= i < |s| :: s[i] >= ' '
  }

  lemma {:induction false} EscapedTextHasNoControl(s: string)
    ensures NoControl(EscapedText(s))
  {
    if s != "" {
      assert NoControl(Escaped(s[0]));
      EscapedTextHasNoControl(s[1..]);
    }
  }

  /** Every double quote is escaped. */
  ghost predicate QuotesEscaped(s: string) {
    forall i | 0 <= i < |s| && s[i] == '"' :: i > 0 && s[i - 1] == '\\'
  }

  lemma {:induction false} EscapedTextEscapesQuotes(s: string)
    ensures QuotesEscaped(EscapedText(s))
  {
    if s != "" {
      assert QuotesEscaped(Escaped(s[0]));
      EscapedTextEscapesQuotes(s[1..]);
    }
  }

  predicate BeforeQuote(c: char) {
    c == '\\' || c == '[' || c == ' '
  }

  predicate AfterQuote(c: char) {
    c == ',' || c == ']'
  }

  /** A double quote is escaped, or opens or closes a string between separators and the two ends. */
  ghost predicate QuoteFits(s: string, i: nat)
    requires i < |s|
  {
    i == 0 || BeforeQuote(s[i - 1]) || i == |s| - 1 || AfterQuote(s[i + 1])
  }

  ghost predicate Listed(s: string) {
    NoControl(s) && forall i | 0 <= i < |s| && s[i] == '"' :: QuoteFits(s, i)
  }

  lemma QuotedIsListed(keyword: string)
    ensures Listed(Quoted(keyword)) && |Quoted(keyword)| >= 2
  {
    var text, s := EscapedText(keyword), Quoted(keyword);
    EscapedTextHasNoControl(keyword);
    EscapedTextEscapesQuotes(keyword);
    forall i | 0 <= i < |s| && s[i] == '"' ensures QuoteFits(s, i) {
      if 0 < i < |s| - 1 {
        assert s[i] == text[i - 1] && s[i - 1] == text[i - 2];
      }
    }
  }

  lemma ListedWithRest(a: string, b: string)
    requires Listed(a) && Listed(b)
    ensures Listed(a + SEPARATOR + b)
  {
    var s := a + SEPARATOR + b;
    forall i | 0 <= i < |s| && s[i] == '"' ensures QuoteFits(s, i) {
      if i < |a| {
        assert s[i] == a[i] && QuoteFits(a, i);
      } else {
        var k := i - |a| - 2;
        assert s[i] == b[k] && QuoteFits(b, k);
      }
    }
  }

  lemma {:induction false} JoinIsListed(parts: seq<string>)
    requires forall i | 0 <= i < |parts| :: Listed(parts[i])
    ensures Listed(Join(parts, SEPARATOR))
  {
    if |parts| > 1 {
      JoinIsListed(parts[1..]);
      ListedWithRest(parts[0], Join(parts[1..], SEPARATOR));
    }
  }

  lemma KeywordsTextIsListed(keywords: seq<string>)
    ensures Listed(KeywordsText(keywords))
  {
    var inner, s := Join(QuotedAll(keywords), SEPARATOR), KeywordsText(keywords);
    forall i | 0 <= i < |keywords| ensures Listed(QuotedAll(keywords)[i]) {
      QuotedIsListed(keywords[i]);
    }
    JoinIsListed(QuotedAll(keywords));
    forall i | 0 <= i < |s| && s[i] == '"' ensures QuoteFits(s, i) {
      assert s[i] == inner[i - 1] && QuoteFits(inner, i - 1);
    }
  }

  /** A token with a control character is in no stored keywords, whatever the keywords are. */
  lemma ControlIsHidden(l: Language, keywords: seq<string>, token: string, k: nat)
    requires Sound(l) && k < |token| && token[k] < ' '
    ensures !Has(l, KeywordsText(keywords), token)
  {
    var text := KeywordsText(keywords);
    KeywordsTextIsListed(keywords);
    forall i | 0 <= i <= |text| ensures !MatchAt(l, text, token, i) {
      if i + |token| <= |text| {
        assert text[i + k] >= ' ' && l.lower(text[i + k]) != token[k];
      }
    }
  }

  lemma LowerKeeps(l: Language, c: char, x: char)
    requires Sound(l) && l.lower(c) == x && Escapes(x)
    ensures c == x
  {
  }

  /** Where a token with a double quote inside matches, it looks like the beginning or the end of a string. */
  lemma QuoteAtMatch(l: Language, text: string, token: string, i: nat, k: nat)
    requires Sound(l) && Listed(text) && MatchAt(l, text, token, i)
    requires 0 < k < |token| - 1 && token[k] == '"'
    ensures BeforeQuote(token[k - 1]) || AfterQuote(token[k + 1])
  {
    assert l.lower(text[i + k]) == token[k];
    LowerKeeps(l, text[i + k], '"');
    assert QuoteFits(text, i + k);
    assert l.lower(text[i + (k - 1)]) == token[k - 1] && l.lower(text[i + (k + 1)]) == token[k + 1];
  }

  /** Any other token with a double quote inside is in no stored keywords either. */
  lemma QuoteIsHidden(l: Language, keywords: seq<string>, token: string, k: nat)
    requires Sound(l) && 0 < k < |token| - 1 && token[k] == '"'
    requires !BeforeQuote(token[k - 1]) && !AfterQuote(token[k + 1])
    ensures !Has(l, KeywordsText(keywords), token)
  {
    var text := KeywordsText(keywords);
    KeywordsTextIsListed(keywords);
    forall i: nat | i <= |text| ensures !MatchAt(l, text, token, i) {
      if MatchAt(l, text, token, i) {
        QuoteAtMatch(l, text, token, i, k);
      }
    }
  }

  // ---------------------------------------------------------------- the prefilter against the score

  /** A token as the tokenizer makes them, written with plain characters. */
  ghost predicate PlainToken(l: Language, token: string) {
    NoSpace(token) && PlainText(token) && LowerAll(l, token) == token
  }

  ghost predicate NoSpace(token: string) {
    token != "" && forall i | 0 <= i < |token| :: token[i] != ' '
  }

  /** Stored entries carry the text of their own rich text. */
  ghost predicate Built(e: Entry) {
    e.contentText == e.extracted
  }

  /** The entry says the token itself. */
  predicate Says(l: Language, e: Entry, token: string) {
    AnyHas(l, OwnParts(e), token) || AnyHas(l, e.keywords, token)
  }

  lemma PlainIsNoEscape(token: string)
    requires PlainText(token)
    ensures NoEscape(token)
  {
    forall k | 0 <= k < |token| ensures token[k] != '\\' {
      assert !Escapes(token[k]);
    }
  }

  /** The stored keywords hold what a keyword says, when it is written with plain characters. */
  lemma SaidIsHeld(l: Language, e: Entry, token: string)
    requires Sound(l) && PlainText(token) && Says(l, e, token)
    ensures Holds(l, e, token)
  {
    if AnyHas(l, e.keywords, token) {
      KeywordInColumn(l, e, token);
    }
  }

  /** A matching prefilterable token is said by the entry, or one of its category's aliases holds it. */
  lemma MatchIsSaidOrAlias(l: Language, e: Entry, token: string)
    requires Sound(l) && NoSpace(token) && Prefilterable(token) && Matches(l, e, token)
    ensures Says(l, e, token) || AnyHas(l, AliasesOf(e.category), token)
  {
    var own := OwnParts(e);
    if Has(l, own[0], token) || Has(l, own[1], token) || Has(l, own[4], token) || AnyHas(l, e.keywords, token) {
    } else {
      DocumentMatch(l, e, token);
    }
  }

  lemma DocumentMatch(l: Language, e: Entry, token: string)
    requires Sound(l) && NoSpace(token) && Prefilterable(token) && Has(l, SearchDocument(l, e), token)
    ensures Says(l, e, token) || AnyHas(l, AliasesOf(e.category), token)
  {
    var own, aliases := OwnParts(e), AliasesOf(e.category);
    var pinyin := l.pinyin(Join(WrittenParts(e), " "));
    var parts := WrittenParts(e) + [pinyin];
    MatchInPart(l, parts, ' ', token);
    var i :| 0 <= i < |parts| && Has(l, parts[i], token);
    if i < |own| {
      assert parts[i] == own[i];
    } else if i < |own| + |aliases| {
      assert parts[i] == aliases[i - |own|];
    } else if i < |WrittenParts(e)| {
      assert parts[i] == e.keywords[i - |own| - |aliases|];
    } else {
      AsciiHasNoOther(l, pinyin, token);
    }
  }

  ghost predicate Ideographs(s: string) {
    forall i | 0 <= i < |s| :: Ideograph(s[i])
  }

  lemma AliasesAreUniform(category: string)
    ensures forall i | 0 <= i < |AliasesOf(category)| :: Ideographs(AliasesOf(category)[i]) || AsciiOnly(AliasesOf(category)[i])
  {
  }

  lemma AliasTokenIsWide(l: Language, category: string, token: string)
    requires Sound(l) && Prefilterable(token) && AnyHas(l, AliasesOf(category), token)
    ensures Wide(token)
  {
    var i :| 0 <= i < |AliasesOf(category)| && Has(l, AliasesOf(category)[i], token);
    var alias := AliasesOf(category)[i];
    AliasesAreUniform(category);
    if AsciiOnly(alias) {
      AsciiHasNoOther(l, alias, token);
    } else {
      var at :| 0 <= at <= |alias| && MatchAt(l, alias, token, at);
      forall k | 0 <= k < |token| ensures !Ascii(token[k]) {
        assert Ideograph(alias[at + k]) && l.lower(alias[at + k]) == token[k];
      }
    }
  }

  /** The entry's own parts, or the stored text of its keywords, contain the token. */
  predicate Holds(l: Language, e: Entry, token: string) {
    AnyHas(l, OwnParts(e), token) || Has(l, KeywordsText(e.keywords), token)
  }

  lemma HeldIsFound(l: Language, e: Entry, token: string)
    requires Built(e) && NoEscape(token) && LowerAll(l, token) == token && Holds(l, e, token)
    ensures Finds(l, e, token)
  {
    if AnyHas(l, OwnParts(e), token) {
      var i :| 0 <= i < |OwnParts(e)| && Has(l, OwnParts(e)[i], token);
      var column := if i < 3 then i else i - 1;
      assert Columns(e)[column] == OwnParts(e)[i];
      HasIsLike(l, Columns(e)[column], token);
    } else {
      assert Columns(e)[5] == KeywordsText(e.keywords);
      HasIsLike(l, Columns(e)[5], token);
    }
  }

  /** The database finds a token without wildcards exactly when the own parts or the stored keywords contain it. */
  lemma FoundIsHeld(l: Language, e: Entry, token: string)
    requires Built(e) && NoWildcard(token) && LowerAll(l, token) == token
    ensures Finds(l, e, token) <==> Holds(l, e, token)
  {
    if Holds(l, e, token) {
      HeldIsFound(l, e, token);
    }
    if Finds(l, e, token) {
      var i :| 0 <= i < |Columns(e)| && ColumnLike(l, Columns(e)[i], token);
      LikeIsHas(l, Columns(e)[i], token);
      if i < 5 {
        assert OwnParts(e)[if i < 3 then i else i + 1] == Columns(e)[i];
      } else {
        assert Columns(e)[5] == KeywordsText(e.keywords);
      }
    }
  }

  /** Of a matching token the database finds exactly what the entry says itself. */
  lemma FoundIsSaid(l: Language, e: Entry, token: string)
    requires Sound(l) && Built(e) && PlainToken(l, token) && NoWildcard(token) && Prefilterable(token) && Matches(l, e, token)
    ensures Finds(l, e, token) <==> Says(l, e, token)
  {
    FoundIsHeld(l, e, token);
    if Says(l, e, token) {
      SaidIsHeld(l, e, token);
    } else {
      MatchIsSaidOrAlias(l, e, token);
      AliasTokenIsWide(l, e.category, token);
      if Has(l, KeywordsText(e.keywords), token) {
        WideInKeywords(l, e.keywords, token);
      }
    }
  }

  ghost predicate SomePrefilterable(tokens: seq<string>) {
    exists i | 0 <= i < |tokens| :: Prefilterable(tokens[i])
  }

  /** A token as the tokenizer makes them, without wildcards and backslash. */
  ghost predicate Searchable(l: Language, token: string) {
    NoWildcard(token) && LowerAll(l, token) == token
  }

  /**
   * An entry is a candidate for a query exactly when no token of it is prefilterable, or when its own parts or the stored
   * text of its keywords contain one that is.
   */
  lemma CandidatesExactly(l: Language, e: Entry, tokens: seq<string>)
    requires Built(e) && forall i | 0 <= i < |tokens| && Prefilterable(tokens[i]) :: Searchable(l, tokens[i])
    ensures Prefilter(l, e, tokens)
       <==> !SomePrefilterable(tokens) || exists i | 0 <= i < |tokens| :: Prefilterable(tokens[i]) && Holds(l, e, tokens[i])
  {
    forall i | 0 <= i < |tokens| && Prefilterable(tokens[i]) ensures Finds(l, e, tokens[i]) <==> Holds(l, e, tokens[i]) {
      FoundIsHeld(l, e, tokens[i]);
    }
  }

  /**
   * With tokens without double quotes and control characters, an entry that would score is lost exactly when the query
   * has prefilterable tokens and the entry says none of them itself, so that all of them match through the aliases of
   * its category.
   */
  lemma LostExactly(l: Language, e: Entry, tokens: seq<string>)
    requires Sound(l) && Built(e) && forall i | 0 <= i < |tokens| :: Matches(l, e, tokens[i])
    requires forall i | 0 <= i < |tokens| && Prefilterable(tokens[i]) :: PlainToken(l, tokens[i]) && NoWildcard(tokens[i])
    ensures !Prefilter(l, e, tokens)
       <==> SomePrefilterable(tokens) && forall i | 0 <= i < |tokens| && Prefilterable(tokens[i]) :: !Says(l, e, tokens[i])
  {
    forall i | 0 <= i < |tokens| && Prefilterable(tokens[i]) ensures Finds(l, e, tokens[i]) <==> Says(l, e, tokens[i]) {
      FoundIsSaid(l, e, tokens[i]);
    }
  }

  /**
   * Of any query without backslashes: an entry that would score and is no candidate matches every prefilterable token
   * through the aliases of its category, or through a keyword whose stored text does not contain the token.
   */
  lemma ScoredEntriesPass(l: Language, e: Entry, tokens: seq<string>)
    requires Sound(l) && Built(e) && forall i | 0 <= i < |tokens| :: Matches(l, e, tokens[i])
    requires forall i | 0 <= i < |tokens| && Prefilterable(tokens[i]) ::
               NoSpace(tokens[i]) && NoEscape(tokens[i]) && LowerAll(l, tokens[i]) == tokens[i]
    ensures Prefilter(l, e, tokens)
         || forall i | 0 <= i < |tokens| && Prefilterable(tokens[i]) ::
              AnyHas(l, AliasesOf(e.category), tokens[i])
              || (AnyHas(l, e.keywords, tokens[i]) && !Has(l, KeywordsText(e.keywords), tokens[i]))
  {
    forall i | 0 <= i < |tokens| && Prefilterable(tokens[i])
      ensures Finds(l, e, tokens[i]) || AnyHas(l, AliasesOf(e.category), tokens[i])
           || (AnyHas(l, e.keywords, tokens[i]) && !Has(l, KeywordsText(e.keywords), tokens[i]))
    {
      MatchIsSaidOrAlias(l, e, tokens[i]);
      if Holds(l, e, tokens[i]) {
        HeldIsFound(l, e, tokens[i]);
      }
    }
  }

  /** The aliases of its category are part of what an entry is scored by. */
  lemma AliasMatches(l: Language, e: Entry, token: string)
    requires AnyHas(l, AliasesOf(e.category), token)
    ensures Matches(l, e, token)
  {
    var own, aliases := OwnParts(e), AliasesOf(e.category);
    var j :| 0 <= j < |aliases| && Has(l, aliases[j], token);
    var parts := WrittenParts(e) + [l.pinyin(Join(WrittenParts(e), " "))];
    assert parts[|own| + j] == aliases[j];
    HasInJoin(l, parts, " ", |own| + j, token);
  }

  const ClosedLoop := "\U{95ED}\U{73AF}"
  const Bare := Entry("t", "s", "c", "c", "r", "workflow", [], 0)

  lemma BareSaysNothing(l: Language, token: string)
    requires Sound(l) && Prefilterable(token)
    ensures !Says(l, Bare, token)
  {
    forall i | 0 <= i < |OwnParts(Bare)| ensures !Has(l, OwnParts(Bare)[i], token) {
      AsciiHasNoOther(l, OwnParts(Bare)[i], token);
    }
  }

  lemma ClosedLoopMatches(l: Language, e: Entry)
    requires Sound(l) && e.category == "workflow"
    ensures Matches(l, e, ClosedLoop)
  {
    assert AliasesOf("workflow")[2] == ClosedLoop && MatchAt(l, ClosedLoop, ClosedLoop, 0);
    assert Has(l, AliasesOf("workflow")[2], ClosedLoop);
    AliasMatches(l, e, ClosedLoop);
  }

  lemma ClosedLoopIsUsable(l: Language)
    requires Sound(l)
    ensures Prefilterable(ClosedLoop) && PlainToken(l, ClosedLoop) && NoWildcard(ClosedLoop)
  {
    assert !Ascii(ClosedLoop[0]);
  }

  lemma OneTokenLost(l: Language, e: Entry, token: string)
    requires Built(e) && Searchable(l, token) && Prefilterable(token) && !Holds(l, e, token)
    ensures !Prefilter(l, e, [token])
  {
    assert [token][0] == token;
    CandidatesExactly(l, e, [token]);
  }

  /** Searching for the alias of a category misses the entries of that category which do not repeat the word. */
  lemma ClosedLoopIsMissed(l: Language)
    requires Sound(l)
    ensures Matches(l, Bare, ClosedLoop) && !Prefilter(l, Bare, [ClosedLoop])
  {
    ClosedLoopIsUsable(l);
    ClosedLoopMatches(l, Bare);
    BareSaysNothing(l, ClosedLoop);
    AsciiHasNoOther(l, KeywordsText([]), ClosedLoop) by {
      assert QuotedAll([]) == [];
    }
    OneTokenLost(l, Bare, ClosedLoop);
  }

  const Wheel := "2\"\U{8F6E}"
  const Tagged := Entry("t", "s", "c", "c", "r", "x", ["1" + Wheel], 0)

  lemma WheelIsSearchable(l: Language)
    requires Sound(l) && l.lower('2') == '2'
    ensures Prefilterable(Wheel) && Searchable(l, Wheel)
  {
    assert !Ascii(Wheel[2]);
    assert LowerAll(l, Wheel) == Wheel;
  }

  lemma TaggedHasNoParts(l: Language, token: string)
    requires Sound(l) && Prefilterable(token)
    ensures !AnyHas(l, OwnParts(Tagged), token)
  {
    forall i | 0 <= i < |OwnParts(Tagged)| ensures !Has(l, OwnParts(Tagged)[i], token) {
      AsciiHasNoOther(l, OwnParts(Tagged)[i], token);
    }
  }

  lemma KeywordHasItself(l: Language, a: string, token: string)
    requires LowerAll(l, token) == token
    ensures Has(l, a + token, token)
  {
    var s := a + token;
    forall k | 0 <= k < |token| ensures l.lower(s[|a| + k]) == token[k] {
      assert s[|a| + k] == token[k] && LowerAll(l, token)[k] == l.lower(token[k]);
    }
    assert MatchAt(l, s, token, |a|);
  }

  lemma KeywordScores(l: Language, e: Entry, token: string, i: nat)
    requires i < |e.keywords| && Has(l, e.keywords[i], token) && !AnyHas(l, OwnParts(e), token)
    ensures TokenScore(l, e, token) == 10
  {
    assert !Has(l, OwnParts(e)[0], token) && AnyHas(l, e.keywords, token);
  }

  lemma WheelScores(l: Language)
    requires Sound(l) && Prefilterable(Wheel) && LowerAll(l, Wheel) == Wheel
    ensures TokenScore(l, Tagged, Wheel) == 10
  {
    TaggedHasNoParts(l, Wheel);
    KeywordHasItself(l, "1", Wheel);
    KeywordScores(l, Tagged, Wheel, 0);
  }

  lemma WheelIsNotHeld(l: Language)
    requires Sound(l) && Prefilterable(Wheel)
    ensures !Holds(l, Tagged, Wheel)
  {
    TaggedHasNoParts(l, Wheel);
    QuoteIsHidden(l, Tagged.keywords, Wheel, 1);
  }

  /** A token with a double quote scores in full on a keyword, and yet the entry is missed: the quote is stored escaped. */
  lemma QuoteIsMissed(l: Language)
    requires Sound(l) && l.lower('2') == '2'
    ensures TokenScore(l, Tagged, Wheel) == 10 && AliasesOf(Tagged.category) == []
    ensures !Prefilter(l, Tagged, [Wheel])
  {
    WheelIsSearchable(l);
    WheelScores(l);
    WheelIsNotHeld(l);
    OneTokenLost(l, Tagged, Wheel);
  }
}
