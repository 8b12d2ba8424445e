/**
 * What the search reads of a query and of an entry: the pieces of the query, the parts of an entry that a token is looked
 * for in, and what the first place it is found at is worth.
 */
module KnowledgeRanking {
  import opened Text
  import opened JsonText
  import opened Pieces
  import opened KnowledgeSearch

  // ---------------------------------------------------------------- the pieces of a query

  lemma {:induction false} FieldsBetweenGaps(s: string) returns (gaps: seq<string>)
    ensures AreGaps(gaps, FieldsOf(s), Separates) && Interleaved(gaps, FieldsOf(s)) == s
    ensures s != "" && !Separates(s[0]) ==> FieldsOf(s) != [] && gaps[0] == ""
    ensures s != "" && Separates(s[0]) ==> gaps[0] != ""
  {
    if s == "" {
      gaps := [""];
    } else {
      var rest := FieldsOf(s[1..]);
      var after := FieldsBetweenGaps(s[1..]);
      assert s == [s[0]] + s[1..];
      if Separates(s[0]) {
        gaps := [[s[0]] + after[0]] + after[1..];
        GapGrows(s[0], after, rest, Separates);
      } else if |s| == 1 || Separates(s[1]) {
        gaps := [""] + after;
        FieldBegins(s[0], after, rest, Separates);
      } else {
        gaps := after;
        FieldGrows(s[0], after, rest, Separates);
      }
    }
  }

  /** The words of a query are the trimmed maximal pieces of its lower-cased, trimmed text without separators, in order. */
  lemma QueryIsCut(l: Language, query: string) returns (fields: seq<string>)
    ensures MaximalPieces(LowerAll(l, TrimSpace(query)), fields, Separates)
    ensures |QueryWords(l, query)| == |fields| && forall i | 0 <= i < |fields| :: QueryWords(l, query)[i] == TrimSpace(fields[i])
  {
    fields := FieldsOf(LowerAll(l, TrimSpace(query)));
    var gaps := FieldsBetweenGaps(LowerAll(l, TrimSpace(query)));
  }

  // ---------------------------------------------------------------- where a token is looked for

  /** The entry's title, texts, path, category or a keyword contain the token. */
  predicate InOwnText(l: Language, e: Entry, token: string) {
    || Has(l, e.title, token) || Has(l, e.summary, token) || Has(l, e.contentText, token) || Has(l, e.extracted, token)
    || Has(l, e.routePath, token) || Has(l, e.category, token)
    || exists i | 0 <= i < |e.keywords| :: Has(l, e.keywords[i], token)
  }

  /** A word that stands for its category contains the token. */
  predicate InAlias(l: Language, e: Entry, token: string) {
    exists i | 0 <= i < |AliasesOf(e.category)| :: Has(l, AliasesOf(e.category)[i], token)
  }

  /** The texts whose pinyin is looked at, joined. */
  function Spoken(e: Entry): string {
    Join([e.title, e.summary, e.contentText, e.extracted, e.routePath, e.category] + AliasesOf(e.category) + e.keywords, " ")
  }

  lemma HasOwnPart(l: Language, e: Entry, token: string)
    ensures AnyHas(l, OwnParts(e), token) <==>
            || Has(l, e.title, token) || Has(l, e.summary, token) || Has(l, e.contentText, token) || Has(l, e.extracted, token)
            || Has(l, e.routePath, token) || Has(l, e.category, token)
  {
    var own := OwnParts(e);
    assert own[0] == e.title && own[1] == e.summary && own[2] == e.contentText;
    assert own[3] == e.extracted && own[4] == e.routePath && own[5] == e.category;
  }

  lemma HasWrittenPart(l: Language, e: Entry, token: string)
    ensures AnyHas(l, WrittenParts(e), token) <==>
            AnyHas(l, OwnParts(e), token) || AnyHas(l, AliasesOf(e.category), token) || AnyHas(l, e.keywords, token)
  {
    var own, aliases, all := OwnParts(e), AliasesOf(e.category), WrittenParts(e);
    if i :| 0 <= i < |own| && Has(l, own[i], token) {
      assert all[i] == own[i];
    }
    if i :| 0 <= i < |aliases| && Has(l, aliases[i], token) {
      assert all[|own| + i] == aliases[i];
    }
    if i :| 0 <= i < |e.keywords| && Has(l, e.keywords[i], token) {
      assert all[|own| + |aliases| + i] == e.keywords[i];
    }
  }

  lemma DocumentExactly(l: Language, e: Entry, token: string)
    requires l.lower(' ') == ' ' && NoSpace(token)
    ensures Has(l, SearchDocument(l, e), token) <==> AnyHas(l, WrittenParts(e), token) || Has(l, l.pinyin(Spoken(e)), token)
  {
    var written, pinyin := WrittenParts(e), l.pinyin(Join(WrittenParts(e), " "));
    var parts := written + [pinyin];
    assert Spoken(e) == Join(written, " ");
    assert parts[|written|] == pinyin && forall i | 0 <= i < |written| :: parts[i] == written[i];
    if Has(l, SearchDocument(l, e), token) {
      MatchInPart(l, parts, ' ', token);
    }
    if i :| 0 <= i < |written| && Has(l, written[i], token) {
      HasInJoin(l, parts, " ", i, token);
    }
    if Has(l, pinyin, token) {
      HasInJoin(l, parts, " ", |written|, token);
    }
  }

  /** A token matches an entry exactly when it is in one of its texts, in an alias of its category, or in its pinyin. */
  lemma MatchesExactly(l: Language, e: Entry, token: string)
    requires l.lower(' ') == ' ' && NoSpace(token)
    ensures Matches(l, e, token) <==> InOwnText(l, e, token) || InAlias(l, e, token) || Has(l, l.pinyin(Spoken(e)), token)
  {
    DocumentExactly(l, e, token);
    HasWrittenPart(l, e, token);
    HasOwnPart(l, e, token);
  }

  // ---------------------------------------------------------------- what a match is worth

  /** The first place decides: the title, then a keyword, the summary, the path, and anything else that is looked at. */
  lemma FirstPlaceDecides(l: Language, e: Entry, token: string)
    requires l.lower(' ') == ' ' && NoSpace(token)
    ensures var keyword := exists i | 0 <= i < |e.keywords| :: Has(l, e.keywords[i], token);
            && (TokenScore(l, e, token) == 12 <==> Has(l, e.title, token))
            && (TokenScore(l, e, token) == 10 <==> keyword && !Has(l, e.title, token))
            && (TokenScore(l, e, token) == 8 <==> Has(l, e.summary, token) && !keyword && !Has(l, e.title, token))
            && (TokenScore(l, e, token) == 6 <==>
                  Has(l, e.routePath, token) && !Has(l, e.summary, token) && !keyword && !Has(l, e.title, token))
            && (TokenScore(l, e, token) == 0 <==>
                  !InOwnText(l, e, token) && !InAlias(l, e, token) && !Has(l, l.pinyin(Spoken(e)), token))
            && TokenScore(l, e, token) in {0, 3, 6, 8, 10, 12}
  {
    MatchesExactly(l, e, token);
  }

  /** More views never count less, and all of them count less than a match in the title or a keyword. */
  lemma HeatGrows(m: int, n: int)
    requires m <= n
    ensures Heat(m) <= Heat(n) <= 8 && (Heat(m) == 0 <==> m <= 0) && (Heat(m) == 8 <==> m >= 100)
    ensures 0 < m < 100 ==> Heat(m) == if m < 5 then 1 else if m < 20 then 2 else if m < 50 then 4 else 6
  {
  }

  // ---------------------------------------------------------------- what the database finds

  /** A token of at least two characters, not all of them ASCII. */
  predicate IsForDatabase(token: string) {
    |token| > 1 && exists i | 0 <= i < |token| :: token[i] > '\U{7F}'
  }

  /** One of the queried columns contains the token. */
  predicate InColumns(l: Language, e: Entry, token: string) {
    || Has(l, e.title, token) || Has(l, e.summary, token) || Has(l, e.contentText, token) || Has(l, e.routePath, token)
    || Has(l, e.category, token) || Has(l, StoredText(e.keywords), token)
  }

  lemma FindsExactly(l: Language, e: Entry, token: string)
    requires Searchable(l, token)
    ensures Finds(l, e, token) <==> InColumns(l, e, token)
  {
    var columns := Columns(e);
    forall i | 0 <= i < |columns| ensures ColumnLike(l, columns[i], token) <==> Has(l, columns[i], token) {
      LikeIsHas(l, columns[i], token);
    }
    assert columns[0] == e.title && columns[1] == e.summary && columns[2] == e.contentText;
    assert columns[3] == e.routePath && columns[4] == e.category && columns[5] == StoredText(e.keywords);
  }

  /**
   * With tokens without wildcards, an entry is a candidate exactly when one of its columns contains a token that is left to
   * the database, or when there is no such token.
   */
  lemma ColumnsDecide(l: Language, e: Entry, tokens: seq<string>)
    requires forall i | 0 <= i < |tokens| && IsForDatabase(tokens[i]) :: Searchable(l, tokens[i])
    ensures Prefilter(l, e, tokens) <==>
            || (forall i | 0 <= i < |tokens| :: !IsForDatabase(tokens[i]))
            || exists i | 0 <= i < |tokens| :: IsForDatabase(tokens[i]) && InColumns(l, e, tokens[i])
  {
    forall i | 0 <= i < |tokens|
      ensures Prefilterable(tokens[i]) <==> IsForDatabase(tokens[i])
      ensures IsForDatabase(tokens[i]) ==> (Finds(l, e, tokens[i]) <==> InColumns(l, e, tokens[i]))
    {
      assert forall k | 0 <= k < |tokens[i]| :: !Ascii(tokens[i][k]) <==> tokens[i][k] > '\U{7F}';
      if IsForDatabase(tokens[i]) {
        FindsExactly(l, e, tokens[i]);
      }
    }
  }
}
