/** The machine form of keys and option values: lower-case letters, digits and single inner dashes. */
module MachineValues {
  import opened Text

  predicate Letter(c: char) {
    'a' <= c <= 'z' || '0' <= c <= '9'
  }

  predicate EndsInDash(s: string) {
    s != "" && s[|s| - 1] == '-'
  }

  function Extend(acc: string, c: char): string {
    if 'A' <= c <= 'Z' then acc + [c - 'A' + 'a']
    else if Letter(c) then acc + [c]
    else if acc == "" || EndsInDash(acc) then acc
    else acc + ['-']
  }

  /** Every run of other characters becomes one dash, none at the start. */
  function Dashed(s: string): string {
    if s == "" then "" else Extend(Dashed(s[..|s| - 1]), s[|s| - 1])
  }

  function WithoutDashes(s: string): string {
    if EndsInDash(s) then WithoutDashes(s[..|s| - 1]) else s
  }

  function Slug(s: string): string {
    WithoutDashes(Dashed(s))
  }

  method MachineValue(value: string) returns (result: string)
    ensures result == Slug(value)
  {
    result := "";
    var lastWasSeparator := false;
    for i := 0 to |value|
      invariant result == Dashed(value[..i])
      invariant lastWasSeparator == EndsInDash(result)
    {
      assert value[..i + 1][..i] == value[..i];
      var c := value[i];
      if 'A' <= c <= 'Z' {
        result := result + [c - 'A' + 'a'];
        lastWasSeparator := false;
      } else if Letter(c) {
        result := result + [c];
        lastWasSeparator := false;
      } else {
        if |result| == 0 || lastWasSeparator {
          continue;
        }
        result := result + ['-'];
        lastWasSeparator := true;
      }
    }
    assert value[..|value|] == value;
    while |result| > 0 && result[|result| - 1] == '-'
      invariant WithoutDashes(result) == Slug(value)
    {
      result := result[..|result| - 1];
    }
  }

  /** No dash at the start and no two dashes in a row. */
  ghost predicate DashShape(s: string) {
    && (forall i | 0 <= i < |s| :: 'a' <= s[i] <= 'z' || '0' <= s[i] <= '9' || s[i] == '-')
    && (s != "" ==> s[0] != '-')
    && (forall i | 0 < i < |s| :: s[i] == '-' ==> s[i - 1] != '-')
  }

  ghost predicate SlugShape(s: string) {
    DashShape(s) && !EndsInDash(s)
  }

  lemma ExtendKeepsShape(acc: string, c: char)
    requires DashShape(acc)
    ensures DashShape(Extend(acc, c))
  {
    var longer := Extend(acc, c);
    assert forall i | 0 <= i < |acc| :: longer[i] == acc[i];
    if |longer| > |acc| && acc != "" {
      assert longer[|acc| - 1] == acc[|acc| - 1];
    }
  }

  lemma {:induction false} DashedHasShape(s: string)
    ensures DashShape(Dashed(s))
  {
    if s != "" {
      DashedHasShape(s[..|s| - 1]);
      ExtendKeepsShape(Dashed(s[..|s| - 1]), s[|s| - 1]);
    }
  }

  lemma SlugHasShape(s: string)
    ensures SlugShape(Slug(s))
  {
    DashedHasShape(s);
    var d := Dashed(s);
    if EndsInDash(d) {
      var front := d[..|d| - 1];
      assert d[|d| - 1] == '-' && |d| > 1;
      assert front[|front| - 1] == d[|d| - 2] != '-';
      assert forall i | 0 <= i < |front| :: front[i] == d[i];
      assert WithoutDashes(front) == front;
    }
  }

  lemma {:induction false} ShapeIsDashed(s: string)
    requires DashShape(s)
    ensures Dashed(s) == s
  {
    if s != "" {
      var front := s[..|s| - 1];
      ShapeIsDashed(front);
      assert s == front + [s[|s| - 1]];
    }
  }

  /** The machine form of a machine form is itself. */
  lemma SlugAgain(s: string)
    ensures Slug(Slug(s)) == Slug(s)
  {
    SlugHasShape(s);
    ShapeIsDashed(Slug(s));
  }

  lemma SlugHasNoSpace(s: string)
    ensures TrimSpace(Slug(s)) == Slug(s) && forall i | 0 <= i < |Slug(s)| :: Slug(s)[i] != ':'
  {
    SlugHasShape(s);
    var slug := Slug(s);
    assert forall i | 0 <= i < |slug| :: !UnicodeSpace(slug[i]);
    TrimOfTight(slug);
  }

  lemma {:induction false} DashedBlankBefore(blank: string, s: string)
    requires Blank(blank, UnicodeSpace)
    ensures Dashed(blank + s) == Dashed(s)
    decreases |blank| + |s|
  {
    var all := blank + s;
    if s != "" {
      assert all[..|all| - 1] == blank + s[..|s| - 1];
      DashedBlankBefore(blank, s[..|s| - 1]);
    } else if blank != "" {
      assert all == blank;
      assert blank[..|blank| - 1] + "" == blank[..|blank| - 1];
      DashedBlankBefore(blank[..|blank| - 1], "");
    }
  }

  lemma {:induction false} DashedBlankAfter(s: string, blank: string)
    requires Blank(blank, UnicodeSpace)
    ensures WithoutDashes(Dashed(s + blank)) == WithoutDashes(Dashed(s))
  {
    if blank == "" {
      assert s + blank == s;
    } else {
      var front := blank[..|blank| - 1];
      DashedBlankAfter(s, front);
      var d := Dashed(s + front);
      assert (s + blank)[..|s + blank| - 1] == s + front;
      assert (d + ['-'])[..|d|] == d;
    }
  }

  /** White space at the ends makes no difference. */
  lemma SlugOfTrimmed(s: string)
    ensures Slug(TrimSpace(s)) == Slug(s)
  {
    var a, b := TrimSplits(s, UnicodeSpace);
    DashedBlankAfter(a + TrimSpace(s), b);
    DashedBlankBefore(a, TrimSpace(s));
  }

  // ---------------------------------------------------------------- what the machine form says

  predicate WordChar(c: char) {
    'A' <= c <= 'Z' || 'a' <= c <= 'z' || '0' <= c <= '9'
  }

  function Small(c: char): char {
    if 'A' <= c <= 'Z' then c - 'A' + 'a' else c
  }

  predicate EndsInWord(s: string) {
    s != "" && WordChar(s[|s| - 1])
  }

  /** The runs of letters and digits, in lower case. */
  function Words(s: string): (words: seq<string>)
    ensures EndsInWord(s) ==> words != []
  {
    if s == "" then []
    else
      var front, c := s[..|s| - 1], s[|s| - 1];
      var words := Words(front);
      if !WordChar(c) then words
      else if EndsInWord(front) then words[..|words| - 1] + [words[|words| - 1] + [Small(c)]]
      else words + [[Small(c)]]
  }

  lemma {:induction false} JoinMore(words: seq<string>, word: string)
    ensures Join(words + [word], "-") == if words == [] then word else Join(words, "-") + "-" + word
  {
    if |words| > 0 {
      assert (words + [word])[1..] == words[1..] + [word];
      JoinMore(words[1..], word);
      if |words| > 1 {
        var rest := Join(words[1..], "-");
        assert words[0] + "-" + (rest + "-" + word) == words[0] + "-" + rest + "-" + word;
      }
    }
  }

  lemma LongerLast(front: seq<string>, last: string, c: char)
    ensures Join(front + [last + [c]], "-") == Join(front + [last], "-") + [c]
  {
    JoinMore(front, last);
    JoinMore(front, last + [c]);
    Regroup(Join(front, "-") + "-", last, [c]);
  }

  lemma JoinLonger(words: seq<string>, c: char)
    requires words != []
    ensures Join(words[..|words| - 1] + [words[|words| - 1] + [c]], "-") == Join(words, "-") + [c]
  {
    LongerLast(words[..|words| - 1], words[|words| - 1], c);
    assert words == words[..|words| - 1] + [words[|words| - 1]];
  }

  /** No word is empty and none ends in a dash. */
  lemma {:induction false} JoinEndsInWord(s: string)
    ensures Words(s) == [] <==> Join(Words(s), "-") == ""
    ensures !EndsInDash(Join(Words(s), "-"))
  {
    if s != "" {
      var front, c := s[..|s| - 1], s[|s| - 1];
      JoinEndsInWord(front);
      if WordChar(c) && EndsInWord(front) {
        JoinLonger(Words(front), Small(c));
      } else if WordChar(c) {
        JoinMore(Words(front), [Small(c)]);
      }
    }
  }

  lemma {:induction false} DashedIsJoined(s: string)
    ensures Dashed(s) == Join(Words(s), "-") + (if EndsInWord(s) || Words(s) == [] then "" else "-")
  {
    if s != "" {
      var front, c := s[..|s| - 1], s[|s| - 1];
      DashedIsJoined(front);
      JoinEndsInWord(front);
      if WordChar(c) && EndsInWord(front) {
        JoinLonger(Words(front), Small(c));
      } else if WordChar(c) {
        JoinMore(Words(front), [Small(c)]);
      }
    }
  }

  /** The machine form is the words of the text joined by dashes. */
  lemma SlugJoinsWords(s: string)
    ensures Slug(s) == Join(Words(s), "-")
  {
    DashedIsJoined(s);
    JoinEndsInWord(s);
    var joined := Join(Words(s), "-");
    if Dashed(s) != joined {
      assert (joined + "-")[..|joined|] == joined;
      assert WithoutDashes(joined + "-") == WithoutDashes(joined);
    }
  }
}
