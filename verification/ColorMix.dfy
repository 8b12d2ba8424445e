/**
 * The text rewriting of the Chrome 109 colour pass: nested `color-mix(in oklab, X w, transparent)`
 * becomes one `rgb(channels / calc(alpha * w1 * ... * wn))`.
 */
module ColorMix {
  import opened Text

  // ---------------------------------------------------------------- the grammar of describable mixes

  datatype Weight = Percent(digits: string) | ShadowAlpha

  /** A colour: a theme token, or a colour mixed with `transparent`. */
  datatype Mix = Token(name: string) | Mixed(source: Mix, weight: Weight)

  /** The optional white space around the parts of one `color-mix`. */
  datatype Gaps = Gaps(open: string, space: string, color: string, weight: string,
                       afterWeight: string, target: string, close: string)

  const OPEN := "color-mix("
  const SPACE := "in oklab"
  const TARGET := "transparent"
  const SHADOW_ALPHA := VarText("--tw-shadow-alpha")

  /** White space of JavaScript's `\s` and `String.prototype.trim`. */
  predicate IsSpace(c: char) {
    var n := c as int;
    9 <= n <= 13 || n == 32 || n == 0xA0 || n == 0x1680 || 0x2000 <= n <= 0x200A || n == 0x2028 || n == 0x2029
    || n == 0x202F || n == 0x205F || n == 0x3000 || n == 0xFEFF
  }

  predicate IsNameChar(c: char) {
    'a' <= c <= 'z' || 'A' <= c <= 'Z' || '0' <= c <= '9' || c == '_' || c == '-'
  }

  predicate IsTokenName(t: string) {
    |t| >= 3 && t[0] == '-' && t[1] == '-' && forall i | 0 <= i < |t| :: IsNameChar(t[i])
  }

  predicate IsWeight(w: Weight) {
    w.Percent? ==> w.digits != "" && forall i | 0 <= i < |w.digits| :: '0' <= w.digits[i] <= '9' || w.digits[i] == '.'
  }

  function VarText(t: string): string { "var" + "(" + t + ")" }

  function WeightText(w: Weight): string {
    match w
    case Percent(d) => d + "%"
    case ShadowAlpha => SHADOW_ALPHA
  }

  ghost predicate BlankGaps(g: Gaps) {
    && Blank(g.open, IsSpace) && Blank(g.space, IsSpace) && Blank(g.color, IsSpace) && Blank(g.weight, IsSpace)
    && Blank(g.afterWeight, IsSpace) && Blank(g.target, IsSpace) && Blank(g.close, IsSpace) && g.weight != ""
  }

  function Middle(g: Gaps, source: string, w: Weight): string {
    g.color + (source + g.weight + WeightText(w)) + g.afterWeight
  }

  function Body(g: Gaps, source: string, w: Weight): string {
    (g.open + SPACE + g.space) + "," + Middle(g, source, w) + "," + (g.target + TARGET + g.close)
  }

  ghost predicate SpellsMixed(text: string, m: Mix, g: Gaps, source: string)
    requires m.Mixed?
    decreases m, 0
  {
    BlankGaps(g) && IsWeight(m.weight) && Spells(source, m.source) && text == OPEN + Body(g, source, m.weight) + ")"
  }

  /** `text` is one of the spellings of the colour m. */
  ghost predicate Spells(text: string, m: Mix)
    decreases m
  {
    match m
    case Token(t) => IsTokenName(t) && text == VarText(t)
    case Mixed(_, _) => exists g: Gaps, source: string :: SpellsMixed(text, m, g, source)
  }

  ghost predicate IsGrammarName(t: string) {
    |t| > 2 && t[..2] == "--" && forall i | 2 <= i < |t| ::
      'a' <= t[i] <= 'z' || 'A' <= t[i] <= 'Z' || '0' <= t[i] <= '9' || t[i] == '_' || t[i] == '-'
  }

  ghost predicate IsGrammarWeight(w: Weight, text: string) {
    match w
    case Percent(digits) =>
      text == digits + "%" && digits != "" && forall i | 0 <= i < |digits| :: '0' <= digits[i] <= '9' || digits[i] == '.'
    case ShadowAlpha => text == "var(--tw-shadow-alpha)"
  }

  function WrittenOut(g: Gaps, source: string, weight: string): string {
    "color-mix(" + ((g.open + "in oklab" + g.space) + "," + (g.color + (source + g.weight + weight) + g.afterWeight) + ","
                    + (g.target + "transparent" + g.close)) + ")"
  }

  ghost predicate MixedAs(text: string, m: Mix, g: Gaps, source: string, weight: string)
    requires m.Mixed?
  {
    BlankGaps(g) && Spells(source, m.source) && IsGrammarWeight(m.weight, weight) && text == WrittenOut(g, source, weight)
  }

  /** The grammar written out: a reference to a property, or a mix with transparent, white space allowed between the parts. */
  lemma GrammarWrittenOut(text: string, m: Mix)
    ensures m.Token? ==> (Spells(text, m) <==> IsGrammarName(m.name) && text == "var(" + m.name + ")")
    ensures m.Mixed? ==> (Spells(text, m) <==> exists g, source, weight :: MixedAs(text, m, g, source, weight))
  {
    if m.Token? {
      assert VarText(m.name) == "var(" + m.name + ")";
      NameWrittenOut(m.name);
    } else {
      WeightWrittenOut(m.weight, WeightText(m.weight));
      if g, source :| SpellsMixed(text, m, g, source) {
        assert MixedAs(text, m, g, source, WeightText(m.weight));
      }
      if g, source, weight :| MixedAs(text, m, g, source, weight) {
        WeightWrittenOut(m.weight, weight);
        assert SpellsMixed(text, m, g, source);
      }
    }
  }

  lemma NameWrittenOut(t: string)
    ensures IsTokenName(t) <==> IsGrammarName(t)
  {
    assert |t| > 2 ==> (t[..2] == "--" <==> t[0] == '-' && t[1] == '-');
  }

  lemma WeightWrittenOut(w: Weight, text: string)
    ensures IsGrammarWeight(w, text) <==> IsWeight(w) && text == WeightText(w)
  {
    assert SHADOW_ALPHA == "var(--tw-shadow-alpha)";
  }

  function TokenOf(m: Mix): string {
    match m
    case Token(t) => t
    case Mixed(s, _) => TokenOf(s)
  }

  /** The weights from the innermost mix outwards. */
  function WeightsOf(m: Mix): seq<Weight> {
    match m
    case Token(_) => []
    case Mixed(s, w) => WeightsOf(s) + [w]
  }

  // ---------------------------------------------------------------- splitting the arguments

  function Step(c: char, depth: int): int {
    if c == '(' then depth + 1 else if c == ')' then depth - 1 else depth
  }

  /** The arguments before trimming; `current` is the part of the first one already read. */
  function RawArguments(rest: string, depth: int, current: string): (r: seq<string>)
    ensures r != [] && forall i | 0 <= i < |r| :: |r[i]| <= |current| + |rest|
  {
    if rest == "" then [current]
    else if rest[0] == ',' && depth == 0 then [current] + RawArguments(rest[1..], 0, "")
    else RawArguments(rest[1..], Step(rest[0], depth), current + [rest[0]])
  }

  function TrimAll(parts: seq<string>): (r: seq<string>)
    ensures |r| == |parts| && forall i | 0 <= i < |r| :: r[i] == Trim(parts[i], IsSpace)
  {
    if parts == [] then [] else [Trim(parts[0], IsSpace)] + TrimAll(parts[1..])
  }

  function Arguments(value: string): (r: seq<string>)
    ensures forall i | 0 <= i < |r| :: |r[i]| <= |value|
  {
    TrimAll(RawArguments(value, 0, ""))
  }

  lemma {:induction false} TrimAllAppends(a: seq<string>, x: string)
    ensures TrimAll(a + [x]) == TrimAll(a) + [Trim(x, IsSpace)]
  {
    if a == [] {
    } else {
      assert (a + [x])[1..] == a[1..] + [x];
      TrimAllAppends(a[1..], x);
    }
  }

  /** What reading the character at `index` does to the arguments still to come. */
  lemma RawArgumentsStep(value: string, start: nat, index: nat, depth: int)
    requires start <= index < |value|
    ensures RawArguments(value[index..], depth, value[start..index]) ==
            if value[index] == ',' && depth == 0
            then [value[start..index]] + RawArguments(value[index + 1..], 0, value[index + 1..index + 1])
            else RawArguments(value[index + 1..], Step(value[index], depth), value[start..index + 1])
  {
    assert value[index..][1..] == value[index + 1..];
    assert value[start..index] + [value[index]] == value[start..index + 1];
    assert value[index + 1..index + 1] == "";
  }

  /** The loop over `start`, `depth` and `index` that collects trimmed top-level arguments. */
  method SplitTopLevelArguments(value: string) returns (arguments: seq<string>)
    ensures arguments == Arguments(value)
  {
    arguments := [];
    var depth, start := 0, 0;
    ghost var raw := [];
    ghost var all := RawArguments(value, 0, "");
    assert value[0..0] == "" && value[0..] == value;
    for index := 0 to |value|
      invariant 0 <= start <= index
      invariant arguments == TrimAll(raw)
      invariant raw + RawArguments(value[index..], depth, value[start..index]) == all
    {
      RawArgumentsStep(value, start, index, depth);
      var c := value[index];
      if c == '(' { depth := depth + 1; }
      if c == ')' { depth := depth - 1; }
      if c == ',' && depth == 0 {
        ghost var piece, rest := value[start..index], RawArguments(value[index + 1..], 0, value[index + 1..index + 1]);
        assert raw + ([piece] + rest) == (raw + [piece]) + rest;
        TrimAllAppends(raw, piece);
        arguments := arguments + [Trim(value[start..index], IsSpace)];
        raw := raw + [piece];
        start := index + 1;
      }
    }
    assert value[start..] == value[start..|value|];
    TrimAllAppends(raw, value[start..]);
    arguments := arguments + [Trim(value[start..], IsSpace)];
    assert raw + [value[start..]] == all;
  }

  /** Joining the untrimmed arguments with commas gives the text back. */
  lemma {:induction false} RawArgumentsJoin(rest: string, depth: int, current: string)
    ensures Join(RawArguments(rest, depth, current), ",") == current + rest
    decreases |rest|
  {
    if rest == "" {
    } else if rest[0] == ',' && depth == 0 {
      RawArgumentsJoin(rest[1..], 0, "");
      assert "" + rest[1..] == rest[1..];
      assert current + "," + rest[1..] == current + rest;
    } else {
      RawArgumentsJoin(rest[1..], Step(rest[0], depth), current + [rest[0]]);
      assert current + [rest[0]] + rest[1..] == current + rest;
    }
  }

  // ---------------------------------------------------------------- describing a mix

  function VarName(s: string): string
    requires |s| >= 5
  {
    s[4..|s| - 1]
  }

  /** The regular expression of a reference to a custom property. */
  predicate IsVar(s: string) {
    |s| >= 5 && s[0] == 'v' && s[1] == 'a' && s[2] == 'r' && s[3] == '(' && s[|s| - 1] == ')' && IsTokenName(VarName(s))
  }

  predicate IsMixShape(s: string) {
    |s| >= 12 && StartsWith(s, OPEN) && s[|s| - 1] == ')'
  }

  /** The text of a weight: digits and dots before a percent sign, or the shadow alpha. */
  function ParseWeight(s: string): Option<Weight> {
    if s == SHADOW_ALPHA then Some(ShadowAlpha)
    else if s != "" && s[|s| - 1] == '%' && IsWeight(Percent(s[..|s| - 1])) then Some(Percent(s[..|s| - 1]))
    else None
  }

  /** The position after the last white space, 0 when there is none. */
  function AfterLastSpace(s: string): (k: nat)
    ensures k <= |s| && (k > 0 ==> IsSpace(s[k - 1])) && forall i | k <= i < |s| :: !IsSpace(s[i])
  {
    if s == "" then 0
    else if IsSpace(s[|s| - 1]) then |s|
    else
      AfterLastSpace(s[..|s| - 1])
  }

  /** The regular expression of a weighted colour: source, white space, weight. */
  ghost predicate Weighted(arg: string, source: string, gap: string, w: Weight) {
    && (IsVar(source) || IsMixShape(source)) && gap != "" && Blank(gap, IsSpace) && IsWeight(w)
    && arg == source + gap + WeightText(w)
  }

  function MatchWeighted(arg: string): (r: Option<(string, Weight)>)
    ensures r.Some? ==> |r.value.0| < |arg|
  {
    var k := AfterLastSpace(arg);
    var source, weight := TrimRight(arg[..k], IsSpace), ParseWeight(arg[k..]);
    if k > 0 && weight.Some? && (IsVar(source) || IsMixShape(source)) then Some((source, weight.value)) else None
  }

  lemma WeightTextInverse(w: Weight)
    requires IsWeight(w)
    ensures ParseWeight(WeightText(w)) == Some(w) && WeightText(w) != ""
    ensures forall i | 0 <= i < |WeightText(w)| :: !IsSpace(WeightText(w)[i])
  {
    if w.Percent? {
      assert WeightText(w)[..|w.digits|] == w.digits;
      assert WeightText(w)[|WeightText(w)| - 1] == '%';
      assert SHADOW_ALPHA[|SHADOW_ALPHA| - 1] == ')';
    }
  }

  lemma ParseWeightSound(s: string)
    ensures ParseWeight(s).Some? ==> IsWeight(ParseWeight(s).value) && WeightText(ParseWeight(s).value) == s
  {
    if s != "" {
      assert s == s[..|s| - 1] + [s[|s| - 1]];
    }
  }

  lemma {:induction false} AfterLastSpaceOf(a: string, b: string)
    requires a != "" && IsSpace(a[|a| - 1])
    requires forall i | 0 <= i < |b| :: !IsSpace(b[i])
    ensures AfterLastSpace(a + b) == |a|
  {
    var s := a + b;
    assert s[|a| - 1] == a[|a| - 1];
    assert forall i | |a| <= i < |s| :: s[i] == b[i - |a|];
  }

  /** The greedy match is exactly the regular expression: complete and unambiguous. */
  lemma MatchWeightedComplete(arg: string, source: string, gap: string, w: Weight)
    requires Weighted(arg, source, gap, w)
    ensures MatchWeighted(arg) == Some((source, w))
  {
    var a := source + gap;
    assert a[|a| - 1] == gap[|gap| - 1];
    WeightTextInverse(w);
    AfterLastSpaceOf(a, WeightText(w));
    assert arg[..|a|] == a && arg[|a|..] == WeightText(w);
    assert TrimRight(a, IsSpace) == source by {
      EndsInParenthesis(source);
      TrimRightBlankSuffix(source, gap, IsSpace);
      AlreadyTrimmed(source);
    }
  }

  lemma EndsInParenthesis(source: string)
    requires IsVar(source) || IsMixShape(source)
    ensures source != "" && source[|source| - 1] == ')'
  {
  }

  lemma AlreadyTrimmed(s: string)
    requires s != "" && !IsSpace(s[|s| - 1])
    ensures TrimRight(s, IsSpace) == s
  {
  }

  lemma MatchWeightedSound(arg: string) returns (gap: string)
    requires MatchWeighted(arg).Some?
    ensures Weighted(arg, MatchWeighted(arg).value.0, gap, MatchWeighted(arg).value.1)
  {
    var k := AfterLastSpace(arg);
    gap := TrimRightSplits(arg[..k], IsSpace);
    ParseWeightSound(arg[k..]);
    assert arg == arg[..k] + arg[k..];
    assert arg[..k][k - 1] == arg[k - 1];
  }

  datatype Description = Description(token: string, weights: seq<Weight>)

  /** The weighted colour of `color-mix(in oklab, weighted colour, transparent)`. */
  function WeightedPart(value: string): (r: Option<(string, Weight)>)
    ensures r.Some? ==> |r.value.0| < |value|
  {
    if |value| < 11 || !StartsWith(value, OPEN) || value[|value| - 1] != ')' then None
    else
      var arguments := Arguments(value[10..|value| - 1]);
      if |arguments| != 3 || arguments[0] != SPACE || arguments[2] != TARGET then None
      else MatchWeighted(arguments[1])
  }

  function Describe(value: string, known: set<string>): Option<Description>
    decreases |value|
  {
    match WeightedPart(value)
    case None => None
    case Some((source, weight)) =>
      var inner := if IsVar(source) then DescribeToken(VarName(source), known) else Describe(source, known);
      if inner.None? then None else Some(Description(inner.value.token, inner.value.weights + [weight]))
  }

  function DescribeToken(token: string, known: set<string>): Option<Description> {
    if token in known then Some(Description(token, [])) else None
  }

  // ---------------------------------------------------------------- parenthesis depth of spelled colours

  /** The depth after p when no comma is met at depth 0. */
  ghost function Walk(p: string, depth: int): Option<int> {
    if p == "" then Some(depth)
    else if p[0] == ',' && depth == 0 then None
    else Walk(p[1..], Step(p[0], depth))
  }

  /** The depth after p when it stays positive throughout. */
  ghost function Nest(p: string, depth: int): (r: Option<int>)
    requires depth >= 1
    ensures r.Some? ==> r.value >= 1
  {
    if p == "" then Some(depth)
    else if Step(p[0], depth) < 1 then None
    else Nest(p[1..], Step(p[0], depth))
  }

  ghost predicate Plain(p: string) {
    forall i | 0 <= i < |p| :: p[i] != '(' && p[i] != ')'
  }

  /** No parenthesis and no comma. */
  ghost predicate Smooth(p: string) {
    forall i | 0 <= i < |p| :: p[i] != '(' && p[i] != ')' && p[i] != ','
  }

  lemma {:induction false} NestAppend(p: string, q: string, depth: int)
    requires depth >= 1 && Nest(p, depth).Some?
    ensures Nest(p + q, depth) == Nest(q, Nest(p, depth).value)
  {
    if p == "" {
      assert p + q == q;
    } else {
      assert (p + q)[1..] == p[1..] + q;
      NestAppend(p[1..], q, Step(p[0], depth));
    }
  }

  lemma {:induction false} NestPlain(p: string, depth: int)
    requires depth >= 1 && Plain(p)
    ensures Nest(p, depth) == Some(depth)
  {
    if p == "" {
    } else {
      NestPlain(p[1..], depth);
    }
  }

  lemma {:induction false} NestIsWalk(p: string, depth: int)
    requires depth >= 1 && Nest(p, depth).Some?
    ensures Walk(p, depth) == Nest(p, depth)
  {
    if p == "" {
    } else {
      NestIsWalk(p[1..], Step(p[0], depth));
    }
  }

  lemma {:induction false} WalkAppend(p: string, q: string, depth: int)
    requires Walk(p, depth).Some?
    ensures Walk(p + q, depth) == Walk(q, Walk(p, depth).value)
  {
    if p == "" {
      assert p + q == q;
    } else {
      assert (p + q)[1..] == p[1..] + q;
      WalkAppend(p[1..], q, Step(p[0], depth));
    }
  }

  lemma {:induction false} WalkPlain(p: string, depth: int)
    requires Smooth(p)
    ensures Walk(p, depth) == Some(depth)
  {
    if p == "" {
    } else {
      WalkPlain(p[1..], depth);
    }
  }

  /** A function-like text `head(inner)` returns to the depth it started from. */
  lemma GroupKeepsDepth(head: string, inner: string, depth: int)
    requires depth >= 0 && Smooth(head) && Nest(inner, depth + 1) == Some(depth + 1)
    ensures Walk(head + "(" + inner + ")", depth) == Some(depth)
    ensures depth >= 1 ==> Nest(head + "(" + inner + ")", depth) == Some(depth)
  {
    assert (head + "(") + inner + ")" == head + ("(" + (inner + ")"));
    assert ("(" + (inner + ")"))[1..] == inner + ")";
    NestIsWalk(inner, depth + 1);
    WalkAppend(inner, ")", depth + 1);
    WalkPlain(head, depth);
    WalkAppend(head, "(" + (inner + ")"), depth);
    if depth >= 1 {
      NestAppend(inner, ")", depth + 1);
      NestPlain(head, depth);
      NestAppend(head, "(" + (inner + ")"), depth);
    }
  }

  /** A weight keeps the depth: a percentage is plain text, the shadow alpha is a group. */
  lemma WeightKeepsDepth(w: Weight, depth: int)
    requires depth >= 0 && IsWeight(w)
    ensures Walk(WeightText(w), depth) == Some(depth)
    ensures depth >= 1 ==> Nest(WeightText(w), depth) == Some(depth)
  {
    match w
    case Percent(d) =>
      WalkPlain(WeightText(w), depth);
      if depth >= 1 { NestPlain(WeightText(w), depth); }
    case ShadowAlpha => ShadowAlphaKeepsDepth(depth);
  }

  lemma ShadowAlphaKeepsDepth(depth: int)
    requires depth >= 0
    ensures Walk(SHADOW_ALPHA, depth) == Some(depth)
    ensures depth >= 1 ==> Nest(SHADOW_ALPHA, depth) == Some(depth)
  {
    var inner := "--tw-shadow-alpha";
    NestPlain(inner, depth + 1);
    GroupKeepsDepth("var", inner, depth);
  }

  /** Inside the parentheses of a mix the depth stays positive. */
  lemma BodyNests(g: Gaps, source: string, w: Weight, depth: int)
    requires depth >= 1 && BlankGaps(g) && IsWeight(w) && Nest(source, depth) == Some(depth)
    ensures Nest(Body(g, source, w), depth) == Some(depth)
  {
    var first, last := g.open + SPACE + g.space, g.target + TARGET + g.close;
    assert Plain(first) && Plain(last) && Plain(",");
    NestPlain(first, depth); NestPlain(",", depth); NestPlain(last, depth);
    MiddleNests(g.color, source, g.weight, w, g.afterWeight, depth);
    var middle := Middle(g, source, w);
    NestAppend(first, ",", depth);
    NestAppend(first + ",", middle, depth);
    NestAppend(first + "," + middle, ",", depth);
    NestAppend(first + "," + middle + ",", last, depth);
  }

  lemma MiddleNests(color: string, source: string, gap: string, w: Weight, after: string, depth: int)
    requires depth >= 1 && IsWeight(w) && Nest(source, depth) == Some(depth)
    requires Blank(color, IsSpace) && Blank(gap, IsSpace) && Blank(after, IsSpace)
    ensures Nest(color + (source + gap + WeightText(w)) + after, depth) == Some(depth)
  {
    NestPlain(color, depth); NestPlain(gap, depth); NestPlain(after, depth);
    WeightKeepsDepth(w, depth);
    NestAppend(source, gap, depth);
    NestAppend(source + gap, WeightText(w), depth);
    NestAppend(color, source + gap + WeightText(w), depth);
    NestAppend(color + (source + gap + WeightText(w)), after, depth);
  }

  /** A spelled colour keeps the depth it started from, at every depth. */
  lemma {:induction false} SpellingKeepsDepth(text: string, m: Mix, depth: int)
    requires depth >= 0 && Spells(text, m)
    ensures Walk(text, depth) == Some(depth)
    ensures depth >= 1 ==> Nest(text, depth) == Some(depth)
    decreases m
  {
    match m
    case Token(t) =>
      NestPlain(t, depth + 1);
      assert text == "var" + "(" + t + ")";
      GroupKeepsDepth("var", t, depth);
    case Mixed(s, w) =>
      var g, source :| SpellsMixed(text, m, g, source);
      SpellingKeepsDepth(source, s, depth + 1);
      BodyNests(g, source, w, depth + 1);
      assert text == "color-mix" + "(" + Body(g, source, w) + ")";
      GroupKeepsDepth("color-mix", Body(g, source, w), depth);
  }

  // ---------------------------------------------------------------- describing is parsing

  lemma {:induction false} ArgumentsSkip(p: string, rest: string, depth: int, current: string)
    requires Walk(p, depth).Some?
    ensures RawArguments(p + rest, depth, current) == RawArguments(rest, Walk(p, depth).value, current + p)
  {
    if p == "" {
      assert p + rest == rest && current + p == current;
    } else {
      assert (p + rest)[1..] == p[1..] + rest;
      ArgumentsSkip(p[1..], rest, Step(p[0], depth), current + [p[0]]);
      assert current + [p[0]] + p[1..] == current + p;
    }
  }

  lemma ArgumentThen(a: string, rest: string)
    requires Walk(a, 0) == Some(0)
    ensures RawArguments(a + ("," + rest), 0, "") == [a] + RawArguments(rest, 0, "")
  {
    ArgumentsSkip(a, "," + rest, 0, "");
    assert ("," + rest)[1..] == rest && "" + a == a;
  }

  lemma LastArgument(a: string)
    requires Walk(a, 0) == Some(0)
    ensures RawArguments(a, 0, "") == [a]
  {
    ArgumentsSkip(a, "", 0, "");
    assert a + "" == a && "" + a == a;
  }

  lemma ArgumentsOfThree(a: string, b: string, c: string)
    requires Walk(a, 0) == Some(0) && Walk(b, 0) == Some(0) && Walk(c, 0) == Some(0)
    ensures RawArguments(a + "," + b + "," + c, 0, "") == [a, b, c]
  {
    assert a + "," + b + "," + c == a + ("," + (b + ("," + c)));
    ArgumentThen(a, b + ("," + c));
    ArgumentThen(b, c);
    LastArgument(c);
  }

  lemma SmoothPiece(l: string, m: string, t: string)
    requires Blank(l, IsSpace) && Smooth(m) && Blank(t, IsSpace)
    ensures Walk(l + m + t, 0) == Some(0)
  {
    WalkPlain(l + m + t, 0);
  }

  lemma WeightedPieceKeepsDepth(color: string, source: string, gap: string, w: Weight, after: string)
    requires Blank(color, IsSpace) && Blank(gap, IsSpace) && Blank(after, IsSpace) && IsWeight(w)
    requires Walk(source, 0) == Some(0)
    ensures Walk(color + (source + gap + WeightText(w)) + after, 0) == Some(0)
  {
    WalkPlain(color, 0); WalkPlain(gap, 0); WalkPlain(after, 0);
    WeightKeepsDepth(w, 0);
    WalkAppend(source, gap, 0);
    WalkAppend(source + gap, WeightText(w), 0);
    WalkAppend(color, source + gap + WeightText(w), 0);
    WalkAppend(color + (source + gap + WeightText(w)), after, 0);
  }

  lemma TrimThree(a: string, b: string, c: string)
    ensures TrimAll([a, b, c]) == [Trim(a, IsSpace), Trim(b, IsSpace), Trim(c, IsSpace)]
  {
  }

  /** The three arguments of a spelled mix. */
  lemma ArgumentsOfBody(m: Mix, g: Gaps, source: string)
    requires m.Mixed? && BlankGaps(g) && IsWeight(m.weight) && Spells(source, m.source)
    ensures Arguments(Body(g, source, m.weight)) == [SPACE, source + g.weight + WeightText(m.weight), TARGET]
  {
    var a, b, c := g.open + SPACE + g.space, Middle(g, source, m.weight), g.target + TARGET + g.close;
    SmoothPiece(g.open, SPACE, g.space);
    SmoothPiece(g.target, TARGET, g.close);
    SpellingKeepsDepth(source, m.source, 0);
    WeightedPieceKeepsDepth(g.color, source, g.weight, m.weight, g.afterWeight);
    ArgumentsOfThree(a, b, c);
    TrimFinds(g.open, SPACE, g.space, IsSpace);
    TrimFinds(g.target, TARGET, g.close, IsSpace);
    MiddleTrims(g, source, m);
    TrimThree(a, b, c);
  }

  /** The source and the weight of a spelled mix are recovered whatever the gaps are. */
  lemma WeightedPartOfSpelling(text: string, m: Mix, g: Gaps, source: string)
    requires m.Mixed? && SpellsMixed(text, m, g, source)
    ensures WeightedPart(text) == Some((source, m.weight))
  {
    ArgumentsOfBody(m, g, source);
    SpellingShape(source, m.source);
    MatchWeightedComplete(source + g.weight + WeightText(m.weight), source, g.weight, m.weight);
    Enclose(Body(g, source, m.weight));
  }

  lemma Enclose(body: string)
    ensures var text := OPEN + body + ")";
            |text| >= 11 && StartsWith(text, OPEN) && text[|text| - 1] == ')' && text[10..|text| - 1] == body
  {
  }

  lemma SpellingShape(text: string, m: Mix)
    requires Spells(text, m)
    ensures if m.Token? then IsVar(text) && VarName(text) == m.name else IsMixShape(text) && !IsVar(text)
  {
    match m
    case Token(t) =>
    case Mixed(_, _) =>
      var g, source :| SpellsMixed(text, m, g, source);
      assert text[0] == 'c';
      assert |Body(g, source, m.weight)| >= 1;
  }

  lemma MiddleTrims(g: Gaps, source: string, m: Mix)
    requires m.Mixed? && BlankGaps(g) && IsWeight(m.weight) && Spells(source, m.source)
    ensures Trim(Middle(g, source, m.weight), IsSpace) == source + g.weight + WeightText(m.weight)
  {
    var arg := source + g.weight + WeightText(m.weight);
    SpellingShape(source, m.source);
    WeightTextInverse(m.weight);
    assert Tight(arg, IsSpace) by {
      assert arg[0] == source[0];
      assert arg[|arg| - 1] == WeightText(m.weight)[|WeightText(m.weight)| - 1];
    }
    TrimFinds(g.color, arg, g.afterWeight, IsSpace);
  }

  lemma DescribeNext(text: string, source: string, w: Weight, known: set<string>, inner: Option<Description>)
    requires WeightedPart(text) == Some((source, w))
    requires inner == if IsVar(source) then DescribeToken(VarName(source), known) else Describe(source, known)
    ensures Describe(text, known) ==
            if inner.None? then None else Some(Description(inner.value.token, inner.value.weights + [w]))
  {
  }

  /** Every spelling of a mix of a known token is described by that token and its weights. */
  lemma {:induction false} DescribeComplete(text: string, m: Mix, known: set<string>)
    requires m.Mixed? && Spells(text, m)
    ensures Describe(text, known) ==
            if TokenOf(m) in known then Some(Description(TokenOf(m), WeightsOf(m))) else None
    decreases m
  {
    var g, source :| SpellsMixed(text, m, g, source);
    WeightedPartOfSpelling(text, m, g, source);
    SpellingShape(source, m.source);
    if m.source.Mixed? {
      DescribeComplete(source, m.source, known);
      DescribeNext(text, source, m.weight, known, Describe(source, known));
    } else {
      DescribeNext(text, source, m.weight, known, DescribeToken(VarName(source), known));
    }
  }

  /** A described text spells a mix of a known token with exactly the described weights. */
  lemma {:induction false} DescribeSound(text: string, known: set<string>) returns (m: Mix)
    requires Describe(text, known).Some?
    ensures m.Mixed? && Spells(text, m) && TokenOf(m) in known
    ensures Describe(text, known) == Some(Description(TokenOf(m), WeightsOf(m)))
    decreases |text|
  {
    var (source, w) := WeightedPart(text).value;
    var inner: Mix;
    if IsVar(source) {
      VarSpelling(source);
      inner := Token(VarName(source));
    } else {
      inner := DescribeSound(source, known);
    }
    var g := SpellingOfWeightedPart(text, source, w);
    m := Mixed(inner, w);
    assert SpellsMixed(text, m, g, source);
  }

  lemma VarSpelling(source: string)
    requires IsVar(source)
    ensures Spells(source, Token(VarName(source)))
  {
    var text := VarText(VarName(source));
    assert |text| == |source|;
    assert forall i | 0 <= i < |source| :: text[i] == source[i];
  }

  lemma JoinThree(a: string, b: string, c: string)
    ensures Join([a, b, c], ",") == a + "," + b + "," + c
  {
    assert [a, b, c][1..] == [b, c] && [b, c][1..] == [c];
    assert Join([b, c], ",") == b + "," + c;
  }

  lemma RawThree(body: string)
    requires |Arguments(body)| == 3
    ensures var raw := RawArguments(body, 0, "");
            |raw| == 3 && body == raw[0] + "," + raw[1] + "," + raw[2]
            && forall i | 0 <= i < 3 :: Arguments(body)[i] == Trim(raw[i], IsSpace)
  {
    var raw := RawArguments(body, 0, "");
    RawArgumentsJoin(body, 0, "");
    JoinThree(raw[0], raw[1], raw[2]);
    assert raw == [raw[0], raw[1], raw[2]] && "" + body == body;
  }

  lemma GapsOfArguments(body: string, source: string, w: Weight) returns (g: Gaps)
    requires |Arguments(body)| == 3 && Arguments(body)[0] == SPACE && Arguments(body)[2] == TARGET
    requires MatchWeighted(Arguments(body)[1]) == Some((source, w))
    ensures BlankGaps(g) && IsWeight(w) && body == Body(g, source, w)
  {
    RawThree(body);
    var raw := RawArguments(body, 0, "");
    var open, space := TrimSplits(raw[0], IsSpace);
    var color, afterWeight := TrimSplits(raw[1], IsSpace);
    var target, close := TrimSplits(raw[2], IsSpace);
    var weight := MatchWeightedSound(Trim(raw[1], IsSpace));
    g := Gaps(open, space, color, weight, afterWeight, target, close);
  }

  lemma Enclosed(text: string)
    requires |text| >= 11 && StartsWith(text, OPEN) && text[|text| - 1] == ')'
    ensures text == OPEN + text[10..|text| - 1] + ")"
  {
    assert text[..10] == OPEN;
  }

  lemma SpellingOfWeightedPart(text: string, source: string, w: Weight) returns (g: Gaps)
    requires WeightedPart(text) == Some((source, w))
    ensures BlankGaps(g) && IsWeight(w) && text == OPEN + Body(g, source, w) + ")"
  {
    Enclosed(text);
    g := GapsOfArguments(text[10..|text| - 1], source, w);
  }

  /** Describing decides the grammar: it answers exactly on the spellings of mixes of known tokens. */
  lemma DescribeDecidesGrammar(text: string, known: set<string>, d: Description)
    ensures Describe(text, known) == Some(d) <==>
            exists m: Mix :: m.Mixed? && Spells(text, m) && TokenOf(m) in known
                             && d == Description(TokenOf(m), WeightsOf(m))
  {
    if Describe(text, known) == Some(d) {
      var m := DescribeSound(text, known);
    }
    forall m: Mix | m.Mixed? && Spells(text, m) && TokenOf(m) in known
      ensures Describe(text, known) == Some(Description(TokenOf(m), WeightsOf(m)))
    {
      DescribeComplete(text, m, known);
    }
  }

  // ---------------------------------------------------------------- rewriting a declaration value

  /** How many characters are read until the parentheses opened before `rest` are closed. */
  function CloseAt(rest: string, depth: int): (n: nat)
    ensures n <= |rest|
  {
    if rest == "" || depth <= 0 then 0 else 1 + CloseAt(rest[1..], Step(rest[0], depth))
  }

  /** A value cut into the spans that start with `color-mix(` and the text before, between and after them. */
  datatype Pieces = Rest(text: string) | Piece(before: string, span: string, after: Pieces)

  function CutAt(value: string, k: nat): (end: nat)
    requires k + 10 <= |value|
    ensures k + 10 <= end <= |value|
  {
    k + 10 + CloseAt(value[k + 10..], 1)
  }

  function Cut(value: string): Pieces
    decreases |value|
  {
    match IndexOf(value, OPEN)
    case None => Rest(value)
    case Some(k) => Piece(value[..k], value[k..CutAt(value, k)], Cut(value[CutAt(value, k)..]))
  }

  function Uncut(pieces: Pieces): string {
    match pieces
    case Rest(t) => t
    case Piece(before, span, after) => before + (span + Uncut(after))
  }

  function Spans(pieces: Pieces): set<string> {
    match pieces
    case Rest(_) => {}
    case Piece(_, span, after) => {span} + Spans(after)
  }

  /** `String(Number(digits) / 100)` is the parameter `decimal`. */
  function FactorText(w: Weight, decimal: string -> string): string {
    match w
    case Percent(d) => decimal(d)
    case ShadowAlpha => SHADOW_ALPHA
  }

  function FactorTexts(ws: seq<Weight>, decimal: string -> string): seq<string> {
    if ws == [] then [] else [FactorText(ws[0], decimal)] + FactorTexts(ws[1..], decimal)
  }

  function ChannelsProperty(token: string): string
    requires |token| >= 2
  {
    "--chrome109-" + token[2..] + "-rgb"
  }

  function AlphaProperty(token: string): string
    requires |token| >= 2
  {
    "--chrome109-" + token[2..] + "-alpha"
  }

  /** The sRGB value that replaces a described mix. */
  function FallbackText(d: Description, decimal: string -> string): (r: string)
    requires |d.token| >= 2
    ensures r != "" && r[0] == 'r'
  {
    "rgb(var(" + ChannelsProperty(d.token) + ") / calc(var(" + AlphaProperty(d.token) + ") * "
    + Join(FactorTexts(d.weights, decimal), " * ") + "))"
  }

  lemma {:induction false} DescribedTokenIsName(text: string, known: set<string>)
    ensures Describe(text, known).Some? ==> IsTokenName(Describe(text, known).value.token)
    decreases |text|
  {
    if WeightedPart(text).Some? {
      var (source, w) := WeightedPart(text).value;
      if !IsVar(source) {
        DescribedTokenIsName(source, known);
      }
    }
  }

  /** The replacement of a span, if it is describable. */
  function Fallback(span: string, known: set<string>, decimal: string -> string): Option<string> {
    DescribedTokenIsName(span, known);
    match Describe(span, known)
    case None => None
    case Some(d) => Some(FallbackText(d, decimal))
  }

  function Replace(value: string, known: set<string>, decimal: string -> string): string {
    ReplaceSpans(value, span => Fallback(span, known, decimal))
  }

  type Rewriter = string -> Option<string>

  function RewriteSpan(span: string, rewrite: Rewriter): string {
    match rewrite(span)
    case None => span
    case Some(t) => t
  }

  function Rewrite(pieces: Pieces, rewrite: Rewriter): string {
    match pieces
    case Rest(t) => t
    case Piece(before, span, after) => before + (RewriteSpan(span, rewrite) + Rewrite(after, rewrite))
  }

  function ReplaceSpans(value: string, rewrite: Rewriter): string {
    Rewrite(Cut(value), rewrite)
  }

  /** The pieces partition the value: no text is lost, added or reordered. */
  lemma {:induction false} PiecesCoverValue(value: string)
    ensures Uncut(Cut(value)) == value
    decreases |value|
  {
    if IndexOf(value, OPEN).Some? {
      var k := IndexOf(value, OPEN).value;
      var end := CutAt(value, k);
      PiecesCoverValue(value[end..]);
      assert value == value[..k] + (value[k..end] + value[end..]);
    }
  }

  /** `value.indexOf('color-mix(', position)`. */
  function FindSpan(value: string, position: nat): (r: Option<nat>)
    requires position <= |value|
    ensures r.Some? ==> position <= r.value && r.value + 10 <= |value|
  {
    match IndexOf(value[position..], OPEN)
    case None => None
    case Some(k) => Some(position + k)
  }

  /** One turn of the scanner from `position`: the text up to the next span, the span, and what follows. */
  lemma ReplaceFrom(value: string, position: nat, start: nat, rewrite: Rewriter)
    requires position <= |value| && FindSpan(value, position) == Some(start)
    ensures ReplaceSpans(value[position..], rewrite) ==
            value[position..start]
            + (RewriteSpan(value[start..CutAt(value, start)], rewrite) + ReplaceSpans(value[CutAt(value, start)..], rewrite))
  {
    var rest, k := value[position..], start - position;
    assert rest[k + 10..] == value[start + 10..];
    assert CutAt(rest, k) == CutAt(value, start) - position;
    assert rest[..k] == value[position..start] && rest[k..CutAt(rest, k)] == value[start..CutAt(value, start)];
    assert rest[CutAt(rest, k)..] == value[CutAt(value, start)..];
  }

  /** The scan with the text produced so far as an accumulator. */
  function Scan(value: string, position: nat, done: string, rewrite: Rewriter): string
    requires position <= |value|
    decreases |value| - position
  {
    match FindSpan(value, position)
    case None => done + value[position..]
    case Some(start) =>
      var end := CutAt(value, start);
      Scan(value, end, done + value[position..start] + RewriteSpan(value[start..end], rewrite), rewrite)
  }

  lemma {:induction false} ScanReplaces(value: string, position: nat, done: string, rewrite: Rewriter)
    requires position <= |value|
    ensures Scan(value, position, done, rewrite) == done + ReplaceSpans(value[position..], rewrite)
    decreases |value| - position
  {
    if FindSpan(value, position).Some? {
      var start := FindSpan(value, position).value;
      var end := CutAt(value, start);
      var before, span := value[position..start], RewriteSpan(value[start..end], rewrite);
      ScanReplaces(value, end, done + before + span, rewrite);
      ReplaceFrom(value, position, start, rewrite);
      Reassociate(done, before, span, ReplaceSpans(value[end..], rewrite));
    }
  }

  lemma Reassociate(a: string, b: string, c: string, d: string)
    ensures a + b + c + d == a + (b + (c + d))
  {
  }

  /** The scanner with its `position`, `end` and `depth`. */
  method ReplaceTransparentColorMixes(value: string, rewrite: Rewriter) returns (result: string)
    ensures result == ReplaceSpans(value, rewrite)
  {
    result := "";
    var position := 0;
    ScanAll(value, rewrite);
    while position < |value|
      invariant position <= |value|
      invariant Scan(value, position, result, rewrite) == ReplaceSpans(value, rewrite)
    {
      var found := FindSpan(value, position);
      if found.None? {
        return result + value[position..];
      }
      var start := found.value;
      var end := CloseParenthesis(value, start);
      result := result + value[position..start] + RewriteSpan(value[start..end], rewrite);
      position := end;
    }
    ScanEnds(value, result, rewrite);
  }

  lemma ScanAll(value: string, rewrite: Rewriter)
    ensures Scan(value, 0, "", rewrite) == ReplaceSpans(value, rewrite)
  {
    ScanReplaces(value, 0, "", rewrite);
    assert value[0..] == value;
  }

  lemma ScanEnds(value: string, done: string, rewrite: Rewriter)
    ensures Scan(value, |value|, done, rewrite) == done
  {
    assert done + value[|value|..] == done;
  }

  method CloseParenthesis(value: string, start: nat) returns (end: nat)
    requires start + 10 <= |value|
    ensures end == CutAt(value, start)
  {
    end := start + 10;
    var depth := 1;
    while end < |value| && depth > 0
      invariant start + 10 <= end <= |value|
      invariant end + CloseAt(value[end..], depth) == CutAt(value, start)
    {
      CloseStep(value, end, depth);
      var c := value[end];
      if c == '(' { depth := depth + 1; }
      if c == ')' { depth := depth - 1; }
      end := end + 1;
    }
  }

  lemma CloseStep(value: string, end: nat, depth: int)
    requires end < |value| && depth > 0
    ensures CloseAt(value[end..], depth) == 1 + CloseAt(value[end + 1..], Step(value[end], depth))
  {
    assert value[end..][1..] == value[end + 1..];
  }

  /** A value is left alone exactly when none of its spans is describable. */
  lemma UnchangedIffNothingDescribable(value: string, known: set<string>, decimal: string -> string)
    ensures Replace(value, known, decimal) == value
       <==> forall span | span in Spans(Cut(value)) :: Describe(span, known).None?
  {
    var rewrite := span => Fallback(span, known, decimal);
    forall span: string ensures rewrite(span).Some? <==> Describe(span, known).Some? {
      DescribedTokenIsName(span, known);
    }
    UnchangedIffNothingRewritten(value, rewrite);
  }

  lemma {:induction false} UnchangedIffNothingRewritten(value: string, rewrite: Rewriter)
    requires forall span: string | rewrite(span).Some? :: rewrite(span).value != "" && rewrite(span).value[0] == 'r'
    ensures ReplaceSpans(value, rewrite) == value <==> forall span | span in Spans(Cut(value)) :: rewrite(span).None?
    decreases |value|
  {
    if IndexOf(value, OPEN).Some? {
      var k := IndexOf(value, OPEN).value;
      ReplaceFirst(value, k, rewrite);
      var end := CutAt(value, k);
      UnchangedIffNothingRewritten(value[end..], rewrite);
      if rewrite(value[k..end]).Some? {
        SpanStartsWithC(value, k);
      }
      SameAsParts(value, k, end, RewriteSpan(value[k..end], rewrite), ReplaceSpans(value[end..], rewrite));
    }
  }

  lemma SameAsParts(value: string, k: nat, end: nat, replacement: string, tail: string)
    requires k < end <= |value|
    requires replacement == value[k..end] || (replacement != "" && replacement[0] != value[k])
    ensures value[..k] + (replacement + tail) == value <==> replacement == value[k..end] && tail == value[end..]
  {
    var whole := value[..k] + (replacement + tail);
    if replacement == value[k..end] {
      assert whole[end..] == tail;
      assert value == value[..k] + (value[k..end] + value[end..]);
    } else {
      assert whole[k] == replacement[0];
    }
  }

  lemma ReplaceFirst(value: string, k: nat, rewrite: Rewriter)
    requires IndexOf(value, OPEN) == Some(k)
    ensures var end := CutAt(value, k);
            && ReplaceSpans(value, rewrite) == value[..k] + (RewriteSpan(value[k..end], rewrite) + ReplaceSpans(value[end..], rewrite))
            && Spans(Cut(value)) == {value[k..end]} + Spans(Cut(value[end..]))
  {
  }

  lemma SpanStartsWithC(value: string, k: nat)
    requires IndexOf(value, OPEN) == Some(k)
    ensures value[k] == 'c'
  {
    IndexOfFindsFirst(value, OPEN);
    assert value[k] == value[k..][0] == OPEN[0];
  }

  lemma {:induction false} CloseSkips(p: string, rest: string, depth: int)
    requires depth >= 1 && Nest(p, depth).Some?
    ensures CloseAt(p + rest, depth) == |p| + CloseAt(rest, Nest(p, depth).value)
  {
    if p == "" {
      assert p + rest == rest;
    } else {
      assert (p + rest)[1..] == p[1..] + rest;
      CloseSkips(p[1..], rest, Step(p[0], depth));
    }
  }

  /** Wherever a spelled mix is the first span of a value, exactly that mix is rewritten. */
  lemma SpelledMixIsRewritten(before: string, text: string, after: string, m: Mix, known: set<string>,
                              decimal: string -> string)
    requires m.Mixed? && Spells(text, m) && TokenOf(m) in known
    requires IndexOf(before + text + after, OPEN) == Some(|before|)
    ensures IsTokenName(TokenOf(m))
    ensures Replace(before + text + after, known, decimal) ==
            before + (FallbackText(Description(TokenOf(m), WeightsOf(m)), decimal) + Replace(after, known, decimal))
  {
    SpelledMixIsOneSpan(text, after, m);
    OneSpanIsRewritten(before, text, after, span => Fallback(span, known, decimal));
    DescribeComplete(text, m, known);
    DescribedTokenIsName(text, known);
  }

  lemma OneSpanIsRewritten(before: string, text: string, after: string, rewrite: Rewriter)
    requires IndexOf(before + text + after, OPEN) == Some(|before|)
    requires |text| >= 10 && 10 + CloseAt((text + after)[10..], 1) == |text|
    ensures ReplaceSpans(before + text + after, rewrite) ==
            before + (RewriteSpan(text, rewrite) + ReplaceSpans(after, rewrite))
  {
    SlicesOfThree(before, text, after);
    ReplaceFrom(before + text + after, 0, |before|, rewrite);
  }

  lemma SlicesOfThree(a: string, b: string, c: string)
    requires |b| >= 10
    ensures var v, k := a + b + c, |a|;
            && v[0..] == v && v[0..k] == a && v[k + 10..] == (b + c)[10..] && v[k..k + |b|] == b && v[k + |b|..] == c
  {
  }

  lemma SpelledMixIsOneSpan(text: string, after: string, m: Mix)
    requires m.Mixed? && Spells(text, m)
    ensures |text| >= 10 && 10 + CloseAt((text + after)[10..], 1) == |text|
  {
    var g, source :| SpellsMixed(text, m, g, source);
    SpellingKeepsDepth(source, m.source, 1);
    BodyNests(g, source, m.weight, 1);
    MixClosesItself(OPEN, Body(g, source, m.weight), after);
  }

  lemma MixClosesItself(open: string, body: string, after: string)
    requires |open| == 10 && Nest(body, 1) == Some(1)
    ensures CloseAt((open + body + ")" + after)[10..], 1) == |body| + 1
  {
    DropOpen(open, body, after);
    CloseSkips(body, ")" + after, 1);
    ClosesAtOnce(after);
  }

  lemma DropOpen(open: string, body: string, after: string)
    requires |open| == 10
    ensures (open + body + ")" + after)[10..] == body + (")" + after)
  {
  }

  lemma ClosesAtOnce(after: string)
    ensures CloseAt(")" + after, 1) == 1
  {
    assert (")" + after)[1..] == after && CloseAt(after, 0) == 0;
  }
}
