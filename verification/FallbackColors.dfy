/**
 * The colours that a mix and the text put in its place denote. The reading of channel texts and of numbers is a
 * parameter; colours are points of the Oklab space with an alpha.
 */
module FallbackColors {
  import opened Text
  import opened ColorMix

  // ---------------------------------------------------------------- the notation of the fallbacks

  /** A factor of the alpha: a number, or a reference to a custom property. */
  datatype Factor = Number(text: string) | Reference(property: string)

  /** `rgb(var(channels) / calc(var(alpha) * f1 * ... * fn))`. */
  datatype Rgb = Rgb(channels: string, alpha: string, factors: seq<Factor>)

  function PrintFactor(f: Factor): string {
    match f
    case Number(text) => text
    case Reference(property) => VarText(property)
  }

  function PrintFactors(fs: seq<Factor>): string
    requires fs != []
  {
    if |fs| == 1 then PrintFactor(fs[0]) else PrintFactor(fs[0]) + " * " + PrintFactors(fs[1..])
  }

  function Print(e: Rgb): string
    requires e.factors != []
  {
    "rgb(var(" + e.channels + ") / calc(var(" + e.alpha + ") * " + PrintFactors(e.factors) + "))"
  }

  ghost predicate Free(s: string, c: char) {
    forall i | 0 <= i < |s| :: s[i] != c
  }

  ghost predicate NumberText(s: string) {
    Free(s, ' ') && Free(s, '(') && Free(s, ')')
  }

  ghost predicate IsFactor(f: Factor) {
    match f
    case Number(text) => NumberText(text)
    case Reference(property) => Free(property, ' ') && Free(property, ')')
  }

  ghost predicate AreFactors(fs: seq<Factor>) {
    fs != [] && forall i | 0 <= i < |fs| :: IsFactor(fs[i])
  }

  ghost predicate IsRgb(e: Rgb) {
    AreFactors(e.factors) && Free(e.channels, ')') && Free(e.alpha, ')')
  }

  // ---------------------------------------------------------------- the notation is unambiguous

  function Before(t: string, c: char): nat {
    if t == "" || t[0] == c then 0 else 1 + Before(t[1..], c)
  }

  lemma {:induction false} BeforeIs(a: string, r: string, c: char)
    requires Free(a, c)
    ensures Before(a + [c] + r, c) == |a|
  {
    var t := a + [c] + r;
    if a != "" {
      assert t[0] == a[0] && t[1..] == a[1..] + [c] + r;
      BeforeIs(a[1..], r, c);
    }
  }

  lemma SplitAt(a: string, r: string, b: string, s: string, c: char)
    requires a + [c] + r == b + [c] + s && Free(a, c) && Free(b, c)
    ensures a == b && r == s
  {
    var t := a + [c] + r;
    BeforeIs(a, r, c);
    BeforeIs(b, s, c);
    assert a == t[..|a|] && b == t[..|a|] && r == t[|a| + 1..] && s == t[|a| + 1..];
  }

  lemma FactorHasNoSpace(f: Factor)
    requires IsFactor(f)
    ensures Free(PrintFactor(f), ' ')
  {
  }

  lemma SameFactor(f: Factor, g: Factor)
    requires IsFactor(f) && IsFactor(g) && PrintFactor(f) == PrintFactor(g)
    ensures f == g
  {
    var head := "var(";
    if f.Reference? {
      assert PrintFactor(f)[3] == '(';
    }
    if g.Reference? {
      assert PrintFactor(g)[3] == '(';
    }
    if f.Reference? && g.Reference? {
      assert head + (f.property + ")") == PrintFactor(f) && head + (g.property + ")") == PrintFactor(g);
      SamePrefix(head, f.property + ")", g.property + ")");
      SameSuffix(f.property, g.property, ")");
    }
  }

  lemma NextFactor(f: string, r: string, g: string, s: string)
    requires Free(f, ' ') && Free(g, ' ') && f + " * " + r == g + " * " + s
    ensures f == g && r == s
  {
    assert f + [' '] + ("* " + r) == f + " * " + r && g + [' '] + ("* " + s) == g + " * " + s;
    SplitAt(f, "* " + r, g, "* " + s, ' ');
    SamePrefix("* ", r, s);
  }

  lemma {:induction false} SameFactors(fs: seq<Factor>, gs: seq<Factor>)
    requires AreFactors(fs) && AreFactors(gs) && PrintFactors(fs) == PrintFactors(gs)
    ensures fs == gs
  {
    FirstSpace(fs);
    FirstSpace(gs);
    FactorHasNoSpace(fs[0]);
    FactorHasNoSpace(gs[0]);
    if |fs| == 1 {
      SameFactor(fs[0], gs[0]);
    } else {
      NextFactor(PrintFactor(fs[0]), PrintFactors(fs[1..]), PrintFactor(gs[0]), PrintFactors(gs[1..]));
      SameFactor(fs[0], gs[0]);
      SameFactors(fs[1..], gs[1..]);
      assert fs == [fs[0]] + fs[1..] && gs == [gs[0]] + gs[1..];
    }
  }

  /** More than one factor is printed with a space, a single one without. */
  lemma FirstSpace(fs: seq<Factor>)
    requires AreFactors(fs)
    ensures |fs| == 1 <==> Free(PrintFactors(fs), ' ')
  {
    FactorHasNoSpace(fs[0]);
    if |fs| > 1 {
      assert PrintFactors(fs)[|PrintFactor(fs[0])|] == ' ';
    }
  }

  const HEAD := "rgb(var("
  const MIDDLE := " / calc(var("

  lemma PrintSplits(e: Rgb)
    requires e.factors != []
    ensures Print(e) == HEAD + (e.channels + [')'] + (MIDDLE + (e.alpha + [')'] + (" * " + (PrintFactors(e.factors) + "))")))))
  {
  }

  /** Different terms are printed differently, so a text denotes at most one of them. */
  lemma PrintIsInjective(x: Rgb, y: Rgb)
    requires IsRgb(x) && IsRgb(y) && Print(x) == Print(y)
    ensures x == y
  {
    PrintSplits(x);
    PrintSplits(y);
    var f, g := " * " + (PrintFactors(x.factors) + "))"), " * " + (PrintFactors(y.factors) + "))");
    SamePrefix(HEAD, x.channels + [')'] + (MIDDLE + (x.alpha + [')'] + f)), y.channels + [')'] + (MIDDLE + (y.alpha + [')'] + g)));
    SplitAt(x.channels, MIDDLE + (x.alpha + [')'] + f), y.channels, MIDDLE + (y.alpha + [')'] + g), ')');
    SamePrefix(MIDDLE, x.alpha + [')'] + f, y.alpha + [')'] + g);
    SplitAt(x.alpha, f, y.alpha, g, ')');
    SamePrefix(" * ", PrintFactors(x.factors) + "))", PrintFactors(y.factors) + "))");
    SameSuffix(PrintFactors(x.factors), PrintFactors(y.factors), "))");
    SameFactors(x.factors, y.factors);
  }

  // ---------------------------------------------------------------- what the two notations denote

  datatype Color = Color(l: real, a: real, b: real, alpha: real)

  const TRANSPARENT := Color(0.0, 0.0, 0.0, 0.0)

  /** How the text of sRGB channels and the text of a number are read. */
  datatype Reading = Reading(channels: string -> Color, number: string -> real)

  /** The custom properties of an element that have a value. */
  type Properties = string -> Option<string>

  /** The colour with these channels and this alpha. */
  function ColorOf(channels: string, alpha: real, reading: Reading): Color {
    reading.channels(channels).(alpha := alpha)
  }

  function FactorValue(f: Factor, properties: Properties, reading: Reading): Option<real> {
    match f
    case Number(text) => Some(reading.number(text))
    case Reference(property) =>
      match properties(property) { case None => None case Some(text) => Some(reading.number(text)) }
  }

  function Multiplied(x: real, y: real): real {
    x * y
  }

  function MultipliedBy(x: Option<real>, y: Option<real>): Option<real> {
    if x.Some? && y.Some? then Some(Multiplied(x.value, y.value)) else None
  }

  /** A product, if all its factors have a value. */
  function Times(alpha: real, fs: seq<Factor>, properties: Properties, reading: Reading): Option<real> {
    if fs == [] then Some(alpha)
    else MultipliedBy(Times(alpha, fs[..|fs| - 1], properties, reading), FactorValue(fs[|fs| - 1], properties, reading))
  }

  /** The colour of a term; a reference to a property without a value leaves none. */
  function Value(e: Rgb, properties: Properties, reading: Reading): Option<Color> {
    match (properties(e.channels), properties(e.alpha))
    case (Some(channels), Some(alpha)) =>
      (match Times(reading.number(alpha), e.factors, properties, reading)
       case None => None
       case Some(product) => Some(ColorOf(channels, product, reading)))
    case _ => None
  }

  /** The colour that a text denotes. */
  ghost function TextColor(text: string, properties: Properties, reading: Reading): Option<Color> {
    if e: Rgb :| IsRgb(e) && Print(e) == text then Value(e, properties, reading) else None
  }

  lemma TextColorOf(e: Rgb, properties: Properties, reading: Reading)
    requires IsRgb(e)
    ensures TextColor(Print(e), properties, reading) == Value(e, properties, reading)
  {
    forall x: Rgb | IsRgb(x) && Print(x) == Print(e) ensures x == e {
      PrintIsInjective(x, e);
    }
  }

  function Faded(c: Color, factor: real): Color {
    c.(alpha := Multiplied(c.alpha, factor))
  }

  /** Interpolation of premultiplied components (section 12.3 of CSS Color Module Level 4). */
  function Interpolate(x: Color, p: real, y: Color, q: real): Color {
    var alpha := x.alpha * p + y.alpha * q;
    if alpha == 0.0 then TRANSPARENT
    else Color((x.l * x.alpha * p + y.l * y.alpha * q) / alpha, (x.a * x.alpha * p + y.a * y.alpha * q) / alpha,
               (x.b * x.alpha * p + y.b * y.alpha * q) / alpha, alpha)
  }

  /** The meaning of a nested mix under a theme and a reading of the weights. */
  function Meaning(m: Mix, theme: string -> Color, weigh: Weight -> real): Color {
    match m
    case Token(t) => theme(t)
    case Mixed(s, w) => Interpolate(Meaning(s, theme, weigh), weigh(w), TRANSPARENT, 1.0 - weigh(w))
  }

  /** Equal once premultiplied: the channels of a fully transparent colour do not show. */
  predicate SameColor(x: Color, y: Color) {
    x.alpha == y.alpha && (x.alpha != 0.0 ==> x == y)
  }

  lemma MixingWithTransparent(x: Color, w: real)
    ensures SameColor(Interpolate(x, w, TRANSPARENT, 1.0 - w), Faded(x, w))
  {
    var alpha := x.alpha * w;
    if alpha != 0.0 {
      Cancels(x.l, x.alpha, w);
      Cancels(x.a, x.alpha, w);
      Cancels(x.b, x.alpha, w);
    }
  }

  lemma Cancels(x: real, alpha: real, w: real)
    requires alpha * w != 0.0
    ensures x * alpha * w / (alpha * w) == x
  {
    assert x * alpha * w == x * (alpha * w);
  }

  // ---------------------------------------------------------------- the fallback of a mix

  const SHADOW_PROPERTY := "--tw-shadow-alpha"

  /** A percentage is a hundredth of its number; the shadow alpha is a property of the element. */
  function Weigh(w: Weight, properties: Properties, reading: Reading): real {
    match w
    case Percent(d) => reading.number(d) / 100.0
    case ShadowAlpha => match properties(SHADOW_PROPERTY) { case None => 0.0 case Some(text) => reading.number(text) }
  }

  function Weighing(properties: Properties, reading: Reading): Weight -> real {
    (w: Weight) => Weigh(w, properties, reading)
  }

  function FactorOf(w: Weight, decimal: string -> string): Factor {
    match w
    case Percent(d) => Number(decimal(d))
    case ShadowAlpha => Reference(SHADOW_PROPERTY)
  }

  function FactorsOf(ws: seq<Weight>, decimal: string -> string): seq<Factor> {
    seq(|ws|, i requires 0 <= i < |ws| => FactorOf(ws[i], decimal))
  }

  function TermOf(d: Description, decimal: string -> string): Rgb
    requires |d.token| >= 2
  {
    Rgb(ChannelsProperty(d.token), AlphaProperty(d.token), FactorsOf(d.weights, decimal))
  }

  /** The decimals that the pass prints are read as the hundredths they stand for. */
  ghost predicate Exact(w: Weight, decimal: string -> string, reading: Reading) {
    w.Percent? ==> NumberText(decimal(w.digits)) && reading.number(decimal(w.digits)) == reading.number(w.digits) / 100.0
  }

  ghost predicate AllExact(ws: seq<Weight>, decimal: string -> string, reading: Reading) {
    forall i | 0 <= i < |ws| :: Exact(ws[i], decimal, reading)
  }

  lemma {:induction false} FactorsArePrinted(ws: seq<Weight>, decimal: string -> string)
    requires ws != []
    ensures PrintFactors(FactorsOf(ws, decimal)) == Join(FactorTexts(ws, decimal), " * ")
  {
    var fs := FactorsOf(ws, decimal);
    assert PrintFactor(fs[0]) == FactorText(ws[0], decimal);
    if |ws| > 1 {
      FactorsArePrinted(ws[1..], decimal);
      assert fs[1..] == FactorsOf(ws[1..], decimal);
      assert FactorTexts(ws, decimal)[1..] == FactorTexts(ws[1..], decimal) && |FactorTexts(ws[1..], decimal)| >= 1;
    } else {
      assert ws[1..] == [] && FactorTexts(ws, decimal) == [FactorText(ws[0], decimal)];
    }
  }

  /** The text that replaces a mix is the print of that term. */
  lemma FallbackIsPrinted(d: Description, decimal: string -> string)
    requires |d.token| >= 2 && d.weights != []
    ensures FallbackText(d, decimal) == Print(TermOf(d, decimal))
  {
    FactorsArePrinted(d.weights, decimal);
  }

  lemma NameIsFree(t: string, head: string, tail: string)
    requires IsTokenName(t) && Free(head, ')') && Free(tail, ')')
    ensures Free(head + t[2..] + tail, ')')
  {
  }

  lemma TermIsRgb(d: Description, decimal: string -> string, reading: Reading)
    requires IsTokenName(d.token) && d.weights != [] && AllExact(d.weights, decimal, reading)
    ensures IsRgb(TermOf(d, decimal))
  {
    NameIsFree(d.token, "--chrome109-", "-rgb");
    NameIsFree(d.token, "--chrome109-", "-alpha");
    ShadowIsFree();
    forall i | 0 <= i < |d.weights| ensures IsFactor(TermOf(d, decimal).factors[i]) {
      assert Exact(d.weights[i], decimal, reading);
    }
  }

  lemma ShadowIsFree()
    ensures Free(SHADOW_PROPERTY, ' ') && Free(SHADOW_PROPERTY, ')')
  {
  }

  function Product(ws: seq<Weight>, weigh: Weight -> real): real {
    if ws == [] then 1.0 else Multiplied(Product(ws[..|ws| - 1], weigh), weigh(ws[|ws| - 1]))
  }

  lemma FactorIsWeight(w: Weight, decimal: string -> string, properties: Properties, reading: Reading)
    requires Exact(w, decimal, reading) && properties(SHADOW_PROPERTY).Some?
    ensures FactorValue(FactorOf(w, decimal), properties, reading) == Some(Weigh(w, properties, reading))
  {
  }

  lemma TimesOneMore(alpha: real, fs: seq<Factor>, f: Factor, properties: Properties, reading: Reading, product: real, factor: real)
    requires Times(alpha, fs, properties, reading) == Some(product) && FactorValue(f, properties, reading) == Some(factor)
    ensures Times(alpha, fs + [f], properties, reading) == Some(Multiplied(product, factor))
  {
    var whole := fs + [f];
    assert whole[..|whole| - 1] == fs && whole[|whole| - 1] == f;
  }

  lemma {:induction false} FactorsMultiply(alpha: real, ws: seq<Weight>, decimal: string -> string, properties: Properties,
                                           reading: Reading)
    requires AllExact(ws, decimal, reading) && properties(SHADOW_PROPERTY).Some?
    ensures Times(alpha, FactorsOf(ws, decimal), properties, reading) == Some(Multiplied(alpha, Product(ws, Weighing(properties, reading))))
  {
    if ws != [] {
      var front, last := ws[..|ws| - 1], ws[|ws| - 1];
      var product, factor := Product(front, Weighing(properties, reading)), Weigh(last, properties, reading);
      FactorsMultiply(alpha, front, decimal, properties, reading);
      FactorIsWeight(last, decimal, properties, reading);
      TimesOneMore(alpha, FactorsOf(front, decimal), FactorOf(last, decimal), properties, reading, Multiplied(alpha, product), factor);
      assert FactorsOf(ws, decimal) == FactorsOf(front, decimal) + [FactorOf(last, decimal)];
      Associates(alpha, product, factor);
    }
  }

  lemma Associates(x: real, y: real, z: real)
    ensures Multiplied(Multiplied(x, y), z) == Multiplied(x, Multiplied(y, z))
  {
  }

  lemma ProductOfOneMore(ws: seq<Weight>, w: Weight, weigh: Weight -> real)
    ensures Product(ws + [w], weigh) == Multiplied(Product(ws, weigh), weigh(w))
  {
    var all := ws + [w];
    assert all[..|all| - 1] == ws && all[|all| - 1] == w;
  }

  lemma OneMoreWeight(x: Color, c: Color, product: real, w: real)
    requires SameColor(x, Faded(c, product))
    ensures SameColor(Faded(x, w), Faded(c, Multiplied(product, w)))
  {
    assert c.alpha * (product * w) == (c.alpha * product) * w;
  }

  /** One more mix with transparent. */
  lemma OneMoreMix(x: Color, c: Color, product: real, w: real)
    requires SameColor(x, Faded(c, product))
    ensures SameColor(Interpolate(x, w, TRANSPARENT, 1.0 - w), Faded(c, Multiplied(product, w)))
  {
    MixingWithTransparent(x, w);
    OneMoreWeight(x, c, product, w);
  }

  /** Mixing with transparent again and again multiplies the alpha. */
  lemma {:induction false} MixScalesAlpha(m: Mix, theme: string -> Color, weigh: Weight -> real)
    ensures var c := theme(TokenOf(m));
            SameColor(Meaning(m, theme, weigh), Faded(c, Product(WeightsOf(m), weigh)))
  {
    match m
    case Token(t) =>
    case Mixed(s, w) =>
      MixScalesAlpha(s, theme, weigh);
      OneMoreMix(Meaning(s, theme, weigh), theme(TokenOf(s)), Product(WeightsOf(s), weigh), weigh(w));
      ProductOfOneMore(WeightsOf(s), w, weigh);
  }

  /** The properties give a token its colour in the theme. */
  ghost predicate Gives(properties: Properties, token: string, color: Color, reading: Reading)
    requires |token| >= 2
  {
    && properties(ChannelsProperty(token)).Some? && properties(AlphaProperty(token)).Some?
    && ColorOf(properties(ChannelsProperty(token)).value, reading.number(properties(AlphaProperty(token)).value), reading) == color
  }

  lemma FallbackValue(d: Description, decimal: string -> string, properties: Properties, reading: Reading)
    requires IsTokenName(d.token) && d.weights != [] && AllExact(d.weights, decimal, reading)
    ensures TextColor(FallbackText(d, decimal), properties, reading) == Value(TermOf(d, decimal), properties, reading)
  {
    FallbackIsPrinted(d, decimal);
    TermIsRgb(d, decimal, reading);
    TextColorOf(TermOf(d, decimal), properties, reading);
  }

  lemma FallbackColor(d: Description, decimal: string -> string, properties: Properties, reading: Reading, c: Color)
    requires IsTokenName(d.token) && d.weights != [] && AllExact(d.weights, decimal, reading)
    requires properties(SHADOW_PROPERTY).Some? && Gives(properties, d.token, c, reading)
    ensures TextColor(FallbackText(d, decimal), properties, reading)
         == Some(Faded(c, Product(d.weights, Weighing(properties, reading))))
  {
    FallbackValue(d, decimal, properties, reading);
    FactorsMultiply(c.alpha, d.weights, decimal, properties, reading);
  }

  /** The text put in place of a mix denotes the colour of the mix, at any nesting depth. */
  lemma FallbackDenotesMix(m: Mix, decimal: string -> string, properties: Properties, reading: Reading, theme: string -> Color)
    requires m.Mixed? && IsTokenName(TokenOf(m)) && AllExact(WeightsOf(m), decimal, reading)
    requires properties(SHADOW_PROPERTY).Some? && Gives(properties, TokenOf(m), theme(TokenOf(m)), reading)
    ensures var color := TextColor(FallbackText(Description(TokenOf(m), WeightsOf(m)), decimal), properties, reading);
            color.Some? && SameColor(Meaning(m, theme, Weighing(properties, reading)), color.value)
  {
    FallbackColor(Description(TokenOf(m), WeightsOf(m)), decimal, properties, reading, theme(TokenOf(m)));
    MixScalesAlpha(m, theme, Weighing(properties, reading));
  }

  /** Without a value for its token the text denotes no colour. */
  lemma FallbackWithoutColor(d: Description, decimal: string -> string, properties: Properties, reading: Reading)
    requires IsTokenName(d.token) && d.weights != [] && AllExact(d.weights, decimal, reading)
    requires properties(ChannelsProperty(d.token)).None? || properties(AlphaProperty(d.token)).None?
    ensures TextColor(FallbackText(d, decimal), properties, reading) == None
  {
    FallbackValue(d, decimal, properties, reading);
  }
}
