/**
 * Lists of texts as JSON: the text that PostgreSQL prints of a jsonb column, and the one that the server marshals. Both
 * stand for the list, and yet they are not always the same text.
 */
module JsonText {
  import opened Text

  /** Characters that the text of a jsonb value writes differently inside a string. */
  predicate Escapes(c: char) {
    c == '"' || c == '\\' || c < ' '
  }

  function HexDigit(n: nat): char
    requires n < 16
  {
    if n < 10 then '0' + n as char else 'a' + (n - 10) as char
  }

  /** A character inside a string, as PostgreSQL prints it. */
  function Escaped(c: char): string {
    if !Escapes(c) then [c]
    else if c == '"' || c == '\\' then ['\\', c]
    else if c == '\U{8}' then "\\b"
    else if c == '\t' then "\\t"
    else if c == '\n' then "\\n"
    else if c == '\U{C}' then "\\f"
    else if c == '\r' then "\\r"
    else ['\\', 'u', '0', '0', HexDigit(c as int / 16), HexDigit(c as int % 16)]
  }

  function EscapedText(s: string): string {
    if s == "" then "" else Escaped(s[0]) + EscapedText(s[1..])
  }

  function Quoted(s: string): string {
    "\"" + EscapedText(s) + "\""
  }

  function QuotedAll(keywords: seq<string>): seq<string> {
    seq(|keywords|, i requires 0 <= i < |keywords| => Quoted(keywords[i]))
  }

  const SEPARATOR := ", "

  /** The text of a jsonb value: the column decodes what it is given and prints it in its own way. */
  function StoredText(values: seq<string>): string {
    "[" + Join(QuotedAll(values), SEPARATOR) + "]"
  }

  // ---------------------------------------------------------------- the marshalled text

  /** Characters that json.Marshal escapes although JSON does not ask for it. */
  predicate Guarded(c: char) {
    c == '<' || c == '>' || c == '&' || c == '\U{2028}' || c == '\U{2029}'
  }

  function Marshalled(c: char): string {
    if c == '<' then ['\\', 'u', '0', '0', '3', 'c']
    else if c == '>' then ['\\', 'u', '0', '0', '3', 'e']
    else if c == '&' then ['\\', 'u', '0', '0', '2', '6']
    else if c == '\U{2028}' then ['\\', 'u', '2', '0', '2', '8']
    else if c == '\U{2029}' then ['\\', 'u', '2', '0', '2', '9']
    else Escaped(c)
  }

  function MarshalledChars(s: string): string {
    if s == "" then "" else Marshalled(s[0]) + MarshalledChars(s[1..])
  }

  function MarshalledQuoted(s: string): string {
    "\"" + MarshalledChars(s) + "\""
  }

  function MarshalledAll(values: seq<string>): seq<string> {
    seq(|values|, i requires 0 <= i < |values| => MarshalledQuoted(values[i]))
  }

  function MarshalledText(values: seq<string>): string {
    "[" + Join(MarshalledAll(values), ",") + "]"
  }

  // ---------------------------------------------------------------- when the two texts are one

  ghost predicate Unguarded(s: string) {
    forall i | 0 <= i < |s| :: !Guarded(s[i])
  }

  /** At most one text, without characters that only json.Marshal escapes. */
  ghost predicate WrittenAlike(values: seq<string>) {
    |values| <= 1 && forall i | 0 <= i < |values| :: Unguarded(values[i])
  }

  lemma EscapedShape(c: char)
    ensures Escaped(c) != "" && Escaped(c)[0] == (if Escapes(c) then '\\' else c)
    ensures Escapes(c) ==> |Escaped(c)| >= 2 && (Escaped(c)[1] == 'u' <==> |Escaped(c)| == 6)
    ensures !Escapes(c) ==> |Escaped(c)| == 1
    ensures |Escaped(c)| == 6 ==> c < ' ' && Escaped(c)[2] == '0' && (Escaped(c)[4] == '0' || Escaped(c)[4] == '1')
    ensures Escapes(c) && |Escaped(c)| < 6 ==> |Escaped(c)| == 2
  {
  }

  lemma EscapedIsInjective(c: char, d: char)
    requires Escaped(c) == Escaped(d)
    ensures c == d
  {
    EscapedShape(c);
    EscapedShape(d);
    if |Escaped(c)| == 6 {
      HexIsInjective(c as int / 16, d as int / 16);
      HexIsInjective(c as int % 16, d as int % 16);
    }
  }

  lemma HexIsInjective(m: nat, n: nat)
    requires m < 16 && n < 16 && HexDigit(m) == HexDigit(n)
    ensures m == n
  {
  }

  lemma EscapedIsPrefixFree(c: char, x: string, d: char, y: string)
    requires Escaped(c) + x == Escaped(d) + y
    ensures c == d && x == y
  {
    EscapedShape(c);
    EscapedShape(d);
    var s := Escaped(c) + x;
    assert s[0] == Escaped(c)[0] == Escaped(d)[0];
    if Escapes(c) && Escapes(d) {
      assert s[1] == Escaped(c)[1] == Escaped(d)[1];
    }
    assert |Escaped(c)| == |Escaped(d)|;
    assert Escaped(c) == s[..|Escaped(c)|] == Escaped(d);
    assert x == s[|Escaped(c)|..] == y;
    EscapedIsInjective(c, d);
  }

  /** The escapes of json.Marshal are not those of a control character, which begin with 000 and 001. */
  lemma GuardedShape(c: char)
    requires Guarded(c)
    ensures |Marshalled(c)| == 6 && Marshalled(c)[0] == '\\' && Marshalled(c)[1] == 'u'
    ensures Marshalled(c)[2] != '0' || (Marshalled(c)[4] != '0' && Marshalled(c)[4] != '1')
  {
  }

  lemma GuardedDiffers(c: char, x: string, d: char, y: string)
    requires Guarded(d)
    ensures Escaped(c) + x != Marshalled(d) + y
  {
    EscapedShape(c);
    GuardedShape(d);
    var s, t := Escaped(c) + x, Marshalled(d) + y;
    assert t[0] == '\\' && t[1] == 'u' && t[2] == Marshalled(d)[2] && t[4] == Marshalled(d)[4];
    assert s[0] == Escaped(c)[0];
    if Escapes(c) {
      assert s[1] == Escaped(c)[1];
      if |Escaped(c)| == 6 {
        assert s[2] == Escaped(c)[2] && s[4] == Escaped(c)[4];
      }
    }
  }

  lemma CharsDetermined(c: char, x: string, d: char, y: string)
    requires Escaped(c) + x == Marshalled(d) + y
    ensures c == d && !Guarded(d) && x == y
  {
    if Guarded(d) {
      GuardedDiffers(c, x, d, y);
    } else {
      EscapedIsPrefixFree(c, x, d, y);
    }
  }

  /** A text ends at the first quote that is not escaped, in both writings. */
  lemma QuoteIsEnd(s: string, x: string)
    ensures (EscapedText(s) + ['"'] + x)[0] == '"' <==> s == ""
    ensures (MarshalledChars(s) + ['"'] + x)[0] == '"' <==> s == ""
  {
    if s != "" {
      EscapedShape(s[0]);
      if Guarded(s[0]) {
        GuardedShape(s[0]);
      }
      assert (EscapedText(s) + ['"'] + x)[0] == Escaped(s[0])[0];
      assert (MarshalledChars(s) + ['"'] + x)[0] == Marshalled(s[0])[0];
    }
  }

  lemma CharsSplit(s: string, x: string)
    requires s != ""
    ensures EscapedText(s) + ['"'] + x == Escaped(s[0]) + (EscapedText(s[1..]) + ['"'] + x)
    ensures MarshalledChars(s) + ['"'] + x == Marshalled(s[0]) + (MarshalledChars(s[1..]) + ['"'] + x)
  {
    RegroupFour(Escaped(s[0]), EscapedText(s[1..]), ['"'], x);
    RegroupFour(Marshalled(s[0]), MarshalledChars(s[1..]), ['"'], x);
  }

  lemma RegroupFour(a: string, b: string, c: string, d: string)
    ensures (a + b) + c + d == a + (b + c + d)
  {
  }

  /** Inside quotes the two writings of a text agree only for one text, and only without guarded characters. */
  lemma {:induction false} CharsAgree(s: string, x: string, t: string, y: string)
    requires EscapedText(s) + ['"'] + x == MarshalledChars(t) + ['"'] + y
    ensures s == t && Unguarded(s) && x == y
    decreases s
  {
    QuoteIsEnd(s, x);
    QuoteIsEnd(t, y);
    if s == "" {
      assert ['"'] + x == EscapedText(s) + ['"'] + x && ['"'] + y == MarshalledChars(t) + ['"'] + y;
      SamePrefix(['"'], x, y);
    } else {
      CharsSplit(s, x);
      CharsSplit(t, y);
      CharsDetermined(s[0], EscapedText(s[1..]) + ['"'] + x, t[0], MarshalledChars(t[1..]) + ['"'] + y);
      CharsAgree(s[1..], x, t[1..], y);
      assert s == [s[0]] + s[1..] && t == [t[0]] + t[1..];
    }
  }

  lemma QuotedAgree(s: string, x: string, t: string, y: string)
    requires Quoted(s) + x == MarshalledQuoted(t) + y
    ensures s == t && Unguarded(s) && x == y
  {
    assert Quoted(s) + x == ['"'] + (EscapedText(s) + ['"'] + x);
    assert MarshalledQuoted(t) + y == ['"'] + (MarshalledChars(t) + ['"'] + y);
    SamePrefix(['"'], EscapedText(s) + ['"'] + x, MarshalledChars(t) + ['"'] + y);
    CharsAgree(s, x, t, y);
  }

  function StoredTail(values: seq<string>): string {
    if values == [] then "]" else SEPARATOR + Join(QuotedAll(values), SEPARATOR) + "]"
  }

  function MarshalledTail(values: seq<string>): string {
    if values == [] then "]" else "," + Join(MarshalledAll(values), ",") + "]"
  }

  lemma StoredSplits(values: seq<string>)
    requires values != []
    ensures StoredText(values) == ['['] + (Quoted(values[0]) + StoredTail(values[1..]))
  {
    assert QuotedAll(values)[1..] == QuotedAll(values[1..]);
    TwoJoined(Quoted(values[0]), SEPARATOR, Join(QuotedAll(values[1..]), SEPARATOR));
  }

  lemma MarshalledSplits(values: seq<string>)
    requires values != []
    ensures MarshalledText(values) == ['['] + (MarshalledQuoted(values[0]) + MarshalledTail(values[1..]))
  {
    assert MarshalledAll(values)[1..] == MarshalledAll(values[1..]);
    TwoJoined(MarshalledQuoted(values[0]), ",", Join(MarshalledAll(values[1..]), ","));
  }

  lemma TwoJoined(a: string, sep: string, b: string)
    ensures "[" + a + "]" == ['['] + (a + "]")
    ensures "[" + (a + sep + b) + "]" == ['['] + (a + (sep + b + "]"))
  {
  }

  lemma TailShapes(values: seq<string>)
    ensures StoredTail(values)[0] == MarshalledTail(values)[0] == if values == [] then ']' else ','
    ensures values != [] ==> |StoredTail(values)| > 1 && StoredTail(values)[1] == ' '
    ensures values != [] ==> |MarshalledTail(values)| > 1 && MarshalledTail(values)[1] == '"'
  {
    if values != [] {
      var joined := Join(MarshalledAll(values), ",");
      assert MarshalledAll(values)[0][0] == '"' && joined[0] == '"';
    }
  }

  /** After the first text the two go on differently, unless both end. */
  lemma TailsAgree(a: seq<string>, b: seq<string>)
    requires StoredTail(a) == MarshalledTail(b)
    ensures a == [] && b == []
  {
    TailShapes(a);
    TailShapes(b);
  }

  lemma {:induction false} UnguardedAlike(s: string)
    requires Unguarded(s)
    ensures EscapedText(s) == MarshalledChars(s)
  {
    if s != "" {
      UnguardedAlike(s[1..]);
    }
  }

  /**
   * What PostgreSQL prints of one list is what json.Marshal makes of another exactly when they are the same list, of at
   * most one text and without the characters that only json.Marshal escapes.
   */
  lemma TextsAgreeExactly(a: seq<string>, b: seq<string>)
    ensures StoredText(a) == MarshalledText(b) <==> a == b && WrittenAlike(a)
  {
    if a != [] && b != [] {
      StoredSplits(a);
      MarshalledSplits(b);
      if StoredText(a) == MarshalledText(b) {
        SamePrefix(['['], Quoted(a[0]) + StoredTail(a[1..]), MarshalledQuoted(b[0]) + MarshalledTail(b[1..]));
        QuotedAgree(a[0], StoredTail(a[1..]), b[0], MarshalledTail(b[1..]));
        TailsAgree(a[1..], b[1..]);
        assert a == [a[0]] && b == [b[0]];
      }
      if a == b && WrittenAlike(a) {
        UnguardedAlike(a[0]);
      }
    } else if a != [] {
      StoredSplits(a);
      assert StoredText(a)[1] == '"' && MarshalledText(b)[1] == ']';
    } else if b != [] {
      MarshalledSplits(b);
      assert MarshalledText(b)[1] == '"' && StoredText(a)[1] == ']';
    }
  }
}
