/** Character-level helpers shared by the components: white space, trimming, prefixes and joining. */
module Text {

  datatype Option<+T> = None | Some(value: T)

  /** White space as Go's unicode.IsSpace has it. */
  predicate UnicodeSpace(c: char) {
    || ('\t' <= c <= '\r') || c == ' ' || c == '\U{85}' || c == '\U{A0}' || c == '\U{1680}'
    || ('\U{2000}' <= c <= '\U{200A}') || c == '\U{2028}' || c == '\U{2029}' || c == '\U{202F}' || c == '\U{205F}'
    || c == '\U{3000}'
  }

  /** strings.TrimSpace. */
  function TrimSpace(s: string): string {
    Trim(s, UnicodeSpace)
  }

  ghost predicate Blank(s: string, sp: char -> bool) {
    forall i | 0 <= i < |s| :: sp(s[i])
  }

  /** No white space at either end. */
  predicate Tight(s: string, sp: char -> bool) {
    s == "" || (!sp(s[0]) && !sp(s[|s| - 1]))
  }

  function TrimLeft(s: string, sp: char -> bool): (r: string)
    ensures |r| <= |s| && (r != "" ==> !sp(r[0]))
  {
    if s == "" || !sp(s[0]) then s else TrimLeft(s[1..], sp)
  }

  function TrimRight(s: string, sp: char -> bool): (r: string)
    ensures |r| <= |s| && (r != "" ==> !sp(r[|r| - 1]))
    ensures r != "" ==> r[0] == s[0]
  {
    if s == "" || !sp(s[|s| - 1]) then s else TrimRight(s[..|s| - 1], sp)
  }

  function Trim(s: string, sp: char -> bool): (r: string)
    ensures |r| <= |s| && Tight(r, sp)
  {
    TrimRight(TrimLeft(s, sp), sp)
  }

  lemma {:induction false} TrimLeftSplits(s: string, sp: char -> bool) returns (l: string)
    ensures s == l + TrimLeft(s, sp) && Blank(l, sp)
  {
    if s == "" || !sp(s[0]) {
      l := "";
    } else {
      var rest := TrimLeftSplits(s[1..], sp);
      l := [s[0]] + rest;
    }
  }

  lemma {:induction false} TrimRightSplits(s: string, sp: char -> bool) returns (t: string)
    ensures s == TrimRight(s, sp) + t && Blank(t, sp)
  {
    if s == "" || !sp(s[|s| - 1]) {
      t := "";
    } else {
      var rest := TrimRightSplits(s[..|s| - 1], sp);
      t := rest + [s[|s| - 1]];
    }
  }

  lemma {:induction false} TrimLeftBlankPrefix(l: string, s: string, sp: char -> bool)
    requires Blank(l, sp)
    ensures TrimLeft(l + s, sp) == TrimLeft(s, sp)
  {
    if l == "" {
      assert l + s == s;
    } else {
      assert (l + s)[1..] == l[1..] + s;
      TrimLeftBlankPrefix(l[1..], s, sp);
    }
  }

  lemma {:induction false} TrimRightBlankSuffix(s: string, t: string, sp: char -> bool)
    requires Blank(t, sp)
    ensures TrimRight(s + t, sp) == TrimRight(s, sp)
  {
    if t == "" {
      assert s + t == s;
    } else {
      assert (s + t)[..|s + t| - 1] == s + t[..|t| - 1];
      TrimRightBlankSuffix(s, t[..|t| - 1], sp);
    }
  }

  /** Trimming finds the middle of any blank / tight / blank decomposition. */
  lemma TrimFinds(l: string, m: string, t: string, sp: char -> bool)
    requires Blank(l, sp) && Blank(t, sp) && Tight(m, sp)
    ensures Trim(l + m + t, sp) == m
  {
    assert l + m + t == l + (m + t);
    TrimLeftBlankPrefix(l, m + t, sp);
    if m == "" {
      assert m + t == t + "";
      TrimLeftBlankPrefix(t, "", sp);
    } else {
      assert (m + t)[0] == m[0];
      TrimRightBlankSuffix(m, t, sp);
    }
  }

  /** Conversely, trimming only removes blanks at the two ends. */
  lemma TrimSplits(s: string, sp: char -> bool) returns (l: string, t: string)
    ensures s == l + Trim(s, sp) + t && Blank(l, sp) && Blank(t, sp)
  {
    l := TrimLeftSplits(s, sp);
    t := TrimRightSplits(TrimLeft(s, sp), sp);
  }

  lemma TrimOfTight(s: string)
    requires Tight(s, UnicodeSpace)
    ensures TrimSpace(s) == s
  {
    TrimFinds("", s, "", UnicodeSpace);
    assert "" + s + "" == s;
  }

  /** Trimming keeps whatever holds of every character. */
  lemma {:induction false} TrimLeftKeeps(s: string, sp: char -> bool, p: char -> bool)
    requires forall i | 0 <= i < |s| :: p(s[i])
    ensures forall i | 0 <= i < |TrimLeft(s, sp)| :: p(TrimLeft(s, sp)[i])
  {
    if s != "" && sp(s[0]) {
      TrimLeftKeeps(s[1..], sp, p);
    }
  }

  lemma {:induction false} TrimRightKeeps(s: string, sp: char -> bool, p: char -> bool)
    requires forall i | 0 <= i < |s| :: p(s[i])
    ensures forall i | 0 <= i < |TrimRight(s, sp)| :: p(TrimRight(s, sp)[i])
  {
    if s != "" && sp(s[|s| - 1]) {
      TrimRightKeeps(s[..|s| - 1], sp, p);
    }
  }

  lemma SubsetSize(a: set<string>, b: set<string>)
    requires a <= b
    ensures |a| <= |b| && (|a| == |b| ==> a == b)
  {
    assert b == a + (b - a) && |b| == |a| + |b - a|;
  }

  predicate StartsWith(s: string, p: string) {
    p <= s
  }

  predicate EndsWith(s: string, p: string) {
    |p| <= |s| && s[|s| - |p|..] == p
  }

  /** The first position at which p occurs in s, if any. */
  function IndexOf(s: string, p: string): (r: Option<nat>)
    ensures r.Some? ==> r.value + |p| <= |s|
  {
    if p <= s then Some(0)
    else if s == "" then None
    else
      var rest := IndexOf(s[1..], p);
      if rest.Some? then Some(rest.value + 1) else None
  }

  lemma {:induction false} IndexOfFindsFirst(s: string, p: string)
    ensures IndexOf(s, p).Some? ==> p <= s[IndexOf(s, p).value..]
    ensures forall k: nat | k <= |s| && p <= s[k..] :: IndexOf(s, p).Some? && IndexOf(s, p).value <= k
  {
    if p <= s {
      assert s[0..] == s;
    } else if s == "" {
    } else {
      IndexOfFindsFirst(s[1..], p);
      assert s[0..] == s;
      assert forall k: nat | 0 < k <= |s| :: s[k..] == s[1..][k - 1..];
    }
  }

  lemma Regroup(a: string, b: string, c: string)
    ensures a + (b + c) == a + b + c
  {
  }

  lemma SamePrefix(p: string, a: string, b: string)
    requires p + a == p + b
    ensures a == b
  {
    assert (p + a)[|p|..] == a && (p + b)[|p|..] == b;
  }

  lemma SameSuffix(a: string, b: string, p: string)
    requires a + p == b + p
    ensures a == b
  {
    assert |a| == |b|;
    assert (a + p)[..|a|] == a && (b + p)[..|b|] == b;
  }

  /** Lexicographic order. */
  predicate Precedes(a: string, b: string) {
    b != "" && (a == "" || a[0] < b[0] || (a[0] == b[0] && Precedes(a[1..], b[1..])))
  }

  /** A strict total order. */
  lemma {:induction false} PrecedesIsOrder(a: string, b: string, c: string)
    ensures !Precedes(a, a)
    ensures Precedes(a, b) || Precedes(b, a) || a == b
    ensures Precedes(a, b) && Precedes(b, c) ==> Precedes(a, c)
  {
    if a != "" {
      PrecedesIsOrder(a[1..], if b == "" then "" else b[1..], if c == "" then "" else c[1..]);
      if b != "" && a[0] == b[0] {
        assert a == [a[0]] + a[1..] && b == [b[0]] + b[1..];
      }
    }
  }

  function Join(parts: seq<string>, sep: string): string {
    if parts == [] then ""
    else if |parts| == 1 then parts[0]
    else parts[0] + sep + Join(parts[1..], sep)
  }
}
