/**
 * Selectors as the pass sees them: where a scope is inserted, and that it leaves the specificity alone.
 */
module Selectors {
  import opened Text
  import opened CompatibilityScopes

  // ---------------------------------------------------------------- scoping a selector

  /** The position of the first `::` outside brackets, or the end; a backslash hides the next character. */
  function PseudoElementAt(selector: string, index: nat, depth: int): (k: nat)
    requires index <= |selector|
    ensures index <= k <= |selector|
    decreases |selector| - index
  {
    if index == |selector| then index
    else if selector[index] == '\\' then
      if index + 2 <= |selector| then PseudoElementAt(selector, index + 2, depth) else |selector|
    else
      var d := Nesting(selector[index], depth);
      if d == 0 && index + 1 < |selector| && selector[index] == ':' && selector[index + 1] == ':' then index
      else PseudoElementAt(selector, index + 1, d)
  }

  function Nesting(c: char, depth: int): int {
    if c == '(' || c == '[' then depth + 1 else if c == ')' || c == ']' then depth - 1 else depth
  }

  function Scope(selector: string): string {
    var k := PseudoElementAt(selector, 0, 0);
    selector[..k] + Subject() + selector[k..]
  }

  method ScopeSelectorSubject(selector: string) returns (scoped: string)
    ensures scoped == Scope(selector)
  {
    var depth, index := 0, 0;
    while index < |selector|
      invariant index <= |selector|
      invariant PseudoElementAt(selector, index, depth) == PseudoElementAt(selector, 0, 0)
    {
      if selector[index] == '\\' {
        index := if index + 2 <= |selector| then index + 2 else |selector|;
        continue;
      }
      if selector[index] == '(' || selector[index] == '[' { depth := depth + 1; }
      if selector[index] == ')' || selector[index] == ']' { depth := depth - 1; }
      if depth == 0 && index + 1 < |selector| && selector[index] == ':' && selector[index + 1] == ':' {
        return selector[..index] + Subject() + selector[index..];
      }
      index := index + 1;
    }
    assert selector[|selector|..] == "" && selector[..|selector|] == selector;
    return selector + Subject();
  }

  function ScopeAll(selectors: seq<string>): (r: seq<string>)
    ensures |r| == |selectors|
  {
    if selectors == [] then [] else [Scope(selectors[0])] + ScopeAll(selectors[1..])
  }

  lemma {:induction false} ScopeAllAt(selectors: seq<string>, i: nat)
    requires i < |selectors|
    ensures ScopeAll(selectors)[i] == Scope(selectors[i])
  {
    if i > 0 {
      ScopeAllAt(selectors[1..], i - 1);
    }
  }

  // ---------------------------------------------------------------- which position that is

  /** A backslash that is not hidden itself stands before the position. */
  predicate Hidden(s: string, i: nat)
    requires i <= |s|
  {
    i > 0 && s[i - 1] == '\\' && !Hidden(s, i - 1)
  }

  /** Opening minus closing brackets before the position, hidden ones aside. */
  function Depth(s: string, i: nat): int
    requires i <= |s|
  {
    if i == 0 then 0
    else
      Depth(s, i - 1) + (if Hidden(s, i - 1) then 0
                         else if s[i - 1] == '(' || s[i - 1] == '[' then 1
                         else if s[i - 1] == ')' || s[i - 1] == ']' then -1 else 0)
  }

  /** An element `::` that is neither hidden nor in brackets. */
  predicate IsPseudoElement(s: string, i: nat) {
    i + 1 < |s| && s[i] == ':' && s[i + 1] == ':' && !Hidden(s, i) && Depth(s, i) == 0
  }

  lemma {:induction false} FirstFrom(s: string, index: nat)
    requires index <= |s| && !Hidden(s, index) && forall i | 0 <= i < index :: !IsPseudoElement(s, i)
    ensures var k := PseudoElementAt(s, index, Depth(s, index));
            (k < |s| ==> IsPseudoElement(s, k)) && forall i | 0 <= i < k :: !IsPseudoElement(s, i)
    decreases |s| - index
  {
    if index < |s| {
      if s[index] == '\\' {
        assert Hidden(s, index + 1);
        if index + 2 <= |s| {
          assert !Hidden(s, index + 2) && Depth(s, index + 2) == Depth(s, index);
          FirstFrom(s, index + 2);
        }
      } else if !IsPseudoElement(s, index) {
        FirstFrom(s, index + 1);
      }
    }
  }

  /** Every selector gets its scope before its first pseudo-element, or at its end when it has none. */
  lemma ScopeComesFirst(s: string)
    ensures var k := PseudoElementAt(s, 0, 0);
            && Scope(s) == s[..k] + Subject() + s[k..]
            && (k == |s| || IsPseudoElement(s, k))
            && forall i | 0 <= i < k :: !IsPseudoElement(s, i)
  {
    FirstFrom(s, 0);
  }

  // ---------------------------------------------------------------- simple selectors and specificity

  /** What a selector is worth (section 17 of Selectors Level 4). */
  datatype Specificity = Specificity(ids: nat, classes: nat, types: nat) {
    function Plus(other: Specificity): Specificity {
      Specificity(ids + other.ids, classes + other.classes, types + other.types)
    }

    predicate Less(other: Specificity) {
      ids < other.ids || (ids == other.ids && (classes < other.classes || (classes == other.classes && types < other.types)))
    }
  }

  const Nothing := Specificity(0, 0, 0)

  /** The worth of a functional pseudo-class other than `:where()`, which comes from its arguments. */
  type Functional = string -> Specificity

  predicate Combines(c: char) {
    c == ' ' || c == '\t' || c == '\n' || c == '\r' || c == '\U{C}' || c == '>' || c == '+' || c == '~' || c == ','
  }

  /** Outside brackets these characters begin a simple selector; a second colon continues the first one. */
  predicate Begins(c: char, current: string) {
    c == '#' || c == '.' || c == '[' || c == '*' || c == '&' || (c == ':' && current != ":")
  }

  function Flush(current: string): seq<string> {
    if current == "" then [] else [current]
  }

  /** The simple selector that ends with the next character, if any. */
  function Flushed(c: char, depth: int, current: string): seq<string> {
    if depth == 0 && (Combines(c) || Begins(c, current)) then Flush(current) else []
  }

  /** The part of a simple selector at hand after the next character. */
  function Held(c: char, depth: int, current: string): string {
    if depth == 0 && Combines(c) then "" else if depth == 0 && Begins(c, current) then [c] else current + [c]
  }

  /** The simple selectors of the rest of a selector, `current` being the part of the first one already read. */
  function Simple(rest: string, depth: int, current: string): seq<string>
    decreases |rest|
  {
    if rest == "" then Flush(current)
    else if rest[0] == '\\' then
      if |rest| == 1 then [current + rest] else Simple(rest[2..], depth, current + rest[..2])
    else Flushed(rest[0], depth, current) + Simple(rest[1..], Nesting(rest[0], depth), Held(rest[0], depth, current))
  }

  const WHERE := ":where("

  predicate IsFunctional(token: string) {
    exists i | 0 <= i < |token| :: token[i] == '('
  }

  function Worth(token: string, functional: Functional): Specificity {
    if token == "" || token[0] == '*' then Nothing
    else if StartsWith(token, WHERE) then Nothing
    else if token[0] == '#' then Specificity(1, 0, 0)
    else if token[0] == '.' || token[0] == '[' then Specificity(0, 1, 0)
    else if token[0] == '&' || IsFunctional(token) then functional(token)
    else if StartsWith(token, "::") || token in {":before", ":after", ":first-line", ":first-letter"} then Specificity(0, 0, 1)
    else if token[0] == ':' then Specificity(0, 1, 0)
    else Specificity(0, 0, 1)
  }

  function Total(tokens: seq<string>, worth: Functional): Specificity {
    if tokens == [] then Nothing else worth(tokens[0]).Plus(Total(tokens[1..], worth))
  }

  function SpecificityOf(selector: string, functional: Functional): Specificity {
    Total(Simple(selector, 0, ""), token => Worth(token, functional))
  }

  lemma PlusAssociates(x: Specificity, y: Specificity, z: Specificity)
    ensures x.Plus(y.Plus(z)) == x.Plus(y).Plus(z) && Nothing.Plus(x) == x
  {
  }

  lemma {:induction false} TotalOfBoth(a: seq<string>, b: seq<string>, worth: Functional)
    ensures Total(a + b, worth) == Total(a, worth).Plus(Total(b, worth))
  {
    if a == [] {
      assert a + b == b;
    } else {
      assert (a + b)[0] == a[0] && (a + b)[1..] == a[1..] + b;
      TotalOfBoth(a[1..], b, worth);
      PlusAssociates(worth(a[0]), Total(a[1..], worth), Total(b, worth));
    }
  }

  lemma TotalWithout(a: seq<string>, token: string, b: seq<string>, worth: Functional)
    requires worth(token) == Nothing
    ensures Total(a + ([token] + b), worth) == Total(a + b, worth)
  {
    TotalOfBoth(a, [token] + b, worth);
    TotalOfBoth(a, b, worth);
    assert ([token] + b)[1..] == b;
  }

  // ---------------------------------------------------------------- the scope is one simple selector

  /** The depth after p when it stays positive throughout and nothing is escaped. */
  ghost function Nest(p: string, depth: int): (r: Option<int>)
    requires depth >= 1
    ensures r.Some? ==> r.value >= 1
  {
    if p == "" then Some(depth)
    else if p[0] == '\\' || Nesting(p[0], depth) < 1 then None
    else Nest(p[1..], Nesting(p[0], depth))
  }

  lemma {:induction false} NestAppend(p: string, q: string, depth: int)
    requires depth >= 1 && Nest(p, depth).Some?
    ensures Nest(p + q, depth) == Nest(q, Nest(p, depth).value)
  {
    if p == "" {
      assert p + q == q;
    } else {
      assert (p + q)[1..] == p[1..] + q;
      NestAppend(p[1..], q, Nesting(p[0], depth));
    }
  }

  ghost predicate Plain(p: string) {
    forall i | 0 <= i < |p| :: p[i] != '(' && p[i] != ')' && p[i] != '[' && p[i] != ']' && p[i] != '\\'
  }

  lemma {:induction false} NestPlain(p: string, depth: int)
    requires depth >= 1 && Plain(p)
    ensures Nest(p, depth) == Some(depth)
  {
    if p != "" {
      NestPlain(p[1..], depth);
    }
  }

  /** An attribute selector without further brackets. */
  ghost predicate IsAttribute(t: string) {
    |t| >= 2 && t[0] == '[' && t[|t| - 1] == ']' && Plain(t[1..|t| - 1])
  }

  lemma AttributeNests(t: string, depth: int)
    requires depth >= 1 && IsAttribute(t)
    ensures Nest(t, depth) == Some(depth)
  {
    var inner := t[1..|t| - 1];
    assert t[1..] == inner + "]" && "]"[1..] == "";
    NestPlain(inner, depth + 1);
    NestAppend(inner, "]", depth + 1);
    assert Nest("]", depth + 1) == Some(depth);
  }

  ghost predicate AllAttributes(scopes: seq<string>) {
    forall i | 0 <= i < |scopes| :: IsAttribute(scopes[i])
  }

  lemma {:induction false} DescendantsNest(scopes: seq<string>)
    requires AllAttributes(scopes)
    ensures Nest(Join(WithDescendants(scopes), ", "), 1) == Some(1)
  {
    if scopes != [] {
      var scope, rest := scopes[0], WithDescendants(scopes[1..]);
      var both := WithDescendants(scopes);
      assert both == [scope, scope + " *"] + rest;
      assert both[1..] == [scope + " *"] + rest && both[1..][1..] == rest;
      AttributeNests(scope, 1);
      NestPlain(" *", 1);
      NestAppend(scope, " *", 1);
      DescendantsNest(scopes[1..]);
      if rest == [] {
        JoinNests(scope, [scope + " *"]);
      } else {
        JoinNests(scope + " *", rest);
        JoinNests(scope, both[1..]);
      }
    }
  }

  lemma JoinNests(first: string, rest: seq<string>)
    requires rest != [] && Nest(first, 1) == Some(1) && Nest(Join(rest, ", "), 1) == Some(1)
    ensures Nest(Join([first] + rest, ", "), 1) == Some(1)
  {
    assert ([first] + rest)[1..] == rest;
    NestPlain(", ", 1);
    NestAppend(first, ", ", 1);
    NestAppend(first + ", ", Join(rest, ", "), 1);
  }

  ghost predicate AllPlain(values: seq<string>) {
    forall i | 0 <= i < |values| :: Plain(values[i])
  }

  lemma PlainTogether(a: seq<string>, b: seq<string>)
    requires AllPlain(a) && AllPlain(b)
    ensures AllPlain(a + b)
  {
  }

  lemma DrawerIsPlain()
    ensures Plain(DRAWER)
  {
  }

  lemma EditorOverlayIsPlain()
    ensures Plain(EDITOR_OVERLAY)
  {
  }

  lemma DeleteOverlayIsPlain()
    ensures Plain(DELETE_OVERLAY)
  {
  }

  lemma ThreeArePlain(a: string, b: string, c: string)
    requires Plain(a) && Plain(b) && Plain(c)
    ensures AllPlain([a, b, c])
  {
  }

  lemma DrawerSlotsArePlain()
    ensures AllPlain(DRAWER_SLOTS)
  {
    DrawerIsPlain();
    EditorOverlayIsPlain();
    DeleteOverlayIsPlain();
    ThreeArePlain(DRAWER, EDITOR_OVERLAY, DELETE_OVERLAY);
  }

  lemma ContentSlotsArePlain()
    ensures AllPlain(["popover-content", "tooltip-content"])
  {
  }

  lemma RoleIsAttribute(value: string)
    requires Plain(value)
    ensures IsAttribute(Role(value))
  {
    var t := Role(value);
    assert t[1..|t| - 1] == "role=\"" + value + "\"";
  }

  lemma SlotIsAttribute(value: string)
    requires Plain(value)
    ensures IsAttribute(Slot(value))
  {
    var t := Slot(value);
    assert t[1..|t| - 1] == "data-slot=\"" + value + "\"";
  }

  lemma {:induction false} RolesAreAttributes(values: seq<string>)
    requires AllPlain(values)
    ensures AllAttributes(Roles(values))
  {
    if values != [] {
      RoleIsAttribute(values[0]);
      RolesAreAttributes(values[1..]);
    }
  }

  lemma {:induction false} SlotsAreAttributes(values: seq<string>)
    requires AllPlain(values)
    ensures AllAttributes(Slots(values))
  {
    if values != [] {
      SlotIsAttribute(values[0]);
      SlotsAreAttributes(values[1..]);
    }
  }

  lemma FloatingRolesAreAttributes()
    ensures AllAttributes(Roles(FLOATING_ROLES))
  {
    RolesAreAttributes(FLOATING_ROLES);
  }

  lemma FloatingSlotsAreAttributes()
    ensures AllAttributes(Slots(FLOATING_SLOTS))
  {
    DrawerSlotsArePlain();
    ContentSlotsArePlain();
    PlainTogether(["popover-content", "tooltip-content"], DRAWER_SLOTS);
    SlotsAreAttributes(FLOATING_SLOTS);
  }

  lemma ScopesAreAttributes()
    ensures AllAttributes(COMPATIBILITY_SCOPES)
  {
    FloatingRolesAreAttributes();
    FloatingSlotsAreAttributes();
    SlotsAreAttributes(BUSINESS_CONTENT_SLOTS);
    SlotsAreAttributes([SIDEBAR_SLOT]);
  }

  /** In brackets everything belongs to the simple selector at hand. */
  lemma {:induction false} NestedIsOne(p: string, depth: int, current: string, rest: string)
    requires depth >= 1 && Nest(p, depth).Some?
    ensures Simple(p + rest, depth, current) == Simple(rest, Nest(p, depth).value, current + p)
    decreases |p|
  {
    if p == "" {
      assert p + rest == rest && current + p == current;
    } else {
      assert (p + rest)[1..] == p[1..] + rest;
      assert current + [p[0]] + p[1..] == current + p;
      NestedIsOne(p[1..], Nesting(p[0], depth), current + [p[0]], rest);
    }
  }

  ghost predicate IsSubject(subject: string, inner: string) {
    subject == WHERE + inner + ")" && Nest(inner, 1) == Some(1)
  }

  lemma SubjectIsWhere() returns (inner: string)
    ensures IsSubject(Subject(), inner)
  {
    inner := Join(WithDescendants(COMPATIBILITY_SCOPES), ", ");
    ScopesAreAttributes();
    DescendantsNest(COMPATIBILITY_SCOPES);
  }

  ghost predicate Continues(word: string) {
    forall i | 0 <= i < |word| ::
      word[i] != '\\' && !Combines(word[i]) && !Begins(word[i], "") && Nesting(word[i], 0) == 0
  }

  lemma {:induction false} WordIsRead(word: string, rest: string, current: string)
    requires Continues(word)
    ensures Simple(word + rest, 0, current) == Simple(rest, 0, current + word)
    decreases |word|
  {
    if word == "" {
      assert word + rest == rest && current + word == current;
    } else {
      assert (word + rest)[1..] == word[1..] + rest;
      assert current + [word[0]] + word[1..] == current + word;
      assert Simple(word + rest, 0, current) == [] + Simple(word[1..] + rest, 0, current + [word[0]]);
      WordIsRead(word[1..], rest, current + [word[0]]);
    }
  }

  lemma WhereIsRead(rest: string, current: string)
    requires current != ":"
    ensures Simple(WHERE + rest, 0, current) == Flush(current) + Simple(rest, 1, WHERE)
  {
    var word := "where";
    assert Continues(word);
    var tail := word + ("(" + rest);
    assert WHERE + rest == ":" + tail && (":" + tail)[1..] == tail;
    WordIsRead(word, "(" + rest, ":");
    assert ("(" + rest)[1..] == rest && ":" + word + ['('] == WHERE;
  }

  /** What may follow an inserted scope. */
  predicate EndsOrPseudo(rest: string) {
    rest == "" || rest[0] == ':'
  }

  lemma SubjectIsOne(subject: string, inner: string, rest: string, current: string)
    requires IsSubject(subject, inner) && EndsOrPseudo(rest) && current != ":"
    ensures Simple(subject + rest, 0, current) == Flush(current) + ([subject] + Simple(rest, 0, ""))
  {
    assert subject + rest == WHERE + (inner + (")" + rest));
    WhereIsRead(inner + (")" + rest), current);
    NestedIsOne(inner, 1, WHERE, ")" + rest);
    assert (")" + rest)[1..] == rest;
    assert WHERE + inner + [')'] == subject;
    assert Simple(")" + rest, 1, WHERE + inner) == Simple(rest, 0, subject);
    assert subject != ":" && Simple(rest, 0, subject) == [subject] + Simple(rest, 0, "");
  }

  /** The selector closes its brackets and does not end in the middle of an escape or of a `::`. */
  predicate Complete(rest: string, depth: int, current: string)
    decreases |rest|
  {
    if rest == "" then depth == 0 && current != ":"
    else if rest[0] == '\\' then |rest| > 1 && Complete(rest[2..], depth, current + rest[..2])
    else Complete(rest[1..], Nesting(rest[0], depth), Held(rest[0], depth, current))
  }

  /** A selector that a scope can be appended to, or one with a pseudo-element before which it goes. */
  predicate Scopable(selector: string) {
    PseudoElementAt(selector, 0, 0) < |selector| || Complete(selector, 0, "")
  }

  /** Nothing reads `::` across the position: a colon just before it is not followed by another one. */
  predicate BetweenColons(s: string, index: nat, depth: int, current: string) {
    depth == 0 && current == ":" ==> index >= |s| || s[index] != ':'
  }

  lemma ScopeHere(subject: string, inner: string, rest: string, current: string)
    requires IsSubject(subject, inner) && EndsOrPseudo(rest) && current != ":"
    ensures Simple(rest, 0, current) == Flush(current) + Simple(rest, 0, "")
    ensures Simple(subject + rest, 0, current) == Flush(current) + ([subject] + Simple(rest, 0, ""))
  {
    SubjectIsOne(subject, inner, rest, current);
  }

  lemma OneMoreCharacter(s: string, index: nat, k: nat, subject: string)
    requires index < k <= |s|
    ensures var t := s[index..k] + subject + s[k..];
            t != "" && t[0] == s[index] && t[1..] == s[index + 1..k] + subject + s[k..]
    ensures s[index..] != "" && s[index..][0] == s[index] && s[index..][1..] == s[index + 1..]
  {
  }

  lemma TwoMoreCharacters(s: string, index: nat, k: nat, subject: string)
    requires index + 2 <= k <= |s|
    ensures var t := s[index..k] + subject + s[k..];
            |t| >= 2 && t[0] == s[index] && t[..2] == s[index..index + 2] && t[2..] == s[index + 2..k] + subject + s[k..]
    ensures s[index..][0] == s[index] && s[index..][..2] == s[index..index + 2] && s[index..][2..] == s[index + 2..]
  {
  }

  lemma StillBetween(s: string, index: nat, depth: int, current: string)
    requires index < |s| && s[index] != '\\' && BetweenColons(s, index, depth, current)
    requires PseudoElementAt(s, index, depth) != index
    ensures BetweenColons(s, index + 1, Nesting(s[index], depth), Held(s[index], depth, current))
  {
    var c := s[index];
    assert current + [c] == ":" ==> current == "" && c == ':' by {
      assert |current + [c]| == |current| + 1 && (current + [c])[|current|] == c;
    }
  }

  /** The scope is one more simple selector between those before it and those behind it. */
  lemma {:induction false} ScopeIsOneMore(s: string, index: nat, depth: int, current: string, subject: string, inner: string)
    returns (a: seq<string>, b: seq<string>)
    requires index <= |s| && IsSubject(subject, inner) && BetweenColons(s, index, depth, current)
    requires PseudoElementAt(s, index, depth) == |s| ==> Complete(s[index..], depth, current)
    ensures Simple(s[index..], depth, current) == a + b
    ensures var k := PseudoElementAt(s, index, depth);
            Simple(s[index..k] + subject + s[k..], depth, current) == a + ([subject] + b)
    decreases |s| - index
  {
    var k := PseudoElementAt(s, index, depth);
    if index == k {
      a, b := Flush(current), Simple(s[index..], 0, "");
      assert s[index..k] + subject + s[k..] == subject + s[index..];
      ScopeHere(subject, inner, s[index..], current);
    } else if s[index] == '\\' {
      assert index + 2 <= |s| by {
        assert |s[index..]| == |s| - index;
      }
      TwoMoreCharacters(s, index, k, subject);
      a, b := ScopeIsOneMore(s, index + 2, depth, current + s[index..index + 2], subject, inner);
    } else {
      var c := s[index];
      OneMoreCharacter(s, index, k, subject);
      StillBetween(s, index, depth, current);
      a, b := ScopeIsOneMore(s, index + 1, Nesting(c, depth), Held(c, depth, current), subject, inner);
      Regrouped(Flushed(c, depth, current), a, b, subject);
      a := Flushed(c, depth, current) + a;
    }
  }

  lemma Regrouped(x: seq<string>, a: seq<string>, b: seq<string>, subject: string)
    ensures x + (a + b) == x + a + b && x + (a + ([subject] + b)) == x + a + ([subject] + b)
  {
  }

  lemma SubjectIsWorthNothing(subject: string, inner: string, functional: Functional)
    requires IsSubject(subject, inner)
    ensures Worth(subject, functional) == Nothing
  {
    assert WHERE <= subject;
  }

  /** The inserted scope leaves the specificity of every selector as it was. */
  lemma ScopeKeepsSpecificity(selector: string, functional: Functional)
    requires Scopable(selector)
    ensures SpecificityOf(Scope(selector), functional) == SpecificityOf(selector, functional)
  {
    var inner := SubjectIsWhere();
    assert selector[0..] == selector;
    var a, b := ScopeIsOneMore(selector, 0, 0, "", Subject(), inner);
    var k := PseudoElementAt(selector, 0, 0);
    assert selector[0..k] == selector[..k];
    SubjectIsWorthNothing(Subject(), inner, functional);
    TotalWithout(a, Subject(), b, token => Worth(token, functional));
  }
}
