/**
 * The table of BOM sections and its three transactions. The transactions are specified as functions on the
 * whole table, carried out by the methods of SectionTable, and the table's rules are proved over every run.
 */
module BomSections {
  import opened Text
  import JsonText

  // ---------------------------------------------------------------- lists of names

  /** The trimmed, non-empty values in order, each at its first occurrence only. */
  function Names(values: seq<string>): (r: seq<string>)
  {
    NamesAfter([], values)
  }

  function NamesAfter(seen: seq<string>, values: seq<string>): seq<string>
    decreases values
  {
    if values == [] then seen
    else NamesAfter(WithName(seen, values[0]), values[1..])
  }

  function WithName(seen: seq<string>, value: string): seq<string> {
    var name := TrimSpace(value);
    if name == "" || name in seen then seen else seen + [name]
  }

  lemma {:induction false} NamesAfterSplits(seen: seq<string>, a: seq<string>, b: seq<string>)
    ensures NamesAfter(seen, a + b) == NamesAfter(NamesAfter(seen, a), b)
    decreases a
  {
    if a == [] {
      assert a + b == b;
    } else {
      assert (a + b)[1..] == a[1..] + b;
      NamesAfterSplits(WithName(seen, a[0]), a[1..], b);
    }
  }

  method NormalizeNames(values: seq<string>) returns (result: seq<string>)
    ensures result == Names(values)
  {
    result := [];
    var seen: set<string> := {};
    for i := 0 to |values|
      invariant result == Names(values[..i])
      invariant forall name :: name in seen <==> name in result
    {
      assert values[..i + 1] == values[..i] + [values[i]];
      NamesAfterSplits([], values[..i], [values[i]]);
      var trimmed := TrimSpace(values[i]);
      if trimmed == "" {
        continue;
      }
      if trimmed in seen {
        continue;
      }
      seen := seen + {trimmed};
      result := result + [trimmed];
    }
    assert values[..|values|] == values;
  }

  ghost predicate Distinct(names: seq<string>) {
    forall i, j | 0 <= i < j < |names| :: names[i] != names[j]
  }

  ghost predicate Clean(names: seq<string>) {
    Distinct(names) && forall i | 0 <= i < |names| :: names[i] != "" && TrimSpace(names[i]) == names[i]
  }

  lemma {:induction false} NamesAreClean(seen: seq<string>, values: seq<string>)
    requires Clean(seen)
    ensures Clean(NamesAfter(seen, values))
    decreases values
  {
    if values != [] {
      TrimOfTight(TrimSpace(values[0]));
      NamesAreClean(WithName(seen, values[0]), values[1..]);
    }
  }

  /** Exactly the seen names and the trimmed non-empty values, the seen ones first. */
  lemma {:induction false} NamesHold(seen: seq<string>, values: seq<string>)
    ensures seen <= NamesAfter(seen, values)
    ensures forall name :: name in NamesAfter(seen, values) <==>
              name in seen || (name != "" && exists i | 0 <= i < |values| :: TrimSpace(values[i]) == name)
    decreases values
  {
    if values != [] {
      NamesHold(WithName(seen, values[0]), values[1..]);
      forall name | name in seen || (name != "" && exists i | 0 <= i < |values| :: TrimSpace(values[i]) == name)
        ensures name in NamesAfter(seen, values)
      {
        if name !in seen {
          var i :| 0 <= i < |values| && TrimSpace(values[i]) == name;
          if i > 0 {
            assert TrimSpace(values[1..][i - 1]) == name;
          }
        }
      }
    }
  }

  lemma CleanNext(seen: seq<string>, values: seq<string>)
    requires Clean(seen + values) && values != []
    ensures WithName(seen, values[0]) == seen + [values[0]]
  {
    var all := seen + values;
    assert all[|seen|] == values[0] && forall i | 0 <= i < |seen| :: all[i] == seen[i];
  }

  lemma {:induction false} CleanNamesStay(seen: seq<string>, values: seq<string>)
    requires Clean(seen + values)
    ensures NamesAfter(seen, values) == seen + values
    decreases values
  {
    if values == [] {
      assert seen + values == seen;
    } else {
      CleanNext(seen, values);
      assert seen + values == seen + [values[0]] + values[1..];
      CleanNamesStay(seen + [values[0]], values[1..]);
    }
  }

  /** Writing a list of names and reading it back changes nothing any more. */
  lemma NamesAgain(values: seq<string>)
    ensures Names(Names(values)) == Names(values)
  {
    NamesAreClean([], values);
    assert [] + Names(values) == Names(values);
    CleanNamesStay([], Names(values));
  }

  /** Appending keeps the list and adds the trimmed name. */
  lemma Appended(values: seq<string>, last: string)
    ensures var longer := Names(Names(values) + [last]);
            && (forall name | name in Names(values) :: name in longer)
            && (TrimSpace(last) != "" ==> TrimSpace(last) in longer)
  {
    var all := Names(values) + [last];
    NamesHold([], all);
    NamesAreClean([], values);
    assert all[|Names(values)|] == last;
    forall name | name in Names(values) ensures name in Names(all) {
      var i :| 0 <= i < |Names(values)| && Names(values)[i] == name;
      assert TrimSpace(all[i]) == name;
    }
  }

  // ---------------------------------------------------------------- identity tokens

  /** Upper case on ASCII letters. */
  function Upper(c: char): char {
    if 'a' <= c <= 'z' then c - 'a' + 'A' else c
  }

  /** The characters other than white space, in upper case. */
  function Token(value: string): string {
    if value == "" then ""
    else (if UnicodeSpace(value[0]) then "" else [Upper(value[0])]) + Token(value[1..])
  }

  lemma {:induction false} TokenConcat(a: string, b: string)
    ensures Token(a + b) == Token(a) + Token(b)
  {
    if a == "" {
      assert a + b == b;
    } else {
      assert (a + b)[1..] == a[1..] + b;
      TokenConcat(a[1..], b);
    }
  }

  lemma {:induction false} TokenOfBlank(s: string)
    ensures Token(s) == "" <==> Blank(s, UnicodeSpace)
  {
    if s != "" {
      TokenOfBlank(s[1..]);
    }
  }

  lemma TokenOfTrimmed(s: string)
    ensures Token(TrimSpace(s)) == Token(s)
    ensures TrimSpace(s) != "" ==> Token(s) != ""
  {
    var l, t := TrimSplits(s, UnicodeSpace);
    TokenConcat(l, TrimSpace(s));
    TokenConcat(l + TrimSpace(s), t);
    TokenOfBlank(l);
    TokenOfBlank(t);
    if TrimSpace(s) != "" {
      assert Token(TrimSpace(s)) != "";
    }
  }

  /** The token of a token is itself. */
  lemma {:induction false} TokenAgain(s: string)
    ensures Token(Token(s)) == Token(s)
  {
    if s != "" {
      TokenAgain(s[1..]);
      if !UnicodeSpace(s[0]) {
        TokenConcat([Upper(s[0])], Token(s[1..]));
        assert Token([Upper(s[0])]) == [Upper(s[0])] + Token([]);
      } else {
        assert "" + Token(s[1..]) == Token(s[1..]);
      }
    }
  }

  datatype Section = Section(
    id: string,
    code: string,
    name: string,
    description: string,
    isSystem: bool,
    active: bool,
    sortOrder: int,
    isDefault: bool,
    legacy: seq<string>,
    version: int)

  /** Everything that names the section: its code, its name and its historical names. */
  function Candidates(s: Section): seq<string> {
    [s.code, s.name] + Names(s.legacy)
  }

  ghost predicate TokenBefore(values: seq<string>, n: nat, token: string)
    requires n <= |values|
  {
    token != "" && exists k | 0 <= k < n :: Token(values[k]) == token
  }

  ghost predicate Named(s: Section, token: string) {
    TokenBefore(Candidates(s), |Candidates(s)|, token)
  }

  lemma OneMoreToken(values: seq<string>, n: nat)
    requires n < |values|
    ensures forall token :: TokenBefore(values, n + 1, token) <==>
                              TokenBefore(values, n, token) || (token != "" && Token(values[n]) == token)
  {
    assert Token(values[n]) != "" ==> TokenBefore(values, n + 1, Token(values[n]));
  }

  method IdentityTokens(s: Section) returns (tokens: map<string, string>)
    ensures forall token :: token in tokens <==> Named(s, token)
    ensures forall token | token in tokens :: Token(tokens[token]) == token
  {
    var legacy := NormalizeNames(s.legacy);
    var values := [s.code, s.name] + legacy;
    assert values == Candidates(s);
    tokens := map[];
    for i := 0 to |values|
      invariant forall token :: token in tokens <==> TokenBefore(values, i, token)
      invariant forall token | token in tokens :: Token(tokens[token]) == token
    {
      var trimmed := TrimSpace(values[i]);
      TokenOfTrimmed(values[i]);
      OneMoreToken(values, i);
      if trimmed == "" {
        continue;
      }
      var normalized := Token(trimmed);
      if normalized == "" {
        continue;
      }
      if normalized in tokens {
        continue;
      }
      tokens := tokens[normalized := trimmed];
    }
  }

  ghost predicate Clash(a: Section, b: Section) {
    exists token :: Named(a, token) && Named(b, token)
  }

  type Rows = map<string, Section>

  ghost predicate Unique(candidate: Section, rows: Rows, current: string) {
    forall id | id in rows && !(current != "" && rows[id].id == current) :: !Clash(candidate, rows[id])
  }

  /** Two loops over the locked rows and the candidate's tokens. */
  method CheckUniqueness(candidate: Section, rows: Rows, current: string) returns (ok: bool)
    ensures ok == Unique(candidate, rows, current)
  {
    var tokens := IdentityTokens(candidate);
    var left := rows.Keys;
    while left != {}
      invariant left <= rows.Keys
      invariant forall id | id in rows.Keys - left && !(current != "" && rows[id].id == current) :: !Clash(candidate, rows[id])
    {
      var id :| id in left;
      left := left - {id};
      if current != "" && rows[id].id == current {
        continue;
      }
      var existing := IdentityTokens(rows[id]);
      var pending := tokens.Keys;
      while pending != {}
        invariant pending <= tokens.Keys
        invariant forall token | token in tokens.Keys - pending :: !Named(rows[id], token)
      {
        var token :| token in pending;
        pending := pending - {token};
        if token in existing {
          assert Named(candidate, token) && Named(rows[id], token);
          assert Clash(candidate, rows[id]);
          return false;
        }
      }
    }
    return true;
  }

  // ---------------------------------------------------------------- one row

  function Normalized(s: Section): Section {
    s.(code := Token(s.code),
       name := TrimSpace(s.name),
       description := TrimSpace(s.description),
       legacy := Names(Names(s.legacy) + [TrimSpace(s.name)]),
       isDefault := s.isDefault && s.active)
  }

  /** The closing assignment of `active` never changes anything. */
  method NormalizeConfig(s: Section) returns (section: Section)
    ensures section == Normalized(s)
  {
    section := s;
    section := section.(code := Token(section.code));
    section := section.(name := TrimSpace(section.name));
    section := section.(description := TrimSpace(section.description));
    var legacy := NormalizeNames(section.legacy);
    legacy := NormalizeNames(legacy + [section.name]);
    section := section.(legacy := legacy);
    if !section.active {
      section := section.(isDefault := false);
    }
    if section.isDefault {
      section := section.(active := true);
    }
  }

  predicate Acceptable(s: Section) {
    s.code != "" && s.name != ""
  }

  /** A new value sent for a field; Malformed is one that is not an object of an old and a new value. */
  datatype Value = Phrase(text: string) | Flag(flag: bool) | Number(number: int) | Null | Other | Malformed

  type Delta = map<string, Value>

  const Fields: set<string> := {"name", "description", "active", "sortOrder", "isDefault"}

  /** Keys are checked after trimming, but only exact ones are applied. */
  predicate Supported(delta: Delta) {
    delta != map[] && forall key | key in delta :: TrimSpace(key) in Fields
  }

  predicate WellTyped(key: string, v: Value) {
    && !v.Malformed?
    && (key == "name" || key == "description" ==> v.Phrase? || v.Null?)
    && (key == "active" || key == "isDefault" ==> v.Flag? || v.Null?)
    && (key == "sortOrder" ==> v.Number? || v.Null?)
  }

  function TextOf(v: Value): string { if v.Phrase? then v.text else "" }
  function FlagOf(v: Value): bool { v.Flag? && v.flag }
  function NumberOf(v: Value): int { if v.Number? then v.number else 0 }

  function Change(original: Section, next: Section, key: string, v: Value): Section {
    if key == "name" then next.(legacy := Names(Names(next.legacy) + [original.name]), name := TextOf(v))
    else if key == "description" then next.(description := TextOf(v))
    else if key == "active" then next.(active := FlagOf(v))
    else if key == "sortOrder" then next.(sortOrder := NumberOf(v))
    else if key == "isDefault" then next.(isDefault := FlagOf(v))
    else next
  }

  predicate Has(delta: Delta, keys: set<string>, key: string) {
    key in keys && key in delta
  }

  /** The row with the fields of delta that are among keys, each field on its own. */
  function Merged(s: Section, delta: Delta, keys: set<string>): Section {
    s.(legacy := if Has(delta, keys, "name") then Names(Names(s.legacy) + [s.name]) else s.legacy,
       name := if Has(delta, keys, "name") then TextOf(delta["name"]) else s.name,
       description := if Has(delta, keys, "description") then TextOf(delta["description"]) else s.description,
       active := if Has(delta, keys, "active") then FlagOf(delta["active"]) else s.active,
       sortOrder := if Has(delta, keys, "sortOrder") then NumberOf(delta["sortOrder"]) else s.sortOrder,
       isDefault := if Has(delta, keys, "isDefault") then FlagOf(delta["isDefault"]) else s.isDefault)
  }

  lemma OneMoreKey(s: Section, delta: Delta, keys: set<string>, key: string)
    requires key in delta && key !in keys
    ensures Merged(s, delta, keys + {key}) == Change(s, Merged(s, delta, keys), key, delta[key])
  {
    forall k | k != key ensures Has(delta, keys + {key}, k) == Has(delta, keys, k) {
    }
    assert Has(delta, keys + {key}, key) && !Has(delta, keys, key);
  }

  ghost predicate Readable(delta: Delta) {
    forall key | key in delta :: WellTyped(key, delta[key])
  }

  /** The keys come in any order; the outcome is the same. */
  method ApplyDelta(section: Section, delta: Delta) returns (result: Option<Section>)
    ensures result == if Readable(delta) then Some(Merged(section, delta, delta.Keys)) else None
  {
    var next := section;
    var left := delta.Keys;
    while left != {}
      invariant left <= delta.Keys
      invariant next == Merged(section, delta, delta.Keys - left)
      invariant forall key | key in delta.Keys - left :: WellTyped(key, delta[key])
    {
      var key :| key in left;
      if !WellTyped(key, delta[key]) {
        return None;
      }
      next := Change(section, next, key, delta[key]);
      OneMoreKey(section, delta, delta.Keys - left, key);
      left := left - {key};
      assert delta.Keys - left == (delta.Keys - left - {key}) + {key};
    }
    return Some(next);
  }

  /** The columns written by a patch; the code is not among them. */
  datatype Updates = Updates(
    name: Option<string>,
    description: Option<string>,
    active: Option<bool>,
    sortOrder: Option<int>,
    isDefault: Option<bool>,
    legacy: Option<seq<string>>)

  const NoUpdates := Updates(None, None, None, None, None, None)

  function Changed<T(==)>(before: T, after: T): Option<T> {
    if before != after then Some(after) else None
  }

  /** The names are compared as texts: what the database prints of the stored ones with what is marshalled of the new. */
  function ChangedNames(before: seq<string>, after: seq<string>): Option<seq<string>> {
    if JsonText.StoredText(before) != JsonText.MarshalledText(after) then Some(after) else None
  }

  function Diff(current: Section, next: Section): Updates {
    Updates(Changed(current.name, next.name), Changed(current.description, next.description),
            Changed(current.active, next.active), Changed(current.sortOrder, next.sortOrder),
            Changed(current.isDefault, next.isDefault), ChangedNames(current.legacy, next.legacy))
  }

  function Or<T>(update: Option<T>, value: T): T {
    if update.Some? then update.value else value
  }

  function Updated(s: Section, u: Updates, now: int): Section {
    s.(name := Or(u.name, s.name), description := Or(u.description, s.description), active := Or(u.active, s.active),
       sortOrder := Or(u.sortOrder, s.sortOrder), isDefault := Or(u.isDefault, s.isDefault),
       legacy := Or(u.legacy, s.legacy), version := now)
  }

  /** A patched row is the normalized one exactly when the stored code was in normal form already. */
  lemma DiffReachesNext(s: Section, delta: Delta, now: int)
    ensures var next := Normalized(Merged(s, delta, delta.Keys));
            && Updated(s, Diff(s, next), now) == next.(version := now, code := s.code)
            && (Updated(s, Diff(s, next), now) == next.(version := now) <==> s.code == Token(s.code))
  {
    JsonText.TextsAgreeExactly(s.legacy, Normalized(Merged(s, delta, delta.Keys)).legacy);
  }

  // ---------------------------------------------------------------- the default row

  /** ORDER BY sort_order, code. */
  predicate Before(a: Section, b: Section) {
    a.sortOrder < b.sortOrder || (a.sortOrder == b.sortOrder && Precedes(a.code, b.code))
  }

  predicate First(rows: Rows, id: string) {
    id in rows && rows[id].active && forall k | k in rows && rows[k].active :: !Before(rows[k], rows[id])
  }

  predicate SomeActive(rows: Rows) {
    exists id :: id in rows && rows[id].active
  }

  predicate HasDefault(rows: Rows) {
    exists id :: id in rows && rows[id].isDefault && rows[id].active
  }

  lemma BeforeTransitive(a: Section, b: Section, c: Section)
    ensures !Before(a, a) && (Before(a, b) ==> !Before(b, a))
    ensures !Before(b, a) && !Before(c, b) ==> !Before(c, a)
  {
    PrecedesIsOrder(c.code, a.code, b.code);
    PrecedesIsOrder(b.code, c.code, a.code);
    PrecedesIsOrder(a.code, b.code, c.code);
    PrecedesIsOrder(a.code, b.code, a.code);
  }

  lemma {:induction false} FirstAmong(rows: Rows, ids: set<string>) returns (first: string)
    requires ids != {} && forall k | k in ids :: k in rows
    ensures first in ids && forall k | k in ids :: !Before(rows[k], rows[first])
  {
    var id :| id in ids;
    BeforeTransitive(rows[id], rows[id], rows[id]);
    if ids == {id} {
      first := id;
    } else {
      var other := FirstAmong(rows, ids - {id});
      first := if Before(rows[id], rows[other]) then id else other;
      forall k | k in ids ensures !Before(rows[k], rows[first]) {
        if k != id {
          BeforeTransitive(rows[id], rows[other], rows[k]);
        }
      }
    }
  }

  lemma FirstExists(rows: Rows)
    requires SomeActive(rows)
    ensures exists id :: First(rows, id)
  {
    var active := set id | id in rows && rows[id].active;
    var some :| some in rows && rows[some].active;
    assert some in active;
    var first := FirstAmong(rows, active);
    assert First(rows, first);
  }

  // ---------------------------------------------------------------- the transactions

  ghost function Choice(rows: Rows): (id: string)
    requires SomeActive(rows)
    ensures First(rows, id)
  {
    FirstExists(rows);
    var id :| First(rows, id);
    id
  }

  function WithDefault(rows: Rows, id: string, now: int): Rows
    requires id in rows
  {
    rows[id := rows[id].(isDefault := true, active := true, version := now)]
  }

  ghost function Selected(rows: Rows, now: int): Option<Rows> {
    if !SomeActive(rows) then None
    else if HasDefault(rows) then Some(rows)
    else Some(WithDefault(rows, Choice(rows), now))
  }

  function Cleared(rows: Rows, current: string, now: int): Rows {
    map id | id in rows :: if id == current then rows[id] else rows[id].(isDefault := false, version := now)
  }

  ghost function Synced(rows: Rows, current: string, isDefault: bool, now: int): Option<Rows> {
    Selected(if isDefault then Cleared(rows, current, now) else rows, now)
  }

  /** The live rows, and the ids of deleted ones. */
  datatype Table = Table(rows: Rows, retired: set<string>)

  datatype Transaction =
    | Create(input: Section, now: int)
    | Patch(id: string, version: int, delta: Delta, now: int)
    | Delete(id: string, items: set<string>, now: int)     // items: what BOM items name as their section

  datatype Outcome =
    Committed | BadRequest | NotFound | VersionConflict | Conflicting | RequiresActive | Protected | Linked | IdTaken

  function Created(input: Section): Section {
    Normalized(input.(isSystem := false, legacy := []))
  }

  function Revised(s: Section, delta: Delta): Section {
    Normalized(Merged(s, delta, delta.Keys))
  }

  ghost function Finish(t: Table, rows: Option<Rows>, retired: set<string>): (Table, Outcome) {
    if rows.Some? then (Table(rows.value, retired), Committed) else (t, RequiresActive)
  }

  ghost function ApplyCreate(t: Table, input: Section, now: int): (Table, Outcome) {
    var s := Created(input);
    if !Acceptable(s) then (t, BadRequest)
    else if !Unique(s, t.rows, "") then (t, Conflicting)
    else if s.id in t.rows || s.id in t.retired then (t, IdTaken)
    else Finish(t, Synced(t.rows[s.id := s.(version := now)], s.id, s.isDefault, now), t.retired)
  }

  ghost function ApplyRevision(t: Table, s: Section, next: Section, now: int): (Table, Outcome) {
    var updates := Diff(s, next);
    if !Acceptable(next) then (t, BadRequest)
    else if !Unique(next, t.rows, s.id) then (t, Conflicting)
    else if updates == NoUpdates then (t, Committed)
    else Finish(t, Synced(t.rows[s.id := Updated(s, updates, now)], s.id, next.isDefault, now), t.retired)
  }

  ghost function ApplyPatch(t: Table, id: string, version: int, delta: Delta, now: int): (Table, Outcome) {
    if !Supported(delta) then (t, BadRequest)
    else if id !in t.rows then (t, NotFound)
    else if t.rows[id].version != version then (t, VersionConflict)
    else if !Readable(delta) then (t, BadRequest)
    else ApplyRevision(t, t.rows[id], Revised(t.rows[id], delta), now)
  }

  ghost function ApplyDelete(t: Table, id: string, items: set<string>, now: int): (Table, Outcome) {
    if id !in t.rows then (t, NotFound)
    else if t.rows[id].isSystem then (t, Protected)
    else if exists i | 0 <= i < |Names(Candidates(t.rows[id]))| :: Names(Candidates(t.rows[id]))[i] in items then (t, Linked)
    else Finish(t, Selected(t.rows - {id}, now), t.retired + {id})
  }

  ghost function Apply(t: Table, tx: Transaction): (Table, Outcome) {
    match tx
    case Create(input, now) => ApplyCreate(t, input, now)
    case Patch(id, version, delta, now) => ApplyPatch(t, id, version, delta, now)
    case Delete(id, items, now) => ApplyDelete(t, id, items, now)
  }

  // ---------------------------------------------------------------- what every table keeps

  ghost predicate RowFits(s: Section) {
    && s.code != "" && Token(s.code) == s.code && s.name != "" && TrimSpace(s.name) == s.name && s.name in Names(s.legacy)
    && (s.isDefault ==> s.active)
  }

  ghost predicate RowsFit(rows: Rows) {
    && (forall id | id in rows :: rows[id].id == id && RowFits(rows[id]))
    && (forall a, b | a in rows && b in rows && a != b :: !Clash(rows[a], rows[b]))
  }

  /** Exactly one default among the live rows. */
  ghost predicate OneDefault(rows: Rows) {
    exists id :: id in rows && rows[id].isDefault && rows[id].active && forall k | k in rows && k != id :: !rows[k].isDefault
  }

  ghost predicate AtMostOneDefault(rows: Rows) {
    forall a, b | a in rows && b in rows && rows[a].isDefault && rows[b].isDefault :: a == b
  }

  ghost predicate Valid(t: Table) {
    RowsFit(t.rows) && OneDefault(t.rows) && forall id | id in t.retired :: id !in t.rows
  }

  ghost predicate SameNames(a: Section, b: Section) {
    forall token :: Named(a, token) <==> Named(b, token)
  }

  lemma NamedExactly(s: Section, token: string)
    ensures Named(s, token) <==>
              token != "" && (token == Token(s.code) || token == Token(s.name)
                              || exists name | name in Names(s.legacy) :: Token(name) == token)
  {
    var all := Candidates(s);
    assert all[0] == s.code && all[1] == s.name;
    if exists name | name in Names(s.legacy) :: Token(name) == token {
      var name :| name in Names(s.legacy) && Token(name) == token;
      var i :| 0 <= i < |Names(s.legacy)| && Names(s.legacy)[i] == name;
      assert Token(all[i + 2]) == token;
    }
    if token != "" && Named(s, token) {
      var i :| 0 <= i < |all| && Token(all[i]) == token;
      if i >= 2 {
        assert all[i] in Names(s.legacy);
      }
    }
  }

  lemma SameLegacyOrName(a: Section, b: Section)
    requires Token(a.code) == Token(b.code) && a.name == b.name && Names(a.legacy) == Names(b.legacy)
    ensures SameNames(a, b)
  {
    forall token ensures Named(a, token) <==> Named(b, token) {
      NamedExactly(a, token);
      NamedExactly(b, token);
    }
  }

  lemma NormalizedFits(s: Section)
    requires Acceptable(Normalized(s))
    ensures RowFits(Normalized(s)) && Names(Normalized(s).legacy) == Normalized(s).legacy
    ensures forall name | name in Names(s.legacy) :: name in Normalized(s).legacy
  {
    TokenAgain(s.code);
    TrimOfTight(TrimSpace(s.name));
    NamesAgain(s.legacy);
    NamesAgain(Names(s.legacy) + [TrimSpace(s.name)]);
    Appended(s.legacy, TrimSpace(s.name));
  }

  /** What a patch stores: a fitting row that keeps every earlier name. */
  lemma RevisedFits(s: Section, delta: Delta)
    requires RowFits(s) && Acceptable(Revised(s, delta))
    ensures RowFits(Revised(s, delta))
    ensures forall token | Named(s, token) :: Named(Revised(s, delta), token)
  {
    var merged := Merged(s, delta, delta.Keys);
    var next := Revised(s, delta);
    NormalizedFits(merged);
    KeepsNames(s, delta);
    TokenAgain(s.code);
    forall token | Named(s, token) ensures Named(next, token) {
      NamedExactly(s, token);
      NamedExactly(next, token);
    }
  }

  lemma KeepsNames(s: Section, delta: Delta)
    ensures forall name | name in Names(s.legacy) :: name in Names(Merged(s, delta, delta.Keys).legacy)
  {
    NamesAgain(Names(s.legacy) + [s.name]);
    Appended(s.legacy, s.name);
  }

  /** The rows name the same things; only flags and versions may differ. */
  ghost predicate SameIdentities(was: Rows, rows: Rows) {
    && was.Keys == rows.Keys
    && forall id | id in rows ::
         var (a, b) := (was[id], rows[id]);
         && a.id == b.id && a.code == b.code && a.name == b.name && a.legacy == b.legacy && a.isSystem == b.isSystem
         && (b.isDefault ==> b.active)
  }

  lemma IdentitiesFit(was: Rows, rows: Rows)
    requires RowsFit(was) && SameIdentities(was, rows)
    ensures RowsFit(rows)
  {
    forall a, b | a in rows && b in rows && a != b ensures !Clash(rows[a], rows[b]) {
      SameLegacyOrName(was[a], rows[a]);
      SameLegacyOrName(was[b], rows[b]);
      assert !Clash(was[a], was[b]);
    }
  }

  lemma WithDefaultKeeps(rows: Rows, id: string, now: int)
    requires RowsFit(rows) && id in rows && forall k | k in rows :: !rows[k].isDefault
    ensures var after := WithDefault(rows, id, now); RowsFit(after) && OneDefault(after) && SameIdentities(rows, after)
  {
    var after := WithDefault(rows, id, now);
    assert after[id].isDefault && after[id].active;
    assert OneDefault(after);
    IdentitiesFit(rows, after);
  }

  /** Selecting a default leaves exactly one, whenever there was at most one and a row is active. */
  lemma SelectedKeeps(rows: Rows, now: int)
    requires RowsFit(rows) && AtMostOneDefault(rows)
    ensures Selected(rows, now).Some? <==> SomeActive(rows)
    ensures Selected(rows, now).Some? ==>
              var after := Selected(rows, now).value;
              RowsFit(after) && OneDefault(after) && SameIdentities(rows, after)
  {
    if SomeActive(rows) && !HasDefault(rows) {
      forall k | k in rows ensures !rows[k].isDefault {
        assert RowFits(rows[k]);
      }
      WithDefaultKeeps(rows, Choice(rows), now);
    }
  }

  ghost predicate OthersAtMostOneDefault(rows: Rows, current: string) {
    forall a, b | a in rows && b in rows && a != current && b != current && rows[a].isDefault && rows[b].isDefault :: a == b
  }

  lemma ClearedKeeps(rows: Rows, current: string, now: int)
    requires RowsFit(rows) && current in rows && rows[current].isDefault
    ensures var cleared := Cleared(rows, current, now);
            RowsFit(cleared) && OneDefault(cleared) && HasDefault(cleared) && SameIdentities(rows, cleared)
  {
    var cleared := Cleared(rows, current, now);
    assert cleared[current] == rows[current] && RowFits(rows[current]);
    IdentitiesFit(rows, cleared);
  }

  lemma SyncedKeeps(rows: Rows, current: string, isDefault: bool, now: int)
    requires RowsFit(rows) && current in rows && rows[current].isDefault == isDefault && OthersAtMostOneDefault(rows, current)
    ensures Synced(rows, current, isDefault, now).Some? <==> SomeActive(rows)
    ensures Synced(rows, current, isDefault, now).Some? ==>
              var after := Synced(rows, current, isDefault, now).value;
              RowsFit(after) && OneDefault(after) && SameIdentities(rows, after)
  {
    if isDefault {
      assert RowFits(rows[current]);
      ClearedKeeps(rows, current, now);
    } else {
      SelectedKeeps(rows, now);
    }
  }

  lemma SingleDefault(rows: Rows)
    requires OneDefault(rows)
    ensures AtMostOneDefault(rows) && SomeActive(rows)
  {
  }

  lemma CreatedRowsFit(rows: Rows, input: Section, now: int)
    requires RowsFit(rows) && Acceptable(Created(input)) && Unique(Created(input), rows, "") && input.id !in rows
    ensures RowsFit(rows[input.id := Created(input).(version := now)])
  {
    var s := Created(input);
    var row := s.(version := now);
    var after := rows[input.id := row];
    NormalizedFits(input.(isSystem := false, legacy := []));
    SameLegacyOrName(s, row);
    forall a, b | a in after && b in after && a != b ensures !Clash(after[a], after[b]) {
      if a == input.id {
        assert !Clash(s, rows[b]);
      } else if b == input.id {
        assert !Clash(s, rows[a]);
      } else {
        assert !Clash(rows[a], rows[b]);
      }
    }
  }

  function PatchedRow(s: Section, delta: Delta, now: int): Section {
    Updated(s, Diff(s, Revised(s, delta)), now)
  }

  lemma PatchedNames(s: Section, delta: Delta, now: int)
    requires RowFits(s) && Acceptable(Revised(s, delta))
    ensures RowFits(PatchedRow(s, delta, now)) && PatchedRow(s, delta, now).id == s.id
    ensures PatchedRow(s, delta, now).isDefault == Revised(s, delta).isDefault
    ensures SameNames(Revised(s, delta), PatchedRow(s, delta, now))
    ensures forall token | Named(s, token) :: Named(PatchedRow(s, delta, now), token)
  {
    DiffReachesNext(s, delta, now);
    RevisedFits(s, delta);
    TokenAgain(s.code);
    SameLegacyOrName(Revised(s, delta), PatchedRow(s, delta, now));
  }

  /** A row that is named as a unique candidate can take the candidate's place. */
  lemma ReplacedRowFits(rows: Rows, id: string, next: Section, row: Section)
    requires RowsFit(rows) && id in rows && Unique(next, rows, id)
    requires RowFits(row) && row.id == id && SameNames(next, row)
    ensures RowsFit(rows[id := row])
  {
    var after := rows[id := row];
    forall a, b | a in after && b in after && a != b ensures !Clash(after[a], after[b]) {
      if a == id {
        assert !Clash(next, rows[b]);
      } else if b == id {
        assert !Clash(next, rows[a]);
      } else {
        assert !Clash(rows[a], rows[b]);
      }
    }
  }

  lemma PatchedRowsFit(rows: Rows, id: string, delta: Delta, now: int)
    requires RowsFit(rows) && id in rows && Acceptable(Revised(rows[id], delta)) && Unique(Revised(rows[id], delta), rows, id)
    ensures RowsFit(rows[id := PatchedRow(rows[id], delta, now)])
  {
    PatchedNames(rows[id], delta, now);
    ReplacedRowFits(rows, id, Revised(rows[id], delta), PatchedRow(rows[id], delta, now));
  }

  /** Nothing that named the row before stops naming it. */
  ghost predicate NamesGrow(was: Section, row: Section) {
    was.isSystem == row.isSystem && forall token | Named(was, token) :: Named(row, token)
  }

  /** What a transaction leaves of the table. */
  ghost predicate Kept(t: Table, result: (Table, Outcome)) {
    && Valid(result.0)
    && (!result.1.Committed? ==> result.0 == t)
    && t.retired <= result.0.retired
    && (forall id | id in t.rows :: id in result.0.rows || (id in result.0.retired && !t.rows[id].isSystem))
    && (forall id | id in t.rows && id in result.0.rows :: NamesGrow(t.rows[id], result.0.rows[id]))
  }

  /** The rows a transaction has written before the default is selected. */
  ghost predicate Written(t: Table, rows: Rows, retired: set<string>) {
    && t.retired <= retired && (forall id | id in retired :: id !in rows)
    && (forall id | id in t.rows :: id in rows || (id in retired && !t.rows[id].isSystem))
    && (forall id | id in t.rows && id in rows :: NamesGrow(t.rows[id], rows[id]))
  }

  lemma SelectionKeeps(t: Table, rows: Rows, after: Rows, retired: set<string>)
    requires Valid(t) && RowsFit(after) && OneDefault(after) && SameIdentities(rows, after) && Written(t, rows, retired)
    ensures Kept(t, (Table(after, retired), Committed))
  {
    forall id | id in t.rows && id in after ensures NamesGrow(t.rows[id], after[id]) {
      SameLegacyOrName(rows[id], after[id]);
      assert NamesGrow(t.rows[id], rows[id]);
    }
  }

  lemma RowWritten(t: Table, id: string, row: Section)
    requires Valid(t) && id !in t.retired && (id in t.rows ==> NamesGrow(t.rows[id], row))
    ensures Written(t, t.rows[id := row], t.retired)
  {
  }

  lemma OthersHaveOneDefault(rows: Rows, id: string, row: Section)
    requires OneDefault(rows)
    ensures OthersAtMostOneDefault(rows[id := row], id)
  {
  }

  lemma CreateKeeps(t: Table, input: Section, now: int)
    requires Valid(t)
    ensures Kept(t, ApplyCreate(t, input, now))
  {
    var result := ApplyCreate(t, input, now);
    if result.0 == t {
      RejectionKeeps(t, result.1);
    } else {
      var row := Created(input).(version := now);
      CreatedRowsFit(t.rows, input, now);
      RowWritten(t, input.id, row);
      CommitKeeps(t, input.id, row, now);
    }
  }

  lemma CommitKeeps(t: Table, id: string, row: Section, now: int)
    requires Valid(t) && RowsFit(t.rows[id := row]) && Written(t, t.rows[id := row], t.retired)
    ensures Kept(t, Finish(t, Synced(t.rows[id := row], id, row.isDefault, now), t.retired))
  {
    var rows := t.rows[id := row];
    var synced := Synced(rows, id, row.isDefault, now);
    if synced.Some? {
      OthersHaveOneDefault(t.rows, id, row);
      SyncedKeeps(rows, id, row.isDefault, now);
      SelectionKeeps(t, rows, synced.value, t.retired);
    }
  }

  lemma RejectionKeeps(t: Table, outcome: Outcome)
    requires Valid(t)
    ensures Kept(t, (t, outcome))
  {
  }

  lemma RevisionKeeps(t: Table, id: string, delta: Delta, now: int)
    requires Valid(t) && id in t.rows && Acceptable(Revised(t.rows[id], delta))
    requires Unique(Revised(t.rows[id], delta), t.rows, id)
    ensures var row := PatchedRow(t.rows[id], delta, now);
            Kept(t, Finish(t, Synced(t.rows[id := row], id, row.isDefault, now), t.retired))
  {
    var row := PatchedRow(t.rows[id], delta, now);
    PatchedRowsFit(t.rows, id, delta, now);
    assert NamesGrow(t.rows[id], row) by {
      PatchedNames(t.rows[id], delta, now);
    }
    RowWritten(t, id, row);
    CommitKeeps(t, id, row, now);
  }

  lemma PatchKeeps(t: Table, id: string, version: int, delta: Delta, now: int)
    requires Valid(t)
    ensures Kept(t, ApplyPatch(t, id, version, delta, now))
  {
    var result := ApplyPatch(t, id, version, delta, now);
    if result.0 == t {
      RejectionKeeps(t, result.1);
    } else {
      assert t.rows[id].id == id;
      RevisionKeeps(t, id, delta, now);
      assert PatchedRow(t.rows[id], delta, now).isDefault == Revised(t.rows[id], delta).isDefault;
    }
  }

  lemma RowsFitWithout(rows: Rows, id: string)
    requires RowsFit(rows)
    ensures RowsFit(rows - {id})
  {
    var less := rows - {id};
    forall a, b | a in less && b in less && a != b ensures !Clash(less[a], less[b]) {
      assert !Clash(rows[a], rows[b]);
    }
  }

  lemma RowDeleted(t: Table, id: string)
    requires Valid(t) && id in t.rows && !t.rows[id].isSystem
    ensures RowsFit(t.rows - {id}) && AtMostOneDefault(t.rows - {id}) && Written(t, t.rows - {id}, t.retired + {id})
  {
    RowsFitWithout(t.rows, id);
    SingleDefault(t.rows);
    forall k | k in t.rows && k in t.rows - {id} ensures NamesGrow(t.rows[k], (t.rows - {id})[k]) {
    }
  }

  lemma DeleteKeeps(t: Table, id: string, items: set<string>, now: int)
    requires Valid(t)
    ensures Kept(t, ApplyDelete(t, id, items, now))
  {
    var result := ApplyDelete(t, id, items, now);
    if result.0 == t {
      RejectionKeeps(t, result.1);
    } else {
      RowDeleted(t, id);
      SelectedKeeps(t.rows - {id}, now);
      SelectionKeeps(t, t.rows - {id}, result.0.rows, t.retired + {id});
    }
  }

  /** Every transaction, committed or rolled back, keeps the rules of the table. */
  lemma ApplyKeeps(t: Table, tx: Transaction)
    requires Valid(t)
    ensures Kept(t, Apply(t, tx))
  {
    match tx
    case Create(input, now) => CreateKeeps(t, input, now);
    case Patch(id, version, delta, now) => PatchKeeps(t, id, version, delta, now);
    case Delete(id, items, now) => DeleteKeeps(t, id, items, now);
  }

  // ---------------------------------------------------------------- runs

  ghost function Run(t: Table, txs: seq<Transaction>): Table
    decreases txs
  {
    if txs == [] then t else Run(Apply(t, txs[0]).0, txs[1..])
  }

  /** From a valid table, every sequence of transactions keeps one active default and disjoint identities. */
  lemma {:induction false} RunsKeepValid(t: Table, txs: seq<Transaction>)
    requires Valid(t)
    ensures Valid(Run(t, txs))
    ensures SomeActive(Run(t, txs).rows) && OneDefault(Run(t, txs).rows) && RowsFit(Run(t, txs).rows)
    decreases txs
  {
    if txs != [] {
      ApplyKeeps(t, txs[0]);
      RunsKeepValid(Apply(t, txs[0]).0, txs[1..]);
    } else {
      SingleDefault(t.rows);
    }
  }

  /** Whatever becomes of the defaults, the row stays as it was written, or becomes the default. */
  lemma SyncedStores(rows: Rows, id: string, now: int)
    requires id in rows && rows[id].version == now && Synced(rows, id, rows[id].isDefault, now).Some?
    ensures var after := Synced(rows, id, rows[id].isDefault, now).value;
            && id in after && after[id].(isDefault := rows[id].isDefault) == rows[id]
            && (rows[id].isDefault ==> after[id].isDefault)
  {
  }

  /** The row as it is stored now and as a patch computed it. */
  ghost predicate Stores(t: Table, id: string, next: Section) {
    && id in t.rows && t.rows[id].(isDefault := next.isDefault, version := next.version) == next
    && (next.isDefault ==> t.rows[id].isDefault)
  }

  lemma PatchStores(t: Table, id: string, version: int, delta: Delta, now: int)
    requires Valid(t) && ApplyPatch(t, id, version, delta, now).1.Committed?
    ensures id in t.rows && Stores(ApplyPatch(t, id, version, delta, now).0, id, Revised(t.rows[id], delta))
  {
    var s, next := t.rows[id], Revised(t.rows[id], delta);
    assert RowFits(s);
    DiffReachesNext(s, delta, now);
    var row := PatchedRow(s, delta, now);
    if Diff(s, next) != NoUpdates {
      SyncedStores(t.rows[id := row], id, now);
    }
  }

  lemma SameRowDiff(s: Section)
    ensures Diff(s, s) == NoUpdates <==> JsonText.WrittenAlike(s.legacy)
    ensures forall now :: Updated(s, Diff(s, s), now) == s.(version := now)
  {
    JsonText.TextsAgreeExactly(s.legacy, s.legacy);
  }

  /**
   * A patch that computes the stored row itself leaves the table alone exactly when the section has a single name, without
   * characters that only json.Marshal escapes. Otherwise the row is written again, and gets a new version.
   */
  lemma IdlePatchIsIdleExactly(t: Table, id: string, version: int, delta: Delta, now: int)
    requires Valid(t) && ApplyPatch(t, id, version, delta, now).1.Committed?
    requires Revised(t.rows[id], delta) == t.rows[id] && now != version
    ensures var after := ApplyPatch(t, id, version, delta, now).0;
            && (after == t <==> JsonText.WrittenAlike(t.rows[id].legacy))
            && (after != t ==> id in after.rows && after.rows[id].version == now)
  {
    var s := t.rows[id];
    SameRowDiff(s);
    if Diff(s, s) != NoUpdates {
      SyncedStores(t.rows[id := s.(version := now)], id, now);
    }
  }

  /** In every run from a valid table, what a committed patch leaves of its section is exactly the row it computed. */
  lemma RunPatchesStore(t: Table, txs: seq<Transaction>, patch: Transaction)
    requires Valid(t) && patch.Patch? && Apply(Run(t, txs), patch).1.Committed?
    ensures patch.id in Run(t, txs).rows
    ensures Stores(Apply(Run(t, txs), patch).0, patch.id, Revised(Run(t, txs).rows[patch.id], patch.delta))
  {
    RunsKeepValid(t, txs);
    PatchStores(Run(t, txs), patch.id, patch.version, patch.delta, patch.now);
  }

  /** A name resolves to this section and to no other live one. */
  ghost predicate ResolvesTo(rows: Rows, token: string, id: string) {
    forall k :: k in rows && Named(rows[k], token) <==> k == id
  }

  lemma NamesResolve(t: Table, id: string, token: string)
    requires Valid(t) && id in t.rows && Named(t.rows[id], token)
    ensures ResolvesTo(t.rows, token, id)
  {
    forall k | k in t.rows && Named(t.rows[k], token) ensures k == id {
      if k != id {
        assert Clash(t.rows[k], t.rows[id]);
      }
    }
  }

  lemma {:induction false} RetiredStay(t: Table, txs: seq<Transaction>, id: string)
    requires Valid(t) && id in t.retired
    ensures id in Run(t, txs).retired && id !in Run(t, txs).rows
    decreases txs
  {
    if txs != [] {
      ApplyKeeps(t, txs[0]);
      RetiredStay(Apply(t, txs[0]).0, txs[1..], id);
    }
  }

  /** Whatever a live section was ever called keeps resolving to exactly that section, for as long as it is live. */
  lemma {:induction false} NamesKeepResolving(t: Table, txs: seq<Transaction>, id: string, token: string)
    requires Valid(t) && id in t.rows && Named(t.rows[id], token) && id in Run(t, txs).rows
    ensures ResolvesTo(Run(t, txs).rows, token, id)
    decreases txs
  {
    if txs == [] {
      NamesResolve(t, id, token);
    } else {
      var next := Apply(t, txs[0]).0;
      ApplyKeeps(t, txs[0]);
      if id in next.rows {
        NamesKeepResolving(next, txs[1..], id, token);
      } else {
        RetiredStay(next, txs[1..], id);
      }
    }
  }

  /** System sections are never deleted. */
  lemma {:induction false} SystemSectionsStay(t: Table, txs: seq<Transaction>, id: string)
    requires Valid(t) && id in t.rows && t.rows[id].isSystem
    ensures id in Run(t, txs).rows && Run(t, txs).rows[id].isSystem
    decreases txs
  {
    if txs != [] {
      ApplyKeeps(t, txs[0]);
      SystemSectionsStay(Apply(t, txs[0]).0, txs[1..], id);
    }
  }

  // ---------------------------------------------------------------- the table in place

  /** The order has no ties: equal codes would be equal identities. */
  lemma FirstUnique(rows: Rows, a: string, b: string)
    requires RowsFit(rows) && First(rows, a) && First(rows, b)
    ensures a == b
  {
    PrecedesIsOrder(rows[a].code, rows[b].code, rows[a].code);
    assert rows[a].code == rows[b].code;
    NamedExactly(rows[a], Token(rows[a].code));
    NamedExactly(rows[b], Token(rows[a].code));
    assert Named(rows[a], Token(rows[a].code)) && Named(rows[b], Token(rows[a].code));
    assert Clash(rows[a], rows[b]);
  }

  class SectionTable {
    var rows: Rows
    var retired: set<string>

    ghost function Contents(): Table
      reads this
    {
      Table(rows, retired)
    }

    method EnsureActiveSelection(now: int) returns (ok: bool)
      requires RowsFit(rows)
      modifies this`rows
      ensures ok == Selected(old(rows), now).Some?
      ensures ok ==> rows == Selected(old(rows), now).value
    {
      if !SomeActive(rows) {
        return false;
      }
      if HasDefault(rows) {
        return true;
      }
      FirstExists(rows);
      var fallback :| fallback in rows && First(rows, fallback);
      FirstUnique(rows, fallback, Choice(rows));
      rows := rows[fallback := rows[fallback].(isDefault := true, active := true, version := now)];
      return true;
    }

    method SyncDefaults(current: string, isDefault: bool, now: int) returns (ok: bool)
      requires RowsFit(rows) && current in rows && rows[current].isDefault == isDefault
      modifies this`rows
      ensures ok == Synced(old(rows), current, isDefault, now).Some?
      ensures ok ==> rows == Synced(old(rows), current, isDefault, now).value
    {
      if isDefault {
        ClearedKeeps(rows, current, now);
        rows := map id | id in rows :: if id == current then rows[id] else rows[id].(isDefault := false, version := now);
      }
      ok := EnsureActiveSelection(now);
    }

    /** Writes one row and synchronizes the defaults, or leaves the table as it was. */
    method Store(row: Section, now: int) returns (outcome: Outcome)
      requires RowsFit(rows[row.id := row])
      modifies this`rows
      ensures (Contents(), outcome) == Finish(old(Contents()), Synced(old(rows)[row.id := row], row.id, row.isDefault, now), retired)
    {
      var before := rows;
      rows := rows[row.id := row];
      var ok := SyncDefaults(row.id, row.isDefault, now);
      if !ok {
        rows := before;
        return RequiresActive;
      }
      return Committed;
    }

    method Create(input: Section, now: int) returns (outcome: Outcome)
      requires Valid(Contents())
      modifies this
      ensures (Contents(), outcome) == ApplyCreate(old(Contents()), input, now)
      ensures Valid(Contents())
    {
      ghost var was := Contents();
      var section := NormalizeConfig(input.(isSystem := false, legacy := []));
      if !Acceptable(section) {
        return BadRequest;
      }
      var unique := CheckUniqueness(section, rows, "");
      if !unique {
        return Conflicting;
      }
      if section.id in rows || section.id in retired {
        return IdTaken;
      }
      CreatedRowsFit(rows, input, now);
      outcome := Store(section.(version := now), now);
      assert (Contents(), outcome) == ApplyCreate(was, input, now);
      CreateKeeps(was, input, now);
    }

    method Revise(section: Section, next: Section, now: int) returns (outcome: Outcome)
      requires next.id == section.id
      requires Acceptable(next) && Unique(next, rows, section.id)
               ==> RowsFit(rows[section.id := Updated(section, Diff(section, next), now)])
      modifies this`rows
      ensures (Contents(), outcome) == ApplyRevision(old(Contents()), section, next, now)
    {
      if !Acceptable(next) {
        return BadRequest;
      }
      var unique := CheckUniqueness(next, rows, section.id);
      if !unique {
        return Conflicting;
      }
      var updates := Diff(section, next);
      if updates == NoUpdates {
        return Committed;
      }
      outcome := Store(Updated(section, updates, now), now);
    }

    method Patch(id: string, version: int, delta: Delta, now: int) returns (outcome: Outcome)
      requires Valid(Contents())
      modifies this
      ensures (Contents(), outcome) == ApplyPatch(old(Contents()), id, version, delta, now)
      ensures Valid(Contents())
    {
      ghost var was := Contents();
      if !Supported(delta) {
        return BadRequest;
      }
      if id !in rows {
        return NotFound;
      }
      var section := rows[id];
      if section.version != version {
        return VersionConflict;
      }
      var changed := ApplyDelta(section, delta);
      if changed.None? {
        return BadRequest;
      }
      var next := NormalizeConfig(changed.value);
      assert next == Revised(section, delta);
      if Acceptable(next) && Unique(next, rows, id) {
        PatchedRowsFit(rows, id, delta, now);
      }
      outcome := Revise(section, next, now);
      assert (Contents(), outcome) == ApplyPatch(was, id, version, delta, now);
      PatchKeeps(was, id, version, delta, now);
    }

    method Delete(id: string, items: set<string>, now: int) returns (outcome: Outcome)
      requires Valid(Contents())
      modifies this
      ensures (Contents(), outcome) == ApplyDelete(old(Contents()), id, items, now)
      ensures Valid(Contents())
    {
      ghost var was := Contents();
      if id !in rows {
        return NotFound;
      }
      var section := rows[id];
      if section.isSystem {
        return Protected;
      }
      var candidates := NormalizeNames(Candidates(section));
      if exists i | 0 <= i < |candidates| :: candidates[i] in items {
        return Linked;
      }
      var before := rows;
      RowsFitWithout(rows, id);
      rows := rows - {id};
      var ok := EnsureActiveSelection(now);
      if !ok {
        rows := before;
        return RequiresActive;
      }
      retired := retired + {id};
      outcome := Committed;
      assert (Contents(), outcome) == ApplyDelete(was, id, items, now);
      DeleteKeeps(was, id, items, now);
    }
  }
}
