/**
 * What the three transactions on BOM sections do, in terms of what was sent and what was stored: when each is rejected and
 * why, what the written row holds, and which section is the default afterwards.
 */
module BomEffects {
  import opened Text
  import opened BomSections

  // ---------------------------------------------------------------- when two texts name the same

  function Visible(s: string): string {
    if s == "" then "" else (if UnicodeSpace(s[0]) then "" else [s[0]]) + Visible(s[1..])
  }

  /** The same character, or an ASCII letter in lower and in upper case. */
  predicate SameLetter(x: char, y: char) {
    || x == y
    || ('a' <= x <= 'z' && 'A' <= y <= 'Z' && x - 'a' == y - 'A')
    || ('A' <= x <= 'Z' && 'a' <= y <= 'z' && x - 'A' == y - 'a')
  }

  predicate SameLetters(s: string, t: string) {
    |s| == |t| && forall i | 0 <= i < |s| :: SameLetter(s[i], t[i])
  }

  /** Both texts have visible characters, and the same ones but for ASCII case. */
  predicate SameName(s: string, t: string) {
    Visible(s) != "" && SameLetters(Visible(s), Visible(t))
  }

  lemma UpperExactly(x: char, y: char)
    ensures Upper(x) == Upper(y) <==> SameLetter(x, y)
    ensures SameLetter(x, Upper(x)) && !('a' <= Upper(x) <= 'z')
  {
  }

  lemma {:induction false} TokenIsVisible(s: string)
    ensures |Token(s)| == |Visible(s)|
    ensures forall i | 0 <= i < |Token(s)| :: Token(s)[i] == Upper(Visible(s)[i])
  {
    if s != "" {
      TokenIsVisible(s[1..]);
      var rest, seen := Token(s[1..]), Visible(s[1..]);
      if UnicodeSpace(s[0]) {
        assert Token(s) == rest && Visible(s) == seen;
      } else {
        assert Token(s) == [Upper(s[0])] + rest && Visible(s) == [s[0]] + seen;
      }
    }
  }

  /** A code is stored without white space and with upper-case ASCII letters, and is otherwise as sent. */
  lemma TokenSpelled(s: string)
    ensures SameLetters(Visible(s), Token(s)) && forall i | 0 <= i < |Token(s)| :: !('a' <= Token(s)[i] <= 'z')
  {
    TokenIsVisible(s);
    forall i | 0 <= i < |Token(s)| ensures SameLetter(Visible(s)[i], Token(s)[i]) && !('a' <= Token(s)[i] <= 'z') {
      UpperExactly(Visible(s)[i], Token(s)[i]);
    }
  }

  /** Two texts have one token exactly when they differ only in white space and in the case of ASCII letters. */
  lemma SameTokenExactly(s: string, t: string)
    ensures Token(s) == Token(t) <==> SameLetters(Visible(s), Visible(t))
    ensures Token(s) != "" && Token(s) == Token(t) <==> SameName(s, t)
  {
    TokenIsVisible(s);
    TokenIsVisible(t);
    forall i | 0 <= i < |Token(s)| && |Token(s)| == |Token(t)|
      ensures Token(s)[i] == Token(t)[i] <==> SameLetter(Visible(s)[i], Visible(t)[i])
    {
      UpperExactly(Visible(s)[i], Visible(t)[i]);
    }
  }

  /** The code, the name and the historical names as they are stored. */
  function Texts(s: Section): seq<string> {
    [s.code, s.name] + s.legacy
  }

  lemma NamedByText(s: Section, token: string)
    ensures Named(s, token) <==> token != "" && exists i | 0 <= i < |Texts(s)| :: Token(Texts(s)[i]) == token
  {
    NamedExactly(s, token);
    var texts := Texts(s);
    if name :| name in Names(s.legacy) && Token(name) == token {
      NamesHold([], s.legacy);
      var i :| 0 <= i < |s.legacy| && TrimSpace(s.legacy[i]) == name;
      TokenOfTrimmed(s.legacy[i]);
      assert texts[i + 2] == s.legacy[i];
    }
    if i :| 0 <= i < |texts| && Token(texts[i]) == token && token != "" {
      if i >= 2 {
        TokenOfTrimmed(texts[i]);
        assert TrimSpace(texts[i]) != "";
        NamesHold([], s.legacy);
        assert texts[i] == s.legacy[i - 2];
        assert TrimSpace(texts[i]) in Names(s.legacy);
      }
    }
    assert texts[0] == s.code && texts[1] == s.name;
  }

  ghost predicate Share(a: seq<string>, b: seq<string>) {
    exists i, j | 0 <= i < |a| && 0 <= j < |b| :: SameName(a[i], b[j])
  }

  ghost predicate NamedBy(texts: seq<string>, token: string) {
    token != "" && exists i | 0 <= i < |texts| :: Token(texts[i]) == token
  }

  lemma ShareExactly(a: seq<string>, b: seq<string>)
    ensures Share(a, b) <==> exists token :: NamedBy(a, token) && NamedBy(b, token)
  {
    if token :| NamedBy(a, token) && NamedBy(b, token) {
      var i :| 0 <= i < |a| && Token(a[i]) == token;
      var j :| 0 <= j < |b| && Token(b[j]) == token;
      SameTokenExactly(a[i], b[j]);
    }
    if i, j :| 0 <= i < |a| && 0 <= j < |b| && SameName(a[i], b[j]) {
      SameTokenExactly(a[i], b[j]);
      assert NamedBy(a, Token(a[i])) && NamedBy(b, Token(a[i]));
    }
  }

  /** Two sections clash exactly when they have a text in common, but for white space and the case of ASCII letters. */
  lemma ClashExactly(a: Section, b: Section)
    ensures Clash(a, b) <==> Share(Texts(a), Texts(b))
  {
    ShareExactly(Texts(a), Texts(b));
    forall token ensures Named(a, token) <==> NamedBy(Texts(a), token)
      ensures Named(b, token) <==> NamedBy(Texts(b), token)
    {
      NamedByText(a, token);
      NamedByText(b, token);
    }
  }

  // ---------------------------------------------------------------- which section is the default

  /** The first active section by sort order and code. */
  ghost predicate Leads(rows: Rows, id: string) {
    && id in rows && rows[id].active
    && forall k | k in rows && rows[k].active ::
         rows[id].sortOrder < rows[k].sortOrder
         || (rows[id].sortOrder == rows[k].sortOrder && !Precedes(rows[k].code, rows[id].code))
  }

  /** The same sections, but for which is the default; what changed has the new version. */
  ghost predicate SameButDefault(before: Rows, after: Rows, now: int) {
    && before.Keys == after.Keys
    && (forall k | k in after :: after[k].(isDefault := before[k].isDefault, version := before[k].version) == before[k])
    && (forall k | k in after :: after[k] == before[k] || after[k].version == now)
  }

  lemma LeadsIsFirst(rows: Rows, id: string)
    ensures Leads(rows, id) <==> First(rows, id)
  {
  }

  ghost predicate HasOne(rows: Rows) {
    exists d :: d in rows && rows[d].isDefault
  }

  lemma ChoiceLeads(rows: Rows, now: int, k: string)
    requires RowsFit(rows) && SomeActive(rows) && k in rows
    ensures Leads(WithDefault(rows, Choice(rows), now), k) <==> k == Choice(rows)
  {
    SameLeads(rows, WithDefault(rows, Choice(rows), now), k);
    LeadsIsFirst(rows, k);
    if First(rows, k) {
      FirstUnique(rows, k, Choice(rows));
    }
  }

  lemma DefaultsAreActive(rows: Rows)
    requires RowsFit(rows)
    ensures HasDefault(rows) <==> HasOne(rows)
  {
    forall d | d in rows ensures rows[d].isDefault ==> rows[d].active {
      assert RowFits(rows[d]);
    }
  }

  /** What selecting leaves of a table that has a default already, or gets one. */
  ghost predicate SelectionLeaves(rows: Rows, after: Rows, now: int) {
    && SameButDefault(rows, after, now)
    && forall k | k in after :: after[k].isDefault <==> if HasOne(rows) then rows[k].isDefault else Leads(after, k)
  }

  lemma WithDefaultStays(rows: Rows, id: string, now: int)
    requires id in rows && rows[id].active
    ensures SameButDefault(rows, WithDefault(rows, id, now), now)
  {
    var after := WithDefault(rows, id, now);
    forall k | k in after
      ensures after[k].(isDefault := rows[k].isDefault, version := rows[k].version) == rows[k]
      ensures after[k] == rows[k] || after[k].version == now
    {
    }
  }

  lemma ChosenLeaves(rows: Rows, now: int)
    requires RowsFit(rows) && SomeActive(rows) && !HasOne(rows)
    ensures SelectionLeaves(rows, WithDefault(rows, Choice(rows), now), now)
  {
    var id := Choice(rows);
    var after := WithDefault(rows, id, now);
    WithDefaultStays(rows, id, now);
    forall k | k in after ensures after[k].isDefault <==> Leads(after, k) {
      ChoiceLeads(rows, now, k);
      assert k in rows && after[k].isDefault == (k == id);
    }
  }

  /** Selecting moves the default to the first active section when no active section is the default. */
  lemma SelectedDoes(rows: Rows, now: int)
    requires RowsFit(rows) && SomeActive(rows)
    ensures Selected(rows, now).Some? && SelectionLeaves(rows, Selected(rows, now).value, now)
  {
    DefaultsAreActive(rows);
    if !HasOne(rows) {
      ChosenLeaves(rows, now);
    }
  }

  lemma SameLeads(a: Rows, b: Rows, id: string)
    requires a.Keys == b.Keys
    requires forall k | k in a :: a[k].active == b[k].active && a[k].sortOrder == b[k].sortOrder && a[k].code == b[k].code
    ensures Leads(a, id) <==> Leads(b, id)
  {
  }

  // ---------------------------------------------------------------- patching

  function SentText(delta: Delta, key: string, stored: string): string {
    if key !in delta then stored else match delta[key] case Phrase(text) => text case _ => ""
  }

  function SentFlag(delta: Delta, key: string, stored: bool): bool {
    if key !in delta then stored else match delta[key] case Flag(flag) => flag case _ => false
  }

  function SentNumber(delta: Delta, key: string, stored: int): int {
    if key !in delta then stored else match delta[key] case Number(number) => number case _ => 0
  }

  /** The value is of the field's type or null, in an object of an old and a new value. */
  predicate TypedValue(key: string, v: Value) {
    match v
    case Malformed => false
    case Null => true
    case Phrase(_) => key != "active" && key != "isDefault" && key != "sortOrder"
    case Flag(_) => key != "name" && key != "description" && key != "sortOrder"
    case Number(_) => key != "name" && key != "description" && key != "active" && key != "isDefault"
    case Other => key != "name" && key != "description" && key != "active" && key != "sortOrder" && key != "isDefault"
  }

  predicate Typed(delta: Delta) {
    forall key | key in delta :: TypedValue(key, delta[key])
  }

  predicate OnlyFields(delta: Delta) {
    delta != map[] && forall key | key in delta :: TrimSpace(key) in {"name", "description", "active", "sortOrder", "isDefault"}
  }

  /** The row holds what was sent, and otherwise what was stored. */
  ghost predicate HoldsSent(s: Section, delta: Delta, row: Section) {
    && row.id == s.id && row.code == s.code && row.isSystem == s.isSystem
    && row.name == TrimSpace(SentText(delta, "name", s.name))
    && row.description == TrimSpace(SentText(delta, "description", s.description))
    && row.active == SentFlag(delta, "active", s.active)
    && row.sortOrder == SentNumber(delta, "sortOrder", s.sortOrder)
    && forall name :: name in row.legacy <==>
         name == row.name || name == s.name || (name != "" && exists i | 0 <= i < |s.legacy| :: TrimSpace(s.legacy[i]) == name)
  }

  /** The patch makes the section the default. */
  predicate TakesDefault(s: Section, delta: Delta) {
    SentFlag(delta, "isDefault", s.isDefault) && SentFlag(delta, "active", s.active)
  }

  /** All texts that the patched section would bear. */
  function TextsAfter(s: Section, delta: Delta): seq<string> {
    Texts(s) + [SentText(delta, "name", s.name)]
  }

  ghost predicate PatchClashes(t: Table, id: string, delta: Delta)
    requires id in t.rows
  {
    exists k :: k in t.rows && (k != id || id == "") && Share(TextsAfter(t.rows[id], delta), Texts(t.rows[k]))
  }

  ghost predicate ActiveAfter(t: Table, id: string, delta: Delta)
    requires id in t.rows
  {
    SentFlag(delta, "active", t.rows[id].active) || exists k :: k in t.rows && k != id && t.rows[k].active
  }

  ghost function PatchOutcome(t: Table, id: string, version: int, delta: Delta): Outcome {
    if !OnlyFields(delta) then BadRequest
    else if id !in t.rows then NotFound
    else if t.rows[id].version != version then VersionConflict
    else if !Typed(delta) || TrimSpace(SentText(delta, "name", t.rows[id].name)) == "" then BadRequest
    else if PatchClashes(t, id, delta) then Conflicting
    else if !ActiveAfter(t, id, delta) then RequiresActive
    else Committed
  }

  lemma OneMoreName(values: seq<string>, last: string, name: string)
    ensures name in Names(Names(values) + [last]) <==> name in Names(values) || (name != "" && name == TrimSpace(last))
  {
    var all := Names(values) + [last];
    NamesHold([], all);
    NamesAreClean([], values);
    assert all[|Names(values)|] == last;
    if name in Names(values) {
      var i :| 0 <= i < |Names(values)| && Names(values)[i] == name;
      assert TrimSpace(all[i]) == name;
    }
  }

  lemma LegacyHolds(s: Section, delta: Delta, name: string)
    requires RowFits(s)
    ensures var next := Revised(s, delta);
            name in next.legacy <==>
            (name != "" && name == next.name) || name == s.name
            || (name != "" && exists i | 0 <= i < |s.legacy| :: TrimSpace(s.legacy[i]) == name)
  {
    var merged := Merged(s, delta, delta.Keys);
    OneMoreName(merged.legacy, TrimSpace(merged.name), name);
    TrimOfTight(TrimSpace(merged.name));
    NamesHold([], s.legacy);
    if "name" in delta {
      OneMoreName(s.legacy, s.name, name);
      NamesAgain(Names(s.legacy) + [s.name]);
    }
  }

  lemma MergedHoldsSent(s: Section, delta: Delta)
    requires RowFits(s) && Readable(delta) && Revised(s, delta).name != ""
    ensures HoldsSent(s, delta, Revised(s, delta))
    ensures Revised(s, delta).isDefault == TakesDefault(s, delta)
  {
    forall name { LegacyHolds(s, delta, name); }
  }

  lemma RevisedName(s: Section, delta: Delta)
    ensures Readable(delta) ==> Revised(s, delta).name == TrimSpace(SentText(delta, "name", s.name))
  {
  }

  lemma RevisedClashes(s: Section, delta: Delta, other: Section)
    requires RowFits(s) && Readable(delta) && Revised(s, delta).name != ""
    ensures Clash(Revised(s, delta), other) <==> Share(TextsAfter(s, delta), Texts(other))
  {
    var next := Revised(s, delta);
    ClashExactly(next, other);
    ShareExactly(Texts(next), Texts(other));
    ShareExactly(TextsAfter(s, delta), Texts(other));
    forall token ensures NamedBy(Texts(next), token) <==> NamedBy(TextsAfter(s, delta), token) {
      RevisedNamedBy(s, delta, token);
    }
  }

  lemma TextNames(texts: seq<string>, text: string)
    requires text in texts && Token(text) != ""
    ensures NamedBy(texts, Token(text))
  {
    var i :| 0 <= i < |texts| && texts[i] == text;
  }

  lemma EachNamed(a: seq<string>, b: seq<string>, token: string)
    requires forall text | text in a :: Token(text) == "" || NamedBy(b, Token(text))
    ensures NamedBy(a, token) ==> NamedBy(b, token)
  {
    if NamedBy(a, token) {
      var i :| 0 <= i < |a| && Token(a[i]) == token;
      assert a[i] in a;
    }
  }

  lemma InTexts(s: Section, text: string)
    ensures text in Texts(s) <==> text == s.code || text == s.name || text in s.legacy
  {
    assert Texts(s)[0] == s.code && Texts(s)[1] == s.name;
    if text in s.legacy {
      var i :| 0 <= i < |s.legacy| && s.legacy[i] == text;
      assert Texts(s)[i + 2] == text;
    }
  }

  lemma InTextsAfter(s: Section, delta: Delta, text: string)
    ensures text in TextsAfter(s, delta) <==> text in Texts(s) || text == SentText(delta, "name", s.name)
  {
    assert TextsAfter(s, delta)[|Texts(s)|] == SentText(delta, "name", s.name);
    if text in Texts(s) {
      var i :| 0 <= i < |Texts(s)| && Texts(s)[i] == text;
      assert TextsAfter(s, delta)[i] == text;
    }
  }

  lemma RevisedText(s: Section, delta: Delta, text: string)
    requires RowFits(s) && Readable(delta) && Revised(s, delta).name != "" && text in Texts(Revised(s, delta)) && Token(text) != ""
    ensures NamedBy(TextsAfter(s, delta), Token(text))
  {
    var next, sent, after := Revised(s, delta), SentText(delta, "name", s.name), TextsAfter(s, delta);
    MergedHoldsSent(s, delta);
    InTexts(next, text);
    InTextsAfter(s, delta, sent);
    InTextsAfter(s, delta, text);
    InTexts(s, text);
    TokenOfTrimmed(sent);
    if text == next.name {
      TextNames(after, sent);
    } else if text == s.code || text == s.name {
      TextNames(after, text);
    } else {
      var m :| 0 <= m < |s.legacy| && TrimSpace(s.legacy[m]) == text;
      TokenOfTrimmed(s.legacy[m]);
      InTexts(s, s.legacy[m]);
      InTextsAfter(s, delta, s.legacy[m]);
      TextNames(after, s.legacy[m]);
    }
  }

  lemma TextAfter(s: Section, delta: Delta, text: string)
    requires RowFits(s) && Readable(delta) && Revised(s, delta).name != "" && text in TextsAfter(s, delta) && Token(text) != ""
    ensures NamedBy(Texts(Revised(s, delta)), Token(text))
  {
    var next, sent := Revised(s, delta), SentText(delta, "name", s.name);
    MergedHoldsSent(s, delta);
    InTextsAfter(s, delta, text);
    InTexts(s, text);
    TokenOfTrimmed(text);
    var stored := if text == sent then next.name else if text == s.code || text == s.name then text else TrimSpace(text);
    TokenOfTrimmed(sent);
    InTexts(next, stored);
    if text in s.legacy {
      var m :| 0 <= m < |s.legacy| && s.legacy[m] == text;
      assert TrimSpace(s.legacy[m]) == TrimSpace(text);
    }
    TextNames(Texts(next), stored);
  }

  lemma RevisedNamedBy(s: Section, delta: Delta, token: string)
    requires RowFits(s) && Readable(delta) && Revised(s, delta).name != ""
    ensures NamedBy(Texts(Revised(s, delta)), token) <==> NamedBy(TextsAfter(s, delta), token)
  {
    var a, b := Texts(Revised(s, delta)), TextsAfter(s, delta);
    forall text | text in a && Token(text) != "" ensures NamedBy(b, Token(text)) {
      RevisedText(s, delta, text);
    }
    forall text | text in b && Token(text) != "" ensures NamedBy(a, Token(text)) {
      TextAfter(s, delta, text);
    }
    EachNamed(a, b, token);
    EachNamed(b, a, token);
  }

  // ---------------------------------------------------------------- what a patch leaves

  /** Every section but the patched one is as before, but for the default; what changed has the new version. */
  ghost predicate OthersStay(before: Rows, after: Rows, id: string, now: int) {
    && (forall k | k in after && k != id ::
          k in before && after[k].(isDefault := before[k].isDefault, version := before[k].version) == before[k])
    && (forall k | k in after && k in before :: after[k] == before[k] || after[k].version == now)
  }

  /** The default after writing a section that was the default or not, and is to be it or not. */
  ghost predicate DefaultMoves(before: Rows, after: Rows, id: string, takes: bool) {
    forall k | k in after ::
      after[k].isDefault <==>
      if takes then k == id
      else if id in before && before[id].isDefault then Leads(after, k)
      else k in before && before[k].isDefault
  }

  ghost predicate PatchLeaves(before: Rows, after: Rows, id: string, delta: Delta, now: int)
    requires id in before
  {
    && after.Keys == before.Keys && HoldsSent(before[id], delta, after[id])
    && OthersStay(before, after, id, now) && DefaultMoves(before, after, id, TakesDefault(before[id], delta))
  }

  lemma ClearedDoes(rows: Rows, id: string, row: Section, now: int)
    requires row.version == now && row.isDefault && row.active
    ensures var after := Cleared(rows[id := row], id, now);
            && Synced(rows[id := row], id, true, now) == Some(after)
            && after.Keys == rows.Keys + {id} && after[id] == row
            && OthersStay(rows, after, id, now) && DefaultMoves(rows, after, id, true)
  {
    var after := Cleared(rows[id := row], id, now);
    assert after[id] == row && HasDefault(after) && SomeActive(after);
  }

  lemma WrittenHasOne(rows: Rows, id: string, row: Section)
    requires OneDefault(rows) && !row.isDefault
    ensures HasOne(rows[id := row]) <==> !(id in rows && rows[id].isDefault)
  {
    var d :| d in rows && rows[d].isDefault && forall k | k in rows && k != d :: !rows[k].isDefault;
    if d != id {
      assert rows[id := row][d].isDefault;
    }
  }

  lemma SelectionMoves(rows: Rows, id: string, row: Section, after: Rows, now: int)
    requires OneDefault(rows) && row.version == now && !row.isDefault && SelectionLeaves(rows[id := row], after, now)
    ensures after.Keys == rows.Keys + {id} && after[id].(isDefault := row.isDefault) == row
    ensures DefaultMoves(rows, after, id, false)
  {
    WrittenHasOne(rows, id, row);
  }

  lemma SelectionStays(rows: Rows, id: string, row: Section, after: Rows, now: int)
    requires row.version == now && SameButDefault(rows[id := row], after, now)
    ensures OthersStay(rows, after, id, now)
  {
    var written := rows[id := row];
    assert forall k | k in after && k != id :: written[k] == rows[k];
  }

  lemma KeptDefaultDoes(rows: Rows, id: string, row: Section, now: int)
    requires RowsFit(rows[id := row]) && row.version == now && !row.isDefault && OneDefault(rows) && SomeActive(rows[id := row])
    ensures Selected(rows[id := row], now).Some?
    ensures var after := Selected(rows[id := row], now).value;
            && after.Keys == rows.Keys + {id} && after[id].(isDefault := row.isDefault) == row
            && OthersStay(rows, after, id, now) && DefaultMoves(rows, after, id, false)
  {
    SelectedDoes(rows[id := row], now);
    SelectionMoves(rows, id, row, Selected(rows[id := row], now).value, now);
    SelectionStays(rows, id, row, Selected(rows[id := row], now).value, now);
  }

  /** Writing a row and synchronizing the defaults. */
  lemma SyncedDoes(rows: Rows, id: string, row: Section, now: int)
    requires RowsFit(rows[id := row]) && row.version == now && OneDefault(rows)
    ensures Synced(rows[id := row], id, row.isDefault, now).Some? <==>
            row.active || exists k :: k in rows && k != id && rows[k].active
    ensures Synced(rows[id := row], id, row.isDefault, now).Some? ==>
              var after := Synced(rows[id := row], id, row.isDefault, now).value;
              && after.Keys == rows.Keys + {id} && after[id].(isDefault := row.isDefault) == row
              && OthersStay(rows, after, id, now) && DefaultMoves(rows, after, id, row.isDefault)
  {
    var written := rows[id := row];
    assert written[id] == row && RowFits(row);
    if row.isDefault {
      ClearedDoes(rows, id, row, now);
    } else {
      assert SomeActive(written) <==> row.active || exists k :: k in rows && k != id && rows[k].active by {
        if k :| k in rows && k != id && rows[k].active {
          assert written[k].active;
        }
      }
      if SomeActive(written) {
        KeptDefaultDoes(rows, id, row, now);
      }
    }
  }

  // ---------------------------------------------------------------- patching a table

  lemma KeysDiffer()
    ensures "name" != "active" && "name" != "isDefault" && "name" != "sortOrder"
    ensures "description" != "active" && "description" != "isDefault" && "description" != "sortOrder"
    ensures "sortOrder" != "active" && "sortOrder" != "isDefault"
  {
    assert "name"[0] == 'n' && "active"[0] == 'a' && "isDefault"[0] == 'i' && "sortOrder"[0] == 's' && "description"[0] == 'd';
  }

  lemma ReadableIsTyped(delta: Delta)
    ensures (Readable(delta) <==> Typed(delta)) && (Supported(delta) <==> OnlyFields(delta))
  {
    KeysDiffer();
    forall key | key in delta ensures WellTyped(key, delta[key]) <==> TypedValue(key, delta[key]) {
    }
  }

  lemma UniqueUnlessClashes(t: Table, id: string, delta: Delta)
    requires Valid(t) && id in t.rows && Readable(delta) && Revised(t.rows[id], delta).name != ""
    ensures Unique(Revised(t.rows[id], delta), t.rows, id) <==> !PatchClashes(t, id, delta)
  {
    assert RowFits(t.rows[id]);
    forall k | k in t.rows
      ensures Clash(Revised(t.rows[id], delta), t.rows[k]) <==> Share(TextsAfter(t.rows[id], delta), Texts(t.rows[k]))
    {
      assert t.rows[k].id == k;
      RevisedClashes(t.rows[id], delta, t.rows[k]);
    }
  }

  lemma PatchedRowHolds(s: Section, delta: Delta, now: int)
    requires RowFits(s) && Readable(delta) && Revised(s, delta).name != ""
    ensures var row := PatchedRow(s, delta, now);
            && HoldsSent(s, delta, row) && row.isDefault == TakesDefault(s, delta) && row.version == now
            && Acceptable(Revised(s, delta)) && RowFits(row)
  {
    MergedHoldsSent(s, delta);
    DiffReachesNext(s, delta, now);
    TokenAgain(s.code);
    PatchedNames(s, delta, now);
  }

  /** A patch that finds nothing to write left everything as it was, and so does what it should leave. */
  lemma IdleLeaves(rows: Rows, id: string, delta: Delta, now: int)
    requires OneDefault(rows) && id in rows && (rows[id].isDefault ==> rows[id].active)
    requires HoldsSent(rows[id], delta, rows[id]) && rows[id].isDefault == TakesDefault(rows[id], delta)
    ensures PatchLeaves(rows, rows, id, delta, now)
    ensures SentFlag(delta, "active", rows[id].active) || exists k :: k in rows && k != id && rows[k].active
  {
    var d :| d in rows && rows[d].isDefault && rows[d].active && forall k | k in rows && k != d :: !rows[k].isDefault;
  }

  lemma WrittenLeaves(rows: Rows, id: string, delta: Delta, row: Section, now: int)
    requires id in rows && OneDefault(rows) && RowsFit(rows[id := row]) && row.version == now
    requires HoldsSent(rows[id], delta, row) && row.isDefault == TakesDefault(rows[id], delta)
    ensures Synced(rows[id := row], id, row.isDefault, now).Some? <==>
            SentFlag(delta, "active", rows[id].active) || exists k :: k in rows && k != id && rows[k].active
    ensures Synced(rows[id := row], id, row.isDefault, now).Some? ==>
              PatchLeaves(rows, Synced(rows[id := row], id, row.isDefault, now).value, id, delta, now)
  {
    SyncedDoes(rows, id, row, now);
    if Synced(rows[id := row], id, row.isDefault, now).Some? {
      var after := Synced(rows[id := row], id, row.isDefault, now).value;
      SameHoldsSent(rows[id], delta, row, after[id]);
    }
  }

  lemma SameHoldsSent(s: Section, delta: Delta, row: Section, stored: Section)
    requires HoldsSent(s, delta, row) && stored.(isDefault := row.isDefault) == row
    ensures HoldsSent(s, delta, stored)
  {
  }

  lemma RevisionDoes(t: Table, id: string, delta: Delta, now: int)
    requires Valid(t) && id in t.rows && Readable(delta) && Revised(t.rows[id], delta).name != ""
    ensures PatchEnds(t, ApplyRevision(t, t.rows[id], Revised(t.rows[id], delta), now), id, delta, now,
                      if PatchClashes(t, id, delta) then Conflicting
                      else if !ActiveAfter(t, id, delta) then RequiresActive else Committed)
  {
    var s, next := t.rows[id], Revised(t.rows[id], delta);
    assert RowFits(s) && s.id == id;
    UniqueUnlessClashes(t, id, delta);
    PatchedRowHolds(s, delta, now);
    RevisedTakes(s, delta);
    if Unique(next, t.rows, id) {
      var row := PatchedRow(s, delta, now);
      if Diff(s, next) == NoUpdates {
        SameHoldsSent(s, delta, row, s.(version := now));
        IdleLeaves(t.rows, id, delta, now);
      } else {
        PatchedRowsFit(t.rows, id, delta, now);
        WrittenLeaves(t.rows, id, delta, row, now);
      }
    }
  }

  lemma RevisedTakes(s: Section, delta: Delta)
    requires RowFits(s) && Readable(delta)
    ensures Revised(s, delta).isDefault == TakesDefault(s, delta)
  {
  }

  /** A rejected patch changes nothing; a committed one leaves what it should. */
  ghost predicate PatchEnds(t: Table, result: (Table, Outcome), id: string, delta: Delta, now: int, outcome: Outcome) {
    && result.1 == outcome
    && (!outcome.Committed? ==> result.0 == t)
    && (outcome.Committed? ==>
          result.0.retired == t.retired && id in t.rows && PatchLeaves(t.rows, result.0.rows, id, delta, now))
  }

  /**
   * Every patch, from every valid table: it is rejected for exactly these reasons, in this order, and then changes nothing;
   * and when it is committed, the row holds what was sent and otherwise what was stored, the other sections stay, and the
   * default is the patched section, or stays, or goes to the first active section.
   */
  lemma PatchDoes(t: Table, id: string, version: int, delta: Delta, now: int)
    requires Valid(t)
    ensures PatchEnds(t, ApplyPatch(t, id, version, delta, now), id, delta, now, PatchOutcome(t, id, version, delta))
  {
    ReadableIsTyped(delta);
    if id in t.rows {
      RevisedName(t.rows[id], delta);
      if Readable(delta) && Revised(t.rows[id], delta).name != "" {
        RevisionDoes(t, id, delta, now);
      }
    }
  }

  // ---------------------------------------------------------------- creating and deleting

  ghost function CreateOutcome(t: Table, input: Section): Outcome {
    if Visible(input.code) == "" || TrimSpace(input.name) == "" then BadRequest
    else if exists k :: k in t.rows && Share([input.code, input.name], Texts(t.rows[k])) then Conflicting
    else if input.id in t.rows || input.id in t.retired then IdTaken
    else Committed
  }

  /** The new section holds what was sent, in normal form, and starts with its own name as the only historical one. */
  ghost predicate CreateLeaves(t: Table, after: Table, input: Section, now: int) {
    && after.retired == t.retired && after.rows.Keys == t.rows.Keys + {input.id} && input.id !in t.rows
    && (var row := after.rows[input.id];
        && row.id == input.id && row.code == Token(input.code) && row.name == TrimSpace(input.name)
        && row.description == TrimSpace(input.description) && !row.isSystem && row.active == input.active
        && row.sortOrder == input.sortOrder && row.version == now && row.legacy == [TrimSpace(input.name)])
    && OthersStay(t.rows, after.rows, input.id, now)
    && DefaultMoves(t.rows, after.rows, input.id, input.isDefault && input.active)
  }

  ghost predicate CreateEnds(t: Table, result: (Table, Outcome), input: Section, now: int, outcome: Outcome) {
    && result.1 == outcome
    && (!outcome.Committed? ==> result.0 == t)
    && (outcome.Committed? ==> CreateLeaves(t, result.0, input, now))
  }

  lemma OneName(name: string)
    requires TrimSpace(name) == name && name != ""
    ensures Names(Names([]) + [name]) == [name]
  {
    assert Names([]) == [] && [] + [name] == [name];
    assert [name][1..] == [];
    assert NamesAfter(WithName([], name), []) == [name];
  }

  lemma CreatedHolds(input: Section)
    requires TrimSpace(input.name) != ""
    ensures var row := Created(input);
            && row.id == input.id && row.code == Token(input.code) && row.name == TrimSpace(input.name)
            && row.description == TrimSpace(input.description) && !row.isSystem && row.active == input.active
            && row.sortOrder == input.sortOrder && row.legacy == [TrimSpace(input.name)]
            && row.isDefault == (input.isDefault && input.active)
  {
    TrimOfTight(TrimSpace(input.name));
    OneName(TrimSpace(input.name));
  }

  lemma CreatedClashes(input: Section, other: Section)
    requires TrimSpace(input.name) != ""
    ensures Clash(Created(input), other) <==> Share([input.code, input.name], Texts(other))
  {
    var row, sent := Created(input), [input.code, input.name];
    CreatedHolds(input);
    ClashExactly(row, other);
    ShareExactly(Texts(row), Texts(other));
    ShareExactly(sent, Texts(other));
    TokenAgain(input.code);
    TokenOfTrimmed(input.name);
    var texts := Texts(row);
    assert texts == [row.code, row.name, row.name];
    forall token ensures NamedBy(texts, token) <==> NamedBy(sent, token) {
      assert Token(texts[0]) == Token(sent[0]) && Token(texts[1]) == Token(sent[1]) && Token(texts[2]) == Token(sent[1]);
    }
  }

  lemma UniqueUnlessShared(rows: Rows, input: Section)
    requires TrimSpace(input.name) != ""
    ensures Unique(Created(input), rows, "") <==> !exists k :: k in rows && Share([input.code, input.name], Texts(rows[k]))
  {
    forall k | k in rows ensures Clash(Created(input), rows[k]) <==> Share([input.code, input.name], Texts(rows[k])) {
      CreatedClashes(input, rows[k]);
    }
  }

  lemma CreateCommits(t: Table, input: Section, now: int)
    requires Valid(t) && Acceptable(Created(input)) && Unique(Created(input), t.rows, "")
    requires input.id !in t.rows && input.id !in t.retired
    ensures CreateEnds(t, ApplyCreate(t, input, now), input, now, Committed)
  {
    var row := Created(input).(version := now);
    CreatedHolds(input);
    CreatedRowsFit(t.rows, input, now);
    SyncedDoes(t.rows, input.id, row, now);
    var d :| d in t.rows && t.rows[d].isDefault && t.rows[d].active;
    assert d != input.id;
  }

  /** Creating a section is rejected for exactly these reasons, and otherwise adds just that section. */
  lemma CreateDoes(t: Table, input: Section, now: int)
    requires Valid(t)
    ensures CreateEnds(t, ApplyCreate(t, input, now), input, now, CreateOutcome(t, input))
  {
    TokenIsVisible(input.code);
    if TrimSpace(input.name) != "" {
      UniqueUnlessShared(t.rows, input);
      if Acceptable(Created(input)) && Unique(Created(input), t.rows, "") && input.id !in t.rows && input.id !in t.retired {
        CreateCommits(t, input, now);
      }
    }
  }

  /** Items name their section by any of its texts, trimmed. */
  ghost predicate IsNamedBy(items: set<string>, s: Section) {
    exists i | 0 <= i < |Texts(s)| :: TrimSpace(Texts(s)[i]) != "" && TrimSpace(Texts(s)[i]) in items
  }

  ghost function DeleteOutcome(t: Table, id: string, items: set<string>): Outcome {
    if id !in t.rows then NotFound
    else if t.rows[id].isSystem then Protected
    else if IsNamedBy(items, t.rows[id]) then Linked
    else if forall k | k in t.rows && k != id :: !t.rows[k].active then RequiresActive
    else Committed
  }

  ghost predicate DeleteLeaves(t: Table, after: Table, id: string, now: int) {
    && id in t.rows && after.retired == t.retired + {id} && after.rows.Keys == t.rows.Keys - {id}
    && OthersStay(t.rows, after.rows, id, now) && DefaultMoves(t.rows, after.rows, id, false)
  }

  ghost predicate DeleteEnds(t: Table, result: (Table, Outcome), id: string, now: int, outcome: Outcome) {
    && result.1 == outcome
    && (!outcome.Committed? ==> result.0 == t)
    && (outcome.Committed? ==> DeleteLeaves(t, result.0, id, now))
  }

  lemma CandidateIsText(s: Section, name: string)
    requires name in Names(Candidates(s))
    ensures name != "" && exists i | 0 <= i < |Texts(s)| :: TrimSpace(Texts(s)[i]) == name
  {
    var all, texts := Candidates(s), Texts(s);
    NamesHold([], all);
    NamesHold([], s.legacy);
    var j :| 0 <= j < |all| && TrimSpace(all[j]) == name;
    assert texts[0] == s.code && texts[1] == s.name;
    if j >= 2 {
      assert all[j] in Names(s.legacy);
      var m :| 0 <= m < |s.legacy| && TrimSpace(s.legacy[m]) == all[j];
      TrimOfTight(TrimSpace(s.legacy[m]));
      assert texts[m + 2] == s.legacy[m];
    }
  }

  lemma TextIsCandidate(s: Section, j: nat)
    requires j < |Texts(s)| && TrimSpace(Texts(s)[j]) != ""
    ensures TrimSpace(Texts(s)[j]) in Names(Candidates(s))
  {
    var all, texts := Candidates(s), Texts(s);
    var name := TrimSpace(texts[j]);
    NamesHold([], all);
    NamesHold([], s.legacy);
    assert all[0] == s.code && all[1] == s.name;
    if j >= 2 {
      assert texts[j] == s.legacy[j - 2] && name in Names(s.legacy);
      var m :| 0 <= m < |Names(s.legacy)| && Names(s.legacy)[m] == name;
      TrimOfTight(name);
      assert all[m + 2] == name;
    } else {
      assert TrimSpace(all[j]) == name;
    }
  }

  lemma LinkedExactly(s: Section, items: set<string>)
    ensures (exists i | 0 <= i < |Names(Candidates(s))| :: Names(Candidates(s))[i] in items) <==> IsNamedBy(items, s)
  {
    var names := Names(Candidates(s));
    if i :| 0 <= i < |names| && names[i] in items {
      CandidateIsText(s, names[i]);
    }
    if j :| 0 <= j < |Texts(s)| && TrimSpace(Texts(s)[j]) != "" && TrimSpace(Texts(s)[j]) in items {
      TextIsCandidate(s, j);
      var i :| 0 <= i < |names| && names[i] == TrimSpace(Texts(s)[j]);
    }
  }

  lemma RemovedMoves(rows: Rows, id: string, after: Rows, now: int)
    requires id in rows && OneDefault(rows) && SelectionLeaves(rows - {id}, after, now)
    ensures after.Keys == rows.Keys - {id} && OthersStay(rows, after, id, now) && DefaultMoves(rows, after, id, false)
  {
    var d :| d in rows && rows[d].isDefault && forall k | k in rows && k != d :: !rows[k].isDefault;
    var rest := rows - {id};
    assert forall k | k in rest :: rest[k] == rows[k];
    if d != id {
      assert d in rest && rest[d].isDefault;
    }
  }

  lemma ActiveRest(rows: Rows, id: string)
    ensures SomeActive(rows - {id}) <==> exists k :: k in rows && k != id && rows[k].active
  {
    if k :| k in rows && k != id && rows[k].active {
      assert k in rows - {id} && (rows - {id})[k].active;
    }
  }

  lemma DeleteCommits(t: Table, id: string, now: int)
    requires Valid(t) && id in t.rows && !t.rows[id].isSystem && SomeActive(t.rows - {id})
    ensures Selected(t.rows - {id}, now).Some?
    ensures DeleteLeaves(t, Table(Selected(t.rows - {id}, now).value, t.retired + {id}), id, now)
  {
    RowDeleted(t, id);
    SelectedDoes(t.rows - {id}, now);
    RemovedMoves(t.rows, id, Selected(t.rows - {id}, now).value, now);
  }

  /** Deleting a section is rejected for exactly these reasons, and otherwise removes just that section. */
  lemma DeleteDoes(t: Table, id: string, items: set<string>, now: int)
    requires Valid(t)
    ensures DeleteEnds(t, ApplyDelete(t, id, items, now), id, now, DeleteOutcome(t, id, items))
  {
    if id in t.rows {
      LinkedExactly(t.rows[id], items);
      ActiveRest(t.rows, id);
      if !t.rows[id].isSystem && SomeActive(t.rows - {id}) {
        DeleteCommits(t, id, now);
      }
    }
  }
}
