/**
 * The start-up cleanup of duplicate attribute options: options of one category with the same machine value are merged
 * into one, and the attribute values of products follow.
 */
module OptionCleanup {
  import opened Text
  import opened MachineValues

  datatype OptionRow = OptionRow(id: string, category: string, value: string, sortOrder: int)

  datatype ValueRow = ValueRow(category: string, value: string)

  type Options = map<string, OptionRow>

  predicate Before(a: OptionRow, b: OptionRow) {
    a.sortOrder < b.sortOrder || (a.sortOrder == b.sortOrder && Precedes(a.id, b.id))
  }

  /** The rows of the table in the order of the query: within a category no row comes before an earlier one. */
  ghost predicate ScanOf(options: Options, rows: seq<OptionRow>) {
    && (forall i | 0 <= i < |rows| :: rows[i].id in options && options[rows[i].id] == rows[i])
    && (forall id | id in options :: exists i | 0 <= i < |rows| :: rows[i].id == id)
    && Scanned(rows)
  }

  ghost predicate UniqueIds(rows: seq<OptionRow>) {
    forall i, j | 0 <= i < j < |rows| :: rows[i].id != rows[j].id
  }

  // ---------------------------------------------------------------- groups

  datatype Group = Group(category: string, normalized: string, items: seq<OptionRow>)

  function Key(category: string, slug: string): string {
    category + "::" + slug
  }

  ghost predicate ColonFree(s: string) {
    forall i | 0 <= i < |s| :: s[i] != ':'
  }

  /** A key determines its category and machine value, whatever the category holds. */
  lemma KeyInjective(a: string, x: string, b: string, y: string)
    requires ColonFree(x) && ColonFree(y)
    ensures Key(a, x) == Key(b, y) <==> a == b && x == y
  {
    var s, t := Key(a, x), Key(b, y);
    if s == t {
      assert s[|a| + 1] == ':' && t[|b| + 1] == ':';
      assert forall i | 0 <= i < |x| :: s[|a| + 2 + i] == x[i];
      assert forall i | 0 <= i < |y| :: t[|b| + 2 + i] == y[i];
      assert |a| == |b|;
      assert a == s[..|a|] && b == t[..|b|] && x == s[|a| + 2..] && y == t[|b| + 2..];
    }
  }

  predicate Belongs(o: OptionRow, category: string, slug: string) {
    o.category == category && Slug(o.value) == slug
  }

  function GroupItems(rows: seq<OptionRow>, category: string, slug: string, n: nat): seq<OptionRow>
    requires n <= |rows|
  {
    if n == 0 then []
    else GroupItems(rows, category, slug, n - 1) + (if Belongs(rows[n - 1], category, slug) then [rows[n - 1]] else [])
  }

  function GroupOf(rows: seq<OptionRow>, category: string, slug: string): Group {
    Group(category, slug, GroupItems(rows, category, slug, |rows|))
  }

  lemma {:induction false} ItemIsRow(rows: seq<OptionRow>, category: string, slug: string, n: nat, k: nat) returns (i: nat)
    requires n <= |rows| && k < |GroupItems(rows, category, slug, n)|
    ensures i < n && rows[i] == GroupItems(rows, category, slug, n)[k] && Belongs(rows[i], category, slug)
  {
    if k < |GroupItems(rows, category, slug, n - 1)| {
      i := ItemIsRow(rows, category, slug, n - 1, k);
    } else {
      i := n - 1;
    }
  }

  lemma {:induction false} RowIsItem(rows: seq<OptionRow>, category: string, slug: string, n: nat, i: nat) returns (k: nat)
    requires i < n <= |rows| && Belongs(rows[i], category, slug)
    ensures k < |GroupItems(rows, category, slug, n)| && rows[i] == GroupItems(rows, category, slug, n)[k]
  {
    if i < n - 1 {
      k := RowIsItem(rows, category, slug, n - 1, i);
    } else {
      k := |GroupItems(rows, category, slug, n - 1)|;
    }
  }

  /** The items of a group are exactly its rows. */
  lemma ItemsBelong(rows: seq<OptionRow>, category: string, slug: string, n: nat)
    requires n <= |rows|
    ensures forall o :: o in GroupItems(rows, category, slug, n) <==> o in rows[..n] && Belongs(o, category, slug)
  {
    var items := GroupItems(rows, category, slug, n);
    forall o | o in items ensures o in rows[..n] && Belongs(o, category, slug) {
      var k :| 0 <= k < |items| && items[k] == o;
      var i := ItemIsRow(rows, category, slug, n, k);
      assert rows[..n][i] == o;
    }
    forall o | o in rows[..n] && Belongs(o, category, slug) ensures o in items {
      var i :| 0 <= i < n && rows[..n][i] == o;
      var k := RowIsItem(rows, category, slug, n, i);
    }
  }

  /** Items keep the order of the scan. */
  lemma {:induction false} ItemsInOrder(rows: seq<OptionRow>, category: string, slug: string, n: nat)
    requires n <= |rows| && UniqueIds(rows)
    requires forall i, j | 0 <= i < j < |rows| && rows[i].category == rows[j].category :: !Before(rows[j], rows[i])
    ensures var items := GroupItems(rows, category, slug, n);
            UniqueIds(items) && forall i, j | 0 <= i < j < |items| :: !Before(items[j], items[i])
  {
    if n > 0 {
      ItemsInOrder(rows, category, slug, n - 1);
      var before := GroupItems(rows, category, slug, n - 1);
      if Belongs(rows[n - 1], category, slug) {
        forall k | 0 <= k < |before| ensures before[k].id != rows[n - 1].id && !Before(rows[n - 1], before[k]) {
          var i := ItemIsRow(rows, category, slug, n - 1, k);
        }
      }
    }
  }

  /** The item that survives among the first n: the first stored in machine form, or else the first. */
  function ChosenAt(items: seq<OptionRow>, slug: string, n: nat): (k: nat)
    requires 0 < n <= |items|
    ensures k < n
  {
    if n == 1 then 0
    else
      var chosen := ChosenAt(items, slug, n - 1);
      if items[chosen].value != slug && items[n - 1].value == slug then n - 1 else chosen
  }

  function Canonical(g: Group): OptionRow
    requires g.items != []
  {
    g.items[ChosenAt(g.items, g.normalized, |g.items|)]
  }

  lemma {:induction false} ChosenIsFirst(items: seq<OptionRow>, slug: string, n: nat)
    requires 0 < n <= |items|
    ensures var k := ChosenAt(items, slug, n);
            && (forall i | 0 <= i < k :: items[i].value != slug)
            && (items[k].value != slug ==> k == 0 && forall i | 0 <= i < n :: items[i].value != slug)
  {
    if n > 1 {
      ChosenIsFirst(items, slug, n - 1);
    }
  }

  function KeyOf(o: OptionRow): string {
    Key(o.category, Slug(o.value))
  }

  ghost predicate Seen(rows: seq<OptionRow>, n: nat, key: string)
    requires n <= |rows|
  {
    exists i | 0 <= i < n :: Slug(rows[i].value) != "" && KeyOf(rows[i]) == key
  }

  ghost predicate GroupFits(rows: seq<OptionRow>, key: string, g: Group, n: nat)
    requires n <= |rows|
  {
    && key == Key(g.category, g.normalized) && g.normalized != "" && Slug(g.normalized) == g.normalized
    && g.items == GroupItems(rows, g.category, g.normalized, n) && g.items != []
  }

  lemma {:induction false} NoItems(rows: seq<OptionRow>, category: string, slug: string, n: nat)
    requires n <= |rows| && slug != "" && !Seen(rows, n, Key(category, slug))
    ensures GroupItems(rows, category, slug, n) == []
  {
    if n > 0 {
      assert forall i | 0 <= i < n :: !(Slug(rows[i].value) != "" && KeyOf(rows[i]) == Key(category, slug));
      NoItems(rows, category, slug, n - 1);
      assert !Belongs(rows[n - 1], category, slug);
    }
  }

  lemma OtherGroupStays(rows: seq<OptionRow>, key: string, g: Group, n: nat)
    requires n < |rows| && GroupFits(rows, key, g, n) && !(Slug(rows[n].value) != "" && KeyOf(rows[n]) == key)
    ensures GroupFits(rows, key, g, n + 1)
  {
  }

  lemma OwnGroupGrows(rows: seq<OptionRow>, items: seq<OptionRow>, n: nat)
    requires n < |rows| && Slug(rows[n].value) != ""
    requires items == GroupItems(rows, rows[n].category, Slug(rows[n].value), n)
    ensures GroupFits(rows, KeyOf(rows[n]), Group(rows[n].category, Slug(rows[n].value), items + [rows[n]]), n + 1)
  {
    SlugAgain(rows[n].value);
  }

  lemma SeenNext(rows: seq<OptionRow>, n: nat)
    requires n < |rows|
    ensures forall key :: Seen(rows, n + 1, key) <==> Seen(rows, n, key) || (Slug(rows[n].value) != "" && KeyOf(rows[n]) == key)
  {
    assert Slug(rows[n].value) != "" ==> Seen(rows, n + 1, KeyOf(rows[n]));
  }

  lemma KeyIsOwn(rows: seq<OptionRow>, g: Group, n: nat)
    requires n < |rows| && GroupFits(rows, KeyOf(rows[n]), g, n)
    ensures g.category == rows[n].category && g.normalized == Slug(rows[n].value)
  {
    SlugHasNoSpace(rows[n].value);
    SlugHasNoSpace(g.normalized);
    KeyInjective(g.category, g.normalized, rows[n].category, Slug(rows[n].value));
  }

  ghost predicate GroupsFit(rows: seq<OptionRow>, groups: map<string, Group>, n: nat)
    requires n <= |rows|
  {
    && (forall key | key in groups :: GroupFits(rows, key, groups[key], n))
    && (forall key :: key in groups <==> Seen(rows, n, key))
  }

  /** The options gathered under a key so far. */
  function ItemsAt(groups: map<string, Group>, key: string): seq<OptionRow> {
    if key in groups then groups[key].items else []
  }

  function WithOption(groups: map<string, Group>, o: OptionRow): map<string, Group> {
    groups[KeyOf(o) := Group(o.category, Slug(o.value), ItemsAt(groups, KeyOf(o)) + [o])]
  }

  lemma OwnGroupFits(rows: seq<OptionRow>, groups: map<string, Group>, n: nat)
    requires n < |rows| && GroupsFit(rows, groups, n) && Slug(rows[n].value) != ""
    ensures ItemsAt(groups, KeyOf(rows[n])) == GroupItems(rows, rows[n].category, Slug(rows[n].value), n)
  {
    if KeyOf(rows[n]) in groups {
      KeyIsOwn(rows, groups[KeyOf(rows[n])], n);
    } else {
      NoItems(rows, rows[n].category, Slug(rows[n].value), n);
    }
  }

  lemma OptionJoinsGroup(rows: seq<OptionRow>, groups: map<string, Group>, n: nat)
    requires n < |rows| && GroupsFit(rows, groups, n) && Slug(rows[n].value) != ""
    ensures GroupsFit(rows, WithOption(groups, rows[n]), n + 1)
  {
    var key := KeyOf(rows[n]);
    OwnGroupFits(rows, groups, n);
    OwnGroupGrows(rows, ItemsAt(groups, key), n);
    forall other | other in groups && other != key ensures GroupFits(rows, other, groups[other], n + 1) {
      OtherGroupStays(rows, other, groups[other], n);
    }
    SeenNext(rows, n);
  }

  lemma OptionWithoutGroup(rows: seq<OptionRow>, groups: map<string, Group>, n: nat)
    requires n < |rows| && GroupsFit(rows, groups, n) && Slug(rows[n].value) == ""
    ensures GroupsFit(rows, groups, n + 1)
  {
    forall key | key in groups ensures GroupFits(rows, key, groups[key], n + 1) {
      OtherGroupStays(rows, key, groups[key], n);
    }
    SeenNext(rows, n);
  }

  method GroupOptions(rows: seq<OptionRow>) returns (groups: map<string, Group>)
    ensures GroupsFit(rows, groups, |rows|)
  {
    groups := map[];
    for n := 0 to |rows|
      invariant GroupsFit(rows, groups, n)
    {
      var option := rows[n];
      var normalized := MachineValue(option.value);
      if normalized == "" {
        OptionWithoutGroup(rows, groups, n);
        continue;
      }
      var key := option.category + "::" + normalized;
      OptionJoinsGroup(rows, groups, n);
      groups := groups[key := Group(option.category, normalized, ItemsAt(groups, key) + [option])];
    }
  }

  // ---------------------------------------------------------------- one group

  /** A text that names the group among attribute values. */
  ghost predicate Candidate(g: Group, text: string) {
    text != "" && (text == TrimSpace(g.normalized) || exists k | 0 <= k < |g.items| :: TrimSpace(g.items[k].value) == text)
  }

  ghost predicate Duplicate(g: Group, id: string)
    requires g.items != []
  {
    id != Canonical(g).id && Among(g.items, |g.items|, id)
  }

  ghost function MergedOptions(options: Options, g: Group): Options
    requires g.items != []
  {
    map id | id in options && !Duplicate(g, id) ::
      if id == Canonical(g).id then options[id].(value := g.normalized) else options[id]
  }

  ghost function MergedValue(g: Group, v: ValueRow): ValueRow {
    if v.category == g.category && Candidate(g, v.value) then v.(value := g.normalized) else v
  }

  ghost function MergedValues(values: seq<ValueRow>, g: Group): seq<ValueRow> {
    seq(|values|, i requires 0 <= i < |values| => MergedValue(g, values[i]))
  }

  /** The loop over the items; the comparison of sort orders and ids never picks another one. */
  method ChooseCanonical(g: Group) returns (canonical: OptionRow)
    requires g.items != [] && forall i, j | 0 <= i < j < |g.items| :: !Before(g.items[j], g.items[i])
    ensures canonical == Canonical(g)
  {
    canonical := g.items[0];
    for k := 1 to |g.items|
      invariant canonical == g.items[ChosenAt(g.items, g.normalized, k)]
    {
      var item := g.items[k];
      if canonical.value != g.normalized && item.value == g.normalized {
        canonical := item;
        continue;
      }
      if Before(item, canonical) {
        canonical := item;
      }
    }
  }

  ghost predicate Among(items: seq<OptionRow>, n: nat, id: string)
    requires n <= |items|
  {
    exists i | 0 <= i < n :: items[i].id == id
  }

  ghost predicate Written(items: seq<OptionRow>, n: nat, text: string)
    requires n <= |items|
  {
    exists i | 0 <= i < n :: items[i].value == text
  }

  /** The other items, and every way in which attribute values may name the group. */
  method Collect(g: Group, canonical: OptionRow) returns (duplicates: set<string>, unique: set<string>)
    requires g.items != [] && canonical in g.items && UniqueIds(g.items)
    ensures forall id :: id in duplicates <==> id != canonical.id && Among(g.items, |g.items|, id)
    ensures forall text :: text in unique <==> Candidate(g, text)
  {
    var candidates := {canonical.value, g.normalized};
    duplicates := {};
    for k := 0 to |g.items|
      invariant forall id :: id in duplicates <==> id != canonical.id && Among(g.items, k, id)
      invariant forall text | text in candidates :: text == g.normalized || Written(g.items, |g.items|, text)
      invariant g.normalized in candidates && canonical.value in candidates
      invariant forall i | 0 <= i < k :: g.items[i].value in candidates
    {
      if g.items[k].id == canonical.id {
        var c :| 0 <= c < |g.items| && g.items[c] == canonical;
        continue;
      }
      duplicates := duplicates + {g.items[k].id};
      candidates := candidates + {g.items[k].value};
    }
    unique := set text | text in candidates && TrimSpace(text) != "" :: TrimSpace(text);
  }

  ghost predicate MergeableIn(options: Options, g: Group) {
    && g.items != [] && UniqueIds(g.items) && (forall i, j | 0 <= i < j < |g.items| :: !Before(g.items[j], g.items[i]))
    && (forall k | 0 <= k < |g.items| :: g.items[k].id in options && options[g.items[k].id] == g.items[k])
  }

  // ---------------------------------------------------------------- any number of groups

  ghost predicate InDone(done: set<string>, o: OptionRow) {
    Slug(o.value) != "" && KeyOf(o) in done
  }

  ghost predicate Survives(rows: seq<OptionRow>, o: OptionRow) {
    var g := GroupOf(rows, o.category, Slug(o.value));
    g.items != [] && o.id == Canonical(g).id
  }

  ghost predicate Stays(rows: seq<OptionRow>, done: set<string>, o: OptionRow) {
    InDone(done, o) ==> Survives(rows, o)
  }

  ghost function Cleaned(done: set<string>, o: OptionRow): OptionRow {
    if InDone(done, o) then o.(value := Slug(o.value)) else o
  }

  /** The table after the groups in done: of each one option in machine form, everything else as it was. */
  ghost predicate Stage(options: Options, rows: seq<OptionRow>, done: set<string>) {
    && (forall id | id in options :: Among(rows, |rows|, id))
    && (forall i | 0 <= i < |rows| :: rows[i].id in options <==> Stays(rows, done, rows[i]))
    && (forall i | 0 <= i < |rows| && rows[i].id in options :: options[rows[i].id] == Cleaned(done, rows[i]))
  }

  ghost function StageValue(rows: seq<OptionRow>, done: set<string>, v: ValueRow): ValueRow {
    var n := Slug(v.value);
    if n != "" && Key(v.category, n) in done && Candidate(GroupOf(rows, v.category, n), v.value) then v.(value := n) else v
  }

  ghost function StageValues(rows: seq<OptionRow>, done: set<string>, values: seq<ValueRow>): seq<ValueRow> {
    seq(|values|, i requires 0 <= i < |values| => StageValue(rows, done, values[i]))
  }

  ghost predicate Scanned(rows: seq<OptionRow>) {
    UniqueIds(rows) && forall i, j | 0 <= i < j < |rows| && rows[i].category == rows[j].category :: !Before(rows[j], rows[i])
  }

  /** Different keys never share a row. */
  lemma KeysSplitRows(o: OptionRow, category: string, slug: string)
    requires slug != "" && Slug(slug) == slug
    ensures Slug(o.value) != "" && KeyOf(o) == Key(category, slug) <==> Belongs(o, category, slug)
  {
    SlugHasNoSpace(o.value);
    SlugHasNoSpace(slug);
    KeyInjective(o.category, Slug(o.value), category, slug);
  }

  lemma GroupIsMergeable(rows: seq<OptionRow>, options: Options, done: set<string>, key: string, g: Group)
    requires Scanned(rows) && Stage(options, rows, done) && GroupFits(rows, key, g, |rows|) && key !in done
    ensures MergeableIn(options, g)
  {
    ItemsInOrder(rows, g.category, g.normalized, |rows|);
    forall k | 0 <= k < |g.items| ensures g.items[k].id in options && options[g.items[k].id] == g.items[k] {
      var i := ItemIsRow(rows, g.category, g.normalized, |rows|, k);
      KeysSplitRows(rows[i], g.category, g.normalized);
      assert Stays(rows, done, rows[i]);
    }
  }

  lemma RowIsDuplicate(rows: seq<OptionRow>, key: string, g: Group, i: nat)
    requires UniqueIds(rows) && GroupFits(rows, key, g, |rows|) && i < |rows|
    ensures Among(g.items, |g.items|, rows[i].id) <==> Belongs(rows[i], g.category, g.normalized)
  {
    if Among(g.items, |g.items|, rows[i].id) {
      var k :| 0 <= k < |g.items| && g.items[k].id == rows[i].id;
      var j := ItemIsRow(rows, g.category, g.normalized, |rows|, k);
      assert i == j;
    }
    if Belongs(rows[i], g.category, g.normalized) {
      var k := RowIsItem(rows, g.category, g.normalized, |rows|, i);
    }
  }

  lemma RowMerged(rows: seq<OptionRow>, options: Options, done: set<string>, key: string, g: Group, i: nat)
    requires Scanned(rows) && Stage(options, rows, done) && GroupFits(rows, key, g, |rows|) && key !in done && i < |rows|
    ensures var after := MergedOptions(options, g);
            && (rows[i].id in after <==> Stays(rows, done + {key}, rows[i]))
            && (rows[i].id in after ==> after[rows[i].id] == Cleaned(done + {key}, rows[i]))
  {
    RowIsDuplicate(rows, key, g, i);
    KeysSplitRows(rows[i], g.category, g.normalized);
    var c := ItemIsRow(rows, g.category, g.normalized, |rows|, ChosenAt(g.items, g.normalized, |g.items|));
    assert rows[c] == Canonical(g);
    if Belongs(rows[i], g.category, g.normalized) {
      assert g == GroupOf(rows, rows[i].category, Slug(rows[i].value));
      assert InDone(done + {key}, rows[i]) && !InDone(done, rows[i]);
    } else {
      assert InDone(done + {key}, rows[i]) == InDone(done, rows[i]);
      assert rows[i].id != Canonical(g).id;
    }
  }

  /** Merging one more group, whichever it is. */
  lemma MergeAdvances(rows: seq<OptionRow>, options: Options, done: set<string>, key: string, g: Group)
    requires Scanned(rows) && Stage(options, rows, done) && GroupFits(rows, key, g, |rows|) && key !in done
    ensures Stage(MergedOptions(options, g), rows, done + {key})
  {
    forall i | 0 <= i < |rows|
      ensures var after := MergedOptions(options, g);
              && (rows[i].id in after <==> Stays(rows, done + {key}, rows[i]))
              && (rows[i].id in after ==> after[rows[i].id] == Cleaned(done + {key}, rows[i]))
    {
      RowMerged(rows, options, done, key, g, i);
    }
  }

  lemma CandidateSlug(rows: seq<OptionRow>, key: string, g: Group, text: string)
    requires GroupFits(rows, key, g, |rows|) && Candidate(g, text)
    ensures Slug(text) == g.normalized
  {
    SlugOfTrimmed(g.normalized);
    if k :| 0 <= k < |g.items| && TrimSpace(g.items[k].value) == text {
      var i := ItemIsRow(rows, g.category, g.normalized, |rows|, k);
      SlugOfTrimmed(g.items[k].value);
    }
  }

  /** A value is touched by the group of its own machine form only. */
  lemma ValueAdvances(rows: seq<OptionRow>, done: set<string>, key: string, g: Group, v: ValueRow)
    requires GroupFits(rows, key, g, |rows|) && key !in done
    ensures MergedValue(g, StageValue(rows, done, v)) == StageValue(rows, done + {key}, v)
  {
    var n := Slug(v.value);
    var now := StageValue(rows, done, v);
    SlugAgain(v.value);
    SlugHasNoSpace(v.value);
    SlugHasNoSpace(g.normalized);
    KeyInjective(v.category, n, g.category, g.normalized);
    if Candidate(g, now.value) {
      CandidateSlug(rows, key, g, now.value);
    }
  }

  lemma ValuesAdvance(rows: seq<OptionRow>, done: set<string>, key: string, g: Group, values: seq<ValueRow>)
    requires GroupFits(rows, key, g, |rows|) && key !in done
    ensures MergedValues(StageValues(rows, done, values), g) == StageValues(rows, done + {key}, values)
  {
    forall i | 0 <= i < |values|
      ensures MergedValue(g, StageValue(rows, done, values[i])) == StageValue(rows, done + {key}, values[i])
    {
      ValueAdvances(rows, done, key, g, values[i]);
    }
  }

  ghost predicate AllDone(rows: seq<OptionRow>, done: set<string>) {
    forall i | 0 <= i < |rows| && Slug(rows[i].value) != "" :: KeyOf(rows[i]) in done
  }

  class Catalogue {
    var options: Options
    var values: seq<ValueRow>

    method MergeGroup(g: Group)
      requires MergeableIn(options, g)
      modifies this
      ensures options == MergedOptions(old(options), g)
      ensures values == MergedValues(old(values), g)
    {
      var canonical := ChooseCanonical(g);
      var duplicates, unique := Collect(g, canonical);
      if canonical.value != g.normalized {
        options := options[canonical.id := options[canonical.id].(value := g.normalized)];
      }
      values := seq(|values|, i requires 0 <= i < |values| reads this =>
        if values[i].category == g.category && values[i].value in unique then values[i].(value := g.normalized) else values[i]);
      options := options - duplicates;
    }

    /** The groups come in any order. */
    method MergeAll(rows: seq<OptionRow>, groups: map<string, Group>) returns (ghost order: seq<string>)
      requires ScanOf(options, rows) && GroupsFit(rows, groups, |rows|)
      modifies this
      ensures IsOrder(groups, order) && KeysOf(order) == groups.Keys
      ensures options == OptionsIn(old(options), groups, order) && values == ValuesIn(old(values), groups, order)
    {
      ghost var was := options;
      order := [];
      var left := groups.Keys;
      while left != {}
        invariant left <= groups.Keys && IsOrder(groups, order) && KeysOf(order) == groups.Keys - left
        invariant options == OptionsIn(was, groups, order) && values == ValuesIn(old(values), groups, order)
      {
        var key :| key in left;
        assert MergeableIn(options, groups[key]) by {
          OrderIsMergeable(rows, was, groups, order, key);
        }
        OrderGrows(was, old(values), groups, order, key);
        MergeGroup(groups[key]);
        order := order + [key];
        left := left - {key};
      }
    }

    method Cleanup(rows: seq<OptionRow>) returns (done: set<string>)
      requires ScanOf(options, rows)
      modifies this
      ensures AllDone(rows, done) && Stage(options, rows, done)
      ensures values == StageValues(rows, done, old(values))
    {
      var groups := GroupOptions(rows);
      ghost var was, wasValues := options, values;
      ghost var order := MergeAll(rows, groups);
      OrderReaches(rows, was, wasValues, groups, order);
      done := groups.Keys;
      AllKeysDone(rows, groups, done);
    }
  }

  // ---------------------------------------------------------------- any order of the groups

  /** Some of the groups, one after the other. */
  ghost predicate IsOrder(groups: map<string, Group>, order: seq<string>) {
    && (forall i | 0 <= i < |order| :: order[i] in groups)
    && (forall i, j | 0 <= i < j < |order| :: order[i] != order[j])
  }

  ghost function KeysOf(order: seq<string>): set<string> {
    set i | 0 <= i < |order| :: order[i]
  }

  ghost function OptionsIn(options: Options, groups: map<string, Group>, order: seq<string>): Options {
    if order == [] then options
    else
      var before := OptionsIn(options, groups, order[..|order| - 1]);
      var key := order[|order| - 1];
      if key in groups && groups[key].items != [] then MergedOptions(before, groups[key]) else before
  }

  ghost function ValuesIn(values: seq<ValueRow>, groups: map<string, Group>, order: seq<string>): seq<ValueRow> {
    if order == [] then values
    else
      var before := ValuesIn(values, groups, order[..|order| - 1]);
      var key := order[|order| - 1];
      if key in groups && groups[key].items != [] then MergedValues(before, groups[key]) else before
  }

  lemma {:induction false} OrderReaches(rows: seq<OptionRow>, options: Options, values: seq<ValueRow>,
                                        groups: map<string, Group>, order: seq<string>)
    requires ScanOf(options, rows) && GroupsFit(rows, groups, |rows|) && IsOrder(groups, order)
    ensures Stage(OptionsIn(options, groups, order), rows, KeysOf(order))
    ensures ValuesIn(values, groups, order) == StageValues(rows, KeysOf(order), values)
  {
    if order == [] {
      NothingDone(rows, options, values);
      assert KeysOf(order) == {};
    } else {
      var front, key := order[..|order| - 1], order[|order| - 1];
      OrderReaches(rows, options, values, groups, front);
      KeysNext(order);
      assert GroupFits(rows, key, groups[key], |rows|);
      MergeAdvances(rows, OptionsIn(options, groups, front), KeysOf(front), key, groups[key]);
      ValuesAdvance(rows, KeysOf(front), key, groups[key], values);
    }
  }

  lemma KeysNext(order: seq<string>)
    requires order != [] && forall i, j | 0 <= i < j < |order| :: order[i] != order[j]
    ensures var front, key := order[..|order| - 1], order[|order| - 1];
            KeysOf(order) == KeysOf(front) + {key} && key !in KeysOf(front)
  {
    var front, key := order[..|order| - 1], order[|order| - 1];
    forall k | k in KeysOf(order) ensures k in KeysOf(front) + {key} {
      var i :| 0 <= i < |order| && order[i] == k;
      assert i < |front| ==> front[i] == k;
    }
    forall k | k in KeysOf(front) + {key} ensures k in KeysOf(order) {
      if k != key {
        var i :| 0 <= i < |front| && front[i] == k;
        assert order[i] == k;
      } else {
        assert order[|order| - 1] == k;
      }
    }
  }

  lemma OrderGrows(options: Options, values: seq<ValueRow>, groups: map<string, Group>, order: seq<string>, key: string)
    requires IsOrder(groups, order) && key in groups && key !in KeysOf(order) && groups[key].items != []
    ensures IsOrder(groups, order + [key]) && KeysOf(order + [key]) == KeysOf(order) + {key}
    ensures OptionsIn(options, groups, order + [key]) == MergedOptions(OptionsIn(options, groups, order), groups[key])
    ensures ValuesIn(values, groups, order + [key]) == MergedValues(ValuesIn(values, groups, order), groups[key])
  {
    var longer := order + [key];
    assert longer[..|order|] == order;
    forall i | 0 <= i < |order| ensures order[i] != key {
      assert order[i] in KeysOf(order);
    }
    KeysNext(longer);
  }

  lemma OrderIsMergeable(rows: seq<OptionRow>, options: Options, groups: map<string, Group>, order: seq<string>, key: string)
    requires ScanOf(options, rows) && GroupsFit(rows, groups, |rows|) && IsOrder(groups, order)
    requires key in groups && key !in KeysOf(order)
    ensures MergeableIn(OptionsIn(options, groups, order), groups[key])
  {
    OrderReaches(rows, options, [], groups, order);
    GroupIsMergeable(rows, OptionsIn(options, groups, order), KeysOf(order), key, groups[key]);
  }

  lemma OptionsReach(rows: seq<OptionRow>, options: Options, groups: map<string, Group>, a: seq<string>, b: seq<string>)
    requires ScanOf(options, rows) && GroupsFit(rows, groups, |rows|) && IsOrder(groups, a) && IsOrder(groups, b)
    requires KeysOf(a) == KeysOf(b)
    ensures OptionsIn(options, groups, a) == OptionsIn(options, groups, b)
  {
    var x, y, keys := OptionsIn(options, groups, a), OptionsIn(options, groups, b), KeysOf(a);
    assert Stage(x, rows, keys) by {
      OrderReaches(rows, options, [], groups, a);
    }
    assert Stage(y, rows, keys) by {
      OrderReaches(rows, options, [], groups, b);
    }
    StageIsUnique(rows, keys, x, y);
  }

  /** Merging the same groups in two different orders gives the same tables. */
  lemma OrderDoesNotMatter(rows: seq<OptionRow>, options: Options, values: seq<ValueRow>, groups: map<string, Group>,
                           a: seq<string>, b: seq<string>)
    requires ScanOf(options, rows) && GroupsFit(rows, groups, |rows|) && IsOrder(groups, a) && IsOrder(groups, b)
    requires KeysOf(a) == KeysOf(b)
    ensures OptionsIn(options, groups, a) == OptionsIn(options, groups, b)
    ensures ValuesIn(values, groups, a) == ValuesIn(values, groups, b)
  {
    OptionsReach(rows, options, groups, a, b);
    assert ValuesIn(values, groups, a) == StageValues(rows, KeysOf(a), values) by {
      OrderReaches(rows, options, values, groups, a);
    }
    assert ValuesIn(values, groups, b) == StageValues(rows, KeysOf(b), values) by {
      OrderReaches(rows, options, values, groups, b);
    }
  }

  lemma StageIsUnique(rows: seq<OptionRow>, done: set<string>, a: Options, b: Options)
    requires Stage(a, rows, done) && Stage(b, rows, done)
    ensures a == b
  {
    forall id ensures id in a <==> id in b {
      if id in a {
        var i := RowOf(rows, a, done, id);
      }
      if id in b {
        var i := RowOf(rows, b, done, id);
      }
    }
    forall id | id in a ensures a[id] == b[id] {
      var i := RowOf(rows, a, done, id);
    }
  }

  lemma NothingDone(rows: seq<OptionRow>, options: Options, values: seq<ValueRow>)
    requires ScanOf(options, rows)
    ensures Stage(options, rows, {}) && StageValues(rows, {}, values) == values
  {
  }

  lemma AllKeysDone(rows: seq<OptionRow>, groups: map<string, Group>, done: set<string>)
    requires GroupsFit(rows, groups, |rows|) && done == groups.Keys
    ensures AllDone(rows, done)
  {
    forall i | 0 <= i < |rows| && Slug(rows[i].value) != "" ensures KeyOf(rows[i]) in done {
      assert Seen(rows, |rows|, KeyOf(rows[i]));
    }
  }

  // ---------------------------------------------------------------- after the cleanup

  lemma CanonicalIsRow(rows: seq<OptionRow>, i: nat) returns (c: nat)
    requires i < |rows|
    ensures c < |rows| && Belongs(rows[c], rows[i].category, Slug(rows[i].value)) && Survives(rows, rows[c])
    ensures UniqueIds(rows) && Survives(rows, rows[i]) ==> c == i
  {
    var slug := Slug(rows[i].value);
    var g := GroupOf(rows, rows[i].category, slug);
    var k := RowIsItem(rows, rows[i].category, slug, |rows|, i);
    c := ItemIsRow(rows, rows[i].category, slug, |rows|, ChosenAt(g.items, slug, |g.items|));
  }

  lemma RowOf(rows: seq<OptionRow>, options: Options, done: set<string>, id: string) returns (i: nat)
    requires Stage(options, rows, done) && id in options
    ensures i < |rows| && rows[i].id == id && Stays(rows, done, rows[i]) && options[id] == Cleaned(done, rows[i])
  {
    i :| 0 <= i < |rows| && rows[i].id == id;
  }

  /** Each category and machine value has one option, stored in machine form. */
  lemma OneOptionPerValue(rows: seq<OptionRow>, options: Options, done: set<string>, a: string, b: string)
    requires UniqueIds(rows) && AllDone(rows, done) && Stage(options, rows, done)
    requires a in options && b in options && options[a].category == options[b].category
    requires Slug(options[a].value) == Slug(options[b].value) != ""
    ensures a == b && options[a].value == Slug(options[a].value)
  {
    var i := RowOf(rows, options, done, a);
    var j := RowOf(rows, options, done, b);
    SlugAgain(rows[i].value);
    SlugAgain(rows[j].value);
    var c := CanonicalIsRow(rows, i);
    var d := CanonicalIsRow(rows, j);
  }

  /** Every option's machine value still has an option, and a value that named the option now names that one. */
  lemma ValuesFollowSurvivors(rows: seq<OptionRow>, options: Options, done: set<string>, v: ValueRow, i: nat)
    returns (survivor: string)
    requires UniqueIds(rows) && AllDone(rows, done) && Stage(options, rows, done)
    requires i < |rows| && Slug(rows[i].value) != ""
    ensures survivor in options && options[survivor].category == rows[i].category
    ensures options[survivor].value == Slug(rows[i].value)
    ensures v.category == rows[i].category && v.value == TrimSpace(rows[i].value) ==>
              StageValue(rows, done, v) == ValueRow(v.category, options[survivor].value)
  {
    var c := CanonicalIsRow(rows, i);
    survivor := rows[c].id;
    if v.category == rows[i].category && v.value == TrimSpace(rows[i].value) {
      SlugOfTrimmed(rows[i].value);
      var k := RowIsItem(rows, rows[i].category, Slug(rows[i].value), |rows|, i);
      TrimOfNothing(rows[i].value);
    }
  }

  lemma TrimOfNothing(s: string)
    requires Slug(s) != ""
    ensures TrimSpace(s) != ""
  {
    SlugOfTrimmed(s);
    assert Slug("") == "";
  }

  /** A value that names no option of its category stays as it is. */
  lemma OtherValuesStay(rows: seq<OptionRow>, done: set<string>, v: ValueRow)
    requires forall i | 0 <= i < |rows| && rows[i].category == v.category :: TrimSpace(rows[i].value) != v.value
    ensures StageValue(rows, done, v) == v
  {
    var n := Slug(v.value);
    var g := GroupOf(rows, v.category, n);
    SlugHasNoSpace(v.value);
    if k :| 0 <= k < |g.items| && TrimSpace(g.items[k].value) == v.value {
      var i := ItemIsRow(rows, v.category, n, |rows|, k);
    }
  }

  /** An attribute value that repeats an option exactly follows it if and only if it has no white space at its ends. */
  lemma RepeatedValueFollowsExactly(rows: seq<OptionRow>, options: Options, done: set<string>, v: ValueRow, i: nat)
    requires UniqueIds(rows) && AllDone(rows, done) && Stage(options, rows, done)
    requires i < |rows| && Slug(rows[i].value) != "" && v == ValueRow(rows[i].category, rows[i].value)
    ensures StageValue(rows, done, v) == ValueRow(v.category, Slug(v.value)) <==> TrimSpace(v.value) == v.value
    ensures TrimSpace(v.value) != v.value ==> StageValue(rows, done, v) == v
  {
    if TrimSpace(v.value) == v.value {
      var survivor := ValuesFollowSurvivors(rows, options, done, v, i);
    } else {
      forall j | 0 <= j < |rows| ensures TrimSpace(rows[j].value) != v.value {
        TrimOfTight(TrimSpace(rows[j].value));
      }
      OtherValuesStay(rows, done, v);
      SlugHasNoSpace(v.value);
    }
  }

  lemma CleanRow(rows: seq<OptionRow>, options: Options, done: set<string>, again: seq<OptionRow>, i: nat)
    requires UniqueIds(rows) && AllDone(rows, done) && Stage(options, rows, done) && ScanOf(options, again) && i < |again|
    ensures Slug(again[i].value) != "" ==> again[i].value == Slug(again[i].value) && Survives(again, again[i])
  {
    if Slug(again[i].value) != "" {
      OneOptionPerValue(rows, options, done, again[i].id, again[i].id);
      var c := CanonicalIsRow(again, i);
      OneOptionPerValue(rows, options, done, again[i].id, again[c].id);
    }
  }

  lemma CleanValue(rows: seq<OptionRow>, options: Options, done: set<string>, again: seq<OptionRow>, doneAgain: set<string>,
                   v: ValueRow)
    requires UniqueIds(rows) && AllDone(rows, done) && Stage(options, rows, done) && ScanOf(options, again)
    ensures StageValue(again, doneAgain, v) == v
  {
    var n := Slug(v.value);
    var g := GroupOf(again, v.category, n);
    SlugHasNoSpace(v.value);
    if k :| 0 <= k < |g.items| && TrimSpace(g.items[k].value) == v.value && n != "" {
      var i := ItemIsRow(again, v.category, n, |again|, k);
      CleanRow(rows, options, done, again, i);
    }
  }

  /** A second run, on the cleaned table, changes nothing. */
  lemma SecondRunChangesNothing(rows: seq<OptionRow>, options: Options, done: set<string>, again: seq<OptionRow>,
                                doneAgain: set<string>, next: Options, values: seq<ValueRow>)
    requires UniqueIds(rows) && AllDone(rows, done) && Stage(options, rows, done)
    requires ScanOf(options, again) && Stage(next, again, doneAgain)
    ensures next == options && StageValues(again, doneAgain, values) == values
  {
    forall i | 0 <= i < |again| ensures again[i].id in next && next[again[i].id] == again[i] {
      CleanRow(rows, options, done, again, i);
    }
    forall id | id in next ensures id in options {
      var i := RowOf(again, next, doneAgain, id);
    }
    forall i | 0 <= i < |values| ensures StageValue(again, doneAgain, values[i]) == values[i] {
      CleanValue(rows, options, done, again, doneAgain, values[i]);
    }
  }
}
