/** What the cleanup of attribute options leaves: which rows stay, what they hold, and which attribute values change. */
module CleanupEffects {
  import opened Text
  import opened MachineValues
  import opened OptionCleanup

  /** Options of one category and one machine value. */
  predicate Peers(a: OptionRow, b: OptionRow) {
    a.category == b.category && Slug(a.value) == Slug(b.value)
  }

  predicate Earlier(a: OptionRow, b: OptionRow) {
    a.sortOrder < b.sortOrder || (a.sortOrder == b.sortOrder && Precedes(a.id, b.id))
  }

  predicate InMachineForm(o: OptionRow) {
    o.value == Slug(o.value)
  }

  /** The row is the earliest of its peers in machine form, or the earliest of all its peers when none is. */
  ghost predicate Wins(rows: seq<OptionRow>, o: OptionRow) {
    if InMachineForm(o) then
      forall i | 0 <= i < |rows| && Peers(o, rows[i]) && InMachineForm(rows[i]) :: rows[i].id == o.id || Earlier(o, rows[i])
    else
      forall i | 0 <= i < |rows| && Peers(o, rows[i]) :: !InMachineForm(rows[i]) && (rows[i].id == o.id || Earlier(o, rows[i]))
  }

  lemma EarlierIsOrder(a: OptionRow, b: OptionRow)
    ensures Earlier(a, b) ==> !Earlier(b, a)
    ensures a.id != b.id ==> Earlier(a, b) || Earlier(b, a)
  {
    PrecedesIsOrder(a.id, b.id, a.id);
    PrecedesIsOrder(b.id, a.id, b.id);
  }

  lemma CanonicalWins(rows: seq<OptionRow>, o: OptionRow)
    requires Scanned(rows) && GroupOf(rows, o.category, Slug(o.value)).items != []
    ensures Wins(rows, Canonical(GroupOf(rows, o.category, Slug(o.value))))
    ensures Peers(o, Canonical(GroupOf(rows, o.category, Slug(o.value))))
  {
    var slug := Slug(o.value);
    var items := GroupItems(rows, o.category, slug, |rows|);
    var k := ChosenAt(items, slug, |items|);
    var at := ItemIsRow(rows, o.category, slug, |rows|, k);
    ChosenIsFirst(items, slug, |items|);
    ItemsInOrder(rows, o.category, slug, |rows|);
    forall i | 0 <= i < |rows| && Peers(items[k], rows[i]) && (InMachineForm(rows[i]) || !InMachineForm(items[k]))
      ensures rows[i].id == items[k].id || Earlier(items[k], rows[i])
      ensures InMachineForm(rows[i]) ==> InMachineForm(items[k])
    {
      var j := RowIsItem(rows, o.category, slug, |rows|, i);
      EarlierIsOrder(items[k], items[j]);
      assert j > k ==> !Before(items[j], items[k]);
    }
  }

  lemma OneWinner(rows: seq<OptionRow>, i: nat, j: nat)
    requires UniqueIds(rows) && i < |rows| && j < |rows| && Peers(rows[i], rows[j]) && Wins(rows, rows[i]) && Wins(rows, rows[j])
    ensures i == j
  {
    EarlierIsOrder(rows[i], rows[j]);
    assert Peers(rows[j], rows[i]);
  }

  lemma SurvivesExactly(rows: seq<OptionRow>, i: nat)
    requires Scanned(rows) && i < |rows|
    ensures Survives(rows, rows[i]) <==> Wins(rows, rows[i])
  {
    var o := rows[i];
    var slug := Slug(o.value);
    var items := GroupItems(rows, o.category, slug, |rows|);
    var k := RowIsItem(rows, o.category, slug, |rows|, i);
    CanonicalWins(rows, o);
    var c := ItemIsRow(rows, o.category, slug, |rows|, ChosenAt(items, slug, |items|));
    if Wins(rows, o) {
      OneWinner(rows, i, c);
    }
    if Survives(rows, o) {
      assert c == i;
    }
  }

  /** The value is the text of an option of its category, trimmed, or its machine form. */
  ghost predicate NamesOption(rows: seq<OptionRow>, v: ValueRow) {
    && v.value != ""
    && exists i | 0 <= i < |rows| :: rows[i].category == v.category && Slug(rows[i].value) != ""
                                     && (v.value == TrimSpace(rows[i].value) || v.value == Slug(rows[i].value))
  }

  lemma ValueExactly(rows: seq<OptionRow>, done: set<string>, v: ValueRow)
    requires UniqueIds(rows) && AllDone(rows, done)
    ensures StageValue(rows, done, v) == if NamesOption(rows, v) then v.(value := Slug(v.value)) else v
  {
    var n := Slug(v.value);
    var g := GroupOf(rows, v.category, n);
    SlugAgain(v.value);
    SlugHasNoSpace(v.value);
    if NamesOption(rows, v) {
      var i :| 0 <= i < |rows| && rows[i].category == v.category && Slug(rows[i].value) != ""
               && (v.value == TrimSpace(rows[i].value) || v.value == Slug(rows[i].value));
      SlugOfTrimmed(rows[i].value);
      SlugAgain(rows[i].value);
      var k := RowIsItem(rows, v.category, n, |rows|, i);
      assert KeyOf(rows[i]) == Key(v.category, n);
    } else if k :| 0 <= k < |g.items| && TrimSpace(g.items[k].value) == v.value {
      var i := ItemIsRow(rows, v.category, n, |rows|, k);
    }
  }

  /**
   * After the cleanup of any table: an option without a machine value stays as it was; of the others exactly the winner of
   * each category and machine value stays, in machine form and otherwise as it was; and an attribute value becomes its
   * machine form exactly when it names an option of its category.
   */
  lemma CleanupLeaves(rows: seq<OptionRow>, after: Options, done: set<string>, values: seq<ValueRow>)
    requires Scanned(rows) && AllDone(rows, done) && Stage(after, rows, done)
    ensures forall id | id in after :: exists i | 0 <= i < |rows| :: rows[i].id == id
    ensures forall i | 0 <= i < |rows| :: rows[i].id in after <==> Slug(rows[i].value) == "" || Wins(rows, rows[i])
    ensures forall i | 0 <= i < |rows| && rows[i].id in after ::
              after[rows[i].id] == if Slug(rows[i].value) == "" then rows[i] else rows[i].(value := Slug(rows[i].value))
    ensures |StageValues(rows, done, values)| == |values|
    ensures forall k | 0 <= k < |values| ::
              StageValues(rows, done, values)[k] ==
              if NamesOption(rows, values[k]) then values[k].(value := Slug(values[k].value)) else values[k]
  {
    forall i | 0 <= i < |rows| ensures Survives(rows, rows[i]) <==> Wins(rows, rows[i]) {
      SurvivesExactly(rows, i);
    }
    forall k | 0 <= k < |values|
      ensures StageValue(rows, done, values[k]) ==
              if NamesOption(rows, values[k]) then values[k].(value := Slug(values[k].value)) else values[k]
    {
      ValueExactly(rows, done, values[k]);
    }
  }
}
