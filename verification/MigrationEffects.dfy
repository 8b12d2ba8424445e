/**
 * What the migration of template attributes leaves: which bindings it adds for the products there are, and what is copied
 * into each binding that had no definition.
 */
module MigrationEffects {
  import opened Text
  import opened MachineValues
  import opened TemplateMigration

  // ---------------------------------------------------------------- copied definitions

  /** The first category of the binding's machine key. */
  ghost predicate FirstCategory(categories: seq<Category>, k: nat, b: Binding) {
    && k < |categories| && Slug(categories[k].key) == Slug(b.key)
    && forall j | 0 <= j < k :: Slug(categories[j].key) != Slug(b.key)
  }

  /** The places of all option rows of the binding's machine key, in table order. */
  ghost predicate OptionPlaces(options: seq<OptionRow>, places: seq<nat>, b: Binding) {
    && (forall x | 0 <= x < |places| :: places[x] < |options| && Slug(options[places[x]].categoryKey) == Slug(b.key))
    && (forall x, y | 0 <= x < y < |places| :: places[x] < places[y])
    && (forall i | 0 <= i < |options| && Slug(options[i].categoryKey) == Slug(b.key) :: i in places)
  }

  ghost predicate CopiesRows(options: seq<OptionRow>, places: seq<nat>, copies: seq<OptionDefinition>) {
    |copies| == |places| && forall x | 0 <= x < |places| ::
      && places[x] < |options|
      && copies[x].value == options[places[x]].value && copies[x].labelZh == options[places[x]].labelZh
      && copies[x].labelEn == options[places[x]].labelEn && copies[x].description == options[places[x]].description
      && copies[x].sortOrder == options[places[x]].sortOrder && copies[x].active == options[places[x]].active
  }

  /** The binding has the definition of its first category, and a copy of each option row of its machine key. */
  ghost predicate CopiedInto(c: Catalogue, b: Binding, next: Binding) {
    && next.definitionVersion == 1 && next.(definition := b.definition, definitionVersion := b.definitionVersion) == b
    && (exists k | 0 <= k < |c.categories| :: FirstCategory(c.categories, k, b) && next.definition.nameZh == c.categories[k].nameZh
         && next.definition.nameEn == c.categories[k].nameEn
         && next.definition.description == c.categories[k].description)
    && exists places :: OptionPlaces(c.options, places, b) && CopiesRows(c.options, places, next.definition.options)
  }

  lemma {:induction false} FoundIsFirst(categories: seq<Category>, b: Binding, n: nat)
    requires n <= |categories| && FindCategory(categories, Slug(b.key), n).Some?
    ensures exists k | 0 <= k < n :: FirstCategory(categories, k, b) && FindCategory(categories, Slug(b.key), n).value == categories[k]
  {
    if FindCategory(categories, Slug(b.key), n - 1).Some? {
      FoundIsFirst(categories, b, n - 1);
    } else {
      FoundExactly(categories, Slug(b.key), n - 1);
      assert FirstCategory(categories, n - 1, b);
    }
  }

  lemma OneMoreOption(options: seq<OptionRow>, places: seq<nat>, b: Binding, o: OptionRow)
    requires OptionPlaces(options, places, b)
    ensures OptionPlaces(options + [o], if Slug(o.categoryKey) == Slug(b.key) then places + [|options|] else places, b)
  {
    var more := options + [o];
    var all := if Slug(o.categoryKey) == Slug(b.key) then places + [|options|] else places;
    assert more[|options|] == o;
    forall i | 0 <= i < |more| && Slug(more[i].categoryKey) == Slug(b.key) ensures i in all {
      if i < |options| {
        assert more[i] == options[i] && i in places;
      } else {
        assert all[|places|] == i;
      }
    }
    forall x | 0 <= x < |all| ensures all[x] < |more| && Slug(more[all[x]].categoryKey) == Slug(b.key) {
      if x < |places| {
        assert all[x] == places[x] && more[places[x]] == options[places[x]];
      }
    }
  }

  lemma NextOption(options: seq<OptionRow>, places: seq<nat>, b: Binding, n: nat)
    requires n < |options| && OptionPlaces(options[..n], places, b)
    ensures Slug(options[n].categoryKey) == Slug(b.key) ==> OptionPlaces(options[..n + 1], places + [n], b)
    ensures Slug(options[n].categoryKey) != Slug(b.key) ==> OptionPlaces(options[..n + 1], places, b)
  {
    assert options[..n + 1] == options[..n] + [options[n]] && |options[..n]| == n;
    OneMoreOption(options[..n], places, b, options[n]);
  }

  function CopyOf(o: OptionRow): OptionDefinition {
    OptionDefinition(o.value, o.labelZh, o.labelEn, o.description, o.sortOrder, o.active)
  }

  lemma CopiesOne(options: seq<OptionRow>, places: seq<nat>, copies: seq<OptionDefinition>, n: nat)
    requires n < |options| && CopiesRows(options, places, copies)
    ensures CopiesRows(options, places + [n], copies + [CopyOf(options[n])])
  {
  }

  lemma {:induction false} OptionsAreCopied(options: seq<OptionRow>, b: Binding, n: nat) returns (places: seq<nat>)
    requires n <= |options|
    ensures OptionPlaces(options[..n], places, b) && CopiesRows(options, places, OptionsOf(options, Slug(b.key), n))
  {
    if n == 0 {
      places := [];
    } else {
      var o, before := options[n - 1], OptionsOf(options, Slug(b.key), n - 1);
      places := OptionsAreCopied(options, b, n - 1);
      NextOption(options, places, b, n - 1);
      if Slug(o.categoryKey) == Slug(b.key) {
        CopiesOne(options, places, before, n - 1);
        assert OptionsOf(options, Slug(b.key), n) == before + [CopyOf(o)];
        places := places + [n - 1];
      } else {
        assert OptionsOf(options, Slug(b.key), n) == before + [] == before;
      }
    }
  }

  lemma DefinedIsCopied(c: Catalogue, b: Binding)
    requires b.definitionVersion == 0 && CategoryOf(c, b).Some?
    ensures CopiedInto(c, b, Defined(c, b))
  {
    FoundIsFirst(c.categories, b, |c.categories|);
    var k :| 0 <= k < |c.categories| && FirstCategory(c.categories, k, b) && CategoryOf(c, b).value == c.categories[k];
    var places := OptionsAreCopied(c.options, b, |c.options|);
    assert c.options[..|c.options|] == c.options;
  }

  /** Every binding without a definition gets a copy from the catalogue, and every other one stays as it is. */
  lemma MigrationCopies(c: Catalogue, was: seq<Binding>)
    requires Migrated(c, was).Some?
    ensures var backfilled, next := Backfilled(c, was), Migrated(c, was).value;
            && |next| == |backfilled|
            && forall i | 0 <= i < |next| ::
                 if backfilled[i].definitionVersion == 0 then CopiedInto(c, backfilled[i], next[i]) else next[i] == backfilled[i]
  {
    var backfilled := Backfilled(c, was);
    forall i | 0 <= i < |backfilled| && backfilled[i].definitionVersion == 0
      ensures CopiedInto(c, backfilled[i], Defined(c, backfilled[i]))
    {
      DefinedIsCopied(c, backfilled[i]);
    }
  }

  // ---------------------------------------------------------------- needed bindings

  /** The product has this attribute, with a value. */
  predicate HasValue(p: Product, key: string, value: string) {
    && value != ""
    && (|| AttributeValue(key, value) in p.values
        || (key == "techSeries" && value == p.techSeries)
        || (key == "tireType" && value == p.tireType)
        || (key == "brakeType" && value == p.brakeType))
  }

  /** A type's next ancestor is its parent, if it has one, and its own template counts when it is not empty. */
  lemma AncestorSpelled(types: Types, start: string, k: nat, id: string)
    ensures Ancestor(types, start, 0) == Some(id) <==> id == start && id != ""
    ensures Ancestor(types, start, k + 1) == Some(id) <==>
            exists child :: Ancestor(types, start, k) == Some(child) && child in types && types[child].parent == Some(id) && id != ""
    ensures Ancestor(types, start, k) == Some(id) ==>
              (TemplateAt(types, start, k) <==>
                 id in types && types[id].template.Some? && types[id].template.value != "")
  {
  }

  /** The template of the nearest ancestor that has one, or none at all. */
  ghost predicate ResolvesTo(types: Types, start: string, template: string) {
    if template == "" then forall m: nat :: !TemplateAt(types, start, m) else Nearest(types, start, template)
  }

  lemma NearestIsOne(types: Types, start: string, a: string, b: string)
    requires Nearest(types, start, a) && Nearest(types, start, b)
    ensures a == b
  {
    var j: nat :| TemplateAt(types, start, j) && types[Ancestor(types, start, j).value].template.value == a
                  && forall m: nat | m < j :: !TemplateAt(types, start, m);
    var k: nat :| TemplateAt(types, start, k) && types[Ancestor(types, start, k).value].template.value == b
                  && forall m: nat | m < k :: !TemplateAt(types, start, m);
    assert !(j < k) && !(k < j);
  }

  lemma WalkResolves(types: Types, start: string, template: string)
    ensures Walk(types, start, {}) == template <==> ResolvesTo(types, start, template)
  {
    var found := Walk(types, start, {});
    TypeResolvesToNearest(types, start);
    if ResolvesTo(types, start, template) && found != "" && template != "" {
      NearestIsOne(types, start, found, template);
    }
  }

  /** Some product asks its template for the attribute; the version level is not asked for. */
  ghost predicate Needed(c: Catalogue, template: string, key: string) {
    && template in c.templates && Slug(key) != "versionlevel"
    && exists p, value :: p in c.products && ResolvesTo(c.types, p.typeId, template) && HasValue(p, key, value)
  }

  lemma ValuesExactly(p: Product, key: string, value: string)
    ensures value != "" ==> (AttributeValue(key, value) in ValuesOf(p) <==> HasValue(p, key, value))
  {
    var values, a := ValuesOf(p), AttributeValue(key, value);
    var own := [AttributeValue("techSeries", p.techSeries), AttributeValue("tireType", p.tireType),
                AttributeValue("brakeType", p.brakeType)];
    assert values == p.values + own;
    assert a in own <==> a == own[0] || a == own[1] || a == own[2];
    assert a in values <==> a in p.values || a in own;
  }

  lemma {:induction false} WantsExactly(template: string, values: seq<AttributeValue>, n: nat, w: Want)
    requires n <= |values|
    ensures w in WantsAt(template, values, n) <==> w.template == template && AttributeValue(w.key, w.value) in values[..n]
  {
    if n > 0 {
      WantsExactly(template, values, n - 1, w);
      assert values[..n] == values[..n - 1] + [values[n - 1]];
    }
  }

  lemma WantsOfExactly(c: Catalogue, p: Product, w: Want)
    requires w.value != ""
    ensures w in WantsOf(c, p) <==>
            w.template in c.templates && ResolvesTo(c.types, p.typeId, w.template) && HasValue(p, w.key, w.value)
  {
    var template := Walk(c.types, p.typeId, {});
    WalkResolves(c.types, p.typeId, w.template);
    ValuesExactly(p, w.key, w.value);
    WantsExactly(template, ValuesOf(p), |ValuesOf(p)|, w);
    assert ValuesOf(p)[..|ValuesOf(p)|] == ValuesOf(p);
  }

  lemma {:induction false} AllWantsExactly(c: Catalogue, n: nat, w: Want)
    requires n <= |c.products|
    ensures w in AllWants(c, n) <==> exists i | 0 <= i < n :: w in WantsOf(c, c.products[i])
  {
    if n > 0 {
      AllWantsExactly(c, n - 1, w);
      var before, last := AllWants(c, n - 1), WantsOf(c, c.products[n - 1]);
      assert AllWants(c, n) == before + last;
      assert w in before + last <==> w in before || w in last;
    }
  }

  lemma NeededIsWanted(c: Catalogue, template: string, key: string)
    ensures Needed(c, template, key) <==>
            exists w :: w in AllWants(c, |c.products|) && !Skipped(w) && w.template == template && w.key == key
  {
    var wants := AllWants(c, |c.products|);
    if Needed(c, template, key) {
      var p, value :| p in c.products && ResolvesTo(c.types, p.typeId, template) && HasValue(p, key, value);
      var w := Want(template, key, value);
      WantsOfExactly(c, p, w);
      AllWantsExactly(c, |c.products|, w);
      assert w in wants && !Skipped(w);
    }
    if w :| w in wants && !Skipped(w) && w.template == template && w.key == key {
      AllWantsExactly(c, |c.products|, w);
      var i :| 0 <= i < |c.products| && w in WantsOf(c, c.products[i]);
      WantsOfExactly(c, c.products[i], w);
      assert c.products[i] in c.products;
    }
  }

  /** An added binding: needed, under a machine key its template did not have, and next in its template's order. */
  ghost predicate AddedAsNeeded(c: Catalogue, now: seq<Binding>, i: nat)
    requires i < |now|
  {
    && Needed(c, now[i].template, now[i].key)
    && now[i].active && now[i].version == 1 && now[i].definitionVersion == 0
    && (forall j | 0 <= j < i && now[j].template == now[i].template ::
          Slug(now[j].key) != Slug(now[i].key) && now[j].sortOrder < now[i].sortOrder)
    && now[i].sortOrder >= 1
    && (now[i].sortOrder == 1
        || exists j | 0 <= j < i :: now[j].template == now[i].template && now[j].sortOrder == now[i].sortOrder - 1)
  }

  lemma {:induction false} MaxSortIsOne(bindings: seq<Binding>, template: string)
    ensures MaxSort(bindings, template) == 0
         || exists j | 0 <= j < |bindings| :: bindings[j].template == template && bindings[j].sortOrder == MaxSort(bindings, template)
  {
    if bindings != [] {
      MaxSortIsOne(bindings[..|bindings| - 1], template);
    }
  }

  ghost predicate NextInOrder(now: seq<Binding>, i: nat)
    requires i < |now|
  {
    && now[i].sortOrder >= 1
    && (now[i].sortOrder == 1
        || exists j | 0 <= j < i :: now[j].template == now[i].template && now[j].sortOrder == now[i].sortOrder - 1)
  }

  lemma {:induction false} AddedInOrder(was: seq<Binding>, wants: seq<Want>, n: nat)
    requires n <= |wants|
    ensures |was| <= |Satisfied(was, wants, n)|
    ensures forall i | |was| <= i < |Satisfied(was, wants, n)| :: NextInOrder(Satisfied(was, wants, n), i)
  {
    if n > 0 {
      AddedInOrder(was, wants, n - 1);
      var now, w := Satisfied(was, wants, n - 1), wants[n - 1];
      var more := now + [NewBinding(now, w)];
      MaxSortIsOne(now, w.template);
      MaxSortBounds(now, w.template);
      assert forall i | 0 <= i < |now| :: more[i] == now[i];
      forall i | |was| <= i < |more| ensures NextInOrder(more, i) {
        if i < |now| {
          assert NextInOrder(now, i);
        }
      }
    }
  }

  /**
   * The backfill keeps every binding, adds one for each needed attribute whose machine key its template did not have, and
   * adds no other.
   */
  lemma BackfillAddsNeeded(c: Catalogue, was: seq<Binding>)
    ensures var now := Backfilled(c, was);
            && was <= now
            && (forall i | |was| <= i < |now| :: AddedAsNeeded(c, now, i))
            && forall template, key | Needed(c, template, key) :: HasKey(now, template, Slug(key))
  {
    var now, wants := Backfilled(c, was), AllWants(c, |c.products|);
    SatisfiedGrows(was, wants, |wants|);
    AddedInOrder(was, wants, |wants|);
    forall i | |was| <= i < |now| ensures AddedAsNeeded(c, now, i) {
      assert AddedWell(now, i, wants, |wants|) && NextInOrder(now, i);
      var k :| 0 <= k < |wants| && AddedFor(now[i], wants[k]);
      NeededIsWanted(c, now[i].template, now[i].key);
      assert wants[k] in wants;
    }
    forall template, key | Needed(c, template, key) ensures HasKey(now, template, Slug(key)) {
      NeededIsWanted(c, template, key);
      var w :| w in wants && !Skipped(w) && w.template == template && w.key == key;
      var k :| 0 <= k < |wants| && wants[k] == w;
    }
  }
}
