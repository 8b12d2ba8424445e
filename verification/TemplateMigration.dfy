/**
 * The migration that gives product templates their own attribute definitions: bindings that existing products need are
 * added first, then every binding without a definition copies one from the old catalogue.
 */
module TemplateMigration {
  import opened Text
  import opened MachineValues

  datatype TypeRow = TypeRow(parent: Option<string>, template: Option<string>)

  type Types = map<string, TypeRow>

  datatype AttributeValue = AttributeValue(key: string, value: string)

  datatype Product =
    Product(typeId: string, values: seq<AttributeValue>, techSeries: string, tireType: string, brakeType: string)

  datatype Category = Category(key: string, nameZh: string, nameEn: string, description: string)

  datatype OptionRow =
    OptionRow(categoryKey: string, value: string, labelZh: string, labelEn: string, description: string, sortOrder: int,
              active: bool)

  datatype OptionDefinition =
    OptionDefinition(value: string, labelZh: string, labelEn: string, description: string, sortOrder: int, active: bool)

  datatype Definition = Definition(nameZh: string, nameEn: string, description: string, options: seq<OptionDefinition>)

  const Undefined := Definition("", "", "", [])

  datatype Binding =
    Binding(template: string, key: string, sortOrder: int, active: bool, version: int, definitionVersion: int,
            definition: Definition)

  datatype Catalogue = Catalogue(
    types: Types,
    templates: set<string>,
    products: seq<Product>,
    categories: seq<Category>,
    options: seq<OptionRow>)

  // ---------------------------------------------------------------- the ancestor walk

  predicate OwnsTemplate(types: Types, id: string) {
    id in types && types[id].template.Some? && types[id].template.value != ""
  }

  function ParentOf(types: Types, id: string): Option<string> {
    if id in types && types[id].parent.Some? && types[id].parent.value != "" then types[id].parent else None
  }

  /** The walk up the parents, which stops at a template, at the end of the chain or at a type seen before. */
  function Walk(types: Types, id: string, visited: set<string>): string
    decreases types.Keys - visited
  {
    if id == "" || id in visited || id !in types then ""
    else if OwnsTemplate(types, id) then types[id].template.value
    else if ParentOf(types, id).None? then ""
    else Walk(types, ParentOf(types, id).value, visited + {id})
  }

  method FindTemplate(types: Types, start: string) returns (template: string)
    ensures template == Walk(types, start, {})
  {
    template := "";
    var visited: set<string> := {};
    var id := start;
    while id != "" && id !in visited
      invariant template == "" && Walk(types, id, visited) == Walk(types, start, {})
      decreases types.Keys - visited, id != "" && id !in visited
    {
      if id !in types {
        break;
      }
      visited := visited + {id};
      var productType := types[id];
      if productType.template.Some? && productType.template.value != "" {
        return productType.template.value;
      }
      if productType.parent.None? {
        break;
      }
      id := productType.parent.value;
    }
  }

  /** The type k steps up the chain of parents. */
  function Ancestor(types: Types, start: string, k: nat): Option<string> {
    if k == 0 then (if start == "" then None else Some(start))
    else
      var child := Ancestor(types, start, k - 1);
      if child.Some? then ParentOf(types, child.value) else None
  }

  ghost predicate TemplateAt(types: Types, start: string, k: nat) {
    Ancestor(types, start, k).Some? && OwnsTemplate(types, Ancestor(types, start, k).value)
  }

  /** The template of the nearest type on the chain that has one. */
  ghost predicate Nearest(types: Types, start: string, template: string) {
    exists k: nat :: TemplateAt(types, start, k) && types[Ancestor(types, start, k).value].template.value == template
                     && forall j: nat | j < k :: !TemplateAt(types, start, j)
  }

  /** The k-th ancestor is reached without a template; everything visited lies before it. */
  ghost predicate Climbed(types: Types, start: string, k: nat, visited: set<string>) {
    && (forall j: nat | j < k :: Ancestor(types, start, j).Some? && Ancestor(types, start, j).value in visited
                                 && !TemplateAt(types, start, j))
    && (forall id | id in visited :: exists j: nat :: j < k && Ancestor(types, start, j) == Some(id))
  }

  /** From a type seen before, the chain only meets types without a template. */
  lemma {:induction false} CycleStays(types: Types, start: string, k: nat, visited: set<string>, m: nat)
    requires Climbed(types, start, k, visited) && Ancestor(types, start, k).Some? && Ancestor(types, start, k).value in visited
    ensures Ancestor(types, start, m).Some? ==> Ancestor(types, start, m).value in visited && !TemplateAt(types, start, m)
    decreases m
  {
    if m > 0 {
      CycleStays(types, start, k, visited, m - 1);
      if Ancestor(types, start, m).Some? && m > k {
        var id := Ancestor(types, start, m - 1).value;
        var j: nat :| j < k && Ancestor(types, start, j) == Some(id);
        assert Ancestor(types, start, j + 1) == Ancestor(types, start, m);
        SeenIsVisited(types, start, k, visited, j + 1);
      } else if Ancestor(types, start, m).Some? {
        SeenIsVisited(types, start, k, visited, m);
      }
    } else {
      SeenIsVisited(types, start, k, visited, 0);
    }
  }

  lemma SeenIsVisited(types: Types, start: string, k: nat, visited: set<string>, j: nat)
    requires Climbed(types, start, k, visited) && Ancestor(types, start, k).Some? && Ancestor(types, start, k).value in visited
    requires j <= k
    ensures Ancestor(types, start, j).Some? ==> Ancestor(types, start, j).value in visited && !TemplateAt(types, start, j)
  {
    if j == k {
      var i: nat :| i < k && Ancestor(types, start, i) == Ancestor(types, start, k);
      assert !TemplateAt(types, start, i);
    }
  }

  lemma {:induction false} EndStays(types: Types, start: string, k: nat, m: nat)
    requires k <= m && Ancestor(types, start, k).None?
    ensures Ancestor(types, start, m).None?
    decreases m
  {
    if k < m {
      EndStays(types, start, k, m - 1);
    }
  }

  /** The walk finds the nearest template of the chain, cyclic or not, and nothing exactly when there is none. */
  lemma {:induction false} WalkFindsNearest(types: Types, start: string, k: nat, visited: set<string>)
    requires Climbed(types, start, k, visited) && Ancestor(types, start, k).Some?
    ensures var found := Walk(types, Ancestor(types, start, k).value, visited);
            && (found != "" ==> Nearest(types, start, found))
            && (found == "" ==> forall m: nat :: !TemplateAt(types, start, m))
    decreases types.Keys - visited
  {
    var id := Ancestor(types, start, k).value;
    if id in visited {
      forall m: nat ensures !TemplateAt(types, start, m) {
        CycleStays(types, start, k, visited, m);
      }
    } else if OwnsTemplate(types, id) {
      assert TemplateAt(types, start, k);
    } else if ParentOf(types, id).None? {
      assert Ancestor(types, start, k + 1).None?;
      forall m: nat ensures !TemplateAt(types, start, m) {
        if m > k {
          EndStays(types, start, k + 1, m);
        }
      }
    } else {
      assert Ancestor(types, start, k + 1) == ParentOf(types, id);
      WalkFindsNearest(types, start, k + 1, visited + {id});
    }
  }

  /** What a product's type resolves to. */
  lemma TypeResolvesToNearest(types: Types, start: string)
    ensures var found := Walk(types, start, {});
            if found == "" then forall m: nat :: !TemplateAt(types, start, m) else Nearest(types, start, found)
  {
    if start == "" {
      forall m: nat ensures !TemplateAt(types, start, m) {
        EndStays(types, start, 0, m);
      }
    } else {
      WalkFindsNearest(types, start, 0, {});
    }
  }

  // ---------------------------------------------------------------- the bindings that products need

  /** A product's attribute that asks a template for a binding. */
  datatype Want = Want(template: string, key: string, value: string)

  function ValuesOf(p: Product): seq<AttributeValue> {
    p.values + [AttributeValue("techSeries", p.techSeries), AttributeValue("tireType", p.tireType),
                AttributeValue("brakeType", p.brakeType)]
  }

  function WantsAt(template: string, values: seq<AttributeValue>, n: nat): (wants: seq<Want>)
    requires n <= |values|
    ensures |wants| == n
  {
    if n == 0 then [] else WantsAt(template, values, n - 1) + [Want(template, values[n - 1].key, values[n - 1].value)]
  }

  function WantsOf(c: Catalogue, p: Product): seq<Want> {
    var template := Walk(c.types, p.typeId, {});
    if template in c.templates then WantsAt(template, ValuesOf(p), |ValuesOf(p)|) else []
  }

  function AllWants(c: Catalogue, n: nat): seq<Want>
    requires n <= |c.products|
  {
    if n == 0 then [] else AllWants(c, n - 1) + WantsOf(c, c.products[n - 1])
  }

  predicate Skipped(w: Want) {
    w.value == "" || Slug(w.key) == "versionlevel"
  }

  ghost predicate HasKey(bindings: seq<Binding>, template: string, slug: string) {
    exists i | 0 <= i < |bindings| :: bindings[i].template == template && Slug(bindings[i].key) == slug
  }

  /** The largest sort order among a template's bindings, at least zero. */
  function MaxSort(bindings: seq<Binding>, template: string): int {
    if bindings == [] then 0
    else
      var last := bindings[|bindings| - 1];
      var rest := MaxSort(bindings[..|bindings| - 1], template);
      if last.template == template && last.sortOrder > rest then last.sortOrder else rest
  }

  function NewBinding(bindings: seq<Binding>, w: Want): Binding {
    Binding(w.template, w.key, MaxSort(bindings, w.template) + 1, true, 1, 0, Undefined)
  }

  ghost function Satisfy(bindings: seq<Binding>, w: Want): seq<Binding> {
    if Skipped(w) || HasKey(bindings, w.template, Slug(w.key)) then bindings else bindings + [NewBinding(bindings, w)]
  }

  ghost function Satisfied(bindings: seq<Binding>, wants: seq<Want>, n: nat): seq<Binding>
    requires n <= |wants|
  {
    if n == 0 then bindings else Satisfy(Satisfied(bindings, wants, n - 1), wants[n - 1])
  }

  lemma {:induction false} SatisfiedPrefix(bindings: seq<Binding>, a: seq<Want>, b: seq<Want>, n: nat)
    requires n <= |a|
    ensures Satisfied(bindings, a + b, n) == Satisfied(bindings, a, n)
  {
    if n > 0 {
      SatisfiedPrefix(bindings, a, b, n - 1);
    }
  }

  lemma {:induction false} SatisfiedConcat(bindings: seq<Binding>, a: seq<Want>, b: seq<Want>, n: nat)
    requires n <= |b|
    ensures Satisfied(bindings, a + b, |a| + n) == Satisfied(Satisfied(bindings, a, |a|), b, n)
  {
    if n == 0 {
      SatisfiedPrefix(bindings, a, b, |a|);
    } else {
      SatisfiedConcat(bindings, a, b, n - 1);
    }
  }

  lemma MaxSortNext(bindings: seq<Binding>, b: Binding, template: string)
    ensures MaxSort(bindings + [b], template) ==
            if b.template == template && b.sortOrder > MaxSort(bindings, template) then b.sortOrder else MaxSort(bindings, template)
  {
    assert (bindings + [b])[..|bindings|] == bindings;
  }

  lemma {:induction false} MaxSortBounds(bindings: seq<Binding>, template: string)
    ensures 0 <= MaxSort(bindings, template)
    ensures forall i | 0 <= i < |bindings| && bindings[i].template == template :: bindings[i].sortOrder <= MaxSort(bindings, template)
  {
    if bindings != [] {
      MaxSortBounds(bindings[..|bindings| - 1], template);
    }
  }

  // ---------------------------------------------------------------- what the bookkeeping maps hold

  type Keys = map<string, set<string>>

  function KeysAt(keys: Keys, template: string): set<string> {
    if template in keys then keys[template] else {}
  }

  function SortAt(sorts: map<string, int>, template: string): int {
    if template in sorts then sorts[template] else 0
  }

  ghost predicate Tracks(bindings: seq<Binding>, keys: Keys, sorts: map<string, int>) {
    && (forall template, slug :: slug in KeysAt(keys, template) <==> HasKey(bindings, template, slug))
    && (forall template :: SortAt(sorts, template) == MaxSort(bindings, template))
  }

  lemma TracksNext(bindings: seq<Binding>, keys: Keys, sorts: map<string, int>, b: Binding)
    requires Tracks(bindings, keys, sorts)
    ensures var nextKeys := keys[b.template := KeysAt(keys, b.template) + {Slug(b.key)}];
            var nextSorts := if b.sortOrder > SortAt(sorts, b.template) then sorts[b.template := b.sortOrder] else sorts;
            Tracks(bindings + [b], nextKeys, nextSorts)
  {
    var next := bindings + [b];
    forall template, slug
      ensures HasKey(next, template, slug) <==> HasKey(bindings, template, slug) || (b.template == template && Slug(b.key) == slug)
    {
      assert next[|bindings|] == b;
      assert forall i | 0 <= i < |bindings| :: next[i] == bindings[i];
    }
    forall template ensures MaxSort(next, template) ==
      if b.template == template && b.sortOrder > MaxSort(bindings, template) then b.sortOrder else MaxSort(bindings, template)
    {
      MaxSortNext(bindings, b, template);
    }
  }

  method TrackBindings(bindings: seq<Binding>) returns (keys: Keys, sorts: map<string, int>)
    ensures Tracks(bindings, keys, sorts)
  {
    keys, sorts := map[], map[];
    for n := 0 to |bindings|
      invariant Tracks(bindings[..n], keys, sorts)
    {
      var b := bindings[n];
      TracksNext(bindings[..n], keys, sorts, b);
      assert bindings[..n + 1] == bindings[..n] + [b];
      keys := keys[b.template := KeysAt(keys, b.template) + {Slug(b.key)}];
      if b.sortOrder > SortAt(sorts, b.template) {
        sorts := sorts[b.template := b.sortOrder];
      }
    }
    assert bindings[..|bindings|] == bindings;
  }

  // ---------------------------------------------------------------- definitions

  function FindCategory(categories: seq<Category>, slug: string, n: nat): Option<Category>
    requires n <= |categories|
  {
    if n == 0 then None
    else
      var earlier := FindCategory(categories, slug, n - 1);
      if earlier.Some? then earlier
      else if Slug(categories[n - 1].key) == slug then Some(categories[n - 1]) else None
  }

  function OptionsOf(options: seq<OptionRow>, slug: string, n: nat): seq<OptionDefinition>
    requires n <= |options|
  {
    if n == 0 then []
    else
      var o := options[n - 1];
      OptionsOf(options, slug, n - 1) +
      (if Slug(o.categoryKey) == slug
       then [OptionDefinition(o.value, o.labelZh, o.labelEn, o.description, o.sortOrder, o.active)] else [])
  }

  function DefinitionFrom(c: Catalogue, category: Category): Definition {
    Definition(category.nameZh, category.nameEn, category.description,
               OptionsOf(c.options, Slug(category.key), |c.options|))
  }

  function CategoryOf(c: Catalogue, b: Binding): Option<Category> {
    FindCategory(c.categories, Slug(b.key), |c.categories|)
  }

  function Defined(c: Catalogue, b: Binding): Binding {
    if b.definitionVersion == 0 && CategoryOf(c, b).Some?
    then b.(definition := DefinitionFrom(c, CategoryOf(c, b).value), definitionVersion := 1)
    else b
  }

  function AllDefined(c: Catalogue, bindings: seq<Binding>): seq<Binding> {
    seq(|bindings|, i requires 0 <= i < |bindings| => Defined(c, bindings[i]))
  }

  ghost predicate Definable(c: Catalogue, bindings: seq<Binding>) {
    forall i | 0 <= i < |bindings| && bindings[i].definitionVersion == 0 :: CategoryOf(c, bindings[i]).Some?
  }

  ghost function Backfilled(c: Catalogue, bindings: seq<Binding>): seq<Binding> {
    var wants := AllWants(c, |c.products|);
    Satisfied(bindings, wants, |wants|)
  }

  /** The whole migration: either every binding is defined, or nothing has changed. */
  ghost function Migrated(c: Catalogue, bindings: seq<Binding>): Option<seq<Binding>> {
    if Definable(c, Backfilled(c, bindings)) then Some(AllDefined(c, Backfilled(c, bindings))) else None
  }

  method CopyOptions(c: Catalogue, slug: string) returns (options: seq<OptionDefinition>)
    ensures options == OptionsOf(c.options, slug, |c.options|)
  {
    options := [];
    for n := 0 to |c.options|
      invariant options == OptionsOf(c.options, slug, n)
    {
      var o := c.options[n];
      var machine := MachineValue(o.categoryKey);
      if machine == slug {
        options := options + [OptionDefinition(o.value, o.labelZh, o.labelEn, o.description, o.sortOrder, o.active)];
      }
    }
  }

  method SearchCategory(categories: seq<Category>, slug: string) returns (found: Option<Category>)
    ensures found == FindCategory(categories, slug, |categories|)
  {
    found := None;
    for n := 0 to |categories|
      invariant FindCategory(categories, slug, n) == None
    {
      var machine := MachineValue(categories[n].key);
      if machine == slug {
        FoundStays(categories, slug, n + 1, |categories|);
        return Some(categories[n]);
      }
    }
  }

  lemma {:induction false} FoundStays(categories: seq<Category>, slug: string, n: nat, m: nat)
    requires n <= m <= |categories| && FindCategory(categories, slug, n).Some?
    ensures FindCategory(categories, slug, m) == FindCategory(categories, slug, n)
    decreases m
  {
    if n < m {
      FoundStays(categories, slug, n, m - 1);
    }
  }

  lemma NextWant(before: seq<Binding>, template: string, values: seq<AttributeValue>, j: nat)
    requires j < |values|
    ensures Satisfied(before, WantsAt(template, values, j + 1), j + 1) ==
            Satisfy(Satisfied(before, WantsAt(template, values, j), j), Want(template, values[j].key, values[j].value))
  {
    SatisfiedPrefix(before, WantsAt(template, values, j), [Want(template, values[j].key, values[j].value)], j);
  }

  lemma NextProduct(c: Catalogue, was: seq<Binding>, i: nat)
    requires i < |c.products|
    ensures var before := Satisfied(was, AllWants(c, i), |AllWants(c, i)|);
            var wants := WantsOf(c, c.products[i]);
            Satisfied(was, AllWants(c, i + 1), |AllWants(c, i + 1)|) == Satisfied(before, wants, |wants|)
  {
    assert AllWants(c, i + 1) == AllWants(c, i) + WantsOf(c, c.products[i]);
    SatisfiedJoin(was, AllWants(c, i), WantsOf(c, c.products[i]));
  }

  lemma SatisfiedJoin(was: seq<Binding>, a: seq<Want>, b: seq<Want>)
    ensures Satisfied(was, a + b, |a + b|) == Satisfied(Satisfied(was, a, |a|), b, |b|)
  {
    SatisfiedConcat(was, a, b, |b|);
  }

  class Database {
    var bindings: seq<Binding>

    /** The attributes of one product, in order. */
    method AddNeeded(template: string, values: seq<AttributeValue>, keysBefore: Keys, sortsBefore: map<string, int>)
      returns (keys: Keys, sorts: map<string, int>)
      requires Tracks(bindings, keysBefore, sortsBefore)
      modifies this
      ensures bindings == Satisfied(old(bindings), WantsAt(template, values, |values|), |values|)
      ensures Tracks(bindings, keys, sorts)
    {
      ghost var before := bindings;
      keys, sorts := keysBefore, sortsBefore;
      for j := 0 to |values|
        invariant bindings == Satisfied(before, WantsAt(template, values, j), j)
        invariant Tracks(bindings, keys, sorts)
      {
        NextWant(before, template, values, j);
        var key := MachineValue(values[j].key);
        if values[j].value == "" || key == "versionlevel" || key in KeysAt(keys, template) {
          continue;
        }
        var sortOrder := SortAt(sorts, template) + 1;
        var binding := Binding(template, values[j].key, sortOrder, true, 1, 0, Undefined);
        TracksNext(bindings, keys, sorts, binding);
        bindings := bindings + [binding];
        sorts := sorts[template := sortOrder];
        keys := keys[template := KeysAt(keys, template) + {key}];
      }
    }

    method Backfill(c: Catalogue)
      modifies this
      ensures bindings == Backfilled(c, old(bindings))
    {
      ghost var was := bindings;
      var keys, sorts := TrackBindings(bindings);
      for i := 0 to |c.products|
        invariant bindings == Satisfied(was, AllWants(c, i), |AllWants(c, i)|)
        invariant Tracks(bindings, keys, sorts)
      {
        var product := c.products[i];
        var template := FindTemplate(c.types, product.typeId);
        NextProduct(c, was, i);
        if template in c.templates {
          keys, sorts := AddNeeded(template, ValuesOf(product), keys, sorts);
        }
      }
    }

    method Migrate(c: Catalogue) returns (ok: bool)
      modifies this
      ensures ok == Migrated(c, old(bindings)).Some?
      ensures bindings == if ok then Migrated(c, old(bindings)).value else old(bindings)
    {
      var before := bindings;
      Backfill(c);
      var backfilled := bindings;
      for n := 0 to |backfilled|
        invariant |bindings| == |backfilled|
        invariant forall i | 0 <= i < n :: bindings[i] == Defined(c, backfilled[i])
        invariant forall i | n <= i < |backfilled| :: bindings[i] == backfilled[i]
        invariant forall i | 0 <= i < n && backfilled[i].definitionVersion == 0 :: CategoryOf(c, backfilled[i]).Some?
      {
        var b := bindings[n];
        if b.definitionVersion != 0 {
          continue;
        }
        var slug := MachineValue(b.key);
        var category := SearchCategory(c.categories, slug);
        if category.None? {
          bindings := before;
          return false;
        }
        var categorySlug := MachineValue(category.value.key);
        var options := CopyOptions(c, categorySlug);
        var definition := Definition(category.value.nameZh, category.value.nameEn, category.value.description, options);
        bindings := bindings[n := b.(definition := definition, definitionVersion := 1)];
      }
      return true;
    }
  }

  // ---------------------------------------------------------------- what the backfill adds

  ghost predicate AddedFor(b: Binding, w: Want) {
    w.template == b.template && w.key == b.key && !Skipped(w)
  }

  /** An added binding: for some want, under a key its template did not have, sorted after all the template has. */
  ghost predicate AddedWell(now: seq<Binding>, i: nat, wants: seq<Want>, n: nat)
    requires i < |now| && n <= |wants|
  {
    && now[i].active && now[i].version == 1 && now[i].definitionVersion == 0
    && (exists k | 0 <= k < n :: AddedFor(now[i], wants[k]))
    && (forall j | 0 <= j < i && now[j].template == now[i].template ::
          Slug(now[j].key) != Slug(now[i].key) && now[j].sortOrder < now[i].sortOrder)
  }

  ghost predicate Grown(was: seq<Binding>, now: seq<Binding>, wants: seq<Want>, n: nat)
    requires n <= |wants|
  {
    was <= now && forall i | |was| <= i < |now| :: AddedWell(now, i, wants, n)
  }

  ghost predicate Complete(now: seq<Binding>, wants: seq<Want>, n: nat)
    requires n <= |wants|
  {
    forall k | 0 <= k < n && !Skipped(wants[k]) :: HasKey(now, wants[k].template, Slug(wants[k].key))
  }

  lemma HasKeyNext(now: seq<Binding>, b: Binding, template: string, slug: string)
    ensures HasKey(now, template, slug) ==> HasKey(now + [b], template, slug)
    ensures b.template == template && Slug(b.key) == slug ==> HasKey(now + [b], template, slug)
  {
    assert (now + [b])[|now|] == b;
    if HasKey(now, template, slug) {
      var i :| 0 <= i < |now| && now[i].template == template && Slug(now[i].key) == slug;
      assert (now + [b])[i] == now[i];
    }
  }

  lemma NewIsAddedWell(now: seq<Binding>, wants: seq<Want>, n: nat)
    requires n < |wants| && !Skipped(wants[n]) && !HasKey(now, wants[n].template, Slug(wants[n].key))
    ensures AddedWell(now + [NewBinding(now, wants[n])], |now|, wants, n + 1)
  {
    var b := NewBinding(now, wants[n]);
    MaxSortBounds(now, wants[n].template);
    assert AddedFor(b, wants[n]);
  }

  lemma AddedStaysWell(now: seq<Binding>, b: Binding, i: nat, wants: seq<Want>, n: nat)
    requires i < |now| && n < |wants| && AddedWell(now, i, wants, n)
    ensures AddedWell(now + [b], i, wants, n + 1) && AddedWell(now, i, wants, n + 1)
  {
    var k :| 0 <= k < n && AddedFor(now[i], wants[k]);
    assert forall j | 0 <= j <= i :: (now + [b])[j] == now[j];
  }

  /** Over every list of wants: what was there stays, each addition is justified and new, and no want is left open. */
  lemma {:induction false} SatisfiedGrows(was: seq<Binding>, wants: seq<Want>, n: nat)
    requires n <= |wants|
    ensures Grown(was, Satisfied(was, wants, n), wants, n) && Complete(Satisfied(was, wants, n), wants, n)
  {
    if n > 0 {
      SatisfiedGrows(was, wants, n - 1);
      var now := Satisfied(was, wants, n - 1);
      var w := wants[n - 1];
      var b := NewBinding(now, w);
      forall i | |was| <= i < |now| ensures AddedWell(now + [b], i, wants, n) && AddedWell(now, i, wants, n) {
        AddedStaysWell(now, b, i, wants, n - 1);
      }
      forall k | 0 <= k < n && !Skipped(wants[k]) && HasKey(now, wants[k].template, Slug(wants[k].key))
        ensures HasKey(now + [b], wants[k].template, Slug(wants[k].key))
      {
        HasKeyNext(now, b, wants[k].template, Slug(wants[k].key));
      }
      HasKeyNext(now, b, w.template, Slug(w.key));
      if !Skipped(w) && !HasKey(now, w.template, Slug(w.key)) {
        NewIsAddedWell(now, wants, n - 1);
      }
    }
  }

  lemma {:induction false} SatisfiedAgain(now: seq<Binding>, wants: seq<Want>, n: nat)
    requires n <= |wants| && Complete(now, wants, n)
    ensures Satisfied(now, wants, n) == now
  {
    if n > 0 {
      SatisfiedAgain(now, wants, n - 1);
    }
  }

  lemma {:induction false} WantIsListed(c: Catalogue, n: nat, p: nat, j: nat) returns (k: nat)
    requires p < n <= |c.products| && j < |WantsOf(c, c.products[p])|
    ensures k < |AllWants(c, n)| && AllWants(c, n)[k] == WantsOf(c, c.products[p])[j]
  {
    if p == n - 1 {
      k := |AllWants(c, n - 1)| + j;
    } else {
      k := WantIsListed(c, n - 1, p, j);
    }
  }

  lemma {:induction false} WantAt(template: string, values: seq<AttributeValue>, n: nat, j: nat)
    requires j < n <= |values|
    ensures WantsAt(template, values, n)[j] == Want(template, values[j].key, values[j].value)
  {
    if j < n - 1 {
      WantAt(template, values, n - 1, j);
    }
  }

  ghost predicate Under(b: Binding, template: string, slug: string) {
    b.template == template && Slug(b.key) == slug
  }

  /**
   * After the backfill every needed attribute of every product is bound at the product's template; where nothing was
   * bound before, by exactly one binding.
   */
  lemma ProductsAreBound(c: Catalogue, was: seq<Binding>, p: nat, j: nat) returns (i: nat)
    requires p < |c.products| && j < |ValuesOf(c.products[p])|
    requires Walk(c.types, c.products[p].typeId, {}) in c.templates
    requires ValuesOf(c.products[p])[j].value != "" && Slug(ValuesOf(c.products[p])[j].key) != "versionlevel"
    ensures var now := Backfilled(c, was);
            var template := Walk(c.types, c.products[p].typeId, {});
            var slug := Slug(ValuesOf(c.products[p])[j].key);
            && was <= now && i < |now| && Under(now[i], template, slug)
            && (i >= |was| ==> forall k | 0 <= k < |now| && Under(now[k], template, slug) :: k == i)
            && (forall k | 0 <= k < |was| && Under(was[k], template, slug) :: i < |was|)
  {
    var now := Backfilled(c, was);
    var template := Walk(c.types, c.products[p].typeId, {});
    var values := ValuesOf(c.products[p]);
    var wants := AllWants(c, |c.products|);
    WantAt(template, values, |values|, j);
    var k := WantIsListed(c, |c.products|, p, j);
    SatisfiedGrows(was, wants, |wants|);
    assert HasKey(now, wants[k].template, Slug(wants[k].key));
    AdditionsAreNew(was, now, wants);
    i :| 0 <= i < |now| && now[i].template == template && Slug(now[i].key) == Slug(values[j].key);
  }

  lemma AdditionsAreNew(was: seq<Binding>, now: seq<Binding>, wants: seq<Want>)
    requires Grown(was, now, wants, |wants|)
    ensures forall a, b | 0 <= a < b < |now| && |was| <= b ::
              !(now[a].template == now[b].template && Slug(now[a].key) == Slug(now[b].key))
  {
    forall a, b | 0 <= a < b < |now| && |was| <= b
      ensures !(now[a].template == now[b].template && Slug(now[a].key) == Slug(now[b].key))
    {
      assert AddedWell(now, b, wants, |wants|);
    }
  }

  // ---------------------------------------------------------------- what the migration leaves

  lemma DefinedKeepsKeys(c: Catalogue, bindings: seq<Binding>, template: string, slug: string)
    ensures HasKey(AllDefined(c, bindings), template, slug) <==> HasKey(bindings, template, slug)
  {
    var defined := AllDefined(c, bindings);
    assert forall i | 0 <= i < |bindings| :: defined[i].template == bindings[i].template && defined[i].key == bindings[i].key;
    if HasKey(bindings, template, slug) {
      var i :| 0 <= i < |bindings| && bindings[i].template == template && Slug(bindings[i].key) == slug;
      assert defined[i].template == template;
    }
  }

  /** A successful migration leaves no binding without a definition and touches no earlier one that had its own. */
  lemma MigrationDefinesAll(c: Catalogue, was: seq<Binding>)
    requires Migrated(c, was).Some?
    ensures var next := Migrated(c, was).value;
            && |was| <= |next|
            && (forall i | 0 <= i < |next| :: next[i].definitionVersion != 0)
            && (forall i | 0 <= i < |was| && was[i].definitionVersion != 0 :: next[i] == was[i])
            && (forall i | 0 <= i < |was| :: next[i].template == was[i].template && next[i].key == was[i].key
                                            && next[i].sortOrder == was[i].sortOrder)
  {
    var wants := AllWants(c, |c.products|);
    SatisfiedGrows(was, wants, |wants|);
  }

  /** Running the migration again succeeds and changes nothing. */
  lemma SecondMigrationChangesNothing(c: Catalogue, was: seq<Binding>)
    requires Migrated(c, was).Some?
    ensures Migrated(c, Migrated(c, was).value) == Migrated(c, was)
  {
    var backfilled := Backfilled(c, was);
    var next := Migrated(c, was).value;
    var wants := AllWants(c, |c.products|);
    SatisfiedGrows(was, wants, |wants|);
    forall k | 0 <= k < |wants| && !Skipped(wants[k]) ensures HasKey(next, wants[k].template, Slug(wants[k].key)) {
      DefinedKeepsKeys(c, backfilled, wants[k].template, Slug(wants[k].key));
    }
    SatisfiedAgain(next, wants, |wants|);
    MigrationDefinesAll(c, was);
    assert AllDefined(c, next) == next;
  }

  /** The migration fails exactly when some binding without a definition has no category of its machine key. */
  lemma MigrationFailsExactly(c: Catalogue, was: seq<Binding>)
    ensures Migrated(c, was).None? <==>
            exists i | 0 <= i < |Backfilled(c, was)| ::
              Backfilled(c, was)[i].definitionVersion == 0
              && forall k | 0 <= k < |c.categories| :: Slug(c.categories[k].key) != Slug(Backfilled(c, was)[i].key)
  {
    forall i | 0 <= i < |Backfilled(c, was)|
      ensures CategoryOf(c, Backfilled(c, was)[i]).None? <==>
              forall k | 0 <= k < |c.categories| :: Slug(c.categories[k].key) != Slug(Backfilled(c, was)[i].key)
    {
      FoundExactly(c.categories, Slug(Backfilled(c, was)[i].key), |c.categories|);
    }
  }

  lemma {:induction false} FoundExactly(categories: seq<Category>, slug: string, n: nat)
    requires n <= |categories|
    ensures FindCategory(categories, slug, n).None? <==> forall k | 0 <= k < n :: Slug(categories[k].key) != slug
    ensures FindCategory(categories, slug, n).Some? ==> Slug(FindCategory(categories, slug, n).value.key) == slug
  {
    if n > 0 {
      FoundExactly(categories, slug, n - 1);
    }
  }
}
