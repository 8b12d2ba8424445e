/**
 * The versioned cache of material lists: readers and writers as interleaved atomic steps on the database,
 * the version counter and the cache entries.
 */
module MaterialCache {
  import opened Text

  // ---------------------------------------------------------------- the cache key

  datatype Query = Query(category: string, search: string, options: bool, page: int, size: int)

  const SEARCH := ":search:"

  function Digit(n: nat): char
    requires n < 10
  {
    '0' + n as char
  }

  function Decimal(n: nat): (r: string)
    ensures r != "" && forall i | 0 <= i < |r| :: '0' <= r[i] <= '9'
  {
    if n < 10 then [Digit(n)] else Decimal(n / 10) + [Digit(n % 10)]
  }

  /** `%d` of an int. */
  function Integer(n: int): (r: string)
    ensures ':' !in r
  {
    if n < 0 then "-" + Decimal(-n) else Decimal(n)
  }

  function Boolean(b: bool): string {
    if b then "true" else "false"
  }

  function Key(version: nat, q: Query): string {
    "materials:" + Decimal(version) + ":cat:" + q.category + ":search:" + q.search + ":options:" + Boolean(q.options)
    + ":page:" + Integer(q.page) + ":size:" + Integer(q.size)
  }

  lemma SameLast(a: string, c: char, b: string, d: char)
    requires a + [c] == b + [d]
    ensures a == b && c == d
  {
    assert a == (a + [c])[..|a|] && b == (b + [d])[..|b|];
    assert c == (a + [c])[|a|] && d == (b + [d])[|b|];
  }

  lemma {:induction false} DecimalInjective(m: nat, n: nat)
    requires Decimal(m) == Decimal(n)
    ensures m == n
  {
    var front := (k: nat) => if k < 10 then "" else Decimal(k / 10);
    assert Decimal(m) == front(m) + [Digit(m % 10)] && Decimal(n) == front(n) + [Digit(n % 10)];
    SameLast(front(m), Digit(m % 10), front(n), Digit(n % 10));
    if m >= 10 && n >= 10 {
      DecimalInjective(m / 10, n / 10);
    }
  }

  lemma IntegerInjective(m: int, n: int)
    requires Integer(m) == Integer(n)
    ensures m == n
  {
    assert (m < 0 <==> Integer(m)[0] == '-') && (n < 0 <==> Integer(n)[0] == '-');
    if m < 0 {
      assert Integer(m)[1..] == Decimal(-m) && Integer(n)[1..] == Decimal(-n);
      DecimalInjective(-m, -n);
    } else {
      DecimalInjective(m, n);
    }
  }

  /** Text up to the first colon is determined by the whole. */
  lemma FirstColon(a: string, x: string, b: string, y: string)
    requires ':' !in a && ':' !in b && a + ":" + x == b + ":" + y
    ensures a == b && x == y
  {
    var s, t := a + ":" + x, b + ":" + y;
    assert s[|a|] == ':' && t[|b|] == ':';
    assert a == s[..|a|] && b == t[..|b|] && x == s[|a| + 1..] && y == t[|b| + 1..];
  }

  /** Text after the last colon is determined by the whole. */
  lemma LastColon(a: string, x: string, b: string, y: string)
    requires ':' !in x && ':' !in y && a + ":" + x == b + ":" + y
    ensures a == b && x == y
  {
    var s, t := a + ":" + x, b + ":" + y;
    assert s[|a|] == ':' && t[|b|] == ':';
    assert a == s[..|a|] && b == t[..|b|] && x == s[|a| + 1..] && y == t[|b| + 1..];
  }

  /** One `:name:value` at the end of a key. */
  lemma LastField(a: string, field: string, x: string, b: string, y: string)
    requires ':' !in x && ':' !in y && a + field + ":" + x == b + field + ":" + y
    ensures a == b && x == y
  {
    LastColon(a + field, x, b + field, y);
    SameSuffix(a, b, field);
  }

  function CategoryAndSearch(q: Query): string {
    "cat:" + (q.category + ":" + ("search:" + q.search))
  }

  function KeyHead(version: nat, q: Query): string {
    "materials:" + (Decimal(version) + ":" + CategoryAndSearch(q))
  }

  lemma KeyShape(version: nat, q: Query)
    ensures Key(version, q) == KeyHead(version, q) + ":options" + ":" + Boolean(q.options) + ":page" + ":" + Integer(q.page)
                               + ":size" + ":" + Integer(q.size)
  {
    assert KeyHead(version, q) == "materials:" + Decimal(version) + ":cat:" + q.category + ":search:" + q.search;
    assert ":options" + ":" == ":options:" && ":page" + ":" == ":page:" && ":size" + ":" == ":size:";
  }

  /** The head, the flag and the two numbers of a key, whatever the category and the search text hold. */
  lemma KeyTailDetermined(v: nat, q: Query, w: nat, r: Query)
    requires Key(v, q) == Key(w, r)
    ensures KeyHead(v, q) == KeyHead(w, r) && q.options == r.options && q.page == r.page && q.size == r.size
  {
    KeyShape(v, q);
    KeyShape(w, r);
    var a, b := KeyHead(v, q), KeyHead(w, r);
    var aOptions, bOptions := a + ":options" + ":" + Boolean(q.options), b + ":options" + ":" + Boolean(r.options);
    LastField(aOptions + ":page" + ":" + Integer(q.page), ":size", Integer(q.size),
              bOptions + ":page" + ":" + Integer(r.page), Integer(r.size));
    LastField(aOptions, ":page", Integer(q.page), bOptions, Integer(r.page));
    LastField(a, ":options", Boolean(q.options), b, Boolean(r.options));
    IntegerInjective(q.size, r.size);
    IntegerInjective(q.page, r.page);
    assert Boolean(q.options)[0] == Boolean(r.options)[0];
  }

  /** Equal keys belong to the same version. */
  lemma KeyVersion(v: nat, q: Query, w: nat, r: Query)
    requires Key(v, q) == Key(w, r)
    ensures v == w && CategoryAndSearch(q) == CategoryAndSearch(r)
  {
    KeyTailDetermined(v, q, w, r);
    SamePrefix("materials:", Decimal(v) + ":" + CategoryAndSearch(q), Decimal(w) + ":" + CategoryAndSearch(r));
    FirstColon(Decimal(v), CategoryAndSearch(q), Decimal(w), CategoryAndSearch(r));
    DecimalInjective(v, w);
  }

  /** The part of the key in which the category and the search text run into each other. */
  function Middle(q: Query): string {
    q.category + (SEARCH + q.search)
  }

  lemma MiddleShape(q: Query)
    ensures CategoryAndSearch(q) == "cat:" + Middle(q)
  {
    assert SEARCH == ":" + "search:";
    assert q.category + ":" + ("search:" + q.search) == q.category + (SEARCH + q.search);
  }

  /** Two requests share a key if and only if all fields agree, category and search only as one text. */
  lemma KeyInjective(v: nat, q: Query, w: nat, r: Query)
    ensures Key(v, q) == Key(w, r) <==>
              v == w && q.options == r.options && q.page == r.page && q.size == r.size && Middle(q) == Middle(r)
  {
    MiddleShape(q);
    MiddleShape(r);
    KeyShape(v, q);
    KeyShape(w, r);
    if Key(v, q) == Key(w, r) {
      KeyVersion(v, q, w, r);
      KeyTailDetermined(v, q, w, r);
      SamePrefix("cat:", Middle(q), Middle(r));
    }
  }

  ghost predicate SearchAt(text: string, i: nat) {
    i + 8 <= |text| && forall k | 0 <= k < 8 :: text[i + k] == SEARCH[k]
  }

  /** The separator occurs in the text of the request only where it was put. */
  ghost predicate Unambiguous(q: Query) {
    forall i: nat | SearchAt(Middle(q), i) :: i == |q.category|
  }

  lemma SearchIsAtCategory(q: Query)
    ensures SearchAt(Middle(q), |q.category|)
    ensures Middle(q)[..|q.category|] == q.category && Middle(q)[|q.category| + 8..] == q.search
  {
    var text := Middle(q);
    forall k | 0 <= k < 8 ensures text[|q.category| + k] == SEARCH[k] {
    }
  }

  lemma SplitElsewhere(text: string, i: nat)
    requires SearchAt(text, i)
    ensures text == text[..i] + (SEARCH + text[i + 8..])
  {
    assert text[i..i + 8] == SEARCH;
  }

  /** A request shares its key with no other request if and only if its text holds the separator once. */
  lemma KeyIsOwn(v: nat, q: Query)
    ensures Unambiguous(q) <==> forall w: nat, r: Query | Key(v, q) == Key(w, r) :: r == q
  {
    SearchIsAtCategory(q);
    if Unambiguous(q) {
      forall w: nat, r: Query | Key(v, q) == Key(w, r) ensures r == q {
        KeyInjective(v, q, w, r);
        SearchIsAtCategory(r);
      }
    } else {
      var i: nat :| SearchAt(Middle(q), i) && i != |q.category|;
      SplitElsewhere(Middle(q), i);
      var r := q.(category := Middle(q)[..i], search := Middle(q)[i + 8..]);
      assert |r.category| == i;
      KeyInjective(v, q, v, r);
    }
  }

  /** Two different requests with one key, and so one cached answer; the category of the first holds no colon. */
  lemma KeyCollision(v: nat)
    ensures Key(v, Query("a", "b:search:c", false, 1, 20)) == Key(v, Query("a:search:b", "c", false, 1, 20))
  {
    assert "a" + ":search:" + "b:search:c" == "a:search:b" + ":search:" + "c";
    var p := "materials:" + Decimal(v) + ":cat:";
    assert p + "a" + ":search:" + "b:search:c" == p + ("a" + ":search:" + "b:search:c");
    assert p + "a:search:b" + ":search:" + "c" == p + ("a:search:b" + ":search:" + "c");
  }

  // ---------------------------------------------------------------- the protocol

  /** A cached response: the request it answers, its version, and the writes its list was computed from. */
  datatype Payload = Payload(query: Query, version: nat, writes: set<nat>)

  datatype Phase = Looking | Missed | Loaded(list: Payload) | Answered(body: Payload)

  datatype Reader = Reader(query: Query, version: nat, phase: Phase)

  datatype Writer = Committed(write: nat) | Bumped(write: nat, at: nat)

  datatype State = State(
    database: set<nat>,
    version: Option<nat>,
    cache: map<string, Payload>,
    readers: map<nat, Reader>,
    writers: map<nat, Writer>)

  datatype Step =
    | ReadVersion(p: nat, query: Query)
    | ResetVersion(p: nat, query: Query)  // GET fails or finds nothing: the counter is set to 1
    | AssumeVersion(p: nat, query: Query) // GET fails, and so does setting the counter: version 1 all the same
    | Hit(p: nat)
    | Miss(p: nat)                        // no entry, or GET fails
    | DropInvalid(p: nat)                 // an entry that does not decode is deleted
    | Load(p: nat)
    | Fill(p: nat)
    | AnswerUncached(p: nat)              // marshalling or SET fails
    | Commit(p: nat, write: nat)
    | Increment(p: nat)
    | Evict(key: string)

  /** INCR starts a missing counter at zero. */
  function Current(s: State): nat {
    if s.version.Some? then s.version.value else 0
  }

  ghost predicate Enabled(s: State, step: Step) {
    match step
    case ReadVersion(p, _) => p !in s.readers && s.version.Some?
    case ResetVersion(p, _) => p !in s.readers
    case AssumeVersion(p, _) => p !in s.readers
    case Hit(p) => p in s.readers && s.readers[p].phase.Looking? && Key(s.readers[p].version, s.readers[p].query) in s.cache
    case Miss(p) => p in s.readers && s.readers[p].phase.Looking?
    case DropInvalid(p) => p in s.readers && s.readers[p].phase.Looking?
    case Load(p) => p in s.readers && s.readers[p].phase.Missed?
    case Fill(p) => p in s.readers && s.readers[p].phase.Loaded?
    case AnswerUncached(p) => p in s.readers && s.readers[p].phase.Loaded?
    case Commit(p, _) => p !in s.writers
    case Increment(p) => p in s.writers && s.writers[p].Committed?
    case Evict(_) => true
  }

  function Advance(s: State, p: nat, phase: Phase): State
    requires p in s.readers
  {
    s.(readers := s.readers[p := s.readers[p].(phase := phase)])
  }

  ghost function Next(s: State, step: Step): State
    requires Enabled(s, step)
  {
    match step
    case ReadVersion(p, q) => s.(readers := s.readers[p := Reader(q, s.version.value, Looking)])
    case ResetVersion(p, q) => s.(version := Some(1), readers := s.readers[p := Reader(q, 1, Looking)])
    case AssumeVersion(p, q) => s.(readers := s.readers[p := Reader(q, 1, Looking)])
    case Hit(p) => Advance(s, p, Answered(s.cache[Key(s.readers[p].version, s.readers[p].query)]))
    case Miss(p) => Advance(s, p, Missed)
    case DropInvalid(p) => Advance(s.(cache := s.cache - {Key(s.readers[p].version, s.readers[p].query)}), p, Missed)
    case Load(p) => Advance(s, p, Loaded(Payload(s.readers[p].query, s.readers[p].version, s.database)))
    case Fill(p) =>
      var list := s.readers[p].phase.list;
      Advance(s.(cache := s.cache[Key(s.readers[p].version, s.readers[p].query) := list]), p, Answered(list))
    case AnswerUncached(p) => Advance(s, p, Answered(s.readers[p].phase.list))
    case Commit(p, w) => s.(database := s.database + {w}, writers := s.writers[p := Committed(w)])
    case Increment(p) =>
      var v := Current(s) + 1;
      s.(version := Some(v), writers := s.writers[p := Bumped(s.writers[p].write, v)])
    case Evict(key) => s.(cache := s.cache - {key})
  }

  ghost predicate IsRun(s: State, steps: seq<Step>)
    decreases steps
  {
    steps == [] || (Enabled(s, steps[0]) && IsRun(Next(s, steps[0]), steps[1..]))
  }

  ghost function After(s: State, steps: seq<Step>): State
    requires IsRun(s, steps)
    decreases steps
  {
    if steps == [] then s else After(Next(s, steps[0]), steps[1..])
  }

  // ---------------------------------------------------------------- freshness

  /** The list was computed from every write whose increment reached its version or an earlier one. */
  ghost predicate Fresh(s: State, list: Payload) {
    forall p | p in s.writers && s.writers[p].Bumped? && s.writers[p].at <= list.version :: s.writers[p].write in list.writes
  }

  ghost predicate PhaseValid(s: State, r: Reader) {
    match r.phase
    case Loaded(list) => Fresh(s, list) && list.version == r.version && list.query == r.query
    case Answered(body) =>
      Fresh(s, body) && body.version == r.version && Key(body.version, body.query) == Key(r.version, r.query)
    case _ => true
  }

  ghost predicate WritersValid(s: State) {
    && (forall p | p in s.writers :: s.writers[p].write in s.database)
    && (forall p | p in s.writers && s.writers[p].Bumped? :: s.writers[p].at <= Current(s))
  }

  ghost predicate ReadersValid(s: State) {
    forall p | p in s.readers :: s.readers[p].version <= Current(s) && PhaseValid(s, s.readers[p])
  }

  ghost predicate CacheValid(s: State) {
    forall k | k in s.cache ::
      s.cache[k].version <= Current(s) && Fresh(s, s.cache[k]) && k == Key(s.cache[k].version, s.cache[k].query)
  }

  ghost predicate Valid(s: State) {
    WritersValid(s) && ReadersValid(s) && CacheValid(s)
  }

  /** Nothing has gone beyond the version to which a reset goes back. */
  ghost predicate NothingBeyondOne(s: State) {
    && (forall p | p in s.writers && s.writers[p].Bumped? :: s.writers[p].at <= 1)
    && (forall p | p in s.readers :: s.readers[p].version <= 1)
    && (forall k | k in s.cache :: s.cache[k].version <= 1)
  }

  ghost predicate Harmless(s: State, step: Step) {
    (step.ResetVersion? ==> NothingBeyondOne(s)) && (step.AssumeVersion? ==> Current(s) >= 1)
  }

  /** A reset keeps the cache sound exactly when no write, no request and no entry has gone beyond version 1. */
  lemma ResetBreaksExactly(s: State, p: nat, q: Query)
    requires Valid(s) && Enabled(s, ResetVersion(p, q))
    ensures Valid(Next(s, ResetVersion(p, q))) <==> NothingBeyondOne(s)
  {
    var t := Next(s, ResetVersion(p, q));
    if Valid(t) {
      forall r | r in s.readers ensures s.readers[r].version <= 1 {
        assert t.readers[r] == s.readers[r];
      }
    } else if NothingBeyondOne(s) {
      StepKeepsValid(s, ResetVersion(p, q));
    }
  }

  /** Assuming version 1 keeps the cache sound exactly when the counter has reached 1, so that nobody runs ahead of it. */
  lemma AssumingBreaksExactly(s: State, p: nat, q: Query)
    requires Valid(s) && Enabled(s, AssumeVersion(p, q))
    ensures Valid(Next(s, AssumeVersion(p, q))) <==> Current(s) >= 1
  {
    var t := Next(s, AssumeVersion(p, q));
    if Valid(t) {
      assert t.readers[p].version == 1;
    } else if Current(s) >= 1 {
      StepKeepsValid(s, AssumeVersion(p, q));
    }
  }

  /** A later increment never reaches an earlier version, so lists stay fresh. */
  lemma StepKeepsFresh(s: State, step: Step, list: Payload)
    requires Valid(s) && Enabled(s, step) && Harmless(s, step) && Fresh(s, list) && list.version <= Current(s)
    ensures Fresh(Next(s, step), list)
  {
  }

  lemma StepKeepsOtherReader(s: State, step: Step, p: nat)
    requires Valid(s) && Enabled(s, step) && Harmless(s, step) && p in s.readers && Next(s, step).readers[p] == s.readers[p]
    ensures var t := Next(s, step); t.readers[p].version <= Current(t) && PhaseValid(t, t.readers[p])
  {
    match s.readers[p].phase
    case Loaded(list) => StepKeepsFresh(s, step, list);
    case Answered(body) => StepKeepsFresh(s, step, body);
    case _ =>
  }

  lemma StepKeepsReader(s: State, step: Step, p: nat)
    requires Valid(s) && Enabled(s, step) && Harmless(s, step) && p in Next(s, step).readers
    ensures var t := Next(s, step); t.readers[p].version <= Current(t) && PhaseValid(t, t.readers[p])
  {
    var r := Next(s, step).readers[p];
    if p in s.readers && r == s.readers[p] {
      StepKeepsOtherReader(s, step, p);
    } else if step.Fill? || step.AnswerUncached? {
      StepKeepsFresh(s, step, s.readers[p].phase.list);
    } else if step.Hit? {
      var body := s.cache[Key(r.version, r.query)];
      KeyVersion(r.version, r.query, body.version, body.query);
      StepKeepsFresh(s, step, body);
    }
  }

  lemma StepKeepsCache(s: State, step: Step)
    requires Valid(s) && Enabled(s, step) && Harmless(s, step)
    ensures CacheValid(Next(s, step))
  {
    var t := Next(s, step);
    forall k | k in t.cache
      ensures t.cache[k].version <= Current(t) && Fresh(t, t.cache[k]) && k == Key(t.cache[k].version, t.cache[k].query)
    {
      StepKeepsFresh(s, step, t.cache[k]);
    }
  }

  lemma StepKeepsValid(s: State, step: Step)
    requires Valid(s) && Enabled(s, step) && Harmless(s, step)
    ensures Valid(Next(s, step))
  {
    forall p | p in Next(s, step).readers
      ensures var t := Next(s, step); t.readers[p].version <= Current(t) && PhaseValid(t, t.readers[p])
    {
      StepKeepsReader(s, step, p);
    }
    StepKeepsCache(s, step);
  }

  /** Steps that can be taken one after another, resets only while they are harmless. */
  ghost predicate IsSafeRun(s: State, steps: seq<Step>)
    decreases steps
  {
    steps == [] || (Enabled(s, steps[0]) && Harmless(s, steps[0]) && IsSafeRun(Next(s, steps[0]), steps[1..]))
  }

  lemma {:induction false} SafeRunIsRun(s: State, steps: seq<Step>)
    requires IsSafeRun(s, steps)
    ensures IsRun(s, steps)
    decreases steps
  {
    if steps != [] {
      SafeRunIsRun(Next(s, steps[0]), steps[1..]);
    }
  }

  ghost function AfterSafe(s: State, steps: seq<Step>): State
    requires IsSafeRun(s, steps)
  {
    SafeRunIsRun(s, steps);
    After(s, steps)
  }

  /** What a writer has made visible: its write, and the version its increment produced. */
  ghost predicate Published(s: State, writer: nat) {
    writer in s.writers && s.writers[writer].Bumped?
  }

  /** Readers that have not read the version yet will read one that covers the writer. */
  ghost predicate Covers(s: State, writer: nat, reader: nat) {
    Published(s, writer) && (reader in s.readers ==> s.writers[writer].at <= s.readers[reader].version)
  }

  /** A request that can only assume its version gets 1. */
  ghost predicate ReadsVersion(step: Step, reader: nat) {
    !(step.AssumeVersion? && step.p == reader)
  }

  lemma StepKeepsCovers(s: State, step: Step, writer: nat, reader: nat)
    requires Valid(s) && Enabled(s, step) && Harmless(s, step) && Covers(s, writer, reader)
    requires ReadsVersion(step, reader) || s.writers[writer].at <= 1
    ensures Covers(Next(s, step), writer, reader) && Next(s, step).writers[writer] == s.writers[writer]
  {
  }

  /**
   * Freshness over every interleaving: a request that reads the version after a writer's increment answers from data that
   * includes that writer's commit, whether it hits the cache or not. So does one that assumes version 1 when the increment
   * has not gone beyond it.
   */
  lemma {:induction false} LaterRequestsSeeTheWrite(s: State, steps: seq<Step>, writer: nat, reader: nat)
    requires Valid(s) && IsSafeRun(s, steps) && Covers(s, writer, reader)
    requires s.writers[writer].at <= 1 || forall i | 0 <= i < |steps| :: ReadsVersion(steps[i], reader)
    ensures Valid(AfterSafe(s, steps))
    ensures var t := AfterSafe(s, steps);
            reader in t.readers && t.readers[reader].phase.Answered? ==>
              s.writers[writer].write in t.readers[reader].phase.body.writes
    decreases steps
  {
    if steps != [] {
      StepKeepsValid(s, steps[0]);
      StepKeepsCovers(s, steps[0], writer, reader);
      LaterRequestsSeeTheWrite(Next(s, steps[0]), steps[1..], writer, reader);
    }
  }

  function KeyAt(s: State, p: nat): string
    requires p in s.readers
  {
    Key(s.readers[p].version, s.readers[p].query)
  }

  /**
   * How a request gets its answer: from the entry of its key, or, whether that is cached or not, the list that it computed
   * from all writes committed by then; and no other step answers it or changes an answer.
   */
  lemma AnswersExactly(s: State, step: Step, p: nat)
    requires Enabled(s, step) && p in Next(s, step).readers
    ensures var after := Next(s, step).readers[p];
            match step
            case ReadVersion(q, query) => if q == p then after == Reader(query, s.version.value, Looking) else after == s.readers[p]
            case ResetVersion(q, query) => if q == p then after == Reader(query, 1, Looking) else after == s.readers[p]
            case AssumeVersion(q, query) => if q == p then after == Reader(query, 1, Looking) else after == s.readers[p]
            case Hit(q) => after == if q == p then s.readers[p].(phase := Answered(s.cache[KeyAt(s, p)])) else s.readers[p]
            case Miss(q) => after == if q == p then s.readers[p].(phase := Missed) else s.readers[p]
            case DropInvalid(q) => after == if q == p then s.readers[p].(phase := Missed) else s.readers[p]
            case Load(q) =>
              var r := s.readers[p];
              after == if q == p then r.(phase := Loaded(Payload(r.query, r.version, s.database))) else r
            case Fill(q) =>
              if q == p then after == s.readers[p].(phase := Answered(s.readers[p].phase.list)) else after == s.readers[p]
            case AnswerUncached(q) =>
              if q == p then after == s.readers[p].(phase := Answered(s.readers[p].phase.list)) else after == s.readers[p]
            case _ => after == s.readers[p]
  {
  }

  /** Writes are only added, by their commits; the counter only moves by one, after a commit, or back to 1 by a reset. */
  lemma CountersMoveExactly(s: State, step: Step)
    requires Enabled(s, step)
    ensures Next(s, step).database == s.database + if step.Commit? then {step.write} else {}
    ensures Next(s, step).version ==
            if step.Increment? then Some(if s.version.Some? then s.version.value + 1 else 1)
            else if step.ResetVersion? then Some(1) else s.version
    ensures step.Increment? ==> Next(s, step).writers[step.p] == Bumped(s.writers[step.p].write, Next(s, step).version.value)
  {
  }

  /** From every state a request can be answered without the cache, and a writer can publish what it has committed. */
  lemma RequestsCanFinish(s: State, p: nat) returns (steps: seq<Step>)
    requires p in s.readers && !s.readers[p].phase.Answered?
    ensures IsRun(s, steps) && p in After(s, steps).readers && After(s, steps).readers[p].phase.Answered?
    ensures forall i | 0 <= i < |steps| :: !steps[i].Hit?
    decreases if s.readers[p].phase.Looking? then 2 else if s.readers[p].phase.Missed? then 1 else 0
  {
    if s.readers[p].phase.Loaded? {
      OneStep(s, AnswerUncached(p), []);
      steps := [AnswerUncached(p)] + [];
    } else if s.readers[p].phase.Missed? {
      var rest := RequestsCanFinish(Next(s, Load(p)), p);
      OneStep(s, Load(p), rest);
      steps := [Load(p)] + rest;
    } else {
      var rest := RequestsCanFinish(Next(s, Miss(p)), p);
      OneStep(s, Miss(p), rest);
      steps := [Miss(p)] + rest;
    }
  }

  lemma WritersCanFinish(s: State, p: nat)
    requires p in s.writers && s.writers[p].Committed?
    ensures Enabled(s, Increment(p)) && Published(Next(s, Increment(p)), p)
  {
  }

  /** One step in front of a run. */
  lemma OneStep(s: State, step: Step, rest: seq<Step>)
    requires Enabled(s, step) && IsRun(Next(s, step), rest)
    ensures IsRun(s, [step] + rest) && After(s, [step] + rest) == After(Next(s, step), rest)
  {
    assert ([step] + rest)[1..] == rest;
  }

  /** No step of the run evicts, drops or fills that key. */
  ghost predicate LeavesKey(s: State, steps: seq<Step>, key: string)
    requires IsRun(s, steps)
    decreases steps
  {
    steps == [] || (
      && steps[0] != Evict(key)
      && (steps[0].Fill? || steps[0].DropInvalid? ==> KeyAt(s, steps[0].p) != key)
      && LeavesKey(Next(s, steps[0]), steps[1..], key))
  }

  lemma {:induction false} EntryStays(s: State, steps: seq<Step>, key: string)
    requires IsRun(s, steps) && LeavesKey(s, steps, key)
    ensures key in After(s, steps).cache <==> key in s.cache
    ensures key in s.cache ==> After(s, steps).cache[key] == s.cache[key]
    decreases steps
  {
    if steps != [] {
      EntryStays(Next(s, steps[0]), steps[1..], key);
    }
  }

  /**
   * What a request fills is what it answers, and until that key is evicted, dropped or filled again, every request of the
   * same key can be answered with it.
   */
  lemma FilledIsServed(s: State, p: nat, steps: seq<Step>, q: nat)
    requires Enabled(s, Fill(p)) && IsRun(Next(s, Fill(p)), steps) && LeavesKey(Next(s, Fill(p)), steps, KeyAt(s, p))
    requires var t := After(Next(s, Fill(p)), steps); q in t.readers && t.readers[q].phase.Looking? && KeyAt(t, q) == KeyAt(s, p)
    ensures Next(s, Fill(p)).readers[p].phase == Answered(s.readers[p].phase.list)
    ensures var t := After(Next(s, Fill(p)), steps);
            Enabled(t, Hit(q)) && Next(t, Hit(q)).readers[q].phase == Answered(s.readers[p].phase.list)
  {
    EntryStays(Next(s, Fill(p)), steps, KeyAt(s, p));
  }

  /** What is evicted, or does not decode, is served to nobody until that key is filled again. */
  lemma GoneIsNotServed(s: State, step: Step, steps: seq<Step>, key: string, q: nat)
    requires Enabled(s, step) && (step == Evict(key) || (step.DropInvalid? && KeyAt(s, step.p) == key))
    requires IsRun(Next(s, step), steps) && LeavesKey(Next(s, step), steps, key)
    ensures var t := After(Next(s, step), steps); q in t.readers && KeyAt(t, q) == key ==> !Enabled(t, Hit(q))
  {
    EntryStays(Next(s, step), steps, key);
  }

  /** The request hits, somewhere in the run, an entry that was computed without the write. */
  ghost predicate HitsStale(s: State, steps: seq<Step>, reader: nat, write: nat)
    requires IsRun(s, steps)
    decreases steps
  {
    && steps != []
    && ((steps[0] == Hit(reader) && write !in s.cache[Key(s.readers[reader].version, s.readers[reader].query)].writes)
        || HitsStale(Next(s, steps[0]), steps[1..], reader, write))
  }

  /** A request that is not answered yet, and has loaded no list without the write. */
  ghost predicate Pending(s: State, reader: nat, write: nat) {
    && write in s.database
    && (reader in s.readers ==>
          && !s.readers[reader].phase.Answered?
          && (s.readers[reader].phase.Loaded? ==> write in s.readers[reader].phase.list.writes))
  }

  ghost predicate AnsweredWith(s: State, reader: nat, body: Payload) {
    reader in s.readers && s.readers[reader].phase == Answered(body)
  }

  lemma StepWhilePending(s: State, step: Step, reader: nat, write: nat)
    requires Enabled(s, step) && Pending(s, reader, write)
    ensures var t := Next(s, step);
            || Pending(t, reader, write)
            || (reader in t.readers && t.readers[reader].phase.Answered?
                && (write !in t.readers[reader].phase.body.writes <==>
                      step == Hit(reader)
                      && write !in s.cache[Key(s.readers[reader].version, s.readers[reader].query)].writes))
    ensures step == Hit(reader) ==> !Pending(Next(s, step), reader, write)
  {
  }

  lemma {:induction false} AnswerStays(s: State, steps: seq<Step>, reader: nat, body: Payload, write: nat)
    requires IsRun(s, steps) && AnsweredWith(s, reader, body)
    ensures AnsweredWith(After(s, steps), reader, body) && !HitsStale(s, steps, reader, write)
    decreases steps
  {
    if steps != [] {
      assert AnsweredWith(Next(s, steps[0]), reader, body);
      AnswerStays(Next(s, steps[0]), steps[1..], reader, body, write);
    }
  }

  /**
   * Over every run, with resets and assumed versions anywhere: a request that comes after a commit is answered without it
   * exactly when it hits an entry that was computed without it.
   */
  lemma {:induction false} AnswerMissesExactly(s: State, steps: seq<Step>, reader: nat, write: nat)
    requires IsRun(s, steps) && Pending(s, reader, write)
    ensures var t := After(s, steps);
            reader in t.readers && t.readers[reader].phase.Answered? ==>
              (write !in t.readers[reader].phase.body.writes <==> HitsStale(s, steps, reader, write))
    decreases steps
  {
    if steps != [] {
      var t := Next(s, steps[0]);
      StepWhilePending(s, steps[0], reader, write);
      if Pending(t, reader, write) {
        AnswerMissesExactly(t, steps[1..], reader, write);
      } else {
        AnswerStays(t, steps[1..], reader, t.readers[reader].phase.body, write);
      }
    }
  }

  /** Every cache entry contains each write whose increment reached the entry's version, over every run. */
  lemma {:induction false} EntriesStayFresh(s: State, steps: seq<Step>)
    requires Valid(s) && IsSafeRun(s, steps)
    ensures Valid(AfterSafe(s, steps))
    ensures var t := AfterSafe(s, steps);
            forall k, p | k in t.cache && Published(t, p) && t.writers[p].at <= t.cache[k].version ::
              t.writers[p].write in t.cache[k].writes
    decreases steps
  {
    if steps != [] {
      StepKeepsValid(s, steps[0]);
      EntriesStayFresh(Next(s, steps[0]), steps[1..]);
    }
  }

  /** Over every such run a request whose text holds the separator once is answered with its own list. */
  lemma {:induction false} RequestsGetTheirOwnList(s: State, steps: seq<Step>, reader: nat)
    requires Valid(s) && IsSafeRun(s, steps)
    ensures var t := AfterSafe(s, steps);
            reader in t.readers && t.readers[reader].phase.Answered? && Unambiguous(t.readers[reader].query) ==>
              t.readers[reader].phase.body.query == t.readers[reader].query
    decreases steps
  {
    if steps != [] {
      StepKeepsValid(s, steps[0]);
      RequestsGetTheirOwnList(Next(s, steps[0]), steps[1..], reader);
    } else if reader in s.readers && s.readers[reader].phase.Answered? {
      var r := s.readers[reader];
      assert PhaseValid(s, r);
      KeyIsOwn(r.version, r.query);
    }
  }

  function Changed(): seq<Step> {
    [Commit(0, 7)] + ([Increment(0)] + [])
  }

  function CachedThenChanged(q: Query): seq<Step> {
    [ReadVersion(0, q)] + ([Miss(0)] + ([Load(0)] + ([Fill(0)] + Changed())))
  }

  ghost function Untouched(): State {
    State({}, Some(1), map[], map[], map[])
  }

  /** The empty list of the untouched database is cached and answered. */
  ghost function Cached(q: Query): State {
    var list := Payload(q, 1, {});
    State({}, Some(1), map[Key(1, q) := list], map[0 := Reader(q, 1, Answered(list))], map[])
  }

  lemma CachedIsChanged(q: Query)
    ensures IsRun(Cached(q), Changed())
    ensures After(Cached(q), Changed()) == Cached(q).(database := {7}, version := Some(2), writers := map[0 := Bumped(7, 2)])
  {
    var s5 := Next(Cached(q), Commit(0, 7));
    OneStep(s5, Increment(0), []);
    OneStep(Cached(q), Commit(0, 7), [Increment(0)] + []);
  }

  lemma StaleEntryRemains(q: Query)
    ensures IsRun(Untouched(), CachedThenChanged(q))
    ensures After(Untouched(), CachedThenChanged(q)) == After(Cached(q), Changed())
  {
    CachedIsChanged(q);
    var rest := Changed();
    var s1 := Next(Untouched(), ReadVersion(0, q));
    var s2 := Next(s1, Miss(0));
    var s3 := Next(s2, Load(0));
    assert Next(s3, Fill(0)) == Cached(q);
    OneStep(s3, Fill(0), rest);
    OneStep(s2, Load(0), [Fill(0)] + rest);
    OneStep(s1, Miss(0), [Load(0)] + ([Fill(0)] + rest));
    OneStep(Untouched(), ReadVersion(0, q), [Miss(0)] + ([Load(0)] + ([Fill(0)] + rest)));
  }

  /** A failed GET of the counter sets it back: the next request is served a list from before a published write. */
  lemma ResetServesStaleList(q: Query)
    ensures Valid(Untouched()) && IsRun(Untouched(), CachedThenChanged(q))
    ensures var t := After(Untouched(), CachedThenChanged(q));
            var late := [ResetVersion(1, q)] + ([Hit(1)] + []);
            && Published(t, 0) && t.writers[0].write == 7
            && 1 !in t.readers && IsRun(t, late) && 1 in After(t, late).readers
            && After(t, late).readers[1].phase == Answered(Payload(q, 1, {}))
  {
    StaleEntryRemains(q);
    CachedIsChanged(q);
    var t := After(Untouched(), CachedThenChanged(q));
    var reset := Next(t, ResetVersion(1, q));
    assert reset.readers[1] == Reader(q, 1, Looking);
    OneStep(reset, Hit(1), []);
    OneStep(t, ResetVersion(1, q), [Hit(1)] + []);
  }

  /** Nor does it help that the counter stays: a request that can only assume version 1 is served that list as well. */
  lemma AssumingServesStaleList(q: Query)
    ensures Valid(Untouched()) && IsRun(Untouched(), CachedThenChanged(q))
    ensures var t := After(Untouched(), CachedThenChanged(q));
            var late := [AssumeVersion(1, q)] + ([Hit(1)] + []);
            && Published(t, 0) && t.writers[0].write == 7
            && 1 !in t.readers && IsSafeRun(t, late) && IsRun(t, late) && 1 in After(t, late).readers
            && After(t, late).readers[1].phase == Answered(Payload(q, 1, {}))
  {
    StaleEntryRemains(q);
    CachedIsChanged(q);
    var t := After(Untouched(), CachedThenChanged(q));
    var assumed := Next(t, AssumeVersion(1, q));
    assert assumed.readers[1] == Reader(q, 1, Looking);
    OneStep(assumed, Hit(1), []);
    OneStep(t, AssumeVersion(1, q), [Hit(1)] + []);
    assert ([AssumeVersion(1, q)] + ([Hit(1)] + []))[1..] == [Hit(1)] && [Hit(1)][1..] == [];
    assert IsSafeRun(Next(assumed, Hit(1)), []) && IsSafeRun(assumed, [Hit(1)]);
  }
}
