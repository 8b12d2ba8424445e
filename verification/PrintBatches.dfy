/**
 * Print batches: serial numbers in base 36, their allocation from one counter per product, and the activation of a
 * batch by concurrent requests.
 */
module PrintBatches {
  import opened Text

  // ---------------------------------------------------------------- base 36

  const Charset := "0123456789ABCDEFGHIJKLMNOPQRSTUVWXYZ"

  const MaxSerial := 60466175

  function Digit(n: nat): char
    requires n < 36
  {
    if n < 10 then '0' + n as char else 'A' + (n - 10) as char
  }

  function DigitValue(c: char): nat {
    if '0' <= c <= '9' then (c - '0') as nat else if 'A' <= c <= 'Z' then (c - 'A') as nat + 10 else 0
  }

  lemma CharsetDigits()
    ensures |Charset| == 36 && forall n: nat | n < 36 :: Charset[n] == Digit(n)
  {
  }

  lemma DigitOrder(m: nat, n: nat)
    requires m < 36 && n < 36
    ensures (m < n <==> Digit(m) < Digit(n)) && DigitValue(Digit(n)) == n
  {
  }

  /** The k lowest digits, highest first. */
  function Digits(n: nat, k: nat): (s: string)
    ensures |s| == k
  {
    if k == 0 then "" else Digits(n / 36, k - 1) + [Digit(n % 36)]
  }

  function Power(k: nat): nat {
    if k == 0 then 1 else 36 * Power(k - 1)
  }

  function Decode(s: string): nat {
    if s == "" then 0 else 36 * Decode(s[..|s| - 1]) + DigitValue(s[|s| - 1])
  }

  function Serial(n: nat): string {
    Digits(n, 5)
  }

  /** The array is filled from its last place to its first. */
  method ToBase36(n: nat) returns (text: string)
    ensures text == Serial(n)
  {
    CharsetDigits();
    var res := new char[5];
    var i, rest := 4, n;
    while i >= 0
      invariant -1 <= i <= 4
      invariant Serial(n) == Digits(rest, i + 1) + res[i + 1..]
      decreases i
    {
      res[i] := Charset[rest % 36];
      assert res[i..] == [Digit(rest % 36)] + res[i + 1..];
      assert Digits(rest, i + 1) == Digits(rest / 36, i) + [Digit(rest % 36)];
      rest := rest / 36;
      i := i - 1;
    }
    text := res[..];
  }

  lemma {:induction false} DecodeDigits(n: nat, k: nat)
    requires n < Power(k)
    ensures Decode(Digits(n, k)) == n
  {
    if k > 0 {
      DecodeDigits(n / 36, k - 1);
      DigitOrder(0, n % 36);
      assert Digits(n, k)[..k - 1] == Digits(n / 36, k - 1);
    }
  }

  lemma {:induction false} LastDecides(x: string, c: char, y: string, d: char)
    requires |x| == |y|
    ensures Precedes(x + [c], y + [d]) <==> Precedes(x, y) || (x == y && c < d)
  {
    if x == "" {
      assert x + [c] == [c] && y + [d] == [d];
    } else {
      assert (x + [c])[1..] == x[1..] + [c] && (y + [d])[1..] == y[1..] + [d];
      LastDecides(x[1..], c, y[1..], d);
      assert x == [x[0]] + x[1..] && y == [y[0]] + y[1..];
    }
  }

  lemma {:induction false} DigitsOrder(m: nat, n: nat, k: nat)
    requires m < Power(k) && n < Power(k)
    ensures m < n <==> Precedes(Digits(m, k), Digits(n, k))
    ensures m == n <==> Digits(m, k) == Digits(n, k)
  {
    if k > 0 {
      DigitsOrder(m / 36, n / 36, k - 1);
      DigitOrder(m % 36, n % 36);
      DigitOrder(n % 36, m % 36);
      LastDecides(Digits(m / 36, k - 1), Digit(m % 36), Digits(n / 36, k - 1), Digit(n % 36));
      assert Digits(m, k)[..k - 1] == Digits(m / 36, k - 1) && Digits(n, k)[..k - 1] == Digits(n / 36, k - 1);
      assert Digits(m, k)[k - 1] == Digit(m % 36) && Digits(n, k)[k - 1] == Digit(n % 36);
    }
  }

  /** Up to the limit, and not one further, serials can be decoded and sort like their numbers. */
  lemma SerialsAreFaithful(m: nat, n: nat)
    requires m <= MaxSerial && n <= MaxSerial
    ensures Decode(Serial(n)) == n
    ensures m < n <==> Precedes(Serial(m), Serial(n))
    ensures Serial(MaxSerial + 1) == Serial(0)
  {
    assert Power(5) == MaxSerial + 1;
    DecodeDigits(n, 5);
    DigitsOrder(m, n, 5);
    assert Digits(60466176, 5) == Digits(0, 5);
  }

  // ---------------------------------------------------------------- allocation

  datatype Batch = Batch(product: string, start: nat, quantity: nat, startSN: string)

  datatype Store = Store(sequences: map<string, int>, batches: seq<Batch>)

  datatype Outcome = Printed | BadQuantity | LimitReached | Conflict | Failed

  function ValueOf(s: Store, product: string): int {
    if product in s.sequences then s.sequences[product] else 0
  }

  /** The end of a transaction that has seen a counter value: a failed one leaves nothing behind. */
  function Allocate(s: Store, product: string, seen: nat, quantity: nat, fault: bool): (Store, Outcome) {
    if seen + quantity > MaxSerial then (s, LimitReached)
    else if ValueOf(s, product) != seen then (s, Conflict)
    else if fault then (s, Failed)
    else (Store(s.sequences[product := seen + quantity],
                s.batches + [Batch(product, seen + 1, quantity, Serial(seen + 1))]), Printed)
  }

  class PrintDesk {
    var sequences: map<string, int>
    var batches: seq<Batch>

    function Contents(): Store
      reads this
    {
      Store(sequences, batches)
    }

    /** One transaction; fault says that a later statement of it fails. */
    method AtomicPrint(product: string, quantity: int, fault: bool) returns (outcome: Outcome)
      requires ValueOf(Contents(), product) >= 0
      modifies this
      ensures quantity <= 0 ==> outcome == BadQuantity && Contents() == old(Contents())
      ensures quantity > 0 ==>
                (Contents(), outcome) == Allocate(old(Contents()), product, ValueOf(old(Contents()), product), quantity, fault)
      ensures outcome == Printed <==> quantity > 0 && ValueOf(old(Contents()), product) + quantity <= 60466175 && !fault
      ensures outcome != Printed ==> Contents() == old(Contents())
      ensures outcome == Printed ==>
                var first := ValueOf(old(Contents()), product) + 1;
                && sequences == old(sequences)[product := first + quantity - 1]
                && batches == old(batches) + [Batch(product, first, quantity, Serial(first))]
    {
      if quantity <= 0 {
        return BadQuantity;
      }
      var sequencesBefore, batchesBefore := sequences, batches;
      if product !in sequences {
        sequences := sequences[product := 0];
      }
      var value := sequences[product];
      var startValue, nextValue := value + 1, value + quantity;
      if nextValue > MaxSerial {
        sequences := sequencesBefore;
        return LimitReached;
      }
      sequences := sequences[product := nextValue];
      var sn := ToBase36(startValue);
      batches := batches + [Batch(product, startValue, quantity, sn)];
      assert sequencesBefore[product := 0][product := nextValue] == sequencesBefore[product := nextValue];
      if fault {
        sequences, batches := sequencesBefore, batchesBefore;
        return Failed;
      }
      return Printed;
    }
  }

  /**
   * A request prints exactly when its serials stay within the limit, nobody has moved the counter since it was seen, and
   * nothing fails; it then gets the serials behind the counter, and no other counter moves.
   */
  lemma PrintsExactly(s: Store, product: string, seen: nat, quantity: nat, fault: bool)
    ensures var (after, outcome) := Allocate(s, product, seen, quantity, fault);
            && (outcome == Printed <==> seen + quantity <= 60466175 && ValueOf(s, product) == seen && !fault)
            && (outcome != Printed ==> after == s)
            && (outcome == Printed ==>
                  && (forall p :: ValueOf(after, p) == ValueOf(s, p) + if p == product then quantity else 0)
                  && exists b :: after.batches == s.batches + [b] && b.product == product && b.quantity == quantity
                       && b.start == seen + 1 && (quantity > 0 ==> Decode(b.startSN) == seen + 1))
  {
    var (after, outcome) := Allocate(s, product, seen, quantity, fault);
    if outcome == Printed {
      var b := Batch(product, seen + 1, quantity, Serial(seen + 1));
      assert after.batches == s.batches + [b];
      if quantity > 0 {
        SerialsAreFaithful(0, seen + 1);
      }
    }
  }

  // ---------------------------------------------------------------- allocation by concurrent requests

  datatype Request = Request(product: string, quantity: nat, seen: nat)

  datatype Desk = Desk(store: Store, requests: map<nat, Request>)

  datatype Step =
    | Read(p: nat, product: string, quantity: nat)
    | Finish(p: nat, fault: bool)

  predicate Enabled(d: Desk, step: Step) {
    match step
    case Read(p, product, quantity) => p !in d.requests && quantity > 0 && ValueOf(d.store, product) >= 0
    case Finish(p, _) => p in d.requests
  }

  function Next(d: Desk, step: Step): Desk
    requires Enabled(d, step)
  {
    match step
    case Read(p, product, quantity) => d.(requests := d.requests[p := Request(product, quantity, ValueOf(d.store, product))])
    case Finish(p, fault) =>
      var r := d.requests[p];
      Desk(Allocate(d.store, r.product, r.seen, r.quantity, fault).0, d.requests - {p})
  }

  predicate IsRun(d: Desk, steps: seq<Step>)
    decreases steps
  {
    steps == [] || (Enabled(d, steps[0]) && IsRun(Next(d, steps[0]), steps[1..]))
  }

  function After(d: Desk, steps: seq<Step>): Desk
    requires IsRun(d, steps)
    decreases steps
  {
    if steps == [] then d else After(Next(d, steps[0]), steps[1..])
  }

  /** The product's batches, in order, cover the serials after from up to and including to, without gap or overlap. */
  ghost predicate Tiles(batches: seq<Batch>, product: string, from: int, to: int) {
    if batches == [] then from == to
    else
      var last := batches[|batches| - 1];
      var front := batches[..|batches| - 1];
      if last.product != product then Tiles(front, product, from, to)
      else last.quantity > 0 && last.start + last.quantity - 1 == to && last.startSN == Serial(last.start)
           && Tiles(front, product, from, last.start - 1)
  }

  /** Counters stay within the limit, and the batches since the start tile what they have handed out. */
  ghost predicate Valid(base: map<string, int>, d: Desk) {
    && (forall product :: 0 <= ValueOf(d.store, product) <= MaxSerial)
    && (forall product :: Tiles(d.store.batches, product, ValueOf(Store(base, []), product), ValueOf(d.store, product)))
    && (forall p | p in d.requests :: d.requests[p].quantity > 0)
  }

  lemma TilesNext(batches: seq<Batch>, b: Batch, product: string, from: int, to: int)
    requires Tiles(batches, product, from, to)
    ensures b.product != product ==> Tiles(batches + [b], product, from, to)
    ensures b.product == product && b.quantity > 0 && b.start == to + 1 && b.startSN == Serial(b.start) ==>
              Tiles(batches + [b], product, from, to + b.quantity)
  {
    assert (batches + [b])[..|batches|] == batches;
  }

  lemma StepKeepsValid(base: map<string, int>, d: Desk, step: Step)
    requires Valid(base, d) && Enabled(d, step)
    ensures Valid(base, Next(d, step))
  {
    var t := Next(d, step);
    if step.Finish? && t.store != d.store {
      var r := d.requests[step.p];
      var b := Batch(r.product, r.seen + 1, r.quantity, Serial(r.seen + 1));
      forall product
        ensures Tiles(t.store.batches, product, ValueOf(Store(base, []), product), ValueOf(t.store, product))
      {
        TilesNext(d.store.batches, b, product, ValueOf(Store(base, []), product), ValueOf(d.store, product));
      }
    }
  }

  lemma {:induction false} RunsStayValid(base: map<string, int>, d: Desk, steps: seq<Step>)
    requires Valid(base, d) && IsRun(d, steps)
    ensures Valid(base, After(d, steps))
    decreases steps
  {
    if steps != [] {
      StepKeepsValid(base, d, steps[0]);
      RunsStayValid(base, Next(d, steps[0]), steps[1..]);
    }
  }

  ghost predicate Holds(b: Batch, product: string, serial: int) {
    b.product == product && b.start <= serial < b.start + b.quantity
  }

  /** Every serial handed out belongs to exactly one batch, every other one to none. */
  lemma {:induction false} TilesCover(batches: seq<Batch>, product: string, from: int, to: int, serial: int)
    requires Tiles(batches, product, from, to)
    ensures from <= to
    ensures from < serial <= to ==> exists i | 0 <= i < |batches| :: Holds(batches[i], product, serial)
    ensures forall i | 0 <= i < |batches| && Holds(batches[i], product, serial) :: from < serial <= to
    ensures forall i, j | 0 <= i < j < |batches| :: !(Holds(batches[i], product, serial) && Holds(batches[j], product, serial))
  {
    if batches != [] {
      var front, last := batches[..|batches| - 1], batches[|batches| - 1];
      if last.product != product {
        TilesCover(front, product, from, to, serial);
      } else {
        TilesCover(front, product, from, last.start - 1, serial);
      }
      if exists i | 0 <= i < |front| :: Holds(front[i], product, serial) {
        var i :| 0 <= i < |front| && Holds(front[i], product, serial);
        assert batches[i] == front[i];
      }
      if Holds(last, product, serial) {
        assert Holds(batches[|batches| - 1], product, serial);
      }
      assert forall i | 0 <= i < |front| :: batches[i] == front[i];
    }
  }

  /**
   * Over every run of concurrent requests the batches of a product partition the serials handed out since the start,
   * all of them within the limit.
   */
  lemma SerialsArePartitioned(base: map<string, int>, steps: seq<Step>, product: string, serial: int)
    requires forall k | k in base :: 0 <= base[k] <= MaxSerial
    requires IsRun(Desk(Store(base, []), map[]), steps)
    ensures var s := After(Desk(Store(base, []), map[]), steps).store;
            && (ValueOf(Store(base, []), product) < serial <= ValueOf(s, product) <==>
                  exists i | 0 <= i < |s.batches| :: Holds(s.batches[i], product, serial))
            && (forall i, j | 0 <= i < j < |s.batches| ::
                  !(Holds(s.batches[i], product, serial) && Holds(s.batches[j], product, serial)))
            && ValueOf(s, product) <= MaxSerial
  {
    var start := Desk(Store(base, []), map[]);
    RunsStayValid(base, start, steps);
    var s := After(start, steps).store;
    TilesCover(s.batches, product, ValueOf(Store(base, []), product), ValueOf(s, product), serial);
  }

  // ---------------------------------------------------------------- activation

  datatype Status = Fresh | PartiallyActivated | Activated | Scrapped

  datatype Activation = Activation(quantity: int, count: int, version: int, status: Status)

  datatype Attempt =
    | Arrived(count: int, version: int)
    | HasRead(count: int, version: int, read: int)
    | Rejected
    | Reported(effective: bool, version: int)

  /** An activation that took effect, and whose it was. */
  datatype Effect = Effect(p: nat, count: int)

  datatype Shop = Shop(batch: Activation, attempts: map<nat, Attempt>, effects: seq<Effect>)

  datatype Move =
    | Arrive(p: nat, count: int, version: int)
    | Look(p: nat)
    | Update(p: nat)
    | Scrap

  function Capped(a: Activation, read: int, count: int): int {
    if read + count > a.quantity then a.quantity else read + count
  }

  function Effective(a: Activation, read: int, count: int): Activation {
    var next := Capped(a, read, count);
    a.(count := next, version := a.version + 1, status := if next == a.quantity then Activated else PartiallyActivated)
  }

  predicate CanMove(s: Shop, m: Move) {
    match m
    case Arrive(p, _, _) => p !in s.attempts
    case Look(p) => p in s.attempts && s.attempts[p].Arrived?
    case Update(p) => p in s.attempts && s.attempts[p].HasRead?
    case Scrap => true
  }

  /** The update is conditional on the version, but how many rows it changed is not looked at. */
  function Moved(s: Shop, m: Move): Shop
    requires CanMove(s, m)
  {
    match m
    case Arrive(p, count, version) => s.(attempts := s.attempts[p := Arrived(count, version)])
    case Look(p) =>
      var a := s.attempts[p];
      if a.version != s.batch.version then s.(attempts := s.attempts[p := Rejected])
      else s.(attempts := s.attempts[p := HasRead(a.count, a.version, s.batch.count)])
    case Update(p) =>
      var a := s.attempts[p];
      if a.version != s.batch.version then s.(attempts := s.attempts[p := Reported(false, a.version)])
      else Shop(Effective(s.batch, a.read, a.count), s.attempts[p := Reported(true, a.version)],
                s.effects + [Effect(p, a.count)])
    case Scrap => s.(batch := s.batch.(status := Scrapped))
  }

  predicate IsHistory(s: Shop, moves: seq<Move>)
    decreases moves
  {
    moves == [] || (CanMove(s, moves[0]) && IsHistory(Moved(s, moves[0]), moves[1..]))
  }

  function Outcomes(s: Shop, moves: seq<Move>): Shop
    requires IsHistory(s, moves)
    decreases moves
  {
    if moves == [] then s else Outcomes(Moved(s, moves[0]), moves[1..])
  }

  /** The effective activations one after another, each on what the one before left. */
  function Replayed(a: Activation, effects: seq<Effect>, n: nat): Activation
    requires n <= |effects|
  {
    if n == 0 then a
    else
      var before := Replayed(a, effects, n - 1);
      Effective(before, before.count, effects[n - 1].count)
  }

  predicate TookEffect(s: Shop, p: nat) {
    p in s.attempts && s.attempts[p].Reported? && s.attempts[p].effective
  }

  ghost predicate InOrder(start: Activation, s: Shop) {
    var replayed := Replayed(start, s.effects, |s.effects|);
    && s.batch.(status := replayed.status) == replayed
    && s.batch.version == start.version + |s.effects|
  }

  /** A report of success stands at its version in the list of effects. */
  ghost predicate ReportRecorded(start: Activation, s: Shop, p: nat) {
    TookEffect(s, p) ==>
      var k := s.attempts[p].version - start.version; 0 <= k < |s.effects| && s.effects[k].p == p
  }

  ghost predicate EffectReported(start: Activation, s: Shop, k: nat)
    requires k < |s.effects|
  {
    s.effects[k].p in s.attempts && s.attempts[s.effects[k].p] == Reported(true, start.version + k)
  }

  /** The version of a pending attempt is not ahead of the batch; a report without effect is behind it. */
  ghost predicate ReadFits(start: Activation, s: Shop, p: nat) {
    p in s.attempts ==>
      var a := s.attempts[p];
      && (a.HasRead? ==>
            start.version <= a.version <= s.batch.version && (a.version == s.batch.version ==> a.read == s.batch.count))
      && (a.Reported? && !a.effective ==> start.version <= a.version < s.batch.version)
  }

  /** Readers of the current version have the current count; reports and effects agree, one effect per version. */
  ghost predicate Sound(start: Activation, s: Shop) {
    && InOrder(start, s) && s.batch.count <= s.batch.quantity == start.quantity
    && (forall p :: ReadFits(start, s, p))
    && (forall p :: ReportRecorded(start, s, p))
    && (forall k | 0 <= k < |s.effects| :: EffectReported(start, s, k))
  }

  lemma {:induction false} ReplayedPrefix(a: Activation, effects: seq<Effect>, e: Effect, n: nat)
    requires n <= |effects|
    ensures Replayed(a, effects + [e], n) == Replayed(a, effects, n)
  {
    if n > 0 {
      ReplayedPrefix(a, effects, e, n - 1);
    }
  }

  lemma MoveKeepsOrder(start: Activation, s: Shop, m: Move)
    requires InOrder(start, s) && s.batch.quantity == start.quantity && CanMove(s, m)
    requires m.Update? && s.attempts[m.p].version == s.batch.version ==> s.attempts[m.p].read == s.batch.count
    ensures InOrder(start, Moved(s, m))
  {
    if m.Update? {
      ReplayedPrefix(start, s.effects, Effect(m.p, s.attempts[m.p].count), |s.effects|);
    }
  }

  lemma MoveKeepsRecords(start: Activation, s: Shop, m: Move, p: nat)
    requires s.batch.version == start.version + |s.effects| && CanMove(s, m) && ReadFits(start, s, p) && ReportRecorded(start, s, p)
    ensures ReadFits(start, Moved(s, m), p) && ReportRecorded(start, Moved(s, m), p)
  {
  }

  lemma MoveKeepsEffect(start: Activation, s: Shop, m: Move, k: nat)
    requires s.batch.version == start.version + |s.effects| && CanMove(s, m) && k < |Moved(s, m).effects|
    requires k < |s.effects| ==> EffectReported(start, s, k)
    ensures EffectReported(start, Moved(s, m), k)
  {
  }

  lemma MoveKeepsSound(start: Activation, s: Shop, m: Move)
    requires Sound(start, s) && CanMove(s, m)
    ensures Sound(start, Moved(s, m))
  {
    assert m.Update? ==> ReadFits(start, s, m.p);
    MoveKeepsOrder(start, s, m);
    forall p ensures ReadFits(start, Moved(s, m), p) && ReportRecorded(start, Moved(s, m), p) {
      assert ReadFits(start, s, p) && ReportRecorded(start, s, p);
      MoveKeepsRecords(start, s, m, p);
    }
    forall k | 0 <= k < |Moved(s, m).effects| ensures EffectReported(start, Moved(s, m), k) {
      assert k < |s.effects| ==> EffectReported(start, s, k);
      MoveKeepsEffect(start, s, m, k);
    }
  }

  lemma {:induction false} HistoriesStaySound(start: Activation, s: Shop, moves: seq<Move>)
    requires Sound(start, s) && IsHistory(s, moves)
    ensures Sound(start, Outcomes(s, moves))
    decreases moves
  {
    if moves != [] {
      MoveKeepsSound(start, s, moves[0]);
      HistoriesStaySound(start, Moved(s, moves[0]), moves[1..]);
    }
  }

  /**
   * Under every interleaving the final count is that of the effective activations run one after another, each version
   * is used up by at most one of them, and the quantity is never exceeded.
   */
  lemma ActivationsAreSerial(start: Activation, moves: seq<Move>, p: nat, q: nat)
    requires start.count <= start.quantity && IsHistory(Shop(start, map[], []), moves)
    ensures var s := Outcomes(Shop(start, map[], []), moves);
            && s.batch.count == Replayed(start, s.effects, |s.effects|).count <= start.quantity
            && s.batch.version == start.version + |s.effects|
            && (TookEffect(s, p) && TookEffect(s, q) && s.attempts[p].version == s.attempts[q].version ==> p == q)
  {
    HistoriesStaySound(start, Shop(start, map[], []), moves);
    var s := Outcomes(Shop(start, map[], []), moves);
    assert ReportRecorded(start, s, p) && ReportRecorded(start, s, q);
  }

  /** The sum of the counts of the effects from place i up to place n. */
  function Total(effects: seq<Effect>, i: nat, n: nat): int
    requires n <= |effects|
  {
    if n <= i then 0 else Total(effects, i, n - 1) + effects[n - 1].count
  }

  /** The least of the start with all counts, and of the quantity with the counts behind each effect. */
  ghost predicate IsLeast(start: Activation, effects: seq<Effect>, n: nat, count: int)
    requires n <= |effects|
  {
    && count <= start.count + Total(effects, 0, n)
    && (forall i | 1 <= i <= n :: count <= start.quantity + Total(effects, i, n))
    && (count == start.count + Total(effects, 0, n) || exists i | 1 <= i <= n :: count == start.quantity + Total(effects, i, n))
  }

  lemma {:induction false} ReplayedIsLeast(start: Activation, effects: seq<Effect>, n: nat)
    requires n <= |effects|
    ensures Replayed(start, effects, n).quantity == start.quantity
    ensures IsLeast(start, effects, n, Replayed(start, effects, n).count)
  {
    if n > 0 {
      ReplayedIsLeast(start, effects, n - 1);
      var before, count := Replayed(start, effects, n - 1).count, Replayed(start, effects, n).count;
      var more := effects[n - 1].count;
      assert count == if before + more > start.quantity then start.quantity else before + more;
      assert Total(effects, n, n) == 0 && Total(effects, 0, n) == Total(effects, 0, n - 1) + more;
      forall i | 1 <= i <= n ensures count <= start.quantity + Total(effects, i, n) {
        if i < n {
          assert Total(effects, i, n) == Total(effects, i, n - 1) + more;
        }
      }
      if count != start.quantity && before != start.count + Total(effects, 0, n - 1) {
        var i :| 1 <= i <= n - 1 && before == start.quantity + Total(effects, i, n - 1);
        assert count == start.quantity + Total(effects, i, n);
      }
    }
  }

  lemma {:induction false} TotalIsPositive(effects: seq<Effect>, i: nat, n: nat)
    requires n <= |effects| && forall k | 0 <= k < |effects| :: effects[k].count >= 0
    ensures Total(effects, i, n) >= 0
  {
    if n > i {
      TotalIsPositive(effects, i, n - 1);
    }
  }

  /**
   * Over every history, whatever counts are asked for: the final count is the least of the start with all counts that took
   * effect, and of the quantity with the counts behind each of them. When none is negative, that is the start with all
   * counts, or the quantity if that is less.
   */
  lemma CountIsCappedSum(start: Activation, moves: seq<Move>)
    requires start.count <= start.quantity && IsHistory(Shop(start, map[], []), moves)
    ensures var s := Outcomes(Shop(start, map[], []), moves);
            && IsLeast(start, s.effects, |s.effects|, s.batch.count)
            && ((forall k | 0 <= k < |s.effects| :: s.effects[k].count >= 0) ==>
                  var sum := start.count + Total(s.effects, 0, |s.effects|);
                  s.batch.count == if sum <= start.quantity then sum else start.quantity)
  {
    HistoriesStaySound(start, Shop(start, map[], []), moves);
    var s := Outcomes(Shop(start, map[], []), moves);
    var n := |s.effects|;
    ReplayedIsLeast(start, s.effects, n);
    if forall k | 0 <= k < n :: s.effects[k].count >= 0 {
      forall i | 1 <= i <= n ensures Total(s.effects, i, n) >= 0 {
        TotalIsPositive(s.effects, i, n);
      }
      assert Total(s.effects, n, n) == 0;
    }
  }

  /** Attempts and effects have the counts that were asked for, and the row says whether the last of them filled it. */
  ghost predicate AsAsked(start: Activation, s: Shop, moves: seq<Move>) {
    && (forall p | p in s.attempts && (s.attempts[p].Arrived? || s.attempts[p].HasRead?) ::
          Arrive(p, s.attempts[p].count, s.attempts[p].version) in moves)
    && (forall k | 0 <= k < |s.effects| :: Arrive(s.effects[k].p, s.effects[k].count, start.version + k) in moves)
    && (s.effects != [] && s.batch.status != Scrapped ==>
          (s.batch.status == Activated <==> s.batch.count == s.batch.quantity)
          && (s.batch.status == PartiallyActivated <==> s.batch.count != s.batch.quantity))
    && (s.effects == [] ==> s.batch == start || s.batch == start.(status := Scrapped))
  }

  lemma MoveIsAsked(start: Activation, s: Shop, moves: seq<Move>, m: Move)
    requires AsAsked(start, s, moves) && CanMove(s, m) && s.batch.version == start.version + |s.effects|
    ensures AsAsked(start, Moved(s, m), moves + [m])
  {
    var t, more := Moved(s, m), moves + [m];
    assert more[|moves|] == m;
    assert forall other | other in moves :: other in more;
  }

  lemma {:induction false} HistoryIsAsked(start: Activation, s: Shop, before: seq<Move>, moves: seq<Move>)
    requires Sound(start, s) && AsAsked(start, s, before) && IsHistory(s, moves)
    ensures AsAsked(start, Outcomes(s, moves), before + moves)
    decreases moves
  {
    if moves == [] {
      assert before + moves == before;
    } else {
      MoveIsAsked(start, s, before, moves[0]);
      MoveKeepsSound(start, s, moves[0]);
      HistoryIsAsked(start, Moved(s, moves[0]), before + [moves[0]], moves[1..]);
      assert before + [moves[0]] + moves[1..] == before + moves;
    }
  }

  /**
   * Over every history, the effects are activations that were asked for, with the counts and at the versions asked for; and
   * a row that an activation wrote last is activated exactly when its count is its quantity, and partially otherwise.
   */
  lemma EffectsWereAsked(start: Activation, moves: seq<Move>)
    requires start.count <= start.quantity && IsHistory(Shop(start, map[], []), moves)
    ensures AsAsked(start, Outcomes(Shop(start, map[], []), moves), moves)
  {
    HistoryIsAsked(start, Shop(start, map[], []), [], moves);
    assert [] + moves == moves;
  }

  /**
   * Over every history, a reported activation took effect if and only if no other activation took effect at its version:
   * whoever is told of success without an effect was overtaken by another one.
   */
  lemma ReportedTookEffectExactly(start: Activation, moves: seq<Move>, p: nat)
    requires start.count <= start.quantity && IsHistory(Shop(start, map[], []), moves)
    requires var s := Outcomes(Shop(start, map[], []), moves); p in s.attempts && s.attempts[p].Reported?
    ensures var s := Outcomes(Shop(start, map[], []), moves);
            s.attempts[p].effective <==> forall q | TookEffect(s, q) && q != p :: s.attempts[q].version != s.attempts[p].version
  {
    HistoriesStaySound(start, Shop(start, map[], []), moves);
    var s := Outcomes(Shop(start, map[], []), moves);
    assert ReadFits(start, s, p) && ReportRecorded(start, s, p);
    if s.attempts[p].effective {
      forall q | TookEffect(s, q) && q != p ensures s.attempts[q].version != s.attempts[p].version {
        assert ReportRecorded(start, s, q);
      }
    } else {
      assert EffectReported(start, s, s.attempts[p].version - start.version);
    }
  }

  lemma OneMove(s: Shop, m: Move, rest: seq<Move>)
    requires CanMove(s, m) && IsHistory(Moved(s, m), rest)
    ensures IsHistory(s, [m] + rest) && Outcomes(s, [m] + rest) == Outcomes(Moved(s, m), rest)
  {
    assert ([m] + rest)[1..] == rest;
  }

  function TwoAtOnce(version: int): seq<Move> {
    [Arrive(0, 1, version)] + ([Arrive(1, 1, version)] + ([Look(0)] + ([Look(1)] + ([Update(0)] + ([Update(1)] + [])))))
  }

  /** Two requests that both read before either writes are both told that they succeeded; only one had an effect. */
  lemma LostActivationIsReported(start: Activation)
    requires start.count < start.quantity
    ensures IsHistory(Shop(start, map[], []), TwoAtOnce(start.version))
    ensures var s := Outcomes(Shop(start, map[], []), TwoAtOnce(start.version));
            0 in s.attempts && 1 in s.attempts
            && s.attempts[0] == Reported(true, start.version) && s.attempts[1] == Reported(false, start.version)
            && s.batch.count == start.count + 1
  {
    var v := start.version;
    var s0 := Shop(start, map[], []);
    var s1 := Moved(s0, Arrive(0, 1, v));
    var s2 := Moved(s1, Arrive(1, 1, v));
    var s3 := Moved(s2, Look(0));
    var s4 := Moved(s3, Look(1));
    var s5 := Moved(s4, Update(0));
    OneMove(s5, Update(1), []);
    OneMove(s4, Update(0), [Update(1)] + []);
    OneMove(s3, Look(1), [Update(0)] + ([Update(1)] + []));
    OneMove(s2, Look(0), [Look(1)] + ([Update(0)] + ([Update(1)] + [])));
    OneMove(s1, Arrive(1, 1, v), [Look(0)] + ([Look(1)] + ([Update(0)] + ([Update(1)] + []))));
    OneMove(s0, Arrive(0, 1, v), [Arrive(1, 1, v)] + ([Look(0)] + ([Look(1)] + ([Update(0)] + ([Update(1)] + [])))));
  }

  // ---------------------------------------------------------------- scrapping

  /** The state before the n-th move. */
  function StateAt(s: Shop, moves: seq<Move>, n: nat): Shop
    requires n <= |moves|
  {
    if n == 0 then s
    else
      var before := StateAt(s, moves, n - 1);
      if CanMove(before, moves[n - 1]) then Moved(before, moves[n - 1]) else before
  }

  lemma {:induction false} StateAfterFirst(s: Shop, moves: seq<Move>, n: nat)
    requires 0 < n <= |moves| && CanMove(s, moves[0])
    ensures StateAt(s, moves, n) == StateAt(Moved(s, moves[0]), moves[1..], n - 1)
  {
    if n > 1 {
      StateAfterFirst(s, moves, n - 1);
      assert moves[1..][n - 2] == moves[n - 1];
    } else {
      assert StateAt(s, moves, 0) == s;
    }
  }

  lemma {:induction false} StateAtEnd(s: Shop, moves: seq<Move>)
    requires IsHistory(s, moves)
    ensures StateAt(s, moves, |moves|) == Outcomes(s, moves)
    decreases moves
  {
    if moves != [] {
      StateAtEnd(Moved(s, moves[0]), moves[1..]);
      StateAfterFirst(s, moves, |moves|);
    }
  }

  /** The n-th move is an activation that writes the row. */
  predicate WritesAt(s: Shop, moves: seq<Move>, n: nat)
    requires n < |moves|
  {
    var before := StateAt(s, moves, n);
    moves[n].Update? && CanMove(before, moves[n]) && before.attempts[moves[n].p].version == before.batch.version
  }

  ghost predicate NoWriteBetween(s: Shop, moves: seq<Move>, i: nat, n: nat)
    requires n <= |moves|
  {
    forall j | i <= j < n :: !WritesAt(s, moves, j)
  }

  ghost predicate MarkStands(s: Shop, moves: seq<Move>, i: nat, n: nat)
    requires n <= |moves|
  {
    i < n && moves[i] == Scrap && NoWriteBetween(s, moves, i + 1, n)
  }

  lemma {:induction false} StatusAt(s: Shop, moves: seq<Move>, n: nat)
    requires n <= |moves|
    ensures StateAt(s, moves, n).batch.status == Scrapped <==>
              (s.batch.status == Scrapped && NoWriteBetween(s, moves, 0, n)) || exists i: nat :: MarkStands(s, moves, i, n)
  {
    if n > 0 {
      var m := n - 1;
      StatusAt(s, moves, m);
      if moves[m] == Scrap {
        assert MarkStands(s, moves, m, n);
      } else if WritesAt(s, moves, m) {
        forall i: nat ensures !MarkStands(s, moves, i, n) && !NoWriteBetween(s, moves, 0, n) {
        }
      } else {
        forall i: nat ensures MarkStands(s, moves, i, n) <==> MarkStands(s, moves, i, m) {
        }
      }
    }
  }

  /**
   * Over every history the batch ends scrapped if and only if it was scrapped at some point, or at the start, and no
   * activation wrote the row after that.
   */
  lemma ScrappedExactly(s: Shop, moves: seq<Move>)
    requires IsHistory(s, moves)
    ensures Outcomes(s, moves).batch.status == Scrapped <==>
              (s.batch.status == Scrapped && NoWriteBetween(s, moves, 0, |moves|))
              || exists i: nat :: MarkStands(s, moves, i, |moves|)
  {
    StateAtEnd(s, moves);
    StatusAt(s, moves, |moves|);
  }

  function ScrappedBetween(version: int): seq<Move> {
    [Arrive(0, 1, version)] + ([Look(0)] + ([Scrap] + ([Update(0)] + [])))
  }

  /** A request that has read the batch before it is scrapped takes the mark away again and reports success. */
  lemma ScrapIsOverwritten(start: Activation)
    ensures IsHistory(Shop(start, map[], []), ScrappedBetween(start.version))
    ensures var s := Outcomes(Shop(start, map[], []), ScrappedBetween(start.version));
            s.batch.status != Scrapped && TookEffect(s, 0)
  {
    var s0 := Shop(start, map[], []);
    var s1 := Moved(s0, Arrive(0, 1, start.version));
    var s2 := Moved(s1, Look(0));
    var s3 := Moved(s2, Scrap);
    OneMove(s3, Update(0), []);
    OneMove(s2, Scrap, [Update(0)] + []);
    OneMove(s1, Look(0), [Scrap] + ([Update(0)] + []));
    OneMove(s0, Arrive(0, 1, start.version), [Look(0)] + ([Scrap] + ([Update(0)] + [])));
  }
}
