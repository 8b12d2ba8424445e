/**
 * The closure summary of customers: status rows of sales orders are added up per customer, and each customer's status
 * counts and primary status are derived. The status machine and the parsing of dates are parameters.
 */
module SalesSummary {
  import opened Text

  datatype Row = Row(customer: string, status: string, count: int, date: string)

  /** The statuses of a sales order. */
  datatype Statuses =
    Statuses(inProgress: string, scheduling: string, pending: string, draft: string, done: string, canceled: string)

  /** The normalizer of statuses, the place of a status in the catalogue, lower case, and the parser of dates. */
  datatype Rules = Rules(
    statuses: Statuses,
    normalize: string -> string,
    weight: string -> int,
    lower: string -> string,
    parse: string -> Option<int>)

  predicate Clean(code: string) {
    code != "" && TrimSpace(code) == code
  }

  function StatusCode(r: Rules, raw: string): string {
    var lowered := r.lower(TrimSpace(raw));
    if lowered == "voided" || lowered == "void" then r.statuses.canceled
    else
      var normalized := TrimSpace(r.normalize(raw));
      if normalized != "" then normalized else "UNKNOWN"
  }

  datatype Account = Account(counts: map<string, int>, total: int, canceled: int, lastDate: string, parsed: Option<int>)

  const NewAccount := Account(map[], 0, 0, "", None)

  type Accounts = map<string, Account>

  function CountAt(counts: map<string, int>, code: string): int {
    if code in counts then counts[code] else 0
  }

  function Orders(row: Row): nat {
    if row.count < 0 then 0 else row.count
  }

  predicate CountsAsCanceled(r: Rules, row: Row) {
    r.normalize(StatusCode(r, row.status)) == r.statuses.canceled
  }

  // ---------------------------------------------------------------- sums over rows

  /** The orders in the first n rows that satisfy p. */
  function SumRows(rows: seq<Row>, n: nat, p: Row -> bool): nat
    requires n <= |rows|
  {
    if n == 0 then 0 else SumRows(rows, n - 1, p) + (if p(rows[n - 1]) then Orders(rows[n - 1]) else 0)
  }

  function OfCustomer(customer: string): Row -> bool {
    (row: Row) => TrimSpace(row.customer) == customer
  }

  function OfStatus(r: Rules, customer: string, code: string): Row -> bool {
    (row: Row) => TrimSpace(row.customer) == customer && StatusCode(r, row.status) == code
  }

  function OfCanceled(r: Rules, customer: string): Row -> bool {
    (row: Row) => TrimSpace(row.customer) == customer && CountsAsCanceled(r, row)
  }

  const OfAnyone: Row -> bool := (row: Row) => TrimSpace(row.customer) != ""

  lemma {:induction false} SumBounded(rows: seq<Row>, n: nat, p: Row -> bool, q: Row -> bool)
    requires n <= |rows| && forall row | p(row) :: q(row)
    ensures SumRows(rows, n, p) <= SumRows(rows, n, q)
  {
    if n > 0 {
      SumBounded(rows, n - 1, p, q);
    }
  }

  // ---------------------------------------------------------------- sums over maps

  ghost function SumValues(m: map<string, int>): int {
    if m == map[] then 0
    else
      var k :| k in m;
      m[k] + SumValues(m - {k})
  }

  lemma {:induction false} SumWithout(m: map<string, int>, k: string)
    requires k in m
    ensures SumValues(m) == m[k] + SumValues(m - {k})
  {
    var first :| first in m && SumValues(m) == m[first] + SumValues(m - {first});
    if first != k {
      SumWithout(m - {first}, k);
      SumWithout(m - {k}, first);
      assert m - {first} - {k} == m - {k} - {first};
    }
  }

  lemma SumUpdate(m: map<string, int>, k: string, v: int)
    ensures SumValues(m[k := v]) == SumValues(m) - CountAt(m, k) + v
  {
    SumWithout(m[k := v], k);
    if k in m {
      SumWithout(m, k);
      assert m[k := v] - {k} == m - {k};
    } else {
      assert m[k := v] - {k} == m;
    }
  }

  ghost function Totals(accounts: Accounts): map<string, int> {
    map customer | customer in accounts :: accounts[customer].total
  }

  // ---------------------------------------------------------------- accumulation

  function AccountAt(accounts: Accounts, customer: string): Account {
    if customer in accounts then accounts[customer] else NewAccount
  }

  /** The counts of each status among the first n rows. */
  ghost predicate HoldsCounts(r: Rules, rows: seq<Row>, n: nat, customer: string, counts: map<string, int>)
    requires n <= |rows|
  {
    forall code :: CountAt(counts, code) == SumRows(rows, n, OfStatus(r, customer, code))
  }

  ghost predicate CleanCounts(counts: map<string, int>) {
    forall code | code in counts :: Clean(code) && counts[code] >= 0
  }

  /** What an account holds of the first n rows. */
  ghost predicate Holds(r: Rules, rows: seq<Row>, n: nat, customer: string, a: Account)
    requires n <= |rows|
  {
    && a.total == SumRows(rows, n, OfCustomer(customer))
    && a.canceled == SumRows(rows, n, OfCanceled(r, customer))
    && HoldsCounts(r, rows, n, customer, a.counts)
    && CleanCounts(a.counts) && SumValues(a.counts) == a.total
  }

  ghost predicate EachHolds(r: Rules, rows: seq<Row>, n: nat, accounts: Accounts)
    requires n <= |rows|
  {
    forall customer | customer != "" :: Holds(r, rows, n, customer, AccountAt(accounts, customer))
  }

  ghost predicate Named(rows: seq<Row>, n: nat, customer: string)
    requires n <= |rows|
  {
    customer != "" && exists i | 0 <= i < n :: TrimSpace(rows[i].customer) == customer
  }

  /** Exactly the customers named in the rows have an account. */
  ghost predicate KnowsCustomers(rows: seq<Row>, n: nat, accounts: Accounts)
    requires n <= |rows|
  {
    forall customer :: customer in accounts <==> Named(rows, n, customer)
  }

  ghost predicate AddsUp(rows: seq<Row>, n: nat, accounts: Accounts)
    requires n <= |rows|
  {
    SumValues(Totals(accounts)) == SumRows(rows, n, OfAnyone)
  }

  function Dated(r: Rules, a: Account, row: Row): Account {
    var text := TrimSpace(row.date);
    match r.parse(text)
    case Some(at) => if a.parsed.None? || at > a.parsed.value then a.(lastDate := text, parsed := Some(at)) else a
    case None => if a.lastDate == "" then a.(lastDate := text) else a
  }

  function AddOrders(a: Account, code: string, orders: nat, canceled: bool): Account {
    a.(total := a.total + orders,
       counts := Raised(a.counts, code, orders),
       canceled := a.canceled + (if canceled then orders else 0))
  }

  function Added(r: Rules, a: Account, row: Row): Account {
    AddOrders(a, StatusCode(r, row.status), Orders(row), CountsAsCanceled(r, row))
  }

  function Raised(counts: map<string, int>, code: string, orders: nat): map<string, int> {
    counts[code := CountAt(counts, code) + orders]
  }

  lemma CountsRaised(counts: map<string, int>, code: string, orders: nat)
    requires Clean(code) && CleanCounts(counts)
    ensures CleanCounts(Raised(counts, code, orders))
    ensures SumValues(Raised(counts, code, orders)) == SumValues(counts) + orders
  {
    SumUpdate(counts, code, CountAt(counts, code) + orders);
  }

  lemma CountsNext(r: Rules, rows: seq<Row>, n: nat, counts: map<string, int>)
    requires n < |rows| && HoldsCounts(r, rows, n, TrimSpace(rows[n].customer), counts)
    ensures HoldsCounts(r, rows, n + 1, TrimSpace(rows[n].customer), Raised(counts, StatusCode(r, rows[n].status), Orders(rows[n])))
  {
    var customer, own := TrimSpace(rows[n].customer), StatusCode(r, rows[n].status);
    forall code
      ensures CountAt(Raised(counts, own, Orders(rows[n])), code) == SumRows(rows, n + 1, OfStatus(r, customer, code))
    {
      assert CountAt(counts, code) == SumRows(rows, n, OfStatus(r, customer, code));
    }
  }

  lemma StatusCodeIsClean(r: Rules, raw: string)
    requires Clean(r.statuses.canceled)
    ensures Clean(StatusCode(r, raw))
  {
    var normalized := r.normalize(raw);
    TrimOfTight(TrimSpace(normalized));
    TrimOfTight("UNKNOWN");
  }

  /** The account b is a with one more row. */
  ghost predicate OneMore(r: Rules, a: Account, row: Row, b: Account) {
    && b.total == a.total + Orders(row)
    && b.canceled == a.canceled + (if CountsAsCanceled(r, row) then Orders(row) else 0)
    && b.counts == Raised(a.counts, StatusCode(r, row.status), Orders(row))
  }

  lemma AddedIsOneMore(r: Rules, a: Account, row: Row)
    ensures OneMore(r, a, row, Dated(r, Added(r, a, row), row))
  {
  }

  lemma RowAdded(r: Rules, rows: seq<Row>, n: nat, a: Account, b: Account)
    requires Clean(r.statuses.canceled)
    requires n < |rows| && Holds(r, rows, n, TrimSpace(rows[n].customer), a) && OneMore(r, a, rows[n], b)
    ensures Holds(r, rows, n + 1, TrimSpace(rows[n].customer), b)
  {
    StatusCodeIsClean(r, rows[n].status);
    CountsRaised(a.counts, StatusCode(r, rows[n].status), Orders(rows[n]));
    CountsNext(r, rows, n, a.counts);
  }

  lemma OtherRow(r: Rules, rows: seq<Row>, n: nat, customer: string, a: Account)
    requires n < |rows| && customer != TrimSpace(rows[n].customer) && Holds(r, rows, n, customer, a)
    ensures Holds(r, rows, n + 1, customer, a)
  {
  }

  function WithRow(r: Rules, accounts: Accounts, row: Row): Accounts {
    var customer := TrimSpace(row.customer);
    if customer == "" then accounts
    else accounts[customer := Dated(r, Added(r, AccountAt(accounts, customer), row), row)]
  }

  /** The accounts of all rows, added one by one. */
  function AllRows(r: Rules, rows: seq<Row>): Accounts {
    if rows == [] then map[] else WithRow(r, AllRows(r, rows[..|rows| - 1]), rows[|rows| - 1])
  }

  lemma EachHoldsNext(r: Rules, rows: seq<Row>, n: nat, accounts: Accounts)
    requires Clean(r.statuses.canceled) && n < |rows| && EachHolds(r, rows, n, accounts)
    ensures EachHolds(r, rows, n + 1, WithRow(r, accounts, rows[n]))
  {
    forall customer | customer != ""
      ensures Holds(r, rows, n + 1, customer, AccountAt(WithRow(r, accounts, rows[n]), customer))
    {
      assert Holds(r, rows, n, customer, AccountAt(accounts, customer));
      if customer == TrimSpace(rows[n].customer) {
        AddedIsOneMore(r, AccountAt(accounts, customer), rows[n]);
        RowAdded(r, rows, n, AccountAt(accounts, customer), AccountAt(WithRow(r, accounts, rows[n]), customer));
      } else {
        OtherRow(r, rows, n, customer, AccountAt(accounts, customer));
      }
    }
  }

  lemma KnowsCustomersNext(r: Rules, rows: seq<Row>, n: nat, accounts: Accounts)
    requires n < |rows| && KnowsCustomers(rows, n, accounts)
    ensures KnowsCustomers(rows, n + 1, WithRow(r, accounts, rows[n]))
  {
    var own := TrimSpace(rows[n].customer);
    assert own != "" ==> Named(rows, n + 1, own);
    forall customer ensures Named(rows, n + 1, customer) <==> Named(rows, n, customer) || (customer != "" && customer == own) {
    }
  }

  lemma AddsUpWith(rows: seq<Row>, n: nat, accounts: Accounts, added: Account)
    requires n < |rows| && AddsUp(rows, n, accounts) && TrimSpace(rows[n].customer) != ""
    requires added.total == AccountAt(accounts, TrimSpace(rows[n].customer)).total + Orders(rows[n])
    ensures AddsUp(rows, n + 1, accounts[TrimSpace(rows[n].customer) := added])
  {
    var customer := TrimSpace(rows[n].customer);
    SumUpdate(Totals(accounts), customer, added.total);
    assert Totals(accounts[customer := added]) == Totals(accounts)[customer := added.total];
  }

  lemma AddsUpNext(r: Rules, rows: seq<Row>, n: nat, accounts: Accounts)
    requires n < |rows| && AddsUp(rows, n, accounts)
    ensures AddsUp(rows, n + 1, WithRow(r, accounts, rows[n]))
  {
    var account := AccountAt(accounts, TrimSpace(rows[n].customer));
    if TrimSpace(rows[n].customer) != "" {
      AddedIsOneMore(r, account, rows[n]);
      AddsUpWith(rows, n, accounts, Dated(r, Added(r, account, rows[n]), rows[n]));
    }
  }

  ghost predicate Summarizes(r: Rules, rows: seq<Row>, n: nat, accounts: Accounts)
    requires n <= |rows|
  {
    && EachHolds(r, rows, n, accounts) && KnowsCustomers(rows, n, accounts) && AddsUp(rows, n, accounts)
    && accounts == AllRows(r, rows[..n])
  }

  lemma SummarizesNext(r: Rules, rows: seq<Row>, n: nat, accounts: Accounts)
    requires Clean(r.statuses.canceled) && n < |rows| && Summarizes(r, rows, n, accounts)
    ensures Summarizes(r, rows, n + 1, WithRow(r, accounts, rows[n]))
  {
    EachHoldsNext(r, rows, n, accounts);
    KnowsCustomersNext(r, rows, n, accounts);
    AddsUpNext(r, rows, n, accounts);
    assert AllRows(r, rows[..n + 1]) == WithRow(r, AllRows(r, rows[..n]), rows[n]) by {
      assert rows[..n + 1][..n] == rows[..n];
    }
  }

  /** Per customer: the counts of each status, of all orders and of canceled ones; nothing is lost or counted twice. */
  method Accumulate(r: Rules, rows: seq<Row>) returns (accounts: Accounts)
    requires Clean(r.statuses.canceled)
    ensures EachHolds(r, rows, |rows|, accounts) && KnowsCustomers(rows, |rows|, accounts) && AddsUp(rows, |rows|, accounts)
    ensures accounts == AllRows(r, rows)
  {
    accounts := map[];
    assert Summarizes(r, rows, 0, accounts);
    for n := 0 to |rows|
      invariant Summarizes(r, rows, n, accounts)
    {
      SummarizesNext(r, rows, n, accounts);
      accounts := AddRow(r, accounts, rows[n]);
    }
    assert rows[..|rows|] == rows;
  }

  method AddRow(r: Rules, accounts: Accounts, row: Row) returns (next: Accounts)
    ensures next == WithRow(r, accounts, row)
  {
    var customer := TrimSpace(row.customer);
    if customer == "" {
      return accounts;
    }
    var account := AccountAt(accounts, customer);
    var orderCount := row.count;
    if orderCount < 0 {
      orderCount := 0;
    }
    var code := StatusCode(r, row.status);
    account := account.(total := account.total + orderCount);
    account := account.(counts := account.counts[code := CountAt(account.counts, code) + orderCount]);
    if r.normalize(code) == r.statuses.canceled {
      account := account.(canceled := account.canceled + orderCount);
    }
    assert account == Added(r, AccountAt(accounts, customer), row);
    return accounts[customer := Dated(r, account, row)];
  }

  // ---------------------------------------------------------------- the order of the rows

  lemma {:induction false} SumSplit(a: seq<Row>, b: seq<Row>, n: nat, p: Row -> bool)
    requires n <= |b|
    ensures SumRows(a + b, |a| + n, p) == SumRows(a, |a|, p) + SumRows(b, n, p)
  {
    if n == 0 {
      SumPrefix(a, b, |a|, p);
    } else {
      SumSplit(a, b, n - 1, p);
      assert (a + b)[|a| + n - 1] == b[n - 1];
    }
  }

  lemma {:induction false} SumPrefix(a: seq<Row>, b: seq<Row>, n: nat, p: Row -> bool)
    requires n <= |a|
    ensures SumRows(a + b, n, p) == SumRows(a, n, p)
  {
    if n > 0 {
      SumPrefix(a, b, n - 1, p);
    }
  }

  lemma SumOneMore(a: seq<Row>, row: Row, p: Row -> bool)
    ensures SumRows(a + [row], |a| + 1, p) == SumRows(a, |a|, p) + (if p(row) then Orders(row) else 0)
  {
    SumPrefix(a, [row], |a|, p);
  }

  lemma SumWithoutRow(rows: seq<Row>, i: nat, p: Row -> bool)
    requires i < |rows|
    ensures SumRows(rows, |rows|, p) == SumRows(rows[..i] + rows[i + 1..], |rows| - 1, p) + (if p(rows[i]) then Orders(rows[i]) else 0)
  {
    var a, b := rows[..i], rows[i + 1..];
    assert rows == a + [rows[i]] + b;
    SumSplit(a + [rows[i]], b, |b|, p);
    SumOneMore(a, rows[i], p);
    SumSplit(a, b, |b|, p);
  }

  lemma WithoutAt(rows: seq<Row>, i: nat)
    requires i < |rows|
    ensures multiset(rows[..i] + rows[i + 1..]) == multiset(rows) - multiset{rows[i]}
  {
    assert rows == rows[..i] + [rows[i]] + rows[i + 1..];
  }

  lemma RowElsewhere(a: seq<Row>, b: seq<Row>) returns (i: nat)
    requires multiset(a) == multiset(b) && a != []
    ensures i < |b| && b[i] == a[|a| - 1] && multiset(b[..i] + b[i + 1..]) == multiset(a[..|a| - 1])
  {
    var n := |a| - 1;
    assert a[n] in multiset(b);
    i :| 0 <= i < |b| && b[i] == a[n];
    WithoutAt(b, i);
    WithoutAt(a, n);
    assert a[..n] + a[n + 1..] == a[..n];
  }

  /** Sums do not depend on the order of the rows, and so neither do the accounts. */
  lemma {:induction false} SumsIgnoreOrder(a: seq<Row>, b: seq<Row>, p: Row -> bool)
    requires multiset(a) == multiset(b)
    ensures |a| == |b| && SumRows(a, |a|, p) == SumRows(b, |b|, p)
    decreases a
  {
    assert |multiset(a)| == |a| && |multiset(b)| == |b|;
    if a != [] {
      var front := a[..|a| - 1];
      var i := RowElsewhere(a, b);
      SumsIgnoreOrder(front, b[..i] + b[i + 1..], p);
      SumWithoutRow(b, i, p);
      SumPrefix(front, [a[|a| - 1]], |front|, p);
      assert a == front + [a[|a| - 1]];
    }
  }

  /** Accounts of the same rows in another order agree in everything but the text of the last date. */
  lemma AccountsIgnoreOrder(r: Rules, a: seq<Row>, b: seq<Row>, customer: string, x: Account, y: Account)
    requires multiset(a) == multiset(b) && Holds(r, a, |a|, customer, x) && Holds(r, b, |b|, customer, y)
    ensures x.total == y.total && x.canceled == y.canceled
    ensures forall code :: CountAt(x.counts, code) == CountAt(y.counts, code)
  {
    SumsIgnoreOrder(a, b, OfCustomer(customer));
    SumsIgnoreOrder(a, b, OfCanceled(r, customer));
    forall code ensures CountAt(x.counts, code) == CountAt(y.counts, code) {
      SumsIgnoreOrder(a, b, OfStatus(r, customer, code));
    }
  }

  // ---------------------------------------------------------------- the last date

  predicate Own(customer: string, row: Row) {
    TrimSpace(row.customer) == customer
  }

  function DateText(row: Row): string {
    TrimSpace(row.date)
  }

  function At(r: Rules, row: Row): Option<int> {
    r.parse(DateText(row))
  }

  function LastDate(r: Rules, rows: seq<Row>, customer: string): string {
    AccountAt(AllRows(r, rows), customer).lastDate
  }

  /** No row of the customer has a date that lies behind this one, or one at all. */
  ghost predicate NoneBehind(r: Rules, rows: seq<Row>, customer: string, at: Option<int>) {
    forall x | x in rows && Own(customer, x) :: At(r, x).None? || (at.Some? && At(r, x).value <= at.value)
  }

  /** A row whose date may be the last one: of the latest time, or not empty when no date can be read. */
  ghost predicate IsLatest(r: Rules, rows: seq<Row>, customer: string, row: Row) {
    && row in rows && Own(customer, row) && DateText(row) != ""
    && NoneBehind(r, rows, customer, At(r, row))
  }

  ghost predicate Occurs(r: Rules, rows: seq<Row>, customer: string, text: string, at: Option<int>) {
    exists x | x in rows :: Own(customer, x) && DateText(x) == text && At(r, x) == at
  }

  ghost predicate NoText(rows: seq<Row>, customer: string) {
    forall x | x in rows && Own(customer, x) :: DateText(x) == ""
  }

  /** What an account remembers of the dates of the rows. */
  ghost predicate Chosen(r: Rules, rows: seq<Row>, customer: string, text: string, at: Option<int>) {
    && NoneBehind(r, rows, customer, at)
    && if text == "" then at.None? && NoText(rows, customer) else Occurs(r, rows, customer, text, at)
  }

  lemma OccursStill(r: Rules, rows: seq<Row>, row: Row, customer: string, text: string, at: Option<int>)
    ensures Occurs(r, rows, customer, text, at) ==> Occurs(r, rows + [row], customer, text, at)
    ensures Own(customer, row) ==> Occurs(r, rows + [row], customer, DateText(row), At(r, row))
  {
    if Occurs(r, rows, customer, text, at) {
      var x :| x in rows && Own(customer, x) && DateText(x) == text && At(r, x) == at;
      assert x in rows + [row];
    }
    assert row in rows + [row];
  }

  /** A row of someone else, or one whose date is not taken. */
  lemma ChosenStays(r: Rules, rows: seq<Row>, customer: string, text: string, at: Option<int>, row: Row)
    requires Chosen(r, rows, customer, text, at)
    requires Own(customer, row) ==> At(r, row).None? || (at.Some? && At(r, row).value <= at.value)
    requires Own(customer, row) && text == "" ==> DateText(row) == ""
    ensures Chosen(r, rows + [row], customer, text, at)
  {
    OccursStill(r, rows, row, customer, text, at);
  }

  /** A row whose date is taken. */
  lemma ChosenMoves(r: Rules, rows: seq<Row>, customer: string, text: string, at: Option<int>, row: Row)
    requires Chosen(r, rows, customer, text, at) && Own(customer, row) && DateText(row) != ""
    requires at.Some? ==> At(r, row).Some? && at.value < At(r, row).value
    ensures Chosen(r, rows + [row], customer, DateText(row), At(r, row))
  {
    OccursStill(r, rows, row, customer, text, at);
  }

  lemma ChosenNext(r: Rules, rows: seq<Row>, customer: string, a: Account, row: Row)
    requires r.parse("").None? && Own(customer, row) && Chosen(r, rows, customer, a.lastDate, a.parsed)
    ensures Chosen(r, rows + [row], customer, Dated(r, a, row).lastDate, Dated(r, a, row).parsed)
  {
    if Dated(r, a, row) == a {
      ChosenStays(r, rows, customer, a.lastDate, a.parsed, row);
    } else {
      ChosenMoves(r, rows, customer, a.lastDate, a.parsed, row);
    }
  }

  ghost predicate Remembers(r: Rules, rows: seq<Row>, customer: string, accounts: Accounts) {
    Chosen(r, rows, customer, AccountAt(accounts, customer).lastDate, AccountAt(accounts, customer).parsed)
  }

  lemma RemembersNext(r: Rules, rows: seq<Row>, customer: string, accounts: Accounts, row: Row)
    requires r.parse("").None? && customer != "" && Remembers(r, rows, customer, accounts)
    ensures Remembers(r, rows + [row], customer, WithRow(r, accounts, row))
  {
    var a := AccountAt(accounts, customer);
    if Own(customer, row) {
      ChosenNext(r, rows, customer, Added(r, a, row), row);
    } else {
      ChosenStays(r, rows, customer, a.lastDate, a.parsed, row);
    }
  }

  lemma {:induction false} AllRemembered(r: Rules, rows: seq<Row>, customer: string)
    requires r.parse("").None? && customer != ""
    ensures Remembers(r, rows, customer, AllRows(r, rows))
  {
    if rows != [] {
      var front, row := rows[..|rows| - 1], rows[|rows| - 1];
      AllRemembered(r, front, customer);
      assert AllRows(r, rows) == WithRow(r, AllRows(r, front), row);
      assert front + [row] == rows;
      RemembersNext(r, front, customer, AllRows(r, front), row);
    }
  }

  /** The last date is that of a latest row; it is empty exactly when there is none. */
  lemma LastDateIsLatest(r: Rules, rows: seq<Row>, customer: string)
    requires r.parse("").None? && customer != ""
    ensures LastDate(r, rows, customer) == "" <==> forall x :: !IsLatest(r, rows, customer, x)
    ensures LastDate(r, rows, customer) != "" ==>
              exists x :: IsLatest(r, rows, customer, x) && DateText(x) == LastDate(r, rows, customer)
  {
    AllRemembered(r, rows, customer);
    var text, at := LastDate(r, rows, customer), AccountAt(AllRows(r, rows), customer).parsed;
    if text != "" {
      var x :| x in rows && Own(customer, x) && DateText(x) == text && At(r, x) == at;
      assert IsLatest(r, rows, customer, x);
    }
  }

  /** A latest row that comes first keeps its text. */
  lemma {:induction false} FirstLatestStays(r: Rules, rows: seq<Row>, more: seq<Row>, customer: string)
    requires r.parse("").None? && customer != "" && rows != [] && more != [] && more[0] == rows[0] && |more| <= |rows|
    requires forall x | x in more :: x in rows
    requires IsLatest(r, rows, customer, rows[0])
    ensures LastDate(r, more, customer) == DateText(rows[0])
    ensures AccountAt(AllRows(r, more), customer).parsed == At(r, rows[0])
    decreases |more|
  {
    var front, row := more[..|more| - 1], more[|more| - 1];
    if front == [] {
      assert AllRows(r, front) == map[];
    } else {
      FirstLatestStays(r, rows, front, customer);
      assert row in rows;
    }
  }

  /**
   * The text of the last date does not depend on the order of the rows exactly when all latest rows have the same text:
   * all rows of the latest time, or all with a text when no date can be read.
   */
  lemma LastDateIgnoresOrder(r: Rules, rows: seq<Row>, customer: string)
    requires r.parse("").None? && customer != ""
    ensures (forall other | multiset(other) == multiset(rows) :: LastDate(r, other, customer) == LastDate(r, rows, customer))
       <==> forall x, y | IsLatest(r, rows, customer, x) && IsLatest(r, rows, customer, y) :: DateText(x) == DateText(y)
  {
    if forall other | multiset(other) == multiset(rows) :: LastDate(r, other, customer) == LastDate(r, rows, customer) {
      forall x, y | IsLatest(r, rows, customer, x) && IsLatest(r, rows, customer, y) ensures DateText(x) == DateText(y) {
        var first := LatestFirst(r, rows, customer, x);
        var second := LatestFirst(r, rows, customer, y);
      }
    }
    if forall x, y | IsLatest(r, rows, customer, x) && IsLatest(r, rows, customer, y) :: DateText(x) == DateText(y) {
      LastDateIsLatest(r, rows, customer);
      forall other | multiset(other) == multiset(rows) ensures LastDate(r, other, customer) == LastDate(r, rows, customer) {
        LastDateIsLatest(r, other, customer);
        SameLatest(r, other, rows, customer);
      }
    }
  }

  lemma SameLatest(r: Rules, a: seq<Row>, b: seq<Row>, customer: string)
    requires multiset(a) == multiset(b)
    ensures forall x :: IsLatest(r, a, customer, x) <==> IsLatest(r, b, customer, x)
  {
    forall x ensures x in a <==> x in b {
      assert x in a <==> x in multiset(a);
      assert x in b <==> x in multiset(b);
    }
  }

  lemma LatestFirst(r: Rules, rows: seq<Row>, customer: string, row: Row) returns (other: seq<Row>)
    requires r.parse("").None? && customer != "" && IsLatest(r, rows, customer, row)
    ensures multiset(other) == multiset(rows) && LastDate(r, other, customer) == DateText(row)
  {
    var i :| 0 <= i < |rows| && rows[i] == row;
    other := [row] + (rows[..i] + rows[i + 1..]);
    WithoutAt(rows, i);
    SameLatest(r, other, rows, customer);
    FirstLatestStays(r, other, other, customer);
  }

  /** Two dates that cannot be read, or two texts of one time: the first row decides. */
  lemma LastDateKeepsFirst(r: Rules, a: Row, b: Row)
    requires r.parse("").None? && Own(TrimSpace(a.customer), b) && TrimSpace(a.customer) != ""
    requires At(r, a) == At(r, b) && DateText(a) != "" && DateText(b) != "" && DateText(a) != DateText(b)
    ensures LastDate(r, [a, b], TrimSpace(a.customer)) == DateText(a)
    ensures LastDate(r, [b, a], TrimSpace(a.customer)) == DateText(b)
  {
    FirstLatestStays(r, [a, b], [a, b], TrimSpace(a.customer));
    FirstLatestStays(r, [b, a], [b, a], TrimSpace(a.customer));
  }

  // ---------------------------------------------------------------- one customer

  function Priority(r: Rules, code: string): int {
    var status := r.normalize(code);
    if status == r.statuses.inProgress then 0
    else if status == r.statuses.scheduling then 1
    else if status == r.statuses.pending then 2
    else if status == r.statuses.draft then 3
    else if status == r.statuses.done then 4
    else if status == r.statuses.canceled then 5
    else 6
  }

  /** The order of statuses by a rank first and the code second. */
  predicate Ahead(rank: string -> int, a: string, b: string) {
    rank(a) < rank(b) || (rank(a) == rank(b) && Precedes(a, b))
  }

  lemma AheadIsOrder(rank: string -> int, a: string, b: string, c: string)
    ensures !Ahead(rank, a, a) && (Ahead(rank, a, b) || Ahead(rank, b, a) || a == b)
    ensures Ahead(rank, a, b) ==> !Ahead(rank, b, a)
    ensures Ahead(rank, a, b) && Ahead(rank, b, c) ==> Ahead(rank, a, c)
  {
    PrecedesIsOrder(a, b, c);
    PrecedesIsOrder(a, b, a);
  }

  ghost predicate Primary(r: Rules, counts: map<string, int>, code: string) {
    && code in counts && counts[code] > 0
    && forall k | k in counts && counts[k] > 0 && k != code :: Ahead((c: string) => Priority(r, c), code, k)
  }

  /** The codes come in any order; the one found is ahead of all others that have orders. */
  method PrimaryStatus(r: Rules, counts: map<string, int>) returns (primary: string)
    requires forall code | code in counts :: Clean(code)
    ensures primary == "" <==> forall code | code in counts :: counts[code] <= 0
    ensures primary != "" ==> Primary(r, counts, primary)
  {
    primary := "";
    var best := 999;
    var left := counts.Keys;
    ghost var rank := (c: string) => Priority(r, c);
    while left != {}
      invariant left <= counts.Keys
      invariant primary == "" ==> forall k | k in counts.Keys - left :: counts[k] <= 0
      invariant primary != "" ==> primary in counts.Keys - left && counts[primary] > 0 && best == Priority(r, primary)
      invariant primary != "" ==>
                  forall k | k in counts.Keys - left && counts[k] > 0 && k != primary :: Ahead(rank, primary, k)
    {
      var code :| code in left;
      left := left - {code};
      if counts[code] <= 0 {
        continue;
      }
      var priority := Priority(r, code);
      AheadIsOrder(rank, code, primary, code);
      if primary == "" || priority < best || (priority == best && Precedes(code, primary)) {
        forall k | k in counts.Keys - left && counts[k] > 0 && k != code && primary != "" ensures Ahead(rank, code, k) {
          AheadIsOrder(rank, code, primary, k);
        }
        primary := TrimSpace(code);
        best := priority;
      }
    }
  }

  /** There is only one such code, whatever the order. */
  lemma PrimaryIsUnique(r: Rules, counts: map<string, int>, a: string, b: string)
    requires Primary(r, counts, a) && Primary(r, counts, b)
    ensures a == b
  {
    AheadIsOrder((c: string) => Priority(r, c), a, b, a);
  }

  /** The statuses in the order in which they are reported. */
  function Ranked(r: Rules): seq<string> {
    [r.statuses.inProgress, r.statuses.scheduling, r.statuses.pending, r.statuses.draft, r.statuses.done, r.statuses.canceled]
  }

  /** One code's status stands in the list before the other's, or both have one rank and the first code comes first. */
  ghost predicate ReportedBefore(r: Rules, a: string, b: string) {
    || (exists i | 0 <= i < 6 :: r.normalize(a) == Ranked(r)[i] && forall j | 0 <= j <= i :: r.normalize(b) != Ranked(r)[j])
    || (Precedes(a, b)
        && (r.normalize(a) == r.normalize(b) || (r.normalize(a) !in Ranked(r) && r.normalize(b) !in Ranked(r))))
  }

  lemma PriorityIsPlace(r: Rules, code: string)
    ensures 0 <= Priority(r, code) <= 6
    ensures Priority(r, code) < 6 ==>
              r.normalize(code) == Ranked(r)[Priority(r, code)]
              && forall j | 0 <= j < Priority(r, code) :: r.normalize(code) != Ranked(r)[j]
    ensures Priority(r, code) == 6 <==> r.normalize(code) !in Ranked(r)
  {
    var list := Ranked(r);
    assert list[0] == r.statuses.inProgress && list[1] == r.statuses.scheduling && list[2] == r.statuses.pending;
    assert list[3] == r.statuses.draft && list[4] == r.statuses.done && list[5] == r.statuses.canceled;
  }

  lemma AheadByRank(r: Rules, a: string, b: string)
    ensures Ahead((c: string) => Priority(r, c), a, b) <==> ReportedBefore(r, a, b)
  {
    var p, q := Priority(r, a), Priority(r, b);
    PriorityIsPlace(r, a);
    PriorityIsPlace(r, b);
    if p < q {
      assert r.normalize(a) == Ranked(r)[p] && forall j | 0 <= j <= p :: r.normalize(b) != Ranked(r)[j];
    }
    if i :| 0 <= i < 6 && r.normalize(a) == Ranked(r)[i] && forall j | 0 <= j <= i :: r.normalize(b) != Ranked(r)[j] {
      assert p <= i && q > i;
    }
  }

  /** The primary status is the one with orders that is reported before all others with orders. */
  lemma PrimaryByRank(r: Rules, counts: map<string, int>, code: string)
    ensures Primary(r, counts, code) <==>
            && code in counts && counts[code] > 0
            && forall k | k in counts && counts[k] > 0 && k != code :: ReportedBefore(r, code, k)
  {
    forall k ensures Ahead((c: string) => Priority(r, c), code, k) <==> ReportedBefore(r, code, k) {
      AheadByRank(r, code, k);
    }
  }

  datatype StatusCount = StatusCount(code: string, count: int)

  /** In the order of the catalogue, codes breaking ties. */
  ghost predicate InOrder(r: Rules, items: seq<StatusCount>) {
    forall i, j | 0 <= i < j < |items| :: Ahead(r.weight, items[i].code, items[j].code)
  }

  ghost predicate Lists(counts: map<string, int>, codes: set<string>, items: seq<StatusCount>) {
    forall item :: item in items <==> item.code in codes && item.code in counts && counts[item.code] == item.count > 0
  }

  method Insert(r: Rules, items: seq<StatusCount>, item: StatusCount) returns (result: seq<StatusCount>)
    requires InOrder(r, items) && forall i | 0 <= i < |items| :: items[i].code != item.code
    ensures InOrder(r, result) && forall x :: x in result <==> x in items || x == item
  {
    var i := 0;
    while i < |items| && Ahead(r.weight, items[i].code, item.code)
      invariant i <= |items| && forall k | 0 <= k < i :: Ahead(r.weight, items[k].code, item.code)
    {
      i := i + 1;
    }
    result := items[..i] + [item] + items[i..];
    forall k | i <= k < |items| ensures Ahead(r.weight, item.code, items[k].code) {
      AheadIsOrder(r.weight, item.code, items[i].code, items[k].code);
    }
    assert items == items[..i] + items[i..];
  }

  /** The positive counts of an account, each once, sorted. */
  method StatusCounts(r: Rules, counts: map<string, int>) returns (items: seq<StatusCount>)
    requires forall code | code in counts :: Clean(code)
    ensures InOrder(r, items) && Lists(counts, counts.Keys, items)
  {
    items := [];
    var left := counts.Keys;
    while left != {}
      invariant left <= counts.Keys && InOrder(r, items) && Lists(counts, counts.Keys - left, items)
    {
      var code :| code in left;
      left := left - {code};
      if counts[code] <= 0 {
        continue;
      }
      items := Insert(r, items, StatusCount(TrimSpace(code), counts[code]));
    }
  }

  lemma HeadOnce(r: Rules, items: seq<StatusCount>)
    requires InOrder(r, items) && items != []
    ensures forall item :: item in items[1..] <==> item in items && item != items[0]
  {
    forall k | 0 < k < |items| ensures items[k] != items[0] {
      AheadIsOrder(r.weight, items[0].code, items[k].code, items[0].code);
    }
    assert items == [items[0]] + items[1..];
  }

  /** Any two such lists are the same list. */
  lemma {:induction false} ListIsUnique(r: Rules, a: seq<StatusCount>, b: seq<StatusCount>)
    requires InOrder(r, a) && InOrder(r, b) && forall item :: item in a <==> item in b
    ensures a == b
    decreases |a|
  {
    assert b == [] || b[0] in b;
    if a != [] {
      assert a[0] in b && b[0] in a;
      if a[0] != b[0] {
        var i :| 0 < i < |b| && b[i] == a[0];
        var j :| 0 < j < |a| && a[j] == b[0];
        AheadIsOrder(r.weight, a[0].code, b[0].code, a[0].code);
      }
      HeadOnce(r, a);
      HeadOnce(r, b);
      ListIsUnique(r, a[1..], b[1..]);
    }
  }

  /** Canceled and effective orders make up all orders; the guard against a negative number never fires. */
  method EffectiveOrders(r: Rules, rows: seq<Row>, customer: string, a: Account) returns (effective: int)
    requires Holds(r, rows, |rows|, customer, a)
    ensures effective + a.canceled == a.total && effective >= 0
  {
    SumBounded(rows, |rows|, OfCanceled(r, customer), OfCustomer(customer));
    effective := a.total - a.canceled;
    if effective < 0 {
      effective := 0;
    }
  }
}
