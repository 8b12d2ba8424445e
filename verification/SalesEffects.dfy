/** The sums of the closure summary in terms of the rows alone: whose orders are counted, and under which status. */
module SalesEffects {
  import opened Text
  import opened SalesSummary

  /** The status under which a row is counted: voided orders are canceled, and an unknown status has its own name. */
  predicate HasCode(r: Rules, row: Row, code: string) {
    if r.lower(TrimSpace(row.status)) == "voided" || r.lower(TrimSpace(row.status)) == "void" then
      code == r.statuses.canceled
    else if TrimSpace(r.normalize(row.status)) != "" then code == TrimSpace(r.normalize(row.status))
    else code == "UNKNOWN"
  }

  /** The orders of the rows that satisfy p; negative counts count nothing. */
  ghost function Total(rows: seq<Row>, p: Row -> bool): int {
    if rows == [] then 0
    else
      var last := rows[|rows| - 1];
      Total(rows[..|rows| - 1], p) + if p(last) && last.count > 0 then last.count else 0
  }

  lemma {:induction false} TotalIsSum(rows: seq<Row>, n: nat, p: Row -> bool, q: Row -> bool)
    requires n <= |rows| && forall row :: p(row) == q(row)
    ensures Total(rows[..n], p) == SumRows(rows, n, q)
  {
    if n > 0 {
      TotalIsSum(rows, n - 1, p, q);
      assert rows[..n][..n - 1] == rows[..n - 1];
    }
  }

  lemma CodeExactly(r: Rules, row: Row, code: string)
    ensures HasCode(r, row, code) <==> StatusCode(r, row.status) == code
  {
  }

  /**
   * For all rows: what the summary says of a customer are the sums over the customer's rows, of all orders, of those whose
   * status counts as canceled, and of those under each status.
   */
  lemma AccountsAreSums(r: Rules, rows: seq<Row>, customer: string, a: Account)
    requires Holds(r, rows, |rows|, customer, a)
    ensures a.total == Total(rows, (row: Row) => TrimSpace(row.customer) == customer)
    ensures a.canceled ==
            Total(rows, (row: Row) => TrimSpace(row.customer) == customer
                               && exists code :: HasCode(r, row, code) && r.normalize(code) == r.statuses.canceled)
    ensures forall code :: CountAt(a.counts, code) ==
                           Total(rows, (row: Row) => TrimSpace(row.customer) == customer && HasCode(r, row, code))
  {
    assert rows[..|rows|] == rows;
    TotalIsSum(rows, |rows|, (row: Row) => TrimSpace(row.customer) == customer, OfCustomer(customer));
    forall row: Row
      ensures CountsAsCanceled(r, row) <==> exists code :: HasCode(r, row, code) && r.normalize(code) == r.statuses.canceled
    {
      CodeExactly(r, row, StatusCode(r, row.status));
      if code :| HasCode(r, row, code) && r.normalize(code) == r.statuses.canceled {
        CodeExactly(r, row, code);
      }
    }
    TotalIsSum(rows, |rows|,
               (row: Row) => TrimSpace(row.customer) == customer
                      && exists code :: HasCode(r, row, code) && r.normalize(code) == r.statuses.canceled,
               OfCanceled(r, customer));
    forall code
      ensures CountAt(a.counts, code) == Total(rows, (row: Row) => TrimSpace(row.customer) == customer && HasCode(r, row, code))
    {
      forall row: Row ensures HasCode(r, row, code) <==> StatusCode(r, row.status) == code {
        CodeExactly(r, row, code);
      }
      TotalIsSum(rows, |rows|, (row: Row) => TrimSpace(row.customer) == customer && HasCode(r, row, code), OfStatus(r, customer, code));
    }
  }
}
