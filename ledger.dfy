/**
  The transactions table and the read-only queries the controller sends to it:
  the WHERE clauses on user_id and on the sign of amount, ORDER BY created_at
  DESC, and the aggregate COALESCE(SUM(amount), 0).

  Amounts are integer cents (the model takes amounts to have two decimals), and
  created_at is an abstract ordered date.
*/
module Ledger {
  import opened Wrappers

  /** A calendar date, only compared for order. */
  type Date = int

  /** One row of the transactions table. */
  datatype Transaction = Transaction(
    id: nat,
    userId: string,
    title: string,
    amount: int,
    category: string,
    createdAt: Date)

  /** Which rows an aggregate query of the summary handler takes. */
  datatype Part = AllRows | Income | Expenses

  /** The WHERE clause: `user_id = u` and, for the income and expenses queries, `amount > 0` or `amount < 0`. */
  predicate Matches(t: Transaction, u: string, part: Part) {
    t.userId == u &&
    match part
    case AllRows => true
    case Income => t.amount > 0
    case Expenses => t.amount < 0
  }

  /** The rows a WHERE clause selects, in table order. */
  function Where(rows: seq<Transaction>, u: string, part: Part): (r: seq<Transaction>)
    ensures |r| <= |rows|
    ensures forall i :: 0 <= i < |r| ==> Matches(r[i], u, part)
  {
    if rows == [] then []
    else if Matches(rows[0], u, part) then [rows[0]] + Where(rows[1..], u, part)
    else Where(rows[1..], u, part)
  }

  /** A WHERE clause keeps every row that matches, as often as it occurs, and nothing else. */
  lemma {:induction false} WhereCounts(rows: seq<Transaction>, u: string, part: Part, t: Transaction)
    ensures multiset(Where(rows, u, part))[t] == if Matches(t, u, part) then multiset(rows)[t] else 0
  {
    if rows != [] {
      WhereCounts(rows[1..], u, part, t);
      assert rows == [rows[0]] + rows[1..];
    }
  }

  lemma WhereMembers(rows: seq<Transaction>, u: string, part: Part, t: Transaction)
    ensures t in Where(rows, u, part) <==> t in rows && Matches(t, u, part)
  {
    WhereCounts(rows, u, part, t);
  }

  // ---------------------------------------------------------------------------
  // ORDER BY created_at DESC

  predicate NewestFirst(s: seq<Transaction>) {
    forall i, j :: 0 <= i < j < |s| ==> s[i].createdAt >= s[j].createdAt
  }

  /** Place t before the first row that is not newer than it. */
  function InsertByDate(t: Transaction, s: seq<Transaction>): (r: seq<Transaction>)
    requires NewestFirst(s)
    ensures NewestFirst(r)
    ensures multiset(r) == multiset(s) + multiset{t}
    ensures r != [] && (r[0] == t || (s != [] && r[0] == s[0]))
  {
    if s == [] || s[0].createdAt <= t.createdAt then [t] + s
    else
      var rest := InsertByDate(t, s[1..]);
      assert s == [s[0]] + s[1..];
      [s[0]] + rest
  }

  /** The rows in ORDER BY created_at DESC order (rows of one date keep their table order). */
  function SortNewestFirst(s: seq<Transaction>): (r: seq<Transaction>)
    ensures NewestFirst(r)
    ensures multiset(r) == multiset(s)
  {
    if s == [] then []
    else
      assert s == [s[0]] + s[1..];
      InsertByDate(s[0], SortNewestFirst(s[1..]))
  }

  /** `SELECT * FROM transactions WHERE user_id = u ORDER BY created_at DESC`. */
  function ListByOwner(rows: seq<Transaction>, u: string): seq<Transaction> {
    SortNewestFirst(Where(rows, u, AllRows))
  }

  /** The listing is the owner's rows, all of them and only them, newest first. */
  lemma ListByOwnerSpec(rows: seq<Transaction>, u: string)
    ensures NewestFirst(ListByOwner(rows, u))
    ensures forall t :: t in ListByOwner(rows, u) <==> t in rows && t.userId == u
    ensures forall t :: multiset(ListByOwner(rows, u))[t] == if t.userId == u then multiset(rows)[t] else 0
    ensures (forall t :: t in rows ==> t.userId != u) ==> ListByOwner(rows, u) == []
  {
    forall t ensures multiset(ListByOwner(rows, u))[t] == if t.userId == u then multiset(rows)[t] else 0 {
      WhereCounts(rows, u, AllRows, t);
    }
    if forall t :: t in rows ==> t.userId != u {
      NoOwnerRows(rows, u, AllRows);
    }
  }

  // ---------------------------------------------------------------------------
  // COALESCE(SUM(amount), 0)

  function Total(rows: seq<Transaction>): int {
    if rows == [] then 0 else rows[0].amount + Total(rows[1..])
  }

  /** SQL SUM(amount): NULL (None) over no rows, otherwise the sum. */
  function SqlSum(rows: seq<Transaction>): (r: Option<int>)
    ensures r.None? <==> rows == []
  {
    if rows == [] then None else Some(Total(rows))
  }

  /** SQL COALESCE(x, default). */
  function Coalesce(x: Option<int>, default: int): int {
    match x
    case Some(v) => v
    case None => default
  }

  /** `SELECT COALESCE(SUM(amount), 0) FROM transactions WHERE ...`. */
  function SumWhere(rows: seq<Transaction>, u: string, part: Part): int {
    Coalesce(SqlSum(Where(rows, u, part)), 0)
  }

  /** The fallback makes the aggregate the plain sum, and 0 when no row qualifies. */
  lemma SumWhereIsTotal(rows: seq<Transaction>, u: string, part: Part)
    ensures SumWhere(rows, u, part) == Total(Where(rows, u, part))
    ensures Where(rows, u, part) == [] ==> SumWhere(rows, u, part) == 0
  {
  }

  /** Zero amounts count towards neither income nor expenses, so balance splits into the two. */
  lemma {:induction false} BalanceSplits(rows: seq<Transaction>, u: string)
    ensures Total(Where(rows, u, AllRows)) == Total(Where(rows, u, Income)) + Total(Where(rows, u, Expenses))
  {
    if rows != [] {
      BalanceSplits(rows[1..], u);
    }
  }

  lemma {:induction false} IncomeNonNegative(rows: seq<Transaction>, u: string)
    ensures Total(Where(rows, u, Income)) >= 0
  {
    if rows != [] {
      IncomeNonNegative(rows[1..], u);
    }
  }

  lemma {:induction false} ExpensesNonPositive(rows: seq<Transaction>, u: string)
    ensures Total(Where(rows, u, Expenses)) <= 0
  {
    if rows != [] {
      ExpensesNonPositive(rows[1..], u);
    }
  }

  /** The three totals of the summary. */
  datatype Totals = Totals(balance: int, income: int, expenses: int)

  function Summarize(rows: seq<Transaction>, u: string): Totals {
    Totals(SumWhere(rows, u, AllRows), SumWhere(rows, u, Income), SumWhere(rows, u, Expenses))
  }

  /** balance = income + expenses, income >= 0 >= expenses, and an owner without rows gets zeros. */
  lemma SummarizeSpec(rows: seq<Transaction>, u: string)
    ensures var s := Summarize(rows, u);
      && s.balance == s.income + s.expenses
      && s.income >= 0 >= s.expenses
      && ((forall t :: t in rows ==> t.userId != u) ==> s == Totals(0, 0, 0))
  {
    SumWhereIsTotal(rows, u, AllRows);
    SumWhereIsTotal(rows, u, Income);
    SumWhereIsTotal(rows, u, Expenses);
    BalanceSplits(rows, u);
    IncomeNonNegative(rows, u);
    ExpensesNonPositive(rows, u);
    if forall t :: t in rows ==> t.userId != u {
      NoOwnerRows(rows, u, AllRows);
      NoOwnerRows(rows, u, Income);
      NoOwnerRows(rows, u, Expenses);
    }
  }

  lemma NoOwnerRows(rows: seq<Transaction>, u: string, part: Part)
    requires forall t :: t in rows ==> t.userId != u
    ensures Where(rows, u, part) == []
  {
    var w := Where(rows, u, part);
    if w != [] {
      WhereMembers(rows, u, part, w[0]);
    }
  }

  // ---------------------------------------------------------------------------
  // DELETE FROM transactions WHERE id = n RETURNING *

  predicate HasId(rows: seq<Transaction>, n: int) {
    exists i :: 0 <= i < |rows| && rows[i].id == n
  }

  /** Ids strictly increase along the table (the insertion order of a serial column), so they are unique. */
  predicate IdsIncreasing(rows: seq<Transaction>) {
    forall i, j :: 0 <= i < j < |rows| ==> rows[i].id < rows[j].id
  }

  /** The rows `RETURNING *` reports: those with the id. */
  function WithId(rows: seq<Transaction>, n: int): (r: seq<Transaction>)
    ensures forall i :: 0 <= i < |r| ==> r[i].id == n
  {
    if rows == [] then []
    else if rows[0].id == n then [rows[0]] + WithId(rows[1..], n)
    else WithId(rows[1..], n)
  }

  /** The table after the DELETE. */
  function WithoutId(rows: seq<Transaction>, n: int): (r: seq<Transaction>)
    ensures forall i :: 0 <= i < |r| ==> r[i].id != n
  {
    if rows == [] then []
    else if rows[0].id == n then WithoutId(rows[1..], n)
    else [rows[0]] + WithoutId(rows[1..], n)
  }

  /** Nothing is removed, and nothing reported, when no row has the id. */
  lemma {:induction false} DeleteMissing(rows: seq<Transaction>, n: int)
    requires !HasId(rows, n)
    ensures WithId(rows, n) == [] && WithoutId(rows, n) == rows
  {
    if rows != [] {
      assert !HasId(rows[1..], n);
      DeleteMissing(rows[1..], n);
    }
  }

  /** With unique ids, deleting an existing id removes exactly that one row and keeps the others in order. */
  lemma {:induction false} DeleteExisting(rows: seq<Transaction>, k: nat)
    requires IdsIncreasing(rows) && k < |rows|
    ensures WithId(rows, rows[k].id) == [rows[k]]
    ensures WithoutId(rows, rows[k].id) == rows[..k] + rows[k + 1..]
  {
    var n := rows[k].id;
    if k == 0 {
      assert !HasId(rows[1..], n);
      DeleteMissing(rows[1..], n);
    } else {
      assert rows[1..][k - 1] == rows[k];
      DeleteExisting(rows[1..], k - 1);
      assert rows[0].id < n;
      assert rows[..k] == [rows[0]] + rows[1..][..k - 1];
      assert rows[k + 1..] == rows[1..][k..];
    }
  }

  /** A row removed by a DELETE never comes back to a later one: the second delete of an id finds nothing. */
  lemma DeleteTwice(rows: seq<Transaction>, n: int)
    ensures !HasId(WithoutId(rows, n), n)
    ensures WithId(WithoutId(rows, n), n) == []
  {
    DeleteMissing(WithoutId(rows, n), n);
  }

  /** Deleting keeps the ids increasing (it keeps a subsequence). */
  lemma {:induction false} WithoutIdKeepsOrder(rows: seq<Transaction>, n: int)
    requires IdsIncreasing(rows)
    ensures IdsIncreasing(WithoutId(rows, n))
    ensures forall t :: t in WithoutId(rows, n) ==> t in rows
  {
    if rows != [] {
      var w := WithoutId(rows[1..], n);
      WithoutIdKeepsOrder(rows[1..], n);
      forall j | 0 <= j < |w| ensures rows[0].id < w[j].id {
        assert w[j] in rows[1..];
        var k :| 0 <= k < |rows[1..]| && rows[1..][k] == w[j];
        assert rows[k + 1] == w[j];
      }
    }
  }
}
