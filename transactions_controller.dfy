/**
  The four request handlers of the transactions controller, over an in-memory
  transactions table.  Each handler returns the HTTP status and JSON body it
  sends.  A failing store call (an exception caught by the handler) is the
  parameter `fault`; the date the store stamps on a new row is `today`.
*/
module TransactionsController {
  import opened Wrappers
  import opened Ledger
  import JsParseInt

  /**
    The JSON body of a create request.  A string field is None when it is
    absent; `amount` is None when it is undefined.
  */
  datatype CreateRequest = CreateRequest(
    title: Option<string>,
    amount: Option<int>,
    category: Option<string>,
    userId: Option<string>)

  /** `!x` for a string field: absent or empty. */
  predicate Falsy(x: Option<string>) {
    x.None? || x.value == ""
  }

  /** The validation of the create handler; an amount of 0 passes, since only `amount === undefined` is refused. */
  predicate MissingField(req: CreateRequest) {
    Falsy(req.title) || Falsy(req.userId) || Falsy(req.category) || req.amount.None?
  }

  const AllFieldsRequired := "All fields are required"
  const InvalidId := "Invalid transaction ID."
  const NotFoundMessage := "Transaction not found."
  const DeletedMessage := "Transaction deleted successfully! "
  const InternalError := "Internal server error"

  /** What a handler sends: the status code and the body. */
  datatype Response =
    | Listed(transactions: seq<Transaction>)
    | Created(transaction: Transaction)
    | Summary(totals: Totals)
    | Deleted(message: string)
    | BadRequest(message: string)
    | NotFound(message: string)
    | ServerError(message: string)
  {
    function Status(): int {
      match this
      case Listed(_) => 200
      case Created(_) => 201
      case Summary(_) => 200
      case Deleted(_) => 200
      case BadRequest(_) => 400
      case NotFound(_) => 404
      case ServerError(_) => 500
    }
  }

  /**
    The id the store matches when the DELETE compares the `id` column with the
    raw path parameter.  The store's cast of that text is not part of this
    model; it is taken to read an optionally signed decimal numeral (after
    white space) with nothing after it, and to reject every other text, which
    the handler then reports as a store failure.
  */
  function StoreIdCast(id: string): (r: Option<int>)
    ensures r.Some? ==> JsParseInt.ParseInt(id) == r
  {
    var p := JsParseInt.ScanNumber(id);
    if p.digits != [] && p.radix == 10 && p.rest == [] then JsParseInt.ParseInt(id) else None
  }

  /** The id a client writes into the path, String(n), is the id the store matches. */
  lemma StoreIdCastOfIntToString(n: int)
    ensures JsParseInt.ParseInt(JsParseInt.IntToString(n)) == Some(n)
    ensures StoreIdCast(JsParseInt.IntToString(n)) == Some(n)
  {
    JsParseInt.ParseIntOfIntToString([], n, []);
    assert [] + JsParseInt.IntToString(n) + [] == JsParseInt.IntToString(n);
  }

  /** A stored row has every field filled in (the create validation guarantees it). */
  predicate Populated(t: Transaction) {
    t.userId != "" && t.title != "" && t.category != ""
  }

  /** The transactions table: its rows in insertion order and the next id the serial column hands out. */
  class Table {
    var rows: seq<Transaction>
    var nextId: nat

    ghost predicate Valid()
      reads this
    {
      && 0 < nextId
      && IdsIncreasing(rows)
      && (forall t :: t in rows ==> 0 < t.id < nextId && Populated(t))
    }

    constructor ()
      ensures Valid() && rows == [] && nextId == 1
    {
      rows := [];
      nextId := 1;
    }

    /** GET /api/transactions/{userId}. */
    method GetTransactionsByUserId(userId: string, fault: bool) returns (res: Response)
      ensures fault ==> res == ServerError(InternalError)
      ensures !fault ==> res.Listed? && res.Status() == 200
      ensures !fault ==> NewestFirst(res.transactions)
      ensures !fault ==> forall t :: t in res.transactions <==> t in rows && t.userId == userId
      ensures !fault ==> forall t :: multiset(res.transactions)[t] == if t.userId == userId then multiset(rows)[t] else 0
      ensures !fault && (forall t :: t in rows ==> t.userId != userId) ==> res == Listed([])
    {
      if fault {
        return ServerError(InternalError);
      }
      ListByOwnerSpec(rows, userId);
      res := Listed(ListByOwner(rows, userId));
    }

    /** POST /api/transactions. */
    method CreateTransaction(req: CreateRequest, today: Date, fault: bool) returns (res: Response)
      requires Valid()
      modifies this
      ensures Valid()
      ensures MissingField(req) ==>
        res == BadRequest(AllFieldsRequired) && rows == old(rows) && nextId == old(nextId)
      ensures !MissingField(req) && fault ==>
        res == ServerError(InternalError) && rows == old(rows) && nextId == old(nextId)
      ensures !MissingField(req) && !fault ==>
        && res == Created(Transaction(old(nextId), req.userId.value, req.title.value, req.amount.value, req.category.value, today))
        && res.Status() == 201
        && rows == old(rows) + [res.transaction]
        && nextId == old(nextId) + 1
        && (forall t :: t in old(rows) ==> t.id < res.transaction.id)
    {
      if MissingField(req) {
        return BadRequest(AllFieldsRequired);
      }
      if fault {
        return ServerError(InternalError);
      }
      var row := Transaction(nextId, req.userId.value, req.title.value, req.amount.value, req.category.value, today);
      rows := rows + [row];
      nextId := nextId + 1;
      res := Created(row);
    }

    /** DELETE /api/transactions/{id}. */
    method DeleteTransaction(id: string, fault: bool) returns (res: Response)
      requires Valid()
      modifies this
      ensures Valid() && nextId == old(nextId)
      ensures JsParseInt.ParseInt(id).None? ==>
        res == BadRequest(InvalidId) && rows == old(rows)
      ensures JsParseInt.ParseInt(id).Some? && (fault || StoreIdCast(id).None?) ==>
        res == ServerError(InternalError) && rows == old(rows)
      ensures !fault && StoreIdCast(id).Some? && !HasId(old(rows), StoreIdCast(id).value) ==>
        res == NotFound(NotFoundMessage) && rows == old(rows)
      ensures !fault && StoreIdCast(id).Some? && HasId(old(rows), StoreIdCast(id).value) ==>
        && res == Deleted(DeletedMessage)
        && exists k :: 0 <= k < |old(rows)| && old(rows)[k].id == StoreIdCast(id).value
                    && rows == old(rows)[..k] + old(rows)[k + 1..]
    {
      if JsParseInt.ParseInt(id).None? {
        return BadRequest(InvalidId);
      }
      if fault {
        return ServerError(InternalError);
      }
      var cast := StoreIdCast(id);
      if cast.None? {
        return ServerError(InternalError);
      }
      var n := cast.value;
      if HasId(rows, n) {
        var k :| 0 <= k < |rows| && rows[k].id == n;
        DeleteExisting(rows, k);
      } else {
        DeleteMissing(rows, n);
      }
      WithoutIdKeepsOrder(rows, n);
      var deleted := WithId(rows, n);
      rows := WithoutId(rows, n);
      if |deleted| == 0 {
        return NotFound(NotFoundMessage);
      }
      res := Deleted(DeletedMessage);
    }

    /** GET /api/transactions/summary/{userId}. */
    method GetSummaryByUserId(userId: string, fault: bool) returns (res: Response)
      ensures fault ==> res == ServerError(InternalError)
      ensures !fault ==> res == Summary(Summarize(rows, userId)) && res.Status() == 200
      ensures !fault ==> res.totals.balance == res.totals.income + res.totals.expenses
      ensures !fault ==> res.totals.income >= 0 >= res.totals.expenses
      ensures !fault ==> res.totals.balance == Total(Where(rows, userId, AllRows))
      ensures !fault && (forall t :: t in rows ==> t.userId != userId) ==> res == Summary(Totals(0, 0, 0))
    {
      if fault {
        return ServerError(InternalError);
      }
      var balance := SumWhere(rows, userId, AllRows);
      var income := SumWhere(rows, userId, Income);
      var expenses := SumWhere(rows, userId, Expenses);
      SummarizeSpec(rows, userId);
      SumWhereIsTotal(rows, userId, AllRows);
      res := Summary(Totals(balance, income, expenses));
    }
  }

  // ---------------------------------------------------------------------------
  // Client scenarios, proved from the handlers' contracts alone

  /** A first expense on an empty table gets id 1, and the owner's summary is that expense. */
  method CoffeeScenario(today: Date) returns (created: Response, summary: Response)
    ensures created == Created(Transaction(1, "u1", "Coffee", -450, "Food", today))
    ensures summary == Summary(Totals(-450, 0, -450))
  {
    var table := new Table();
    created := table.CreateTransaction(CreateRequest(Some("Coffee"), Some(-450), Some("Food"), Some("u1")), today, false);
    summary := table.GetSummaryByUserId("u1", false);
    assert table.rows == [created.transaction];
    assert Where(table.rows, "u1", Income) == [];
    assert Where(table.rows, "u1", Expenses) == table.rows;
  }

  /** An amount of 0 is a valid transaction. */
  method ZeroAmountScenario(today: Date) returns (created: Response)
    ensures created.Created? && created.transaction.amount == 0
  {
    var table := new Table();
    created := table.CreateTransaction(CreateRequest(Some("Gift"), Some(0), Some("Other"), Some("u1")), today, false);
  }

  /** Deleting the same existing id twice yields 200 and then 404. */
  method DeleteTwiceScenario(table: Table, n: int) returns (first: Response, second: Response)
    requires table.Valid() && HasId(table.rows, n)
    modifies table
    ensures first.Status() == 200 && second.Status() == 404
    ensures !HasId(table.rows, n)
  {
    var id := JsParseInt.IntToString(n);
    StoreIdCastOfIntToString(n);
    first := table.DeleteTransaction(id, false);
    DeleteTwice(old(table.rows), n);
    ghost var k :| 0 <= k < |old(table.rows)| && old(table.rows)[k].id == n && table.rows == old(table.rows)[..k] + old(table.rows)[k + 1..];
    DeleteExisting(old(table.rows), k);
    second := table.DeleteTransaction(id, false);
  }
}
