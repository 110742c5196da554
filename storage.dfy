/** The in-memory stand-in for the relational store the handlers talk to:
    the category, budget and transaction tables, kept in insertion order
    (the order an unordered `findMany` returns), with auto-increment ids. */
module Storage {
  import opened Requests

  datatype Budget = Budget(
    id: int,
    userId: int,
    categoryId: int,
    amount: int,
    leftAmount: int,
    startDate: string,
    endDate: string)

  /** `kind` is the request's `type` string; `categoryId` is set for expenses. */
  datatype Transaction = Transaction(
    id: int,
    userId: int,
    kind: string,
    amount: int,
    name: string,
    date: string,
    categoryId: Option<int>)

  function BudgetId(b: Budget): int { b.id }

  function TransactionId(t: Transaction): int { t.id }

  /** No two rows share a key. */
  predicate DistinctKeys<T>(rows: seq<T>, key: T -> int)
  {
    forall i, j :: 0 <= i < j < |rows| ==> key(rows[i]) != key(rows[j])
  }

  /** Every key is below the next auto-increment value. */
  predicate KeysBelow<T>(rows: seq<T>, key: T -> int, next: int)
  {
    forall i :: 0 <= i < |rows| ==> key(rows[i]) < next
  }

  /** The position of the row whose key is `k`, if there is one. */
  function IndexOfKey<T>(rows: seq<T>, key: T -> int, k: int): (r: Option<nat>)
    ensures r.Some? ==> r.value < |rows| && key(rows[r.value]) == k
    ensures r.None? ==> forall i :: 0 <= i < |rows| ==> key(rows[i]) != k
  {
    if rows == [] then None
    else if key(rows[0]) == k then Some(0)
    else
      match IndexOfKey(rows[1..], key, k)
      case None => None
      case Some(i) => Some(i + 1)
  }

  /** Deleting the row at `i` of a table with distinct keys deletes exactly the
      rows with that row's key and keeps the keys distinct. */
  lemma RemoveAtKey<T>(rows: seq<T>, key: T -> int, i: nat)
    requires DistinctKeys(rows, key) && i < |rows|
    ensures DistinctKeys(rows[..i] + rows[i + 1..], key)
    ensures forall x :: x in rows[..i] + rows[i + 1..] <==> x in rows && key(x) != key(rows[i])
  {
    var rest := rows[..i] + rows[i + 1..];
    assert forall j :: 0 <= j < |rest| ==> rest[j] == rows[if j < i then j else j + 1];
    forall x | x in rows && key(x) != key(rows[i]) ensures x in rest {
      var j :| 0 <= j < |rows| && rows[j] == x;
      assert j != i;
      assert rest[if j < i then j else j - 1] == x;
    }
  }

  /** The store. Its tables are updated in place by the handlers. */
  class Database {
    var categories: map<string, int>   // category name -> id
    var budgets: seq<Budget>
    var transactions: seq<Transaction>
    var nextBudgetId: int
    var nextTransactionId: int

    /** Primary keys are unique and below the auto-increment counters. */
    ghost predicate Valid()
      reads this
    {
      && DistinctKeys(budgets, BudgetId) && KeysBelow(budgets, BudgetId, nextBudgetId)
      && DistinctKeys(transactions, TransactionId) && KeysBelow(transactions, TransactionId, nextTransactionId)
    }

    constructor (categories: map<string, int>)
      ensures Valid()
      ensures this.categories == categories && budgets == [] && transactions == []
    {
      this.categories := categories;
      budgets, transactions := [], [];
      nextBudgetId, nextTransactionId := 1, 1;
    }

    /** `budget.create`: a row with the next id is appended. */
    method InsertBudget(userId: int, categoryId: int, amount: int, leftAmount: int, startDate: string, endDate: string)
      returns (b: Budget)
      requires Valid()
      modifies this
      ensures Valid()
      ensures b == Budget(old(nextBudgetId), userId, categoryId, amount, leftAmount, startDate, endDate)
      ensures budgets == old(budgets) + [b] && nextBudgetId == old(nextBudgetId) + 1
      ensures categories == old(categories) && transactions == old(transactions)
      ensures nextTransactionId == old(nextTransactionId)
    {
      b := Budget(nextBudgetId, userId, categoryId, amount, leftAmount, startDate, endDate);
      budgets := budgets + [b];
      nextBudgetId := nextBudgetId + 1;
    }

    /** `budget.update` of the row at `i`; its id is kept. */
    method ReplaceBudget(i: nat, b: Budget)
      requires Valid() && i < |budgets| && b.id == budgets[i].id
      modifies this
      ensures Valid()
      ensures budgets == old(budgets)[i := b]
      ensures categories == old(categories) && transactions == old(transactions)
      ensures nextBudgetId == old(nextBudgetId) && nextTransactionId == old(nextTransactionId)
    {
      budgets := budgets[i := b];
    }

    /** `budget.delete` of the row at `i`. */
    method RemoveBudget(i: nat)
      requires Valid() && i < |budgets|
      modifies this
      ensures Valid()
      ensures budgets == old(budgets)[..i] + old(budgets)[i + 1..]
      ensures forall b :: b in budgets <==> b in old(budgets) && b.id != old(budgets)[i].id
      ensures categories == old(categories) && transactions == old(transactions)
      ensures nextBudgetId == old(nextBudgetId) && nextTransactionId == old(nextTransactionId)
    {
      RemoveAtKey(budgets, BudgetId, i);
      budgets := budgets[..i] + budgets[i + 1..];
    }

    /** `transaction.create`: a row with the next id is appended. */
    method InsertTransaction(userId: int, kind: string, amount: int, name: string, date: string, categoryId: Option<int>)
      returns (t: Transaction)
      requires Valid()
      modifies this
      ensures Valid()
      ensures t == Transaction(old(nextTransactionId), userId, kind, amount, name, date, categoryId)
      ensures transactions == old(transactions) + [t] && nextTransactionId == old(nextTransactionId) + 1
      ensures categories == old(categories) && budgets == old(budgets) && nextBudgetId == old(nextBudgetId)
    {
      t := Transaction(nextTransactionId, userId, kind, amount, name, date, categoryId);
      transactions := transactions + [t];
      nextTransactionId := nextTransactionId + 1;
    }

    /** `transaction.update` of the row at `i`; its id is kept. */
    method ReplaceTransaction(i: nat, t: Transaction)
      requires Valid() && i < |transactions| && t.id == transactions[i].id
      modifies this
      ensures Valid()
      ensures transactions == old(transactions)[i := t]
      ensures categories == old(categories) && budgets == old(budgets)
      ensures nextBudgetId == old(nextBudgetId) && nextTransactionId == old(nextTransactionId)
    {
      transactions := transactions[i := t];
    }

    /** `transaction.delete` of the row at `i`. */
    method RemoveTransaction(i: nat)
      requires Valid() && i < |transactions|
      modifies this
      ensures Valid()
      ensures transactions == old(transactions)[..i] + old(transactions)[i + 1..]
      ensures forall t :: t in transactions <==> t in old(transactions) && t.id != old(transactions)[i].id
      ensures categories == old(categories) && budgets == old(budgets)
      ensures nextBudgetId == old(nextBudgetId) && nextTransactionId == old(nextTransactionId)
    {
      RemoveAtKey(transactions, TransactionId, i);
      transactions := transactions[..i] + transactions[i + 1..];
    }
  }
}
