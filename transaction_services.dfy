/** services/TransactionServices.js: create, edit and delete a transaction.
    An expense draws on EVERY covering budget for its full amount. */
module TransactionServices {
  import opened Requests
  import opened Text
  import opened Dates
  import opened Storage
  import opened Ledger

  /** The budget table after the draw, and whether the draw got through it. */
  datatype Draw = Draw(budgets: seq<Budget>, ok: bool)

  /** A budget after it has been drawn on: a covering one loses `amount`. */
  function Drawn(b: Budget, scope: Scope, amount: int): Budget
  {
    if Covers(b, scope) then b.(leftAmount := b.leftAmount - amount) else b
  }

  /** The draw loop, walked over the table in store order: each covering budget
      with at least `amount` left loses `amount` (the remaining amount is never
      reduced), and the walk fails at the first covering budget with less left,
      keeping the decrements already made. */
  function DrawEvery(bs: seq<Budget>, scope: Scope, amount: int): (d: Draw)
    ensures |d.budgets| == |bs|
  {
    if bs == [] then Draw([], true)
    else if Covers(bs[0], scope) && bs[0].leftAmount < amount then Draw(bs, false)
    else
      var rest := DrawEvery(bs[1..], scope, amount);
      Draw([Drawn(bs[0], scope, amount)] + rest.budgets, rest.ok)
  }

  /** The draw keeps every row and changes nothing but `leftAmount`. */
  lemma {:induction false} DrawEveryKeepsRows(bs: seq<Budget>, scope: Scope, amount: int)
    ensures OnlyLeftChanged(bs, DrawEvery(bs, scope, amount).budgets)
  {
    if bs != [] && !(Covers(bs[0], scope) && bs[0].leftAmount < amount) {
      DrawEveryKeepsRows(bs[1..], scope, amount);
    }
  }

  /** No covering budget among the first `n` has less than `amount` left. */
  predicate EnoughUpTo(bs: seq<Budget>, scope: Scope, amount: int, n: int)
  {
    forall j :: 0 <= j < n && j < |bs| && Covers(bs[j], scope) ==> bs[j].leftAmount >= amount
  }

  /** Extending the checked prefix by one budget at the front. */
  lemma EnoughUpToCons(bs: seq<Budget>, scope: Scope, amount: int, n: nat)
    requires bs != []
    ensures EnoughUpTo(bs, scope, amount, n + 1) <==>
      (Covers(bs[0], scope) ==> bs[0].leftAmount >= amount) && EnoughUpTo(bs[1..], scope, amount, n)
  {
    assert forall j :: 0 <= j < |bs[1..]| ==> bs[1..][j] == bs[j + 1];
  }

  /** The draw succeeds exactly when no covering budget is short. */
  lemma {:induction false} DrawEveryOk(bs: seq<Budget>, scope: Scope, amount: int)
    ensures DrawEvery(bs, scope, amount).ok <==> EnoughUpTo(bs, scope, amount, |bs|)
  {
    if bs != [] {
      EnoughUpToCons(bs, scope, amount, |bs| - 1);
      if !(Covers(bs[0], scope) && bs[0].leftAmount < amount) {
        DrawEveryOk(bs[1..], scope, amount);
      }
    }
  }

  /** Budget `i` loses `amount` exactly when it covers and no covering budget
      up to and including it is short. */
  lemma {:induction false} DrawEveryLeft(bs: seq<Budget>, scope: Scope, amount: int, i: nat)
    requires i < |bs|
    ensures DrawEvery(bs, scope, amount).budgets[i].leftAmount ==
      if Covers(bs[i], scope) && EnoughUpTo(bs, scope, amount, i + 1) then bs[i].leftAmount - amount
      else bs[i].leftAmount
  {
    var d := DrawEvery(bs, scope, amount);
    EnoughUpToCons(bs, scope, amount, i);
    if Covers(bs[0], scope) && bs[0].leftAmount < amount {
    } else if i > 0 {
      DrawEveryLeft(bs[1..], scope, amount, i - 1);
      assert d.budgets[i] == DrawEvery(bs[1..], scope, amount).budgets[i - 1];
    }
  }

  /** The expense goes through exactly when every covering budget has at least
      `amount` left. */
  lemma DrawEverySucceedsIff(bs: seq<Budget>, scope: Scope, amount: int)
    ensures DrawEvery(bs, scope, amount).ok <==>
      forall i :: 0 <= i < |bs| && Covers(bs[i], scope) ==> bs[i].leftAmount >= amount
  {
    DrawEveryOk(bs, scope, amount);
  }

  /** On success every covering budget has lost exactly `amount` and nothing
      else has changed. */
  lemma DrawEveryOnSuccess(bs: seq<Budget>, scope: Scope, amount: int)
    requires DrawEvery(bs, scope, amount).ok
    ensures var after := DrawEvery(bs, scope, amount).budgets;
      |after| == |bs| &&
      forall i :: 0 <= i < |bs| ==>
        after[i] == Drawn(bs[i], scope, amount)
  {
    DrawEveryOk(bs, scope, amount);
    DrawEveryKeepsRows(bs, scope, amount);
    var after := DrawEvery(bs, scope, amount).budgets;
    forall i | 0 <= i < |bs|
      ensures after[i] == Drawn(bs[i], scope, amount)
    {
      DrawEveryLeft(bs, scope, amount, i);
      assert EnoughUpTo(bs, scope, amount, i + 1);
    }
  }

  /** Budget `k` is the first covering budget, in store order, with less than
      `amount` left. */
  predicate FirstShort(bs: seq<Budget>, scope: Scope, amount: int, k: int)
  {
    && 0 <= k < |bs| && Covers(bs[k], scope) && bs[k].leftAmount < amount
    && EnoughUpTo(bs, scope, amount, k)
  }

  /** When budget `k` is the first short one the draw fails; covering budgets
      before `k` have lost `amount`, and `k` and every later budget are as
      they were. */
  lemma DrawEveryStopsAtFirstShort(bs: seq<Budget>, scope: Scope, amount: int, k: int)
    requires FirstShort(bs, scope, amount, k)
    ensures var d := DrawEvery(bs, scope, amount);
      && !d.ok && |d.budgets| == |bs|
      && (forall i :: 0 <= i < k ==>
            d.budgets[i] == Drawn(bs[i], scope, amount))
      && (forall i :: k <= i < |bs| ==> d.budgets[i] == bs[i])
  {
    DrawEveryOk(bs, scope, amount);
    DrawEveryKeepsRows(bs, scope, amount);
    var d := DrawEvery(bs, scope, amount);
    forall i | k <= i < |bs| ensures d.budgets[i] == bs[i] {
      DrawEveryLeft(bs, scope, amount, i);
      assert !EnoughUpTo(bs, scope, amount, i + 1) by {
        assert k < i + 1 && Covers(bs[k], scope) && bs[k].leftAmount < amount;
      }
    }
    forall i | 0 <= i < k
      ensures d.budgets[i] == Drawn(bs[i], scope, amount)
    {
      DrawEveryLeft(bs, scope, amount, i);
      assert EnoughUpTo(bs, scope, amount, i + 1);
    }
  }

  /** On success the covered total drops by `amount` once per covering budget. */
  lemma {:induction false} DrawEveryTotal(bs: seq<Budget>, scope: Scope, amount: int)
    requires DrawEvery(bs, scope, amount).ok
    ensures CoveredLeft(DrawEvery(bs, scope, amount).budgets, scope) ==
      CoveredLeft(bs, scope) - amount * CoveringCount(bs, scope)
  {
    if bs != [] {
      var rest := DrawEvery(bs[1..], scope, amount);
      var head := Drawn(bs[0], scope, amount);
      assert DrawEvery(bs, scope, amount) == Draw([head] + rest.budgets, rest.ok);
      DrawEveryTotal(bs[1..], scope, amount);
      CoversIgnoresLeft(bs[0], head.leftAmount, scope);
      CoveredLeftCons(head, rest.budgets, scope);
      var count := CoveringCount(bs[1..], scope);
      if Covers(bs[0], scope) {
        assert CoveringCount(bs, scope) == 1 + count;
        MulSucc(amount, count);
        assert CoveredLeft(bs, scope) == bs[0].leftAmount + CoveredLeft(bs[1..], scope);
      } else {
        assert CoveringCount(bs, scope) == count;
        assert CoveredLeft(bs, scope) == CoveredLeft(bs[1..], scope);
      }
    }
  }

  /** One more covering budget charges one more amount. */
  lemma MulSucc(amount: int, count: nat)
    ensures amount * (1 + count) == amount + amount * count
  {
  }

  /** The `for` loop of createTransaction over the covering budgets, in store
      order: a covering budget with enough left is decremented by the full
      amount in place; the first one without ends the loop with a failure. */
  method DrawBudgets(db: Database, scope: Scope, amount: int) returns (ok: bool)
    requires db.Valid()
    modifies db
    ensures db.Valid()
    ensures db.budgets == DrawEvery(old(db.budgets), scope, amount).budgets
    ensures ok == DrawEvery(old(db.budgets), scope, amount).ok
    ensures db.categories == old(db.categories) && db.transactions == old(db.transactions)
    ensures db.nextBudgetId == old(db.nextBudgetId) && db.nextTransactionId == old(db.nextTransactionId)
  {
    ghost var before := db.budgets;
    var j := 0;
    while j < |db.budgets|
      invariant db.Valid()
      invariant 0 <= j <= |before| == |db.budgets|
      invariant EnoughUpTo(before, scope, amount, j)
      invariant forall i :: 0 <= i < j ==> db.budgets[i] == Drawn(before[i], scope, amount)
      invariant forall i :: j <= i < |before| ==> db.budgets[i] == before[i]
      invariant db.categories == old(db.categories) && db.transactions == old(db.transactions)
      invariant db.nextBudgetId == old(db.nextBudgetId) && db.nextTransactionId == old(db.nextTransactionId)
    {
      var b := db.budgets[j];
      if Covers(b, scope) && b.leftAmount < amount {
        DrawEveryStopsAtFirstShort(before, scope, amount, j);
        ghost var d := DrawEvery(before, scope, amount);
        assert db.budgets == d.budgets;
        return false;
      }
      if Covers(b, scope) {
        db.ReplaceBudget(j, b.(leftAmount := b.leftAmount - amount));
      }
      j := j + 1;
    }
    DrawEveryOk(before, scope, amount);
    DrawEveryOnSuccess(before, scope, amount);
    return true;
  }

  /** createTransaction. A rejected request, an unknown category and an
      expense no budget covers change nothing; an expense that meets a short
      budget keeps the decrements made before it and records no transaction. */
  method CreateTransaction(db: Database, req: TransactionRequest, today: Today) returns (r: Outcome<Transaction>)
    requires db.Valid()
    modifies db
    ensures db.Valid()
    ensures db.categories == old(db.categories) && db.nextBudgetId == old(db.nextBudgetId)
    ensures r.Err? ==> db.transactions == old(db.transactions) && db.nextTransactionId == old(db.nextTransactionId)
    ensures r.Ok? ==> db.nextTransactionId == old(db.nextTransactionId) + 1
    ensures !RequiredPresent(req) ==> r == Err(MissingFields) && unchanged(db)
    ensures RequiredPresent(req) && req.kind.value != "expense" && req.kind.value != "income" ==>
      r == Err(InvalidType) && unchanged(db)
    ensures RequiredPresent(req) && req.kind.value == "expense" && !TruthyText(req.categoryName) ==>
      r == Err(MissingCategoryName) && unchanged(db)
    ensures AcceptableTransaction(req) && req.kind.value == "income" ==>
      && r == Ok(Transaction(old(db.nextTransactionId), req.userId.value, "income", req.amount.value,
                             ToLower(req.name.value), StampDate(today), None))
      && db.transactions == old(db.transactions) + [r.value]
      && db.budgets == old(db.budgets)
    ensures AcceptableTransaction(req) && req.kind.value == "expense" ==>
      var category := ToLower(req.categoryName.value);
      if category !in old(db.categories) then
        r == Err(CategoryNotFound) && unchanged(db)
      else
        var scope := Scope(req.userId.value, old(db.categories)[category], StampDate(today));
        if !AnyCovers(old(db.budgets), scope) then
          r == Err(NoBudgetFound) && unchanged(db)
        else
          var d := DrawEvery(old(db.budgets), scope, req.amount.value);
          && db.budgets == d.budgets
          && (d.ok ==>
                && r == Ok(Transaction(old(db.nextTransactionId), scope.userId, "expense", req.amount.value,
                                       ToLower(req.name.value), scope.date, Some(scope.categoryId)))
                && db.transactions == old(db.transactions) + [r.value])
          && (!d.ok ==> r == Err(OverBudget))
  {
    if !TruthyNumber(req.amount) || !TruthyText(req.kind) || !TruthyNumber(req.userId) || !TruthyText(req.name) {
      return Err(MissingFields);
    }
    var kind, amount, userId := req.kind.value, req.amount.value, req.userId.value;
    var name := ToLower(req.name.value);
    if kind != "expense" && kind != "income" {
      return Err(InvalidType);
    }
    if kind == "expense" && !TruthyText(req.categoryName) {
      return Err(MissingCategoryName);
    }
    var date := StampDate(today);
    var categoryId: Option<int> := None;
    if kind == "expense" {
      var category := ToLower(req.categoryName.value);
      if category !in db.categories {
        return Err(CategoryNotFound);
      }
      categoryId := Some(db.categories[category]);
      var scope := Scope(userId, categoryId.value, date);
      if !AnyCovers(db.budgets, scope) {
        return Err(NoBudgetFound);
      }
      var ok := DrawBudgets(db, scope, amount);
      if !ok {
        return Err(OverBudget);
      }
    }
    var t := db.InsertTransaction(userId, kind, amount, name, date, categoryId);
    return Ok(t);
  }

  /** editTransaction: amount, name and type are overwritten as given (the name
      is not lower-cased); an expense also gets the category looked up by the
      lower-cased name, an income keeps its category. Budgets are not touched. */
  method EditTransaction(db: Database, id: int, req: TransactionEdit) returns (r: Outcome<Transaction>)
    requires db.Valid()
    modifies db
    ensures db.Valid()
    ensures db.categories == old(db.categories) && db.budgets == old(db.budgets)
    ensures db.nextBudgetId == old(db.nextBudgetId) && db.nextTransactionId == old(db.nextTransactionId)
    ensures
      if !(TruthyNumber(req.amount) && TruthyText(req.name) && TruthyText(req.kind)) then
        r == Err(MissingFields) && unchanged(db)
      else if req.kind.value == "expense" && !TruthyText(req.categoryName) then
        r == Err(MissingCategoryName) && unchanged(db)
      else if req.kind.value == "expense" && ToLower(req.categoryName.value) !in old(db.categories) then
        r == Err(CategoryNotFound) && unchanged(db)
      else
        match IndexOfKey(old(db.transactions), TransactionId, id)
        case None => r == Err(RecordNotFound) && unchanged(db)
        case Some(i) =>
          var t := old(db.transactions)[i];
          var categoryId :=
            if req.kind.value == "expense" then Some(old(db.categories)[ToLower(req.categoryName.value)])
            else t.categoryId;
          && r == Ok(t.(amount := req.amount.value, name := req.name.value, kind := req.kind.value,
                        categoryId := categoryId))
          && db.transactions == old(db.transactions)[i := r.value]
  {
    if !TruthyNumber(req.amount) || !TruthyText(req.name) || !TruthyText(req.kind) {
      return Err(MissingFields);
    }
    var kind := req.kind.value;
    if kind == "expense" && !TruthyText(req.categoryName) {
      return Err(MissingCategoryName);
    }
    var categoryId: Option<int> := None;
    if kind == "expense" {
      var category := ToLower(req.categoryName.value);
      if category !in db.categories {
        return Err(CategoryNotFound);
      }
      categoryId := Some(db.categories[category]);
    }
    var found := IndexOfKey(db.transactions, TransactionId, id);
    if found.None? {
      return Err(RecordNotFound);
    }
    var i := found.value;
    var t := db.transactions[i];
    var updated := t.(amount := req.amount.value, name := req.name.value, kind := kind,
                      categoryId := if categoryId.Some? then categoryId else t.categoryId);
    db.ReplaceTransaction(i, updated);
    return Ok(updated);
  }

  /** deleteTransaction: the row with that id goes, every other row and every
      budget stays; an absent id is an error. */
  method DeleteTransaction(db: Database, id: int) returns (r: Outcome<()>)
    requires db.Valid()
    modifies db
    ensures db.Valid()
    ensures db.categories == old(db.categories) && db.budgets == old(db.budgets)
    ensures db.nextBudgetId == old(db.nextBudgetId) && db.nextTransactionId == old(db.nextTransactionId)
    ensures
      match IndexOfKey(old(db.transactions), TransactionId, id)
      case None => r == Err(RecordNotFound) && unchanged(db)
      case Some(i) =>
        && r == Ok(())
        && db.transactions == old(db.transactions)[..i] + old(db.transactions)[i + 1..]
        && forall t :: t in db.transactions <==> t in old(db.transactions) && t.id != id
  {
    var found := IndexOfKey(db.transactions, TransactionId, id);
    if found.None? {
      return Err(RecordNotFound);
    }
    db.RemoveTransaction(found.value);
    return Ok(());
  }
}
