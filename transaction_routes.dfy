/** routes/Transactions.js: create and edit a transaction. This copy takes
    names verbatim and spreads an expense over the covering budgets, emptying
    each in turn until one can absorb what is still owed. */
module TransactionRoutes {
  import opened Requests
  import opened Dates
  import opened Storage
  import opened Ledger

  /** The budget table after the spill-over, and the amount still owed. */
  datatype Spilled = Spilled(budgets: seq<Budget>, remaining: int)

  /** The spill-over loop, walked over the table in store order. A covering
      budget whose leftAmount reaches what is owed absorbs it and the walk
      stops; a covering budget with less is emptied and what it held comes
      off the amount owed. Budgets that do not cover are not touched. */
  function Spill(bs: seq<Budget>, scope: Scope, owed: int): (s: Spilled)
    ensures |s.budgets| == |bs|
  {
    if bs == [] then Spilled([], owed)
    else if !Covers(bs[0], scope) then
      var rest := Spill(bs[1..], scope, owed);
      Spilled([bs[0]] + rest.budgets, rest.remaining)
    else if bs[0].leftAmount >= owed then
      Spilled([bs[0].(leftAmount := bs[0].leftAmount - owed)] + bs[1..], 0)
    else
      var rest := Spill(bs[1..], scope, owed - bs[0].leftAmount);
      Spilled([bs[0].(leftAmount := 0)] + rest.budgets, rest.remaining)
  }

  /** A budget the walk went past: a covering one has been emptied. */
  function Emptied(b: Budget, scope: Scope): Budget
  {
    if Covers(b, scope) then b.(leftAmount := 0) else b
  }

  /** What is still owed when the walk reaches budget `k`. */
  function Owed(bs: seq<Budget>, scope: Scope, amount: int, k: nat): int
    requires k <= |bs|
  {
    amount - CoveredLeft(bs[..k], scope)
  }

  /** Budget `k` covers and holds at least what is owed when the walk
      reaches it, so the walk stops there. */
  predicate Absorbs(bs: seq<Budget>, scope: Scope, amount: int, k: nat)
    requires k < |bs|
  {
    Covers(bs[k], scope) && bs[k].leftAmount >= Owed(bs, scope, amount, k)
  }

  /** No budget before `k` stops the walk. */
  predicate NoStopBefore(bs: seq<Budget>, scope: Scope, amount: int, k: nat)
    requires k <= |bs|
  {
    forall i :: 0 <= i < k ==> !Absorbs(bs, scope, amount, i)
  }

  /** The covered total of a prefix grows by one budget at a time. */
  lemma CoveredLeftPrefixStep(bs: seq<Budget>, scope: Scope, i: nat)
    requires i < |bs|
    ensures CoveredLeft(bs[..i + 1], scope) ==
      CoveredLeft(bs[..i], scope) + (if Covers(bs[i], scope) then bs[i].leftAmount else 0)
  {
    assert bs[..i + 1] == bs[..i] + [bs[i]];
    CoveredLeftAppend(bs[..i], [bs[i]], scope);
  }

  /** The covered total of a prefix is its first budget's share plus the rest. */
  lemma CoveredLeftPrefixTail(bs: seq<Budget>, scope: Scope, i: nat)
    requires 0 < i <= |bs|
    ensures CoveredLeft(bs[..i], scope) ==
      (if Covers(bs[0], scope) then bs[0].leftAmount else 0) + CoveredLeft(bs[1..][..i - 1], scope)
  {
    assert bs[..i][1..] == bs[1..][..i - 1];
  }

  /** Dropping the first budget shifts the walk by one: what is owed at
      each later budget is unchanged once the first budget's share comes off
      the amount. */
  lemma OwedTail(bs: seq<Budget>, scope: Scope, amount: int, i: nat)
    requires 0 < i <= |bs|
    ensures var head := if Covers(bs[0], scope) then bs[0].leftAmount else 0;
      Owed(bs[1..], scope, amount - head, i - 1) == Owed(bs, scope, amount, i)
  {
    CoveredLeftPrefixTail(bs, scope, i);
  }

  /** After dropping the first budget, no stop before `k - 1` on what it left
      owed, where there was none before `k`. */
  lemma NoStopBeforeTail(bs: seq<Budget>, scope: Scope, amount: int, k: nat, rest: seq<Budget>, owed: int)
    requires 0 < k <= |bs| && NoStopBefore(bs, scope, amount, k)
    requires rest == bs[1..] && owed == amount - (if Covers(bs[0], scope) then bs[0].leftAmount else 0)
    ensures NoStopBefore(rest, scope, owed, k - 1)
    ensures Owed(rest, scope, owed, k - 1) == Owed(bs, scope, amount, k)
  {
    forall i | 0 <= i < k - 1 ensures !Absorbs(rest, scope, owed, i) {
      assert !Absorbs(bs, scope, amount, i + 1);
      OwedTail(bs, scope, amount, i + 1);
      assert rest[i] == bs[i + 1];
    }
    OwedTail(bs, scope, amount, k);
  }

  /** One step of the walk past a budget that does not absorb what is owed. */
  lemma SpillPast(bs: seq<Budget>, scope: Scope, owed: int)
    requires bs != [] && !(Covers(bs[0], scope) && bs[0].leftAmount >= owed)
    ensures var rest := Spill(bs[1..], scope, owed - (if Covers(bs[0], scope) then bs[0].leftAmount else 0));
      Spill(bs, scope, owed) == Spilled([Emptied(bs[0], scope)] + rest.budgets, rest.remaining)
  {
  }

  /** When budget `k` is the first that can absorb what is owed, the walk
      empties the covering budgets before it, takes the rest from `k`, leaves
      every later budget alone, and nothing remains owed. */
  lemma {:induction false} SpillStopsAt(bs: seq<Budget>, scope: Scope, amount: int, k: nat)
    requires k < |bs| && NoStopBefore(bs, scope, amount, k) && Absorbs(bs, scope, amount, k)
    ensures var s := Spill(bs, scope, amount);
      && s.remaining == 0
      && (forall i :: 0 <= i < k ==> s.budgets[i] == Emptied(bs[i], scope))
      && s.budgets[k] == bs[k].(leftAmount := bs[k].leftAmount - Owed(bs, scope, amount, k))
      && (forall i :: k < i < |bs| ==> s.budgets[i] == bs[i])
  {
    assert bs[..0] == [];
    assert CoveredLeft(bs[..0], scope) == 0;
    var s := Spill(bs, scope, amount);
    if k == 0 {
      assert s.budgets == [bs[0].(leftAmount := bs[0].leftAmount - amount)] + bs[1..];
      forall i | 0 < i < |bs| ensures s.budgets[i] == bs[i] {
        assert s.budgets[i] == bs[1..][i - 1];
      }
    } else {
      var head := if Covers(bs[0], scope) then bs[0].leftAmount else 0;
      assert !Absorbs(bs, scope, amount, 0);
      SpillPast(bs, scope, amount);
      NoStopBeforeTail(bs, scope, amount, k, bs[1..], amount - head);
      assert bs[1..][k - 1] == bs[k];
      SpillStopsAt(bs[1..], scope, amount - head, k - 1);
      StopShapeCons(bs, s.budgets, Spill(bs[1..], scope, amount - head).budgets, scope, k,
                    bs[k].(leftAmount := bs[k].leftAmount - Owed(bs, scope, amount, k)));
    }
  }

  /** The shape SpillStopsAt describes, carried from the walk over `bs[1..]`
      to the walk over `bs`. */
  lemma StopShapeCons(bs: seq<Budget>, s: seq<Budget>, rest: seq<Budget>, scope: Scope, k: nat, last: Budget)
    requires 0 < k < |bs| && s == [Emptied(bs[0], scope)] + rest && |rest| == |bs| - 1
    requires forall i :: 0 <= i < k - 1 ==> rest[i] == Emptied(bs[1..][i], scope)
    requires rest[k - 1] == last
    requires forall i :: k - 1 < i < |bs| - 1 ==> rest[i] == bs[1..][i]
    ensures forall i :: 0 <= i < k ==> s[i] == Emptied(bs[i], scope)
    ensures s[k] == last
    ensures forall i :: k < i < |bs| ==> s[i] == bs[i]
  {
    forall i | 0 < i < k ensures s[i] == Emptied(bs[i], scope) {
      assert s[i] == rest[i - 1] && bs[i] == bs[1..][i - 1];
    }
    forall i | k < i < |bs| ensures s[i] == bs[i] {
      assert s[i] == rest[i - 1] && bs[i] == bs[1..][i - 1];
    }
  }

  /** The shape SpillNeverStops describes, carried from the walk over
      `bs[1..]` to the walk over `bs`. */
  lemma EmptiedShapeCons(bs: seq<Budget>, s: seq<Budget>, rest: seq<Budget>, scope: Scope)
    requires 0 < |bs| && s == [Emptied(bs[0], scope)] + rest && |rest| == |bs| - 1
    requires forall i :: 0 <= i < |rest| ==> rest[i] == Emptied(bs[1..][i], scope)
    ensures forall i :: 0 <= i < |bs| ==> s[i] == Emptied(bs[i], scope)
  {
    forall i | 0 < i < |bs| ensures s[i] == Emptied(bs[i], scope) {
      assert s[i] == rest[i - 1] && bs[i] == bs[1..][i - 1];
    }
  }

  /** When no budget can absorb what is owed, the walk empties every covering
      budget and what remains owed is the amount less the covered total. */
  lemma {:induction false} SpillNeverStops(bs: seq<Budget>, scope: Scope, amount: int)
    requires NoStopBefore(bs, scope, amount, |bs|)
    ensures var s := Spill(bs, scope, amount);
      && s.remaining == amount - CoveredLeft(bs, scope)
      && (forall i :: 0 <= i < |bs| ==> s.budgets[i] == Emptied(bs[i], scope))
  {
    if bs != [] {
      var head := if Covers(bs[0], scope) then bs[0].leftAmount else 0;
      assert bs[..0] == [];
      assert CoveredLeft(bs[..0], scope) == 0;
      assert !Absorbs(bs, scope, amount, 0);
      SpillPast(bs, scope, amount);
      NoStopBeforeTail(bs, scope, amount, |bs|, bs[1..], amount - head);
      SpillNeverStops(bs[1..], scope, amount - head);
      assert CoveredLeft(bs, scope) == head + CoveredLeft(bs[1..], scope);
      EmptiedShapeCons(bs, Spill(bs, scope, amount).budgets, Spill(bs[1..], scope, amount - head).budgets, scope);
    }
  }

  /** A table that agrees, budget by budget, with a walk that stops at `k`
      is the table Spill computes. */
  lemma SpillMatchesStop(bs: seq<Budget>, current: seq<Budget>, scope: Scope, amount: int, k: nat)
    requires k < |bs| == |current| && NoStopBefore(bs, scope, amount, k) && Absorbs(bs, scope, amount, k)
    requires forall i :: 0 <= i < k ==> current[i] == Emptied(bs[i], scope)
    requires current[k] == bs[k].(leftAmount := bs[k].leftAmount - Owed(bs, scope, amount, k))
    requires forall i :: k < i < |bs| ==> current[i] == bs[i]
    ensures current == Spill(bs, scope, amount).budgets && Spill(bs, scope, amount).remaining == 0
  {
    SpillStopsAt(bs, scope, amount, k);
  }

  /** A table that agrees, budget by budget, with a walk that never stops is
      the table Spill computes. */
  lemma SpillMatchesWalk(bs: seq<Budget>, current: seq<Budget>, scope: Scope, amount: int)
    requires |bs| == |current| && NoStopBefore(bs, scope, amount, |bs|)
    requires forall i :: 0 <= i < |bs| ==> current[i] == Emptied(bs[i], scope)
    ensures current == Spill(bs, scope, amount).budgets
    ensures Spill(bs, scope, amount).remaining == Owed(bs, scope, amount, |bs|)
  {
    SpillNeverStops(bs, scope, amount);
    assert bs[..|bs|] == bs;
  }

  /** The walk moves money out of the covering budgets and nowhere else: the
      covered total drops by exactly the part of the amount that was paid. */
  lemma {:induction false} SpillConserves(bs: seq<Budget>, scope: Scope, owed: int)
    ensures var s := Spill(bs, scope, owed);
      CoveredLeft(s.budgets, scope) == CoveredLeft(bs, scope) - (owed - s.remaining)
  {
    if bs != [] {
      var s := Spill(bs, scope, owed);
      assert s.budgets[0].userId == bs[0].userId && s.budgets[0].categoryId == bs[0].categoryId;
      assert s.budgets[0].startDate == bs[0].startDate && s.budgets[0].endDate == bs[0].endDate;
      if !Covers(bs[0], scope) {
        SpillConserves(bs[1..], scope, owed);
        assert s.budgets[1..] == Spill(bs[1..], scope, owed).budgets;
      } else if bs[0].leftAmount >= owed {
        assert s.budgets[1..] == bs[1..];
      } else {
        SpillConserves(bs[1..], scope, owed - bs[0].leftAmount);
        assert s.budgets[1..] == Spill(bs[1..], scope, owed - bs[0].leftAmount).budgets;
      }
    }
  }

  /** With no negative leftAmount and a positive amount, nothing remains owed
      exactly when the covered total reaches the amount; otherwise what
      remains is the shortfall. */
  lemma {:induction false} SpillRemaining(bs: seq<Budget>, scope: Scope, owed: int)
    requires NoNegativeLeft(bs) && owed > 0
    ensures Spill(bs, scope, owed).remaining ==
      if CoveredLeft(bs, scope) >= owed then 0 else owed - CoveredLeft(bs, scope)
  {
    if bs != [] {
      assert NoNegativeLeft(bs[1..]) by {
        forall i | 0 <= i < |bs[1..]| ensures bs[1..][i].leftAmount >= 0 {
          assert bs[1..][i] == bs[i + 1];
        }
      }
      assert bs[0].leftAmount >= 0;
      if !Covers(bs[0], scope) {
        SpillRemaining(bs[1..], scope, owed);
      } else if bs[0].leftAmount >= owed {
        CoveredLeftNonNegative(bs[1..], scope);
      } else {
        SpillRemaining(bs[1..], scope, owed - bs[0].leftAmount);
      }
    }
  }

  /** The walk never drives a budget below zero. */
  lemma {:induction false} SpillKeepsNonNegative(bs: seq<Budget>, scope: Scope, owed: int)
    requires NoNegativeLeft(bs)
    ensures NoNegativeLeft(Spill(bs, scope, owed).budgets)
  {
    if bs != [] {
      var s := Spill(bs, scope, owed);
      assert NoNegativeLeft(bs[1..]) by {
        forall i | 0 <= i < |bs[1..]| ensures bs[1..][i].leftAmount >= 0 {
          assert bs[1..][i] == bs[i + 1];
        }
      }
      assert bs[0].leftAmount >= 0;
      if !Covers(bs[0], scope) || bs[0].leftAmount < owed {
        var rest := Spill(bs[1..], scope, if Covers(bs[0], scope) then owed - bs[0].leftAmount else owed);
        SpillKeepsNonNegative(bs[1..], scope, if Covers(bs[0], scope) then owed - bs[0].leftAmount else owed);
        forall i | 0 < i < |bs| ensures s.budgets[i].leftAmount >= 0 {
          assert s.budgets[i] == rest.budgets[i - 1];
        }
      } else {
        forall i | 0 < i < |bs| ensures s.budgets[i].leftAmount >= 0 {
          assert s.budgets[i] == bs[i];
        }
      }
    }
  }

  /** When the covering budgets together hold less than a positive amount,
      the failed expense has still emptied every one of them. */
  lemma SpillShortEmptiesAll(bs: seq<Budget>, scope: Scope, amount: int)
    requires NoNegativeLeft(bs) && amount > 0 && CoveredLeft(bs, scope) < amount
    ensures var s := Spill(bs, scope, amount);
      && s.remaining == amount - CoveredLeft(bs, scope) > 0
      && (forall i :: 0 <= i < |bs| && Covers(bs[i], scope) ==> s.budgets[i].leftAmount == 0)
  {
    forall i | 0 <= i < |bs| ensures !Absorbs(bs, scope, amount, i) {
      if Covers(bs[i], scope) {
        assert bs == bs[..i] + bs[i..];
        CoveredLeftAppend(bs[..i], bs[i..], scope);
        assert bs[i..][0] == bs[i];
        assert NoNegativeLeft(bs[i..][1..]) by {
          forall m | 0 <= m < |bs[i..][1..]| ensures bs[i..][1..][m].leftAmount >= 0 {
            assert bs[i..][1..][m] == bs[i + 1 + m];
          }
        }
        CoveredLeftNonNegative(bs[i..][1..], scope);
      }
    }
    SpillNeverStops(bs, scope, amount);
  }

  /** With no negative leftAmount and a positive amount, the expense is paid
      exactly when the covering budgets together hold at least the amount;
      then their total drops by exactly the amount and none goes negative. */
  lemma SpillSucceedsIff(bs: seq<Budget>, scope: Scope, amount: int)
    requires NoNegativeLeft(bs) && amount > 0
    ensures Spill(bs, scope, amount).remaining <= 0 <==> CoveredLeft(bs, scope) >= amount
    ensures CoveredLeft(bs, scope) >= amount ==>
      var s := Spill(bs, scope, amount);
      && s.remaining == 0
      && CoveredLeft(s.budgets, scope) == CoveredLeft(bs, scope) - amount
      && NoNegativeLeft(s.budgets)
  {
    SpillRemaining(bs, scope, amount);
    SpillConserves(bs, scope, amount);
    SpillKeepsNonNegative(bs, scope, amount);
  }

  /** The covered total of the first `j + 1` budgets is below the amount. */
  predicate ShortThrough(bs: seq<Budget>, scope: Scope, amount: int, j: nat)
    requires j < |bs|
  {
    CoveredLeft(bs[..j + 1], scope) < amount
  }

  /** When the covering budgets together hold at least a positive amount, some
      budget stops the walk, so SpillStopsAt describes the paid expense: the
      one where the running covered total first reaches the amount. */
  lemma SpillSuccessStops(bs: seq<Budget>, scope: Scope, amount: int)
    requires amount > 0 && CoveredLeft(bs, scope) >= amount
    ensures exists k :: 0 <= k < |bs| && NoStopBefore(bs, scope, amount, k) && Absorbs(bs, scope, amount, k)
  {
    assert bs[..|bs|] == bs;
    var k := 0;
    while k < |bs| && ShortThrough(bs, scope, amount, k)
      invariant 0 <= k <= |bs|
      invariant forall j :: 0 <= j < k ==> ShortThrough(bs, scope, amount, j)
    {
      k := k + 1;
    }
    if k == |bs| {
      assert false;
    }
    if k == 0 {
      assert bs[..0] == [];
    } else {
      assert ShortThrough(bs, scope, amount, k - 1);
    }
    CoveredLeftPrefixStep(bs, scope, k);
    assert Absorbs(bs, scope, amount, k);
    forall j | 0 <= j < k ensures !Absorbs(bs, scope, amount, j) {
      assert ShortThrough(bs, scope, amount, j);
      CoveredLeftPrefixStep(bs, scope, j);
    }
  }

  /** A walk over a table where no budget covers the expense touches nothing
      and leaves the whole amount owed. */
  lemma {:induction false} SpillUncovered(bs: seq<Budget>, scope: Scope, owed: int)
    requires !AnyCovers(bs, scope)
    ensures Spill(bs, scope, owed) == Spilled(bs, owed)
  {
    if bs != [] {
      assert !Covers(bs[0], scope);
      assert !AnyCovers(bs[1..], scope) by {
        forall i | 0 <= i < |bs[1..]| ensures !Covers(bs[1..][i], scope) {
          assert bs[1..][i] == bs[i + 1];
        }
      }
      SpillUncovered(bs[1..], scope, owed);
      assert [bs[0]] + bs[1..] == bs;
    }
  }

  /** Whatever the leftAmounts, including negative ones: an expense that
      still owes something after the walk has emptied every covering budget. */
  lemma {:induction false} SpillFailureEmptiesAll(bs: seq<Budget>, scope: Scope, owed: int)
    ensures var s := Spill(bs, scope, owed);
      s.remaining > 0 ==> forall i :: 0 <= i < |bs| && Covers(bs[i], scope) ==> s.budgets[i].leftAmount == 0
  {
    if bs != [] && !(Covers(bs[0], scope) && bs[0].leftAmount >= owed) {
      var s := Spill(bs, scope, owed);
      var next := owed - (if Covers(bs[0], scope) then bs[0].leftAmount else 0);
      var rest := Spill(bs[1..], scope, next);
      SpillPast(bs, scope, owed);
      SpillFailureEmptiesAll(bs[1..], scope, next);
      forall i | 0 < i < |bs| ensures s.budgets[i] == rest.budgets[i - 1] && bs[i] == bs[1..][i - 1] {
      }
    }
  }

  /** A stop found in the walk over `bs[1..]` is a stop of the walk over
      `bs`, one budget later, when the first budget does not absorb. */
  lemma StopCons(bs: seq<Budget>, scope: Scope, owed: int, k: nat)
    requires 0 < |bs| && k < |bs| - 1 && !Absorbs(bs, scope, owed, 0)
    requires var next := owed - (if Covers(bs[0], scope) then bs[0].leftAmount else 0);
      NoStopBefore(bs[1..], scope, next, k) && Absorbs(bs[1..], scope, next, k)
    ensures NoStopBefore(bs, scope, owed, k + 1) && Absorbs(bs, scope, owed, k + 1)
  {
    var next := owed - (if Covers(bs[0], scope) then bs[0].leftAmount else 0);
    forall i | 0 < i <= k + 1 ensures Absorbs(bs, scope, owed, i) == Absorbs(bs[1..], scope, next, i - 1) {
      OwedTail(bs, scope, owed, i);
      assert bs[1..][i - 1] == bs[i];
    }
  }

  /** Whatever the leftAmounts, including negative ones: an expense that is
      paid while some budget covers it was paid by a first absorbing budget,
      so SpillStopsAt describes it. */
  lemma {:induction false} SpillPaidStops(bs: seq<Budget>, scope: Scope, owed: int)
    requires AnyCovers(bs, scope) && Spill(bs, scope, owed).remaining <= 0
    ensures exists k :: 0 <= k < |bs| && NoStopBefore(bs, scope, owed, k) && Absorbs(bs, scope, owed, k)
  {
    assert bs[..0] == [];
    assert CoveredLeft(bs[..0], scope) == 0;
    assert Covers(bs[0], scope) || AnyCovers(bs[1..], scope) by {
      var j :| 0 <= j < |bs| && Covers(bs[j], scope);
      if j > 0 {
        assert bs[1..][j - 1] == bs[j];
      }
    }
    if Absorbs(bs, scope, owed, 0) {
      assert NoStopBefore(bs, scope, owed, 0);
    } else {
      var next := owed - (if Covers(bs[0], scope) then bs[0].leftAmount else 0);
      SpillPast(bs, scope, owed);
      if AnyCovers(bs[1..], scope) {
        SpillPaidStops(bs[1..], scope, next);
        var k :| 0 <= k < |bs[1..]| && NoStopBefore(bs[1..], scope, next, k) && Absorbs(bs[1..], scope, next, k);
        StopCons(bs, scope, owed, k);
      } else {
        SpillUncovered(bs[1..], scope, next);
        assert false;
      }
    }
  }

  /** The `for` loop of POST /createTransaction over the covering budgets in
      store order, with its `break`: it returns what is still owed. */
  method SpillBudgets(db: Database, scope: Scope, amount: int) returns (remaining: int)
    requires db.Valid()
    modifies db
    ensures db.Valid()
    ensures db.budgets == Spill(old(db.budgets), scope, amount).budgets
    ensures remaining == Spill(old(db.budgets), scope, amount).remaining
    ensures db.categories == old(db.categories) && db.transactions == old(db.transactions)
    ensures db.nextBudgetId == old(db.nextBudgetId) && db.nextTransactionId == old(db.nextTransactionId)
  {
    ghost var before := db.budgets;
    remaining := amount;
    var j := 0;
    assert before[..0] == [];
    while j < |db.budgets|
      invariant db.Valid()
      invariant 0 <= j <= |before| == |db.budgets|
      invariant remaining == Owed(before, scope, amount, j)
      invariant NoStopBefore(before, scope, amount, j)
      invariant forall i :: 0 <= i < j ==> db.budgets[i] == Emptied(before[i], scope)
      invariant forall i :: j <= i < |before| ==> db.budgets[i] == before[i]
      invariant db.categories == old(db.categories) && db.transactions == old(db.transactions)
      invariant db.nextBudgetId == old(db.nextBudgetId) && db.nextTransactionId == old(db.nextTransactionId)
    {
      var b := db.budgets[j];
      if Covers(b, scope) {
        if b.leftAmount >= remaining {
          db.ReplaceBudget(j, b.(leftAmount := b.leftAmount - remaining));
          SpillMatchesStop(before, db.budgets, scope, amount, j);
          remaining := 0;
          break;
        }
        assert !Absorbs(before, scope, amount, j);
        remaining := remaining - b.leftAmount;
        db.ReplaceBudget(j, b.(leftAmount := 0));
      }
      assert !Absorbs(before, scope, amount, j);
      CoveredLeftPrefixStep(before, scope, j);
      j := j + 1;
    }
    if j == |before| {
      SpillMatchesWalk(before, db.budgets, scope, amount);
    }
  }

  /** POST /createTransaction. The name and the category name are taken as
      given. A rejected request, an unknown category and an expense no budget
      covers change nothing; an expense the covering budgets cannot pay for
      keeps the emptied budgets and records no transaction. */
  method CreateTransaction(db: Database, req: TransactionRequest, today: Today) returns (r: Outcome<Transaction>)
    requires db.Valid()
    modifies db
    ensures db.Valid()
    ensures db.categories == old(db.categories) && db.nextBudgetId == old(db.nextBudgetId)
    ensures r.Err? ==> db.transactions == old(db.transactions) && db.nextTransactionId == old(db.nextTransactionId)
    ensures r.Ok? ==> db.nextTransactionId == old(db.nextTransactionId) + 1
    ensures !RequiredPresent(req) ==> r == Err(MissingFields) && unchanged(db)
    ensures RequiredPresent(req) && req.kind.value != "expense" && req.kind.value != "income" ==>
      r == Err(InvalidType) && unchanged(db)
    ensures RequiredPresent(req) && req.kind.value == "expense" && !TruthyText(req.categoryName) ==>
      r == Err(MissingCategoryName) && unchanged(db)
    ensures AcceptableTransaction(req) && req.kind.value == "income" ==>
      && r == Ok(Transaction(old(db.nextTransactionId), req.userId.value, "income", req.amount.value,
                             req.name.value, StampDate(today), None))
      && db.transactions == old(db.transactions) + [r.value]
      && db.budgets == old(db.budgets)
    ensures AcceptableTransaction(req) && req.kind.value == "expense" ==>
      var category := req.categoryName.value;
      if category !in old(db.categories) then
        r == Err(CategoryNotFound) && unchanged(db)
      else
        var scope := Scope(req.userId.value, old(db.categories)[category], StampDate(today));
        if !AnyCovers(old(db.budgets), scope) then
          r == Err(NoBudgetFound) && unchanged(db)
        else
          var s := Spill(old(db.budgets), scope, req.amount.value);
          && db.budgets == s.budgets
          && (s.remaining <= 0 ==>
                && r == Ok(Transaction(old(db.nextTransactionId), scope.userId, "expense", req.amount.value,
                                       req.name.value, scope.date, Some(scope.categoryId)))
                && db.transactions == old(db.transactions) + [r.value])
          && (s.remaining > 0 ==> r == Err(NotEnoughBudget))
  {
    if !TruthyNumber(req.amount) || !TruthyText(req.kind) || !TruthyNumber(req.userId) || !TruthyText(req.name) {
      return Err(MissingFields);
    }
    var kind, amount, userId, name := req.kind.value, req.amount.value, req.userId.value, req.name.value;
    if kind != "expense" && kind != "income" {
      return Err(InvalidType);
    }
    if kind == "expense" && !TruthyText(req.categoryName) {
      return Err(MissingCategoryName);
    }
    var date := StampDate(today);
    var categoryId: Option<int> := None;
    if kind == "expense" {
      var category := req.categoryName.value;
      if category !in db.categories {
        return Err(CategoryNotFound);
      }
      categoryId := Some(db.categories[category]);
      var scope := Scope(userId, categoryId.value, date);
      if !AnyCovers(db.budgets, scope) {
        return Err(NoBudgetFound);
      }
      var remaining := SpillBudgets(db, scope, amount);
      if remaining > 0 {
        return Err(NotEnoughBudget);
      }
    }
    var t := db.InsertTransaction(userId, kind, amount, name, date, categoryId);
    return Ok(t);
  }

  /** PUT /editTransaction/:id. Amount, type and category name are all
      required, whatever the type; the type is not checked, the category is
      looked up by the name as given, and the name of the transaction is left
      as it was. Budgets are not touched. */
  method EditTransaction(db: Database, id: int, req: TransactionEdit) returns (r: Outcome<Transaction>)
    requires db.Valid()
    modifies db
    ensures db.Valid()
    ensures db.categories == old(db.categories) && db.budgets == old(db.budgets)
    ensures db.nextBudgetId == old(db.nextBudgetId) && db.nextTransactionId == old(db.nextTransactionId)
    ensures
      if !(TruthyNumber(req.amount) && TruthyText(req.kind) && TruthyText(req.categoryName)) then
        r == Err(MissingFields) && unchanged(db)
      else if req.categoryName.value !in old(db.categories) then
        r == Err(CategoryNotFound) && unchanged(db)
      else
        match IndexOfKey(old(db.transactions), TransactionId, id)
        case None => r == Err(RecordNotFound) && unchanged(db)
        case Some(i) =>
          var t := old(db.transactions)[i];
          && r == Ok(t.(amount := req.amount.value, kind := req.kind.value,
                        categoryId := Some(old(db.categories)[req.categoryName.value])))
          && db.transactions == old(db.transactions)[i := r.value]
  {
    if !TruthyNumber(req.amount) || !TruthyText(req.kind) || !TruthyText(req.categoryName) {
      return Err(MissingFields);
    }
    var category := req.categoryName.value;
    if category !in db.categories {
      return Err(CategoryNotFound);
    }
    var categoryId := db.categories[category];
    var found := IndexOfKey(db.transactions, TransactionId, id);
    if found.None? {
      return Err(RecordNotFound);
    }
    var i := found.value;
    var updated := db.transactions[i].(amount := req.amount.value, kind := req.kind.value,
                                       categoryId := Some(categoryId));
    db.ReplaceTransaction(i, updated);
    return Ok(updated);
  }
}
