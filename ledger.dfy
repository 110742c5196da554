/** What both copies of the handlers share about budgets: which budgets
    cover an expense (the filter of createTransaction's `findMany`), the
    totals the draw lemmas are stated in, and the key of createBudget's
    duplicate check. */
module Ledger {
  import opened Text
  import opened Storage

  /** The expense's user, its category id, and its `yyyy/mm/dd` stamp. */
  datatype Scope = Scope(userId: int, categoryId: int, date: string)

  /** Same user and category, and `startDate <= date <= endDate` compared as strings. */
  predicate Covers(b: Budget, scope: Scope)
  {
    && b.userId == scope.userId && b.categoryId == scope.categoryId
    && LexLe(b.startDate, scope.date) && LexLe(scope.date, b.endDate)
  }

  /** `budgets.length !== 0` for the covering budgets. */
  predicate AnyCovers(bs: seq<Budget>, scope: Scope)
  {
    exists i :: 0 <= i < |bs| && Covers(bs[i], scope)
  }

  /** Sum of `leftAmount` over the covering budgets. */
  function CoveredLeft(bs: seq<Budget>, scope: Scope): int
  {
    if bs == [] then 0
    else (if Covers(bs[0], scope) then bs[0].leftAmount else 0) + CoveredLeft(bs[1..], scope)
  }

  /** Number of covering budgets. */
  function CoveringCount(bs: seq<Budget>, scope: Scope): nat
  {
    if bs == [] then 0
    else (if Covers(bs[0], scope) then 1 else 0) + CoveringCount(bs[1..], scope)
  }

  /** Whether a budget covers does not depend on its leftAmount. */
  lemma CoversIgnoresLeft(b: Budget, left: int, scope: Scope)
    ensures Covers(b.(leftAmount := left), scope) == Covers(b, scope)
  {
  }

  /** The covered total of a budget in front of others. */
  lemma CoveredLeftCons(b: Budget, bs: seq<Budget>, scope: Scope)
    ensures CoveredLeft([b] + bs, scope) == (if Covers(b, scope) then b.leftAmount else 0) + CoveredLeft(bs, scope)
  {
    assert ([b] + bs)[0] == b && ([b] + bs)[1..] == bs;
  }

  /** The covered total of a concatenation is the sum of the covered totals. */
  lemma {:induction false} CoveredLeftAppend(a: seq<Budget>, b: seq<Budget>, scope: Scope)
    ensures CoveredLeft(a + b, scope) == CoveredLeft(a, scope) + CoveredLeft(b, scope)
  {
    if a == [] {
      assert a + b == b;
    } else {
      assert (a + b)[1..] == a[1..] + b;
      CoveredLeftAppend(a[1..], b, scope);
    }
  }

  /** With no negative leftAmount the covered total is not negative. */
  lemma {:induction false} CoveredLeftNonNegative(bs: seq<Budget>, scope: Scope)
    requires NoNegativeLeft(bs)
    ensures CoveredLeft(bs, scope) >= 0
  {
    if bs != [] {
      CoveredLeftNonNegative(bs[1..], scope);
    }
  }

  /** Without a covering budget the covered total and count are zero. */
  lemma {:induction false} NothingCovered(bs: seq<Budget>, scope: Scope)
    requires !AnyCovers(bs, scope)
    ensures CoveredLeft(bs, scope) == 0 && CoveringCount(bs, scope) == 0
  {
    if bs != [] {
      assert !Covers(bs[0], scope);
      forall i | 0 <= i < |bs[1..]| ensures !Covers(bs[1..][i], scope) {
        assert bs[1..][i] == bs[i + 1];
      }
      NothingCovered(bs[1..], scope);
    }
  }

  predicate NoNegativeLeft(bs: seq<Budget>)
  {
    forall i :: 0 <= i < |bs| ==> bs[i].leftAmount >= 0
  }

  /** `after` is `before` with, at most, each budget's leftAmount changed. */
  predicate OnlyLeftChanged(before: seq<Budget>, after: seq<Budget>)
  {
    |before| == |after| && forall i :: 0 <= i < |before| ==> after[i] == before[i].(leftAmount := after[i].leftAmount)
  }

  /** A budget whose start sorts after its end covers no date. */
  lemma InvertedRangeCoversNothing(b: Budget, scope: Scope)
    requires !LexLe(b.startDate, b.endDate)
    ensures !Covers(b, scope)
  {
    if Covers(b, scope) {
      LexLeTransitive(b.startDate, scope.date, b.endDate);
    }
  }

  /** A one-day budget covers exactly its own date, for its user and category. */
  lemma OneDayRange(b: Budget, scope: Scope)
    requires b.startDate == b.endDate
    ensures Covers(b, scope) <==>
      b.userId == scope.userId && b.categoryId == scope.categoryId && scope.date == b.startDate
  {
    LexLeReflexive(b.startDate);
    if Covers(b, scope) {
      LexLeAntisymmetric(scope.date, b.startDate);
    }
  }

  /** A budget covers every date between two dates it covers. */
  lemma CoveredBetween(b: Budget, scope: Scope, date: string, later: string)
    requires Covers(b, scope.(date := date)) && Covers(b, scope.(date := later))
    requires LexLe(date, scope.date) && LexLe(scope.date, later)
    ensures Covers(b, scope)
  {
    LexLeTransitive(b.startDate, date, scope.date);
    LexLeTransitive(scope.date, later, b.endDate);
  }

  /** A budget of the expense's user and category misses the expense's date
      only when the date sorts strictly before its start or strictly after
      its end. */
  lemma MissedDateOutside(b: Budget, scope: Scope)
    requires b.userId == scope.userId && b.categoryId == scope.categoryId
    ensures !Covers(b, scope) <==>
      (LexLe(scope.date, b.startDate) && scope.date != b.startDate) ||
      (LexLe(b.endDate, scope.date) && scope.date != b.endDate)
  {
    LexLeTotal(b.startDate, scope.date);
    LexLeTotal(scope.date, b.endDate);
    LexLeReflexive(scope.date);
    if LexLe(scope.date, b.startDate) && scope.date != b.startDate && LexLe(b.startDate, scope.date) {
      LexLeAntisymmetric(scope.date, b.startDate);
    }
    if LexLe(b.endDate, scope.date) && scope.date != b.endDate && LexLe(scope.date, b.endDate) {
      LexLeAntisymmetric(scope.date, b.endDate);
    }
  }

  /** Budget `b` has this user, category, start date and end date: the
      `findFirst` filter of createBudget's duplicate check. */
  predicate HasKey(b: Budget, userId: int, categoryId: int, startDate: string, endDate: string)
  {
    b.userId == userId && b.categoryId == categoryId && b.startDate == startDate && b.endDate == endDate
  }

  /** Some budget of `bs` has this key (`isPresent` is truthy). */
  predicate KeyTaken(bs: seq<Budget>, userId: int, categoryId: int, startDate: string, endDate: string)
  {
    exists i :: 0 <= i < |bs| && HasKey(bs[i], userId, categoryId, startDate, endDate)
  }

  /** No two budgets share user, category, start and end date. */
  predicate KeysUnique(bs: seq<Budget>)
  {
    forall i, j :: 0 <= i < j < |bs| ==> !HasKey(bs[j], bs[i].userId, bs[i].categoryId, bs[i].startDate, bs[i].endDate)
  }

  /** Appending a budget whose key is not taken keeps the keys unique, and the
      new budget's key is then taken. */
  lemma AppendKeepsKeysUnique(bs: seq<Budget>, b: Budget)
    requires KeysUnique(bs) && !KeyTaken(bs, b.userId, b.categoryId, b.startDate, b.endDate)
    ensures KeysUnique(bs + [b])
    ensures KeyTaken(bs + [b], b.userId, b.categoryId, b.startDate, b.endDate)
  {
    var after := bs + [b];
    assert after[|bs|] == b;
    forall i, j | 0 <= i < j < |after|
      ensures !HasKey(after[j], after[i].userId, after[i].categoryId, after[i].startDate, after[i].endDate)
    {
      assert after[i] == bs[i];
      if j < |bs| {
        assert after[j] == bs[j];
      } else if HasKey(after[j], after[i].userId, after[i].categoryId, after[i].startDate, after[i].endDate) {
        assert HasKey(bs[i], b.userId, b.categoryId, b.startDate, b.endDate);
      }
    }
  }
}
