/** routes/FinancialReports.js: the monthly report, which selects the
    transactions whose date string contains `/month/` and folds their amounts
    into a net amount, incomes adding and everything else subtracting. */
module FinancialReports {
  import opened Text
  import opened Dates
  import opened Storage

  /** The reply of GET /getReportForAMonth/:month. */
  datatype Report = Report(transactions: seq<Transaction>, netAmount: int)

  /** The `contains: `/${month}/`` filter on the date column. */
  predicate InMonth(t: Transaction, month: string)
  {
    Contains(t.date, "/" + month + "/")
  }

  /** `transaction.findMany` with that filter, in store order, for every user. */
  function SelectMonth(ts: seq<Transaction>, month: string): (selected: seq<Transaction>)
    ensures forall t :: t in selected <==> t in ts && InMonth(t, month)
    ensures |selected| <= |ts|
    ensures multiset(selected) <= multiset(ts)
    ensures forall t :: InMonth(t, month) ==> multiset(selected)[t] == multiset(ts)[t]
    ensures forall t :: !InMonth(t, month) ==> multiset(selected)[t] == 0
  {
    if ts == [] then []
    else
      assert ts == [ts[0]] + ts[1..];
      (if InMonth(ts[0], month) then [ts[0]] else []) + SelectMonth(ts[1..], month)
  }

  /** What one transaction adds to the net amount: an income its amount, any
      other type minus its amount. */
  function Signed(t: Transaction): int
  {
    if t.kind == "income" then t.amount else -t.amount
  }

  /** The net amount of `ts`: the `forEach` fold, stated as a sum. */
  function Net(ts: seq<Transaction>): int
  {
    if ts == [] then 0 else Signed(ts[0]) + Net(ts[1..])
  }

  /** Sum of the amounts of the incomes. */
  function IncomeTotal(ts: seq<Transaction>): int
  {
    if ts == [] then 0 else (if ts[0].kind == "income" then ts[0].amount else 0) + IncomeTotal(ts[1..])
  }

  /** Sum of the amounts of every transaction whose type is not 'income'. */
  function DebitTotal(ts: seq<Transaction>): int
  {
    if ts == [] then 0 else (if ts[0].kind == "income" then 0 else ts[0].amount) + DebitTotal(ts[1..])
  }

  /** The net amount of a concatenation is the sum of the net amounts. */
  lemma {:induction false} NetAppend(a: seq<Transaction>, b: seq<Transaction>)
    ensures Net(a + b) == Net(a) + Net(b)
  {
    if a == [] {
      assert a + b == b;
    } else {
      assert (a + b)[1..] == a[1..] + b;
      NetAppend(a[1..], b);
    }
  }

  /** The net amount is the incomes less everything else. */
  lemma {:induction false} NetIsIncomeMinusDebits(ts: seq<Transaction>)
    ensures Net(ts) == IncomeTotal(ts) - DebitTotal(ts)
  {
    if ts != [] {
      NetIsIncomeMinusDebits(ts[1..]);
    }
  }

  /** Taking out the transaction at `k` takes its signed amount off the net amount. */
  lemma NetRemove(b: seq<Transaction>, k: nat)
    requires k < |b|
    ensures Net(b) == Signed(b[k]) + Net(b[..k] + b[k + 1..])
  {
    assert b == b[..k] + ([b[k]] + b[k + 1..]);
    NetAppend(b[..k], [b[k]] + b[k + 1..]);
    NetAppend(b[..k], b[k + 1..]);
    assert ([b[k]] + b[k + 1..])[1..] == b[k + 1..];
  }

  /** Matching the first element of `a` with element `k` of a permutation `b`
      leaves permutations behind. */
  lemma PermutationTail(a: seq<Transaction>, b: seq<Transaction>, k: nat)
    requires multiset(a) == multiset(b) && a != [] && k < |b| && b[k] == a[0]
    ensures multiset(a[1..]) == multiset(b[..k] + b[k + 1..])
  {
    assert a == [a[0]] + a[1..];
    assert b == b[..k] + [b[k]] + b[k + 1..];
    calc {
      multiset(a[1..]);
      multiset(a) - multiset{a[0]};
      multiset(b) - multiset{b[k]};
      multiset(b[..k]) + multiset(b[k + 1..]);
      multiset(b[..k] + b[k + 1..]);
    }
  }

  /** The net amount does not depend on the order of the transactions. */
  lemma {:induction false} NetOrderIndependent(a: seq<Transaction>, b: seq<Transaction>)
    requires multiset(a) == multiset(b)
    ensures Net(a) == Net(b)
    decreases |a|
  {
    if a == [] {
      assert |b| == |multiset(b)| == 0;
    } else {
      assert a[0] in multiset(b);
      var k :| 0 <= k < |b| && b[k] == a[0];
      PermutationTail(a, b, k);
      NetOrderIndependent(a[1..], b[..k] + b[k + 1..]);
      NetRemove(b, k);
    }
  }

  /** A transaction stamped `yyyy/mm/dd` falls in `month` exactly when `month`
      is its padded month field: the year has no `/` before it and the day
      none after it, so neither can match. */
  lemma StampInMonth(t: Transaction, today: Today, month: string)
    requires t.date == StampDate(today)
    ensures InMonth(t, month) <==> month == Pad2(today.month)
  {
    var year, mm, dd := NatToString(today.year), Pad2(today.month), Pad2(today.day);
    DigitsHaveNoSlash(year);
    DigitsHaveNoSlash(mm);
    DigitsHaveNoSlash(dd);
    assert t.date == year + ['/'] + mm + ['/'] + dd;
    assert "/" + month + "/" == ['/'] + month + ['/'];
    MiddleFieldMatch(year, mm, dd, '/', month);
  }

  /** The `forEach` loop: `netAmount` starts at 0 and each transaction adds
      its signed amount. */
  method NetAmount(ts: seq<Transaction>) returns (net: int)
    ensures net == Net(ts)
  {
    net := 0;
    var i := 0;
    while i < |ts|
      invariant 0 <= i <= |ts|
      invariant net == Net(ts[..i])
    {
      if ts[i].kind == "income" {
        net := net + ts[i].amount;
      } else {
        net := net - ts[i].amount;
      }
      assert ts[..i + 1] == ts[..i] + [ts[i]];
      NetAppend(ts[..i], [ts[i]]);
      i := i + 1;
    }
    assert ts[..i] == ts;
  }

  /** GET /getReportForAMonth/:month: the month's transactions of every user,
      and their net amount. */
  method GetReportForAMonth(db: Database, month: string) returns (r: Report)
    ensures r.transactions == SelectMonth(db.transactions, month)
    ensures r.netAmount == IncomeTotal(r.transactions) - DebitTotal(r.transactions)
    ensures r.transactions == [] ==> r.netAmount == 0
  {
    var selected := SelectMonth(db.transactions, month);
    var net := NetAmount(selected);
    NetIsIncomeMinusDebits(selected);
    return Report(selected, net);
  }
}
