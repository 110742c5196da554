/** services/BudgetServices.js: create, edit and delete a budget. Both dates
    of a new budget go from day/month/year to year/month/day; an edit stores
    what it is given. */
module BudgetServices {
  import opened Requests
  import opened Text
  import opened Dates
  import opened Storage
  import opened Ledger

  /** The start and end date createBudget stores: each input date with its
      first and third `/`-separated fields exchanged. */
  function StoredDates(startDate: string, endDate: string): (dates: (string, string))
  {
    (SwapDate(startDate), SwapDate(endDate))
  }

  /** For three-field input dates each stored date is the matching input with
      its fields in reverse order, so the input can be read back from it. */
  lemma StoredDatesReverseInput(startDate: string, endDate: string)
    requires ThreeFields(startDate) && ThreeFields(endDate)
    ensures var (start, end) := StoredDates(startDate, endDate);
      var (p, q) := (Split(startDate, '/'), Split(endDate, '/'));
      && Split(start, '/') == [p[2], p[1], p[0]] && Split(end, '/') == [q[2], q[1], q[0]]
      && SwapDate(start) == startDate && SwapDate(end) == endDate
  {
    SwapDateInvolution(startDate);
    SwapDateInvolution(endDate);
  }

  /** The swap adds no padding: a budget for February 2024 sent as
      `1/2/2024` starts at `2024/2/1`. */
  lemma UnpaddedStartExample()
    ensures SwapDate("1/2/2024") == "2024/2/1"
  {
    assert "1/2/2024" == "1" + "/" + "2" + "/" + "2024";
    assert "2024/2/1" == "2024" + "/" + "2" + "/" + "1";
    SwapDateOfFields("1", "2", "2024");
  }

  /** A month below 10 is padded with one leading zero. */
  lemma Pad2Small(n: nat)
    requires n < 10
    ensures Pad2(n) == "0" + NatToString(n)
  {
  }

  /** The swap adds no padding, so a budget whose start month (1 to 9) was
      sent without its leading zero starts at `y/m/...`, which sorts after
      every stamp `y/0m'/dd` of months 1 to 9 of that year: such a budget
      covers no expense made in them, its own month included. */
  lemma UnpaddedStartMissesStamps(b: Budget, dayText: string, m: nat, today: Today, scope: Scope)
    requires '/' !in dayText && 1 <= m <= 9 && today.month < 10
    requires b.startDate == SwapDate(dayText + "/" + NatToString(m) + "/" + NatToString(today.year))
    requires scope.date == StampDate(today)
    ensures !LexLe(b.startDate, scope.date)
    ensures !Covers(b, scope)
  {
    var year, month := NatToString(today.year), NatToString(m);
    DigitsHaveNoSlash(year);
    DigitsHaveNoSlash(month);
    SwapDateOfFields(dayText, month, year);
    Pad2Small(today.month);
    StartAfterStamp(year, month, dayText, Pad2(today.month), Pad2(today.day));
  }

  /** `y/m/...` with a one-digit month above 0 sorts after `y/0.../...`. */
  lemma StartAfterStamp(year: string, month: string, dayText: string, stampMonth: string, stampDay: string)
    requires |month| == 1 && '0' < month[0] && |stampMonth| == 2 && stampMonth[0] == '0'
    ensures !LexLe(year + "/" + month + "/" + dayText, year + "/" + stampMonth + "/" + stampDay)
  {
    assert month != stampMonth[..1] && !LexLe(month, stampMonth[..1]) by {
      assert stampMonth[..1][0] == '0';
    }
    assert year + "/" + month + "/" + dayText == (year + "/") + (month + ("/" + dayText));
    assert stampMonth == stampMonth[..1] + stampMonth[1..];
    assert year + "/" + stampMonth + "/" + stampDay == (year + "/") + (stampMonth[..1] + (stampMonth[1..] + "/" + stampDay));
    LexLeCommonPrefix(year + "/", month + ("/" + dayText), stampMonth[..1] + (stampMonth[1..] + "/" + stampDay));
    LexLeDecidedByPrefix(month, "/" + dayText, stampMonth[..1], stampMonth[1..] + "/" + stampDay);
  }

  /** createBudget. A missing field, an unknown category name (taken as given)
      and a budget with the same user, category and stored dates are refused
      with the store unchanged; otherwise one budget is appended whose
      leftAmount is its amount. */
  method CreateBudget(db: Database, userId: int, req: BudgetRequest) returns (r: Outcome<Budget>)
    requires db.Valid()
    modifies db
    ensures db.Valid()
    ensures db.categories == old(db.categories) && db.transactions == old(db.transactions)
    ensures db.nextTransactionId == old(db.nextTransactionId)
    ensures r.Ok? ==> db.nextBudgetId == old(db.nextBudgetId) + 1
    ensures r.Err? ==> db.nextBudgetId == old(db.nextBudgetId)
    ensures !AcceptableBudget(req) ==> r == Err(MissingFields) && unchanged(db)
    ensures AcceptableBudget(req) ==>
      var (start, end) := StoredDates(req.startDate.value, req.endDate.value);
      var category := req.categoryName.value;
      if category !in old(db.categories) then
        r == Err(CategoryNotFound) && unchanged(db)
      else if KeyTaken(old(db.budgets), userId, old(db.categories)[category], start, end) then
        r == Err(DuplicateBudget) && unchanged(db)
      else
        && r == Ok(Budget(old(db.nextBudgetId), userId, old(db.categories)[category],
                          req.amount.value, req.amount.value, start, end))
        && db.budgets == old(db.budgets) + [r.value]
    ensures KeysUnique(old(db.budgets)) ==> KeysUnique(db.budgets)
  {
    if !TruthyNumber(req.amount) || !TruthyText(req.startDate) || !TruthyText(req.endDate) || !TruthyText(req.categoryName) {
      return Err(MissingFields);
    }
    var amount := req.amount.value;
    var startDate := SwapDate(req.startDate.value);
    var endDate := SwapDate(req.endDate.value);
    var category := req.categoryName.value;
    if category !in db.categories {
      return Err(CategoryNotFound);
    }
    var categoryId := db.categories[category];
    if KeyTaken(db.budgets, userId, categoryId, startDate, endDate) {
      return Err(DuplicateBudget);
    }
    ghost var before := db.budgets;
    var b := db.InsertBudget(userId, categoryId, amount, amount, startDate, endDate);
    if KeysUnique(before) {
      AppendKeepsKeysUnique(before, b);
    }
    return Ok(b);
  }

  /** editBudget. Every field is required, leftAmount 0 included; the budget
      with that id gets the user, amount, leftAmount, dates and category
      exactly as given: the dates are not swapped, leftAmount is not compared
      with amount, and the duplicate check is not made. */
  method EditBudget(db: Database, id: int, userId: int, req: BudgetEdit) returns (r: Outcome<Budget>)
    requires db.Valid()
    modifies db
    ensures db.Valid()
    ensures db.categories == old(db.categories) && db.transactions == old(db.transactions)
    ensures db.nextBudgetId == old(db.nextBudgetId) && db.nextTransactionId == old(db.nextTransactionId)
    ensures
      if !AcceptableBudgetEdit(req) then
        r == Err(MissingFields) && unchanged(db)
      else if req.categoryName.value !in old(db.categories) then
        r == Err(CategoryNotFound) && unchanged(db)
      else
        match IndexOfKey(old(db.budgets), BudgetId, id)
        case None => r == Err(RecordNotFound) && unchanged(db)
        case Some(i) =>
          && r == Ok(Budget(id, userId, old(db.categories)[req.categoryName.value], req.amount.value,
                            req.leftAmount.value, req.startDate.value, req.endDate.value))
          && db.budgets == old(db.budgets)[i := r.value]
  {
    if !TruthyNumber(req.amount) || !TruthyText(req.startDate) || !TruthyText(req.endDate)
      || !TruthyText(req.categoryName) || !TruthyNumber(req.leftAmount)
    {
      return Err(MissingFields);
    }
    var category := req.categoryName.value;
    if category !in db.categories {
      return Err(CategoryNotFound);
    }
    var categoryId := db.categories[category];
    var found := IndexOfKey(db.budgets, BudgetId, id);
    if found.None? {
      return Err(RecordNotFound);
    }
    var updated := Budget(id, userId, categoryId, req.amount.value, req.leftAmount.value,
                          req.startDate.value, req.endDate.value);
    db.ReplaceBudget(found.value, updated);
    return Ok(updated);
  }

  /** deleteBudget: the budget with that id goes, every other budget and every
      transaction stays; an absent id is an error. */
  method DeleteBudget(db: Database, id: int) returns (r: Outcome<()>)
    requires db.Valid()
    modifies db
    ensures db.Valid()
    ensures db.categories == old(db.categories) && db.transactions == old(db.transactions)
    ensures db.nextBudgetId == old(db.nextBudgetId) && db.nextTransactionId == old(db.nextTransactionId)
    ensures
      match IndexOfKey(old(db.budgets), BudgetId, id)
      case None => r == Err(RecordNotFound) && unchanged(db)
      case Some(i) =>
        && r == Ok(())
        && db.budgets == old(db.budgets)[..i] + old(db.budgets)[i + 1..]
        && forall b :: b in db.budgets <==> b in old(db.budgets) && b.id != id
  {
    var found := IndexOfKey(db.budgets, BudgetId, id);
    if found.None? {
      return Err(RecordNotFound);
    }
    db.RemoveBudget(found.value);
    return Ok(());
  }
}
