/** routes/Budgets.js: create and edit a budget. This copy splits the
    already-swapped start date a second time to build the end date, and its
    edit answers with an error after the update has been made. */
module BudgetRoutes {
  import opened Requests
  import opened Dates
  import opened Storage
  import opened Ledger
  import BudgetServices

  /** The start and end date POST /createBudget stores, as written: the end
      date is built from the swapped start date, and the end date sent is
      never read. */
  function StoredDates(startDate: string, endDate: string): (dates: (string, string))
  {
    var start := SwapDate(startDate);
    (start, SwapDate(start))
  }

  /** For a three-field start date, the stored end date is the start date
      exactly as the caller sent it, whatever end date was sent. */
  lemma StoredEndIsInputStart(startDate: string, endDate: string, otherEnd: string)
    requires ThreeFields(startDate)
    ensures StoredDates(startDate, endDate).1 == startDate
    ensures StoredDates(startDate, endDate) == StoredDates(startDate, otherEnd)
  {
    SwapDateInvolution(startDate);
  }

  /** A budget for February 2024 sent as `01/02/2024`..`28/02/2024` is stored
      with end date `01/02/2024`, where the services copy stores `2024/02/28`;
      the stored range then runs from `2024/02/01` to a string that is not a
      year-first date at all. */
  lemma StoredEndExample()
    ensures StoredDates("01/02/2024", "28/02/2024") == ("2024/02/01", "01/02/2024")
    ensures BudgetServices.StoredDates("01/02/2024", "28/02/2024") == ("2024/02/01", "2024/02/28")
  {
    assert "01/02/2024" == "01" + "/" + "02" + "/" + "2024";
    assert "28/02/2024" == "28" + "/" + "02" + "/" + "2024";
    assert "2024/02/01" == "2024" + "/" + "02" + "/" + "01";
    assert "2024/02/28" == "2024" + "/" + "02" + "/" + "28";
    SwapDateOfFields("01", "02", "2024");
    SwapDateOfFields("28", "02", "2024");
    SwapDateOfFields("2024", "02", "01");
  }

  /** POST /createBudget/:userId. Same checks and effects as the services
      copy, except for the stored end date. */
  method CreateBudget(db: Database, userId: int, req: BudgetRequest) returns (r: Outcome<Budget>)
    requires db.Valid()
    modifies db
    ensures db.Valid()
    ensures db.categories == old(db.categories) && db.transactions == old(db.transactions)
    ensures db.nextTransactionId == old(db.nextTransactionId)
    ensures r.Ok? ==> db.nextBudgetId == old(db.nextBudgetId) + 1
    ensures r.Err? ==> db.nextBudgetId == old(db.nextBudgetId)
    ensures !AcceptableBudget(req) ==> r == Err(MissingFields) && unchanged(db)
    ensures AcceptableBudget(req) ==>
      var (start, end) := StoredDates(req.startDate.value, req.endDate.value);
      var category := req.categoryName.value;
      if category !in old(db.categories) then
        r == Err(CategoryNotFound) && unchanged(db)
      else if KeyTaken(old(db.budgets), userId, old(db.categories)[category], start, end) then
        r == Err(DuplicateBudget) && unchanged(db)
      else
        && r == Ok(Budget(old(db.nextBudgetId), userId, old(db.categories)[category],
                          req.amount.value, req.amount.value, start, end))
        && db.budgets == old(db.budgets) + [r.value]
    ensures KeysUnique(old(db.budgets)) ==> KeysUnique(db.budgets)
  {
    if !TruthyNumber(req.amount) || !TruthyText(req.startDate) || !TruthyText(req.endDate) || !TruthyText(req.categoryName) {
      return Err(MissingFields);
    }
    var amount := req.amount.value;
    var startDate := SwapDate(req.startDate.value);
    var endDate := SwapDate(startDate);
    var category := req.categoryName.value;
    if category !in db.categories {
      return Err(CategoryNotFound);
    }
    var categoryId := db.categories[category];
    if KeyTaken(db.budgets, userId, categoryId, startDate, endDate) {
      return Err(DuplicateBudget);
    }
    ghost var before := db.budgets;
    var b := db.InsertBudget(userId, categoryId, amount, amount, startDate, endDate);
    if KeysUnique(before) {
      AppendKeepsKeysUnique(before, b);
    }
    return Ok(b);
  }

  /** PUT /editBudget/:id/:userId. Checks and update as in the services copy;
      the reply then names a variable that does not exist, so the request that
      updated the budget is answered with a server error. */
  method EditBudget(db: Database, id: int, userId: int, req: BudgetEdit) returns (r: Outcome<Budget>)
    requires db.Valid()
    modifies db
    ensures db.Valid()
    ensures db.categories == old(db.categories) && db.transactions == old(db.transactions)
    ensures db.nextBudgetId == old(db.nextBudgetId) && db.nextTransactionId == old(db.nextTransactionId)
    ensures
      if !AcceptableBudgetEdit(req) then
        r == Err(MissingFields) && unchanged(db)
      else if req.categoryName.value !in old(db.categories) then
        r == Err(CategoryNotFound) && unchanged(db)
      else
        match IndexOfKey(old(db.budgets), BudgetId, id)
        case None => r == Err(RecordNotFound) && unchanged(db)
        case Some(i) =>
          && r == Err(ServerError)
          && db.budgets == old(db.budgets)[i := Budget(id, userId, old(db.categories)[req.categoryName.value],
                                                       req.amount.value, req.leftAmount.value,
                                                       req.startDate.value, req.endDate.value)]
  {
    if !TruthyNumber(req.amount) || !TruthyText(req.startDate) || !TruthyText(req.endDate)
      || !TruthyText(req.categoryName) || !TruthyNumber(req.leftAmount)
    {
      return Err(MissingFields);
    }
    var category := req.categoryName.value;
    if category !in db.categories {
      return Err(CategoryNotFound);
    }
    var categoryId := db.categories[category];
    var found := IndexOfKey(db.budgets, BudgetId, id);
    if found.None? {
      return Err(RecordNotFound);
    }
    db.ReplaceBudget(found.value, Budget(id, userId, categoryId, req.amount.value, req.leftAmount.value,
                                         req.startDate.value, req.endDate.value));
    return Err(ServerError);
  }
}
