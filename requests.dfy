/** The shapes the handlers receive and answer with: request bodies, the
    JavaScript truthiness tests they apply to them, and the error kinds of
    their 400/500 responses. */
module Requests {

  datatype Option<+T> = None | Some(value: T)

  /** Why a handler answered with an error status. */
  datatype Failure =
    | MissingFields        // 400: a required field is absent or falsy
    | InvalidType          // 400: type is neither 'expense' nor 'income'
    | MissingCategoryName  // 400: an expense without a category name
    | CategoryNotFound     // 400: no category has that name
    | DuplicateBudget      // 400: same user, category, start and end date
    | NoBudgetFound        // 400: no budget covers user, category and date
    | OverBudget           // 400: a covering budget has too little left (all-budgets draw)
    | NotEnoughBudget      // 400: covering budgets together have too little left (spill-over draw)
    | RecordNotFound       // 500: the store throws on update or delete of an absent id
    | ServerError          // 500: an exception thrown after the store was updated

  datatype Outcome<+T> = Ok(value: T) | Err(failure: Failure)

  /** `!!x` for a numeric field: absent (undefined or null) and 0 are falsy. */
  predicate TruthyNumber(x: Option<int>) {
    x.Some? && x.value != 0
  }

  /** `!!x` for a string field: absent and the empty string are falsy. */
  predicate TruthyText(x: Option<string>) {
    x.Some? && x.value != ""
  }

  /** Body of POST /createTransaction. */
  datatype TransactionRequest = TransactionRequest(
    amount: Option<int>,
    kind: Option<string>,
    userId: Option<int>,
    name: Option<string>,
    categoryName: Option<string>)

  /** Body of PUT /editTransaction/:id. */
  datatype TransactionEdit = TransactionEdit(
    amount: Option<int>,
    name: Option<string>,
    kind: Option<string>,
    categoryName: Option<string>)

  /** Body of POST /createBudget/:userId; dates arrive as day/month/year. */
  datatype BudgetRequest = BudgetRequest(
    amount: Option<int>,
    startDate: Option<string>,
    endDate: Option<string>,
    categoryName: Option<string>)

  /** Body of PUT /editBudget/:id/:userId. */
  datatype BudgetEdit = BudgetEdit(
    amount: Option<int>,
    leftAmount: Option<int>,
    startDate: Option<string>,
    endDate: Option<string>,
    categoryName: Option<string>)

  /** The first check of createTransaction, common to both copies: amount,
      type, userId and name are truthy. */
  predicate RequiredPresent(req: TransactionRequest) {
    && TruthyNumber(req.amount) && TruthyText(req.kind)
    && TruthyNumber(req.userId) && TruthyText(req.name)
  }

  /** All three checks of createTransaction, common to both copies: the
      required fields are present, the type is 'expense' or 'income', and an
      expense names a category. */
  predicate AcceptableTransaction(req: TransactionRequest) {
    && RequiredPresent(req)
    && (req.kind.value == "expense" || req.kind.value == "income")
    && (req.kind.value == "expense" ==> TruthyText(req.categoryName))
  }

  /** The presence check of createBudget, common to both copies. */
  predicate AcceptableBudget(req: BudgetRequest) {
    TruthyNumber(req.amount) && TruthyText(req.startDate) && TruthyText(req.endDate) && TruthyText(req.categoryName)
  }

  /** The presence check of editBudget, common to both copies: leftAmount 0 is rejected too. */
  predicate AcceptableBudgetEdit(req: BudgetEdit) {
    && TruthyNumber(req.amount) && TruthyText(req.startDate) && TruthyText(req.endDate)
    && TruthyText(req.categoryName) && TruthyNumber(req.leftAmount)
  }
}
