/** The expense tables of the current-you page as session state
    (current_you.py `main`): created with defaults on the first run, then
    edited in place by the amount widgets, the delete buttons and the
    add-category buttons. Widget values and button presses are parameters. */
module ExpenseSession {
  import opened Wrappers
  import opened ExpenseMath

  /** Which of the two tables an operation acts on. */
  datatype Kind = Fixed | Variable

  function Other(kind: Kind): Kind
  {
    if kind == Fixed then Variable else Fixed
  }

  class Session {
    /** The session keys 'fixed_expenses' and 'variable_expenses'; None while absent. */
    var fixedExpenses: Option<Expenses>
    var variableExpenses: Option<Expenses>

    /** Every stored amount is non-negative. */
    ghost predicate Valid()
      reads this
    {
      && (fixedExpenses.Some? ==> NonNegative(fixedExpenses.value))
      && (variableExpenses.Some? ==> NonNegative(variableExpenses.value))
    }

    /** Both tables exist: the state after the initialisation of a run. */
    ghost predicate Ready()
      reads this
    {
      Valid() && fixedExpenses.Some? && variableExpenses.Some?
    }

    function Table(kind: Kind): Expenses
      reads this
      requires Ready()
    {
      if kind == Fixed then fixedExpenses.value else variableExpenses.value
    }

    /** What "Calculate Expenses" shows for the stored tables: the warning
        exactly when every amount is zero, and otherwise, for a positive
        income, a fixed ratio no larger than the expense ratio. Both rest on
        the amounts being non-negative, which every operation here keeps. */
    lemma CalculationOfTables(postTaxIncome: real)
      requires Ready()
      ensures Calculate(Table(Fixed), Table(Variable), postTaxIncome).NoExpenses? <==>
              (forall c :: c in Table(Fixed) ==> Table(Fixed)[c] == 0.0)
              && (forall c :: c in Table(Variable) ==> Table(Variable)[c] == 0.0)
      ensures var result := Calculate(Table(Fixed), Table(Variable), postTaxIncome);
              postTaxIncome > 0.0 && result.Ratios? ==> result.report.fixedRatio <= result.report.expenseRatio
    {
      NoExpensesIffAllZero(Table(Fixed), Table(Variable), postTaxIncome);
      if postTaxIncome > 0.0 && Calculate(Table(Fixed), Table(Variable), postTaxIncome).Ratios? {
        FixedRatioWithinExpenseRatio(Table(Fixed), Table(Variable), postTaxIncome);
      }
    }

    /** An empty session. */
    constructor ()
      ensures Valid()
      ensures fixedExpenses == None && variableExpenses == None
    {
      fixedExpenses := None;
      variableExpenses := None;
    }

    /** Each table gets its defaults only when its key is absent. */
    method InitializeDefaults()
      requires Valid()
      modifies this
      ensures Ready()
      ensures fixedExpenses == if old(fixedExpenses).None? then Some(DefaultFixed()) else old(fixedExpenses)
      ensures variableExpenses == if old(variableExpenses).None? then Some(DefaultVariable()) else old(variableExpenses)
    {
      if fixedExpenses.None? {
        fixedExpenses := Some(DefaultFixed());
      }
      if variableExpenses.None? {
        variableExpenses := Some(DefaultVariable());
      }
    }

    method SetTable(kind: Kind, table: Expenses)
      requires Ready() && NonNegative(table)
      modifies this
      ensures Ready()
      ensures Table(kind) == table
      ensures Table(Other(kind)) == old(Table(Other(kind)))
    {
      if kind == Fixed {
        fixedExpenses := Some(table);
      } else {
        variableExpenses := Some(table);
      }
    }

    /** One run over a table: each category takes the amount entered in its
        widget and is queued for deletion when its delete button was pressed;
        the queued categories are deleted after the loop. */
    method EditCategories(kind: Kind, entered: map<Category, real>, pressed: set<Category>)
      requires Ready()
      requires Table(kind).Keys <= entered.Keys
      requires forall c :: c in entered ==> entered[c] >= 0.0
      modifies this
      ensures Ready()
      ensures Table(kind) == Edited(old(Table(kind)), entered, pressed)
      ensures Table(Other(kind)) == old(Table(Other(kind)))
    {
      var table := Table(kind);
      ghost var original := table;
      var toDelete: seq<Category> := [];
      var pending := table.Keys;
      while pending != {}
        invariant pending <= table.Keys && table.Keys == original.Keys
        invariant forall c :: c in table && c !in pending ==> table[c] == entered[c]
        invariant forall c :: c in toDelete <==> c in original && c !in pending && c in pressed
        invariant forall i, j :: 0 <= i < j < |toDelete| ==> toDelete[i] != toDelete[j]
        decreases pending
      {
        var c :| c in pending;
        table := table[c := entered[c]];
        if c in pressed {
          toDelete := toDelete + [c];
        }
        pending := pending - {c};
      }
      var i := 0;
      while i < |toDelete|
        invariant 0 <= i <= |toDelete|
        invariant table.Keys == original.Keys - set j | 0 <= j < i :: toDelete[j]
        invariant forall c :: c in table ==> table[c] == entered[c]
      {
        // `del` raises on a missing key; a queued category is always present.
        assert toDelete[i] in table;
        table := table - {toDelete[i]};
        i := i + 1;
      }
      assert table.Keys == original.Keys - pressed;
      SetTable(kind, table);
    }

    /** "Add ... Expense Category": inserts a new category at zero, or warns
        about an empty or existing name and changes nothing. */
    method AddCategory(kind: Kind, name: Category) returns (outcome: AddOutcome)
      requires Ready()
      modifies this
      ensures Ready()
      ensures outcome == AddOutcomeOf(old(Table(kind)), name)
      ensures Table(kind) == WithCategory(old(Table(kind)), name)
      ensures Table(Other(kind)) == old(Table(Other(kind)))
    {
      var table := Table(kind);
      if name != [] {
        if name !in table {
          table := table[name := 0.0];
          outcome := Added;
        } else {
          outcome := AlreadyExists;
        }
      } else {
        outcome := EmptyName;
      }
      SetTable(kind, table);
    }
  }
}
