/** The values behind the expense table of the current-you page
    (current_you.py): two category-to-amount maps, their defaults, the
    edits the page applies to them, their totals and the expense ratios. */
module ExpenseMath {

  type Category = string
  type Expenses = map<Category, real>

  /** Every amount is one the page accepts: the amount widgets have a
      minimum of zero and new categories start at zero. */
  ghost predicate NonNegative(m: Expenses)
  {
    forall c :: c in m ==> m[c] >= 0.0
  }

  /** The fixed expenses of a new session. */
  function DefaultFixed(): (m: Expenses)
    ensures m.Keys == {"Housing", "Utilities", "Insurance", "Transportation", "Debt Payments", "Groceries"}
    ensures forall c :: c in m ==> m[c] == 0.0
  {
    map["Housing" := 0.0, "Utilities" := 0.0, "Insurance" := 0.0,
        "Transportation" := 0.0, "Debt Payments" := 0.0, "Groceries" := 0.0]
  }

  /** The variable expenses of a new session. */
  function DefaultVariable(): (m: Expenses)
    ensures m.Keys == {"Fun (trips, vacations etc.)"}
    ensures forall c :: c in m ==> m[c] == 0.0
  {
    map["Fun (trips, vacations etc.)" := 0.0]
  }

  /** The sum of a table's amounts, zero for an empty table. */
  ghost function Total(m: Expenses): (t: real)
    ensures m == map[] ==> t == 0.0
    decreases |m|
  {
    if m == map[] then 0.0
    else
      var c :| c in m;
      assert |(m - {c}).Keys| < |m.Keys| by {
        assert (m - {c}).Keys == m.Keys - {c};
      }
      m[c] + Total(m - {c})
  }

  /** The sum does not depend on the order in which the amounts are added:
      any category can be taken out first. */
  lemma {:induction false} TotalRemove(m: Expenses, c: Category)
    requires c in m
    ensures Total(m) == m[c] + Total(m - {c})
    decreases |m|
  {
    var d :| d in m && Total(m) == m[d] + Total(m - {d});
    if d != c {
      assert (m - {d}).Keys == m.Keys - {d};
      assert (m - {c}).Keys == m.Keys - {c};
      TotalRemove(m - {d}, c);
      TotalRemove(m - {c}, d);
      assert m - {d} - {c} == m - {c} - {d};
    }
  }

  lemma {:induction false} TotalNonNegative(m: Expenses)
    requires NonNegative(m)
    ensures Total(m) >= 0.0
    decreases |m|
  {
    if m != map[] {
      var c :| c in m;
      TotalRemove(m, c);
      assert (m - {c}).Keys == m.Keys - {c};
      TotalNonNegative(m - {c});
    }
  }

  /** With non-negative amounts the total is zero exactly when every
      amount is zero. */
  lemma {:induction false} TotalZeroIff(m: Expenses)
    requires NonNegative(m)
    ensures Total(m) == 0.0 <==> forall c :: c in m ==> m[c] == 0.0
    decreases |m|
  {
    if m != map[] {
      var c :| c in m;
      var rest := m - {c};
      TotalRemove(m, c);
      assert rest.Keys == m.Keys - {c};
      TotalZeroIff(rest);
      TotalNonNegative(rest);
      if Total(m) == 0.0 {
        assert m[c] == 0.0 && Total(rest) == 0.0;
        forall d | d in m ensures m[d] == 0.0 {
          if d != c { assert d in rest; }
        }
      }
      if forall d :: d in m ==> m[d] == 0.0 {
        assert forall d :: d in rest ==> rest[d] == 0.0;
      }
    }
  }

  /** Setting one amount moves the total by the difference. */
  lemma TotalUpdate(m: Expenses, c: Category, v: real)
    requires c in m
    ensures Total(m[c := v]) == Total(m) - m[c] + v
  {
    TotalRemove(m, c);
    TotalRemove(m[c := v], c);
    assert m[c := v] - {c} == m - {c};
  }

  /** A new category at zero leaves the total unchanged. */
  lemma TotalInsertZero(m: Expenses, c: Category)
    requires c !in m
    ensures Total(m[c := 0.0]) == Total(m)
  {
    TotalRemove(m[c := 0.0], c);
    assert m[c := 0.0] - {c} == m;
  }

  /** The sum over two maps with no category in common. */
  lemma {:induction false} TotalDisjointUnion(a: Expenses, b: Expenses)
    requires a.Keys !! b.Keys
    ensures Total(a + b) == Total(a) + Total(b)
    decreases |a|
  {
    if a == map[] {
      assert a + b == b;
    } else {
      var c :| c in a;
      var rest := a - {c};
      TotalRemove(a, c);
      TotalRemove(a + b, c);
      assert (a + b)[c] == a[c];
      UnionMinus(a, b, c);
      assert rest.Keys == a.Keys - {c};
      TotalDisjointUnion(rest, b);
    }
  }

  /** Taking a category of `a` out of a disjoint union takes it out of `a`. */
  lemma UnionMinus(a: Expenses, b: Expenses, c: Category)
    requires c in a && c !in b
    ensures (a + b) - {c} == (a - {c}) + b
  {
  }

  /** One run of the amount widgets and delete buttons of a table: every
      category takes the amount entered for it, then the categories whose
      delete button was pressed are removed. */
  function Edited(table: Expenses, entered: map<Category, real>, pressed: set<Category>): (r: Expenses)
    requires table.Keys <= entered.Keys
    ensures r.Keys == table.Keys - pressed
    ensures forall c :: c in r ==> r[c] == entered[c]
  {
    map c | c in table && c !in pressed :: entered[c]
  }

  /** The warnings of the add-category button. */
  datatype AddOutcome = Added | EmptyName | AlreadyExists

  function AddOutcomeOf(table: Expenses, name: Category): (o: AddOutcome)
    ensures o == Added <==> name != [] && name !in table
    ensures o == AlreadyExists <==> name != [] && name in table
  {
    if name == [] then EmptyName
    else if name in table then AlreadyExists
    else Added
  }

  /** The table after the add-category button: a new, non-empty name is
      inserted at zero; otherwise nothing changes. */
  function WithCategory(table: Expenses, name: Category): (r: Expenses)
    ensures AddOutcomeOf(table, name) != Added ==> r == table
    ensures AddOutcomeOf(table, name) == Added ==>
      && r.Keys == table.Keys + {name}
      && r[name] == 0.0
      && forall c :: c in table ==> r[c] == table[c]
  {
    if AddOutcomeOf(table, name) == Added then table[name := 0.0] else table
  }

  /** Adding a category never changes the total. */
  lemma WithCategoryTotal(table: Expenses, name: Category)
    ensures Total(WithCategory(table, name)) == Total(table)
  {
    if AddOutcomeOf(table, name) == Added {
      TotalInsertZero(table, name);
    }
  }

  /** The two tables merged into one: every category of either table, the
      variable amount winning when a name is in both. */
  function Merge(fixed: Expenses, variable: Expenses): (r: Expenses)
    ensures r.Keys == fixed.Keys + variable.Keys
    ensures forall c :: c in variable ==> r[c] == variable[c]
    ensures forall c :: c in fixed && c !in variable ==> r[c] == fixed[c]
  {
    fixed + variable
  }

  /** The merged table totals the variable amounts plus the fixed amounts
      whose names are not shadowed by a variable category. */
  lemma MergeTotal(fixed: Expenses, variable: Expenses)
    ensures Total(Merge(fixed, variable)) == Total(fixed - variable.Keys) + Total(variable)
  {
    assert Merge(fixed, variable) == (fixed - variable.Keys) + variable;
    TotalDisjointUnion(fixed - variable.Keys, variable);
  }

  /** The figures the "Calculate Expenses" button shows. */
  datatype Report = Report(totalExpenses: real, expenseRatio: real, totalFixed: real, fixedRatio: real)

  /** What "Calculate Expenses" produces: the figures, the warning that there
      are no expenses, or the unguarded division by a zero income. */
  datatype Calculation =
    | Ratios(report: Report)
    | NoExpenses
    | ZeroIncome

  ghost function Calculate(fixed: Expenses, variable: Expenses, postTaxIncome: real): (r: Calculation)
    ensures r.NoExpenses? <==> Total(fixed) + Total(variable) <= 0.0
    ensures r.ZeroIncome? <==> Total(fixed) + Total(variable) > 0.0 && postTaxIncome == 0.0
    ensures r.Ratios? ==>
      && r.report.totalExpenses == Total(fixed) + Total(variable)
      && r.report.totalFixed == Total(fixed)
      && r.report.expenseRatio * postTaxIncome == r.report.totalExpenses * 100.0
      && r.report.fixedRatio * postTaxIncome == r.report.totalFixed * 100.0
  {
    var totalFixed := Total(fixed);
    var totalVariable := Total(variable);
    var total := totalFixed + totalVariable;
    if total > 0.0 then
      if postTaxIncome == 0.0 then ZeroIncome
      else Ratios(Report(total, total / postTaxIncome * 100.0, totalFixed, totalFixed / postTaxIncome * 100.0))
    else NoExpenses
  }

  /** With non-negative amounts and a positive income the fixed share of
      income never exceeds the share of all expenses. */
  lemma FixedRatioWithinExpenseRatio(fixed: Expenses, variable: Expenses, postTaxIncome: real)
    requires NonNegative(variable) && postTaxIncome > 0.0
    requires Calculate(fixed, variable, postTaxIncome).Ratios?
    ensures var rep := Calculate(fixed, variable, postTaxIncome).report;
            rep.fixedRatio <= rep.expenseRatio
  {
    TotalNonNegative(variable);
    var rep := Calculate(fixed, variable, postTaxIncome).report;
    assert (rep.expenseRatio - rep.fixedRatio) * postTaxIncome == Total(variable) * 100.0;
    NonNegativeFactor(rep.expenseRatio - rep.fixedRatio, postTaxIncome);
  }

  /** A product with a positive factor is non-negative only if the other factor is. */
  lemma NonNegativeFactor(x: real, y: real)
    requires y > 0.0 && x * y >= 0.0
    ensures x >= 0.0
  {
  }

  /** With non-negative amounts, ratios are shown unless every amount is zero. */
  lemma NoExpensesIffAllZero(fixed: Expenses, variable: Expenses, postTaxIncome: real)
    requires NonNegative(fixed) && NonNegative(variable)
    ensures Calculate(fixed, variable, postTaxIncome).NoExpenses? <==>
            (forall c :: c in fixed ==> fixed[c] == 0.0) && (forall c :: c in variable ==> variable[c] == 0.0)
  {
    TotalNonNegative(fixed);
    TotalNonNegative(variable);
    TotalZeroIff(fixed);
    TotalZeroIff(variable);
  }

  /** A new session shows the no-expenses warning. */
  lemma DefaultsHaveNoExpenses(postTaxIncome: real)
    ensures Calculate(DefaultFixed(), DefaultVariable(), postTaxIncome) == NoExpenses
  {
    NoExpensesIffAllZero(DefaultFixed(), DefaultVariable(), postTaxIncome);
  }
}
