# Future You / Current You: goal planner and expense table

This project models the two pieces of logic inside the personal-finance
pages of the Individuals Tool:

- **The goal planner** (`future_you.py`). The session holds a list of
  savings goals, the index of the goal being edited, and a flag recording
  that the default retirement goal has been added. The retirement goal is
  added once, automatically, as soon as an income is entered. The page's
  buttons add a goal, start an edit, cancel it, update the edited goal in
  place, and remove a goal while re-basing the edit index.
  Behind them sits the contribution arithmetic:
  - the "Target Year" sinking-fund payment `(G - S·P)·r / (P - 1)`, where
    `P = (1 + r)^n`, or an even split `(G - S) / n` at a zero rate;
  - the zero-rate "Monthly Contribution" projection of the target year;
  - rounding to whole amounts;
  - the monthly money left once every goal is paid into.
- **The expense table** (`current_you.py`). The session holds two maps from
  category to monthly amount, one for fixed and one for variable expenses.
  Each starts from defaults only when it is absent. The page's widgets set
  every amount, the delete buttons queue categories that are removed after
  the loop, and the add buttons insert a new category at zero with warnings
  for empty or existing names. The "Calculate Expenses" button produces the
  totals, the two expense ratios and the merged map that feeds the pie chart.

Session state becomes two classes: `GoalPlanner.Planner` and
`ExpenseSession.Session`. Their methods change fields in place as the
source does, and they state their whole new state in terms of pure
specification functions (`GoalMath.NewGoal`, `ExpenseMath.Edited`, …).
Lemmas prove what those functions mean:

- the computed contribution, paid at the end of every month (the reference
  definition `GoalMath.Balance`), reaches the goal exactly by the target year;
- the projected zero-rate year is the first year whose contributions reach
  the goal;
- the zero-denominator guard never fires over exact reals;
- removing a goal keeps the edit index on the same goal;
- adding a category leaves the totals unchanged;
- the fixed ratio never exceeds the expense ratio;
- the merged map's total is the variable total plus the totals of the
  fixed categories that the variable map does not shadow.

The current year, the monthly income, every widget value and every button
press are parameters. Amounts are exact `real`s, and integers are unbounded.
Python's `round` is modelled as `Numbers.RoundHalfEven` (ties go to the even
neighbour), `round(x, 2)` as `Numbers.RoundCents`, and `np.ceil` as
`Numbers.Ceil`. A `st.error(...)` followed by `st.stop()` becomes a
`Failure` result that leaves the session unchanged.

Income is not guarded when ratios are computed. With expenses above zero
and an income of zero, the source divides by zero and the page crashes.
The model keeps that case as `Calculation.ZeroIncome` instead of assuming
that the income is positive.

The two target-year checks of the add button (future_you.py:224-231) reject
exactly the same years. They have different messages but are modelled as
one error, `TargetYearNotAfterCurrent`.

## Model

| member | source | states |
|---|---|---|
| Numbers.Pow | future_you.py:233 | `x ** n` for a whole exponent is one for exponent zero and positive for a positive base |
| Numbers.PowAboveOne | future_you.py:233-236 | for a positive monthly rate and at least one month, `(1 + r) ** months` exceeds one, so the sinking-fund denominator is positive |
| Numbers.RoundHalfEven | future_you.py:240 | `round(x)` lies within one half of x, and a tie goes to the even integer |
| Numbers.RoundHalfEvenIsNearest | future_you.py:152 | no integer is closer to x than `round(x)` |
| Numbers.RoundCents | future_you.py:246-247 | `round(x, 2)` lies within half a cent of x, is a whole number of cents, and a tie goes to the even number of cents |
| Numbers.Ceil | future_you.py:202 | `int(np.ceil(x))` is the least integer not below x |
| GoalMath.MonthlyRate | future_you.py:228 | the yearly percentage divided by 100 and by 12: times 1200 it gives the percentage back, and it is positive exactly when the percentage is |
| GoalMath.MonthsToGoal | future_you.py:227 | `12 · (target year − current year)` is a whole number of years in months, positive exactly when the target year is after the current one |
| GoalMath.SinkingFundPayment | future_you.py:237 | the payment `(G − S·P)·r/(P − 1)`; for r > 0 and P > 1 it is non-negative exactly when the grown savings `S·P` do not exceed the goal |
| GoalMath.TargetYearContribution | future_you.py:227-239 | a target year not after the current year is rejected (12·(year − current) ≤ 0); otherwise the sinking-fund payment or, at rate zero, the even split |
| GoalMath.TargetYearContributionDefined | future_you.py:233-236 | for every target year after the current one a contribution is produced: the zero-denominator error never fires |
| GoalMath.BalanceClosedForm | future_you.py:237 | month-by-month growth with end-of-month deposits equals the closed form `S·P + c·(P − 1)/r` (multiplied through by r) |
| GoalMath.BalanceZeroRate | future_you.py:239 | without interest the balance after n months is `S + c·n` |
| GoalMath.SinkingFundValue | future_you.py:227-237 | for a positive rate and a target year after the current one, the contribution is the sinking-fund payment `(G − S·P)·r/(P − 1)`, with `P = (1+r)^months > 1` |
| GoalMath.PaymentFundsGoal | future_you.py:233-237 | for a positive rate, paying the sinking-fund payment for n months takes the savings exactly to the goal |
| GoalMath.EvenSplitFundsGoal | future_you.py:238-239 | with no interest, paying `(G − S)/n` for n months takes the savings exactly to the goal |
| GoalMath.AnnuityIdentity | future_you.py:232-237 | with `P = (1+r)^n`, the computed payment satisfies `S·P + c·(P − 1)/r = G` |
| GoalMath.ContributionFundsGoal | future_you.py:227-239 | for a non-negative rate, paying the unrounded contribution every month until the target year makes the balance equal the goal amount exactly |
| GoalMath.ZeroRateTargetYear | future_you.py:200-202 | `current + ceil(((G − S)/c)/12)` is the first year by which whole months of contributions reach the goal: the year before it falls short |
| GoalMath.ContributionModeYear | future_you.py:189-204 | at a zero rate the target year of a "Monthly Contribution" goal is the zero-rate projection |
| GoalMath.Admissible | future_you.py:218-226 | a plan is accepted when its target year is after the current one, which leaves at least twelve months, or when its contribution is positive, which rounds to a non-negative amount |
| GoalMath.Scheduled | future_you.py:217-240 | a plan succeeds exactly when its target year is after the current year or its contribution is positive; on failure the error is the year error for a target-year plan and the contribution error otherwise; the stored contribution is `round` (ties to even) of the computed contribution or of the one entered, and the target year is the one chosen or, at a zero rate, projected |
| GoalMath.ValidNewGoal | future_you.py:216 | the add button's check: a non-empty name, a positive amount and non-negative savings; a goal that passes stores a non-negative rounded amount and savings |
| GoalMath.NewGoal | future_you.py:215-255 | "Add goal" succeeds exactly when the name is non-empty, the amount positive, the savings non-negative and the plan admissible; an invalid name, amount or savings gives the invalid-goal error, and a valid goal with an inadmissible plan the year or contribution error of its plan; the goal keeps the name, `round(amount)`, `round(savings, 2)`, `round(rate, 2)` and the target year chosen; its monthly contribution and target year are the schedule the plan gives for the entered amount, savings and rate |
| GoalMath.EditedGoal | future_you.py:350-400 | "Update Goal" succeeds exactly when the plan is admissible, with no name or amount validation; on failure the error is the year error for a target-year plan and the contribution error otherwise; and stores the edited name and integer amount, `round(savings, 2)` and `round(rate, 2)`; its monthly contribution and target year are the schedule the plan gives for that amount, savings and rate |
| GoalMath.RetirementGoal | future_you.py:128-152 | the retirement goal is always produced: named "Retirement", amount `round(income·12·25)` (ties to even), no savings, 7% a year, due in current year + 40, of type "Target Year", with contribution `round` of the exact target-year contribution |
| GoalMath.RetirementFunded | future_you.py:139-152 | the retirement contribution is within one half of a payment that funds the goal exactly over 480 months at 7% a year |
| GoalMath.TotalContribution | future_you.py:440 | the sum of the goals' monthly contributions: zero without goals, and not negative while no contribution is |
| GoalMath.Remaining | future_you.py:441 | the monthly income less that sum: the whole income without goals, and never more than the income while no contribution is negative |
| GoalMath.TotalContributionAppend | future_you.py:440 | the total monthly contribution grows by the contribution of an appended goal |
| GoalMath.RemainingAfterAdd | future_you.py:440-441 | appending a goal lowers the money remaining for the present by its monthly contribution |
| GoalMath.RemainingAfterRemove | future_you.py:486-487 | removing the goal at an index raises the money remaining by its monthly contribution |
| GoalMath.RemainingAfterReplace | future_you.py:486-487 | replacing a goal changes the money remaining by the old contribution minus the new one |
| GoalPlanner.Planner.constructor | future_you.py:109-114 | a new session has no goals, no goal being edited and no retirement goal added |
| GoalPlanner.Planner.AddRetirementGoal | future_you.py:128-154 | the retirement goal is appended, and the flag set, only when the flag is unset and the income positive; otherwise nothing changes; for every income the money remaining drops by the retirement contribution when the goal is appended |
| GoalPlanner.Planner.AddGoal | future_you.py:215-255 | the result is the add rule's; on success exactly one goal is appended and the others are untouched; on error the goals are unchanged; for every income the money remaining drops by the new goal's contribution |
| GoalPlanner.Planner.StartEdit | future_you.py:410-412 | the goal at the index becomes the one being edited |
| GoalPlanner.Planner.CancelEdit | future_you.py:405-407 | no goal is being edited afterwards |
| GoalPlanner.Planner.UpdateGoal | future_you.py:349-403 | the result is the update rule's; on success only the goal at the index is replaced and the edit ends; on error nothing changes; for every income the money remaining moves by the old contribution minus the new one |
| GoalPlanner.Planner.RemoveGoal | future_you.py:414-424 | the list loses exactly the goal at the index, keeping order; the edit index is cleared if equal, decremented if greater, kept if smaller, and still designates the same goal; for every income the money remaining rises by the removed goal's contribution |
| ExpenseMath.DefaultFixed | current_you.py:123-124 | the six fixed categories Housing, Utilities, Insurance, Transportation, Debt Payments and Groceries, each at 0.0 |
| ExpenseMath.DefaultVariable | current_you.py:125-126 | the one variable category "Fun (trips, vacations etc.)" at 0.0 |
| ExpenseMath.Total | current_you.py:189-190 | the sum of a table's amounts, zero for an empty table; the lemmas below show it does not depend on the order of the categories |
| ExpenseMath.TotalRemove | current_you.py:189-190 | the sum of a table's values equals any one amount plus the sum of the rest, whichever category is taken first |
| ExpenseMath.TotalNonNegative | current_you.py:189-190 | a table of non-negative amounts has a non-negative total |
| ExpenseMath.TotalZeroIff | current_you.py:194 | with non-negative amounts the total is zero exactly when every amount is zero |
| ExpenseMath.TotalUpdate | current_you.py:131-135 | setting one category's amount moves the total by the difference |
| ExpenseMath.TotalInsertZero | current_you.py:148 | inserting a new category at zero leaves the total unchanged |
| ExpenseMath.TotalDisjointUnion | current_you.py:191 | the total of two tables with no category in common is the sum of their totals |
| ExpenseMath.Edited | current_you.py:130-141 | after a run the table holds exactly the categories not queued for deletion, each at the amount entered for it; no key is added |
| ExpenseMath.AddOutcomeOf | current_you.py:145-152 | a category is added exactly when the name is non-empty and new; an existing name gives the "already exists" warning |
| ExpenseMath.WithCategory | current_you.py:145-152 | a new name is inserted at 0.0 with every other amount kept; an empty or existing name leaves the table unchanged |
| ExpenseMath.WithCategoryTotal | current_you.py:145-152 | the add-category button never changes the total |
| ExpenseMath.Merge | current_you.py:204 | the merged map has every category of either table; on a name in both the variable amount wins |
| ExpenseMath.MergeTotal | current_you.py:204 | the merged map totals the variable amounts plus the fixed amounts whose names the variable table does not shadow |
| ExpenseMath.Calculate | current_you.py:185-214 | the no-expenses warning exactly when the total is not positive; a division by zero exactly when the total is positive and the income zero; otherwise the totals, with `ratio · income = total · 100` for both ratios |
| ExpenseMath.FixedRatioWithinExpenseRatio | current_you.py:195-196 | with non-negative variable amounts and a positive income the fixed ratio never exceeds the expense ratio |
| ExpenseMath.NoExpensesIffAllZero | current_you.py:194 | with non-negative amounts the no-expenses warning appears exactly when every amount in both tables is zero |
| ExpenseMath.DefaultsHaveNoExpenses | current_you.py:123-126 | the default tables give the no-expenses warning |
| ExpenseSession.Session.CalculationOfTables | current_you.py:185-196 | for the stored tables, whose amounts stay non-negative, "Calculate Expenses" warns exactly when every amount is zero, and with a positive income shows a fixed ratio no larger than the expense ratio |
| ExpenseSession.Session.constructor | current_you.py:122-123 | a new session has neither table |
| ExpenseSession.Session.InitializeDefaults | current_you.py:122-126 | each table is set to its defaults only when absent, and left as it is otherwise |
| ExpenseSession.Session.EditCategories | current_you.py:130-141 | the in-place loop sets every amount from its widget, and the deletion loop then removes exactly the queued categories; each queued key is present when deleted, and the other table is untouched |
| ExpenseSession.Session.AddCategory | current_you.py:143-152 | the warning and the new table follow the add-category rule; the other table is untouched |

`ExpenseSession.Session.EditCategories` and `AddCategory` take the table as
a parameter. They cover the variable-expense copies of the same code at
current_you.py:156-167 and 171-178.

## Left out

- The positive-rate "Monthly Contribution" target year (future_you.py:194-195, 328 and 375) is left out. It uses floating `np.log` with a fixed `12*100` exponent, the line-375 variant reads a `months_to_goal` that may be unset, and bare `except:` clauses hide failures. The year it gives enters the model as the `logYear` field of `GoalMath.Plan`.
- The live target-year preview while editing (future_you.py:312-338) is left out. The `target_year_calculated` it computes is never shown or read. The `months_to_goal` it sets at line 328 is read back by the positive-rate update path at line 375, which is left out with the logarithmic projection above.
- Floating point is left out: amounts are exact reals, so IEEE rounding of `**`, `/` and `round` is not captured. A denominator that rounds to zero in floating point cannot occur in the model.
- Widget ranges (`min_value`, `max_value`) are not enforced. The model takes whatever values are passed in. Only the non-negative entered amounts of the expense tables are assumed, because the widgets guarantee them and the ratio lemma needs them.
- Dictionary order is left out. Python dicts iterate in insertion order, but maps here are unordered. Only the order of the pie chart's slices depends on it.
- `st.stop()` is modelled as a `Failure` result that leaves the state unchanged. The rest of the page, which would not run, is not modelled.
- All Streamlit widgets, CSS, HTML, the `Year`/`Event` timeline lists (future_you.py:432-477), the Plotly timeline and the matplotlib charts (current_you.py:79-100, 205-212) are left out as display. The merged map behind the pie chart (current_you.py:204) is `ExpenseMath.Merge`.
- individuals_tool.py is not part of this model. It is dashboard and plotting code that calls a function defined in no shown file.
- GoalPlanner.Planner.AddRetirementGoal: appends without checking the retirement computation's error branches (future_you.py:141-142, 146-147). `GoalMath.RetirementGoal` proves those branches never fire over exact reals.
