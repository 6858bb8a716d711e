/** The arithmetic of the goal planner (future_you.py): the goal record, the
    "Target Year" contribution rule, the zero-rate "Monthly Contribution"
    projection, the goal a button press builds, and the monthly money left
    once every goal has been paid into. */
module GoalMath {
  import opened Wrappers
  import opened Numbers

  datatype GoalType = TargetYear | MonthlyContribution

  /** One entry of the goals list. */
  datatype Goal = Goal(
    name: string,
    amount: int,
    currentSavings: real,
    interestRate: real,
    monthlyContribution: int,
    targetYear: int,
    goalType: GoalType)

  /** What the user fixed for a goal: the year (the contribution is derived),
      or the monthly contribution (the year is derived). For a positive rate
      the year of a "Monthly Contribution" goal comes from a logarithmic
      projection that is not part of this model; `logYear` is the year it gave. */
  datatype Plan =
    | ByTargetYear(targetYear: int)
    | ByContribution(contribution: real, logYear: int)

  /** The error messages after which the page stops without changing the goals. */
  datatype GoalError =
    | InvalidGoal                // missing name, non-positive amount or negative savings
    | InvalidContribution        // monthly contribution not positive
    | TargetYearNotAfterCurrent  // 12 * (target year - current year) <= 0
    | ZeroDenominator            // (1 + r) ** months - 1 == 0

  /** A yearly percentage as a monthly fraction, with the same sign. */
  function MonthlyRate(ratePct: real): (r: real)
    ensures r * 1200.0 == ratePct
    ensures r > 0.0 <==> ratePct > 0.0
  {
    ratePct / 100.0 / 12.0
  }

  /** Whole years to the target, in months: positive exactly when the
      target year is after the current one. */
  function MonthsToGoal(targetYear: int, currentYear: int): (months: int)
    ensures months > 0 <==> targetYear > currentYear
    ensures months % 12 == 0
  {
    12 * (targetYear - currentYear)
  }

  /** Reference definition: the balance after n months when the savings earn
      r per month and c is paid in at the end of every month. */
  function Balance(savings: real, r: real, c: real, n: nat): real
  {
    if n == 0 then savings else Balance(savings, r, c, n - 1) * (1.0 + r) + c
  }

  /** The sinking-fund payment: the monthly deposit that takes the savings
      to the goal when the savings grow by the factor p over the period. */
  function SinkingFundPayment(goal: real, savings: real, r: real, p: real): (c: real)
    requires p - 1.0 != 0.0
    ensures r > 0.0 && p > 1.0 ==> (c >= 0.0 <==> savings * p <= goal)
  {
    if r > 0.0 && p > 1.0 then
      QuotientSign(goal - savings * p, r, p - 1.0);
      (goal - savings * p) * r / (p - 1.0)
    else
      (goal - savings * p) * r / (p - 1.0)
  }

  /** Scaling by a positive factor and dividing by a positive divisor keeps the sign. */
  lemma QuotientSign(a: real, r: real, d: real)
    requires r > 0.0 && d > 0.0
    ensures a * r / d >= 0.0 <==> a >= 0.0
  {
    if a >= 0.0 {
      assert a * r >= 0.0;
    } else {
      assert a * r < 0.0;
    }
  }

  /** The monthly contribution of a "Target Year" goal, before rounding:
      the sinking-fund payment for a positive rate, an even split otherwise. */
  function TargetYearContribution(goal: real, savings: real, ratePct: real, targetYear: int, currentYear: int)
    : (res: Result<real, GoalError>)
    ensures targetYear <= currentYear ==> res == Failure(TargetYearNotAfterCurrent)
    ensures res.Success? ==> targetYear > currentYear
  {
    var months := MonthsToGoal(targetYear, currentYear);
    var r := MonthlyRate(ratePct);
    if months <= 0 then Failure(TargetYearNotAfterCurrent)
    else if r > 0.0 then
      var growth := Pow(1.0 + r, months);
      var denominator := growth - 1.0;
      if denominator == 0.0 then Failure(ZeroDenominator)
      else Success(SinkingFundPayment(goal, savings, r, growth))
    else Success((goal - savings) / months as real)
  }

  /** Over exact reals the zero-denominator guard never fires: a target year
      after the current one always yields a contribution. */
  lemma TargetYearContributionDefined(goal: real, savings: real, ratePct: real, targetYear: int, currentYear: int)
    requires targetYear > currentYear
    ensures TargetYearContribution(goal, savings, ratePct, targetYear, currentYear).Success?
  {
    var r := MonthlyRate(ratePct);
    if r > 0.0 {
      PowAboveOne(1.0 + r, MonthsToGoal(targetYear, currentYear));
    }
  }

  /** Closed form of the balance for a positive rate, multiplied through by r:
      r * balance == r * S * P + c * (P - 1) with P == (1 + r) ** n. */
  lemma {:induction false} BalanceClosedForm(s: real, r: real, c: real, n: nat)
    requires r > 0.0
    ensures r * Balance(s, r, c, n) == r * s * Pow(1.0 + r, n) + c * (Pow(1.0 + r, n) - 1.0)
  {
    if n > 0 {
      BalanceClosedForm(s, r, c, n - 1);
      var b := Balance(s, r, c, n - 1);
      var p := Pow(1.0 + r, n - 1);
      assert Pow(1.0 + r, n) == (1.0 + r) * p;
      assert Balance(s, r, c, n) == b * (1.0 + r) + c;
      ClosedFormStep(s, r, c, p, b);
    }
  }

  /** One month of the closed form: if r * b matches it for P, then
      r * (b * (1 + r) + c) matches it for (1 + r) * P. */
  lemma ClosedFormStep(s: real, r: real, c: real, p: real, b: real)
    requires r * b == r * s * p + c * (p - 1.0)
    ensures r * (b * (1.0 + r) + c) == r * s * ((1.0 + r) * p) + c * ((1.0 + r) * p - 1.0)
  {
    calc {
      r * (b * (1.0 + r) + c);
      (r * b) * (1.0 + r) + r * c;
      (r * s * p + c * (p - 1.0)) * (1.0 + r) + r * c;
      r * s * ((1.0 + r) * p) + c * ((1.0 + r) * p - 1.0);
    }
  }

  /** With no interest the balance is the savings plus n contributions. */
  lemma {:induction false} BalanceZeroRate(s: real, c: real, n: nat)
    ensures Balance(s, 0.0, c, n) == s + c * n as real
  {
    if n > 0 {
      BalanceZeroRate(s, c, n - 1);
    }
  }

  /** For a positive rate the contribution is the sinking-fund payment
      with P == (1 + r) ** months, and P > 1. */
  lemma SinkingFundValue(goal: real, savings: real, ratePct: real, targetYear: int, currentYear: int)
    requires MonthlyRate(ratePct) > 0.0 && targetYear > currentYear
    ensures var r := MonthlyRate(ratePct);
            var p := Pow(1.0 + r, MonthsToGoal(targetYear, currentYear));
            && p > 1.0
            && TargetYearContribution(goal, savings, ratePct, targetYear, currentYear)
               == Success(SinkingFundPayment(goal, savings, r, p))
  {
    PowAboveOne(1.0 + MonthlyRate(ratePct), MonthsToGoal(targetYear, currentYear));
  }

  /** Clearing the division of the sinking-fund payment. */
  lemma SinkingFundCleared(goal: real, savings: real, r: real, p: real)
    requires p - 1.0 != 0.0
    ensures SinkingFundPayment(goal, savings, r, p) * (p - 1.0) == r * goal - r * savings * p
  {
  }

  /** Equal multiples of a non-zero factor are equal. */
  lemma CancelFactor(r: real, x: real, y: real)
    requires r != 0.0 && r * x == r * y
    ensures x == y
  {
    assert r * (x - y) == 0.0;
  }

  /** The sinking-fund identity: with P == (1 + r) ** n, the savings grown for
      n months plus the annuity of the computed contribution equal the goal. */
  lemma AnnuityIdentity(goal: real, savings: real, ratePct: real, targetYear: int, currentYear: int)
    requires MonthlyRate(ratePct) > 0.0
    requires TargetYearContribution(goal, savings, ratePct, targetYear, currentYear).Success?
    ensures var r := MonthlyRate(ratePct);
            var p := Pow(1.0 + r, MonthsToGoal(targetYear, currentYear));
            savings * p + TargetYearContribution(goal, savings, ratePct, targetYear, currentYear).value * (p - 1.0) / r
            == goal
  {
    var r := MonthlyRate(ratePct);
    var p := Pow(1.0 + r, MonthsToGoal(targetYear, currentYear));
    SinkingFundValue(goal, savings, ratePct, targetYear, currentYear);
    var c := SinkingFundPayment(goal, savings, r, p);
    SinkingFundCleared(goal, savings, r, p);
    DivideOutRate(c * (p - 1.0), r, goal, savings, p);
    assert TargetYearContribution(goal, savings, ratePct, targetYear, currentYear).value == c;
    assert savings * p + c * (p - 1.0) / r == goal;
    assert p == Pow(1.0 + MonthlyRate(ratePct), MonthsToGoal(targetYear, currentYear));
    assert savings * Pow(1.0 + MonthlyRate(ratePct), MonthsToGoal(targetYear, currentYear))
      + TargetYearContribution(goal, savings, ratePct, targetYear, currentYear).value
        * (Pow(1.0 + MonthlyRate(ratePct), MonthsToGoal(targetYear, currentYear)) - 1.0) / MonthlyRate(ratePct)
      == goal;
  }

  /** Dividing the cleared payment back by the rate. */
  lemma DivideOutRate(x: real, r: real, goal: real, savings: real, p: real)
    requires r != 0.0 && x == r * goal - r * savings * p
    ensures x / r == goal - savings * p
  {
    assert x == r * (goal - savings * p);
  }

  /** The closed form and the cleared payment together give the goal. */
  lemma FundsAlgebra(r: real, balance: real, savings: real, p: real, c: real, goal: real)
    requires r != 0.0
    requires r * balance == r * savings * p + c * (p - 1.0)
    requires c * (p - 1.0) == r * goal - r * savings * p
    ensures balance == goal
  {
    CancelFactor(r, balance, goal);
  }

  /** For a positive rate the sinking-fund payment funds the goal. */
  lemma PaymentFundsGoal(goal: real, savings: real, r: real, n: nat)
    requires r > 0.0 && Pow(1.0 + r, n) - 1.0 != 0.0
    ensures Balance(savings, r, SinkingFundPayment(goal, savings, r, Pow(1.0 + r, n)), n) == goal
  {
    var p := Pow(1.0 + r, n);
    var c := SinkingFundPayment(goal, savings, r, p);
    SinkingFundCleared(goal, savings, r, p);
    BalanceClosedForm(savings, r, c, n);
    FundsAlgebra(r, Balance(savings, r, c, n), savings, p, c, goal);
  }

  /** With no interest the even split funds the goal. */
  lemma EvenSplitFundsGoal(goal: real, savings: real, n: nat)
    requires n > 0
    ensures Balance(savings, 0.0, (goal - savings) / n as real, n) == goal
  {
    var c := (goal - savings) / n as real;
    BalanceZeroRate(savings, c, n);
    assert c * n as real == goal - savings;
  }

  /** The computed contribution, before rounding, funds the goal exactly:
      paying it every month until the target year reaches the goal amount. */
  lemma ContributionFundsGoal(goal: real, savings: real, ratePct: real, targetYear: int, currentYear: int)
    requires ratePct >= 0.0
    requires TargetYearContribution(goal, savings, ratePct, targetYear, currentYear).Success?
    ensures var c := TargetYearContribution(goal, savings, ratePct, targetYear, currentYear).value;
            Balance(savings, MonthlyRate(ratePct), c, MonthsToGoal(targetYear, currentYear)) == goal
  {
    var r := MonthlyRate(ratePct);
    var n := MonthsToGoal(targetYear, currentYear);
    if r > 0.0 {
      SinkingFundValue(goal, savings, ratePct, targetYear, currentYear);
      PaymentFundsGoal(goal, savings, r, n);
    } else {
      assert r == 0.0;
      EvenSplitFundsGoal(goal, savings, n);
    }
  }

  /** Zero-rate "Monthly Contribution" projection: `months = (G - S) / c`
      and the year is the current one plus `ceil(months / 12)`. The result is
      the first year whose whole months of contributions reach the goal. */
  function ZeroRateTargetYear(goal: real, savings: real, contribution: real, currentYear: int): (year: int)
    requires contribution > 0.0
    ensures savings + contribution * (12 * (year - currentYear)) as real >= goal
    ensures savings + contribution * (12 * (year - currentYear - 1)) as real < goal
  {
    var months := (goal - savings) / contribution;
    var years := Ceil(months / 12.0);
    MonthsBracketGoal(goal, savings, contribution, months, 12 * years);
    MonthsBracketGoal(goal, savings, contribution, months, 12 * (years - 1));
    currentYear + years
  }

  /** Paying c for k months reaches the goal exactly when k is at least
      the (fractional) number of months (G - S) / c. */
  lemma MonthsBracketGoal(goal: real, savings: real, c: real, months: real, k: int)
    requires c > 0.0 && months == (goal - savings) / c
    ensures k as real >= months <==> savings + c * k as real >= goal
  {
  }

  /** The target year of a "Monthly Contribution" goal. */
  function ContributionModeYear(goal: real, savings: real, ratePct: real, contribution: real, logYear: int, currentYear: int): (year: int)
    requires contribution > 0.0
    ensures MonthlyRate(ratePct) <= 0.0 ==> year == ZeroRateTargetYear(goal, savings, contribution, currentYear)
  {
    if MonthlyRate(ratePct) > 0.0 then logYear
    else ZeroRateTargetYear(goal, savings, contribution, currentYear)
  }

  /** The (monthly contribution, target year) pair a plan settles on. */
  datatype Schedule = Schedule(monthlyContribution: int, targetYear: int)

  /** A plan the page accepts: a target year after the current one, or a
      positive monthly contribution. */
  predicate Admissible(plan: Plan, currentYear: int)
    ensures Admissible(plan, currentYear) && plan.ByTargetYear? ==> MonthsToGoal(plan.targetYear, currentYear) >= 12
    ensures Admissible(plan, currentYear) && plan.ByContribution? ==> RoundHalfEven(plan.contribution) >= 0
  {
    match plan
    case ByTargetYear(y) => y > currentYear
    case ByContribution(c, _) => c > 0.0
  }

  function GoalTypeOf(plan: Plan): GoalType
  {
    if plan.ByTargetYear? then TargetYear else MonthlyContribution
  }

  /** The schedule of a plan, as the add and update buttons compute it: the
      contribution is rounded to a whole amount. */
  function Scheduled(goal: real, savings: real, ratePct: real, plan: Plan, currentYear: int): (res: Result<Schedule, GoalError>)
    ensures res.Success? <==> Admissible(plan, currentYear)
    ensures res.Failure? && plan.ByTargetYear? ==> res.error == TargetYearNotAfterCurrent
    ensures res.Failure? && plan.ByContribution? ==> res.error == InvalidContribution
    ensures res.Success? && plan.ByTargetYear? ==>
      && res.value.targetYear == plan.targetYear
      && TargetYearContribution(goal, savings, ratePct, plan.targetYear, currentYear).Success?
      && res.value.monthlyContribution
         == RoundHalfEven(TargetYearContribution(goal, savings, ratePct, plan.targetYear, currentYear).value)
    ensures res.Success? && plan.ByContribution? ==>
      && res.value.monthlyContribution == RoundHalfEven(plan.contribution)
      && (MonthlyRate(ratePct) <= 0.0 ==>
            res.value.targetYear == ZeroRateTargetYear(goal, savings, plan.contribution, currentYear))
  {
    match plan
    case ByTargetYear(y) =>
      if y <= currentYear then Failure(TargetYearNotAfterCurrent)
      else
        TargetYearContributionDefined(goal, savings, ratePct, y, currentYear);
        var c := TargetYearContribution(goal, savings, ratePct, y, currentYear).value;
        Success(Schedule(RoundHalfEven(c), y))
    case ByContribution(c, logYear) =>
      if c <= 0.0 then Failure(InvalidContribution)
      else Success(Schedule(RoundHalfEven(c), ContributionModeYear(goal, savings, ratePct, c, logYear, currentYear)))
  }

  /** Validation of the "Add goal to timeline" button. */
  predicate ValidNewGoal(name: string, amount: real, savings: real)
    ensures ValidNewGoal(name, amount, savings) ==> RoundHalfEven(amount) >= 0 && RoundCents(savings) >= 0.0
  {
    name != [] && amount > 0.0 && savings >= 0.0
  }

  /** The goal "Add goal to timeline" appends, or the error it shows. */
  function NewGoal(name: string, amount: real, savings: real, ratePct: real, plan: Plan, currentYear: int)
    : (res: Result<Goal, GoalError>)
    ensures res.Success? <==> ValidNewGoal(name, amount, savings) && Admissible(plan, currentYear)
    ensures !ValidNewGoal(name, amount, savings) ==> res == Failure(InvalidGoal)
    ensures ValidNewGoal(name, amount, savings) && !Admissible(plan, currentYear) ==>
      res == Failure(if plan.ByTargetYear? then TargetYearNotAfterCurrent else InvalidContribution)
    ensures res.Success? ==>
      && res.value.name == name
      && res.value.amount == RoundHalfEven(amount) >= 0
      && res.value.currentSavings == RoundCents(savings)
      && res.value.interestRate == RoundCents(ratePct)
      && res.value.goalType == GoalTypeOf(plan)
      && (plan.ByTargetYear? ==> res.value.targetYear == plan.targetYear > currentYear)
      && Scheduled(amount, savings, ratePct, plan, currentYear)
         == Success(Schedule(res.value.monthlyContribution, res.value.targetYear))
  {
    if !ValidNewGoal(name, amount, savings) then Failure(InvalidGoal)
    else
      match Scheduled(amount, savings, ratePct, plan, currentYear)
      case Failure(e) => Failure(e)
      case Success(s) =>
        Success(Goal(name, RoundHalfEven(amount), RoundCents(savings), RoundCents(ratePct),
                     s.monthlyContribution, s.targetYear, GoalTypeOf(plan)))
  }

  /** The goal "Update Goal" stores in place of the edited one, or the error
      it shows. Unlike adding, updating does not validate name or amount. */
  function EditedGoal(name: string, amount: int, savings: real, ratePct: real, plan: Plan, currentYear: int)
    : (res: Result<Goal, GoalError>)
    ensures res.Success? <==> Admissible(plan, currentYear)
    ensures res.Failure? ==> res.error == (if plan.ByTargetYear? then TargetYearNotAfterCurrent else InvalidContribution)
    ensures res.Success? ==>
      && res.value.name == name
      && res.value.amount == amount
      && res.value.currentSavings == RoundCents(savings)
      && res.value.interestRate == RoundCents(ratePct)
      && res.value.goalType == GoalTypeOf(plan)
      && (plan.ByTargetYear? ==> res.value.targetYear == plan.targetYear > currentYear)
      && Scheduled(amount as real, savings, ratePct, plan, currentYear)
         == Success(Schedule(res.value.monthlyContribution, res.value.targetYear))
  {
    match Scheduled(amount as real, savings, ratePct, plan, currentYear)
    case Failure(e) => Failure(e)
    case Success(s) =>
      Success(Goal(name, amount, RoundCents(savings), RoundCents(ratePct),
                   s.monthlyContribution, s.targetYear, GoalTypeOf(plan)))
  }

  const RetirementRate: real := 7.0
  const RetirementHorizon: int := 40

  /** The default "Retirement" goal: 25 years of the monthly income, due in
      40 years at 7% a year, starting from no savings. */
  function RetirementGoal(monthlyIncome: real, currentYear: int): (res: Result<Goal, GoalError>)
    ensures res.Success?
    ensures res.value.name == "Retirement"
    ensures res.value.amount == RoundHalfEven(monthlyIncome * 300.0)
    ensures var exact := TargetYearContribution(res.value.amount as real, 0.0, 7.0, currentYear + 40, currentYear);
            exact.Success? && res.value.monthlyContribution == RoundHalfEven(exact.value)
    ensures res.value.currentSavings == 0.0
    ensures res.value.interestRate == 7.0
    ensures res.value.targetYear == currentYear + 40
    ensures res.value.goalType == TargetYear
  {
    var amount := RoundHalfEven(monthlyIncome * 12.0 * 25.0);
    var targetYear := currentYear + RetirementHorizon;
    TargetYearContributionDefined(amount as real, 0.0, RetirementRate, targetYear, currentYear);
    match TargetYearContribution(amount as real, 0.0, RetirementRate, targetYear, currentYear)
    case Failure(e) => Failure(e)
    case Success(c) =>
      Success(Goal("Retirement", amount, 0.0, RetirementRate, RoundHalfEven(c), targetYear, TargetYear))
  }

  /** The retirement contribution, before rounding, funds 25 years of income
      by the retirement year. */
  lemma RetirementFunded(monthlyIncome: real, currentYear: int)
    ensures var g := RetirementGoal(monthlyIncome, currentYear).value;
            var exact := TargetYearContribution(g.amount as real, 0.0, 7.0, g.targetYear, currentYear);
            && exact.Success?
            && Abs(exact.value - g.monthlyContribution as real) <= 0.5
            && Balance(0.0, MonthlyRate(7.0), exact.value, 480) == g.amount as real
  {
    var g := RetirementGoal(monthlyIncome, currentYear).value;
    TargetYearContributionDefined(g.amount as real, 0.0, 7.0, g.targetYear, currentYear);
    ContributionFundsGoal(g.amount as real, 0.0, 7.0, g.targetYear, currentYear);
  }

  /** The sum of the goals' monthly contributions: zero without goals, and
      never negative while no contribution is. */
  function TotalContribution(goals: seq<Goal>): (t: int)
    ensures goals == [] ==> t == 0
    ensures (forall i :: 0 <= i < |goals| ==> goals[i].monthlyContribution >= 0) ==> t >= 0
  {
    if goals == [] then 0 else goals[0].monthlyContribution + TotalContribution(goals[1..])
  }

  /** The monthly money left for the present once every goal is paid into:
      the whole income without goals, and never more than the income while
      no contribution is negative. */
  function Remaining(monthlyIncome: real, goals: seq<Goal>): (r: real)
    ensures goals == [] ==> r == monthlyIncome
    ensures (forall i :: 0 <= i < |goals| ==> goals[i].monthlyContribution >= 0) ==> r <= monthlyIncome
  {
    monthlyIncome - TotalContribution(goals) as real
  }

  lemma {:induction false} TotalContributionAppend(goals: seq<Goal>, g: Goal)
    ensures TotalContribution(goals + [g]) == TotalContribution(goals) + g.monthlyContribution
  {
    if goals != [] {
      assert (goals + [g])[1..] == goals[1..] + [g];
      TotalContributionAppend(goals[1..], g);
    }
  }

  lemma {:induction false} TotalContributionConcat(xs: seq<Goal>, ys: seq<Goal>)
    ensures TotalContribution(xs + ys) == TotalContribution(xs) + TotalContribution(ys)
  {
    if xs == [] {
      assert xs + ys == ys;
    } else {
      assert (xs + ys)[1..] == xs[1..] + ys;
      TotalContributionConcat(xs[1..], ys);
    }
  }

  /** Adding a goal leaves its monthly contribution less to spend. */
  lemma RemainingAfterAdd(monthlyIncome: real, goals: seq<Goal>, g: Goal)
    ensures Remaining(monthlyIncome, goals + [g]) == Remaining(monthlyIncome, goals) - g.monthlyContribution as real
  {
    TotalContributionAppend(goals, g);
  }

  /** Removing the goal at i gives its monthly contribution back. */
  lemma RemainingAfterRemove(monthlyIncome: real, goals: seq<Goal>, i: nat)
    requires i < |goals|
    ensures Remaining(monthlyIncome, goals[..i] + goals[i + 1..])
            == Remaining(monthlyIncome, goals) + goals[i].monthlyContribution as real
  {
    assert goals == goals[..i] + [goals[i]] + goals[i + 1..];
    TotalContributionConcat(goals[..i] + [goals[i]], goals[i + 1..]);
    TotalContributionConcat(goals[..i], goals[i + 1..]);
    TotalContributionAppend(goals[..i], goals[i]);
  }

  /** Replacing the goal at i swaps its contribution for the new one's. */
  lemma RemainingAfterReplace(monthlyIncome: real, goals: seq<Goal>, i: nat, g: Goal)
    requires i < |goals|
    ensures Remaining(monthlyIncome, goals[i := g])
            == Remaining(monthlyIncome, goals) + goals[i].monthlyContribution as real - g.monthlyContribution as real
  {
    assert goals == goals[..i] + [goals[i]] + goals[i + 1..];
    assert goals[i := g] == goals[..i] + [g] + goals[i + 1..];
    TotalContributionConcat(goals[..i] + [goals[i]], goals[i + 1..]);
    TotalContributionConcat(goals[..i] + [g], goals[i + 1..]);
    TotalContributionAppend(goals[..i], goals[i]);
    TotalContributionAppend(goals[..i], g);
  }
}
