/** The goal planner's session state (future_you.py): the goals list, the
    index of the goal being edited and the flag that the default retirement
    goal has been added, with the buttons that change them. The current year,
    the income and every widget value are parameters. */
module GoalPlanner {
  import opened Wrappers
  import opened GoalMath

  class Planner {
    var goals: seq<Goal>
    var retirementGoalAdded: bool
    var editGoalIndex: Option<nat>

    /** The goal being edited, if any, is one of the goals. */
    ghost predicate Valid()
      reads this
    {
      editGoalIndex.Some? ==> editGoalIndex.value < |goals|
    }

    /** A fresh session: no goals, nothing edited, no retirement goal yet. */
    constructor ()
      ensures Valid()
      ensures goals == [] && !retirementGoalAdded && editGoalIndex == None
    {
      goals := [];
      retirementGoalAdded := false;
      editGoalIndex := None;
    }

    /** Appends the default retirement goal, once, as soon as an income is entered. */
    method AddRetirementGoal(monthlyIncome: real, currentYear: int)
      requires Valid()
      modifies this
      ensures Valid()
      ensures editGoalIndex == old(editGoalIndex)
      ensures !old(retirementGoalAdded) && monthlyIncome > 0.0 ==>
        goals == old(goals) + [RetirementGoal(monthlyIncome, currentYear).value] && retirementGoalAdded
      ensures old(retirementGoalAdded) || monthlyIncome <= 0.0 ==>
        goals == old(goals) && retirementGoalAdded == old(retirementGoalAdded)
      ensures forall income ::
          (Remaining(income, goals) == Remaining(income, old(goals))
           - (if !old(retirementGoalAdded) && monthlyIncome > 0.0
              then RetirementGoal(monthlyIncome, currentYear).value.monthlyContribution as real else 0.0))
    {
      if !retirementGoalAdded && monthlyIncome > 0.0 {
        // The error branches of the retirement computation cannot fire over
        // exact reals (RetirementGoal always succeeds), so the goal is appended.
        var g := RetirementGoal(monthlyIncome, currentYear).value;
        forall income {
          RemainingAfterAdd(income, goals, g);
        }
        goals := goals + [g];
        retirementGoalAdded := true;
      }
    }

    /** "Add goal to timeline": appends the new goal, or shows an error and
        leaves the goals as they were. */
    method AddGoal(name: string, amount: real, savings: real, ratePct: real, plan: Plan, currentYear: int)
      returns (res: Result<Goal, GoalError>)
      requires Valid()
      modifies this
      ensures Valid()
      ensures res == NewGoal(name, amount, savings, ratePct, plan, currentYear)
      ensures goals == if res.Success? then old(goals) + [res.value] else old(goals)
      ensures editGoalIndex == old(editGoalIndex) && retirementGoalAdded == old(retirementGoalAdded)
      ensures forall income ::
          (Remaining(income, goals) == Remaining(income, old(goals))
           - (if res.Success? then res.value.monthlyContribution as real else 0.0))
    {
      res := NewGoal(name, amount, savings, ratePct, plan, currentYear);
      if res.Success? {
        forall income {
          RemainingAfterAdd(income, goals, res.value);
        }
        goals := goals + [res.value];
      }
    }

    /** "Edit Goal" on the goal at index. */
    method StartEdit(index: nat)
      requires Valid() && index < |goals|
      modifies this`editGoalIndex
      ensures Valid()
      ensures editGoalIndex == Some(index)
    {
      editGoalIndex := Some(index);
    }

    /** "Cancel" while editing. */
    method CancelEdit()
      requires Valid()
      modifies this`editGoalIndex
      ensures Valid()
      ensures editGoalIndex == None
    {
      editGoalIndex := None;
    }

    /** "Update Goal" on the goal being edited: replaces it in place and ends
        the edit, or shows an error and changes nothing. */
    method UpdateGoal(index: nat, name: string, amount: int, savings: real, ratePct: real, plan: Plan, currentYear: int)
      returns (res: Result<Goal, GoalError>)
      requires Valid() && editGoalIndex == Some(index)
      modifies this
      ensures Valid()
      ensures res == EditedGoal(name, amount, savings, ratePct, plan, currentYear)
      ensures res.Success? ==> goals == old(goals)[index := res.value] && editGoalIndex == None
      ensures res.Failure? ==> goals == old(goals) && editGoalIndex == old(editGoalIndex)
      ensures |goals| == |old(goals)|
      ensures forall j :: 0 <= j < |goals| && j != index ==> goals[j] == old(goals)[j]
      ensures retirementGoalAdded == old(retirementGoalAdded)
      ensures forall income ::
          (Remaining(income, goals) == Remaining(income, old(goals))
           + (if res.Success? then old(goals)[index].monthlyContribution as real - res.value.monthlyContribution as real else 0.0))
    {
      res := EditedGoal(name, amount, savings, ratePct, plan, currentYear);
      if res.Success? {
        forall income {
          RemainingAfterReplace(income, goals, index, res.value);
        }
        goals := goals[index := res.value];
        editGoalIndex := None;
      }
    }

    /** "Remove Goal" on the goal at index: the others keep their order, and
        the edit index keeps pointing at the same goal. */
    method RemoveGoal(index: nat)
      requires Valid() && index < |goals|
      modifies this
      ensures Valid()
      ensures goals == old(goals)[..index] + old(goals)[index + 1..]
      ensures old(editGoalIndex) == Some(index) ==> editGoalIndex == None
      ensures old(editGoalIndex).Some? && old(editGoalIndex).value > index ==>
        editGoalIndex == Some(old(editGoalIndex).value - 1)
      ensures old(editGoalIndex).None? || old(editGoalIndex).value < index ==>
        editGoalIndex == old(editGoalIndex)
      ensures editGoalIndex.Some? ==>
        old(editGoalIndex).Some? && goals[editGoalIndex.value] == old(goals)[old(editGoalIndex).value]
      ensures retirementGoalAdded == old(retirementGoalAdded)
      ensures forall income ::
          (Remaining(income, goals) == Remaining(income, old(goals))
           + old(goals)[index].monthlyContribution as real)
    {
      forall income {
        RemainingAfterRemove(income, goals, index);
      }
      goals := goals[..index] + goals[index + 1..];
      if editGoalIndex == Some(index) {
        editGoalIndex := None;
      } else if editGoalIndex.Some? && editGoalIndex.value > index {
        editGoalIndex := Some(editGoalIndex.value - 1);
      }
    }
  }
}
