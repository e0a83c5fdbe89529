/**
 * The clause list the GUI renders: the decoded clauses of the current page,
 * their conflicts and the string that joins the variables of a clause. A
 * click selects a clause and shows its trail; a second click on the same
 * clause deselects it.
 */
module CtrlObj {
  import opened Base
  import Cnf
  import App
  import opened Filtering

  datatype ConstraintList = ConstraintList(clauses: seq<seq<Cnf.CnfVariable>>, trail: StepTrail, combiner: string)

  /** Conflict i of the list is stored, in all three of its parts. */
  predicate HasConflict(list: ConstraintList, i: nat)
  {
    i < |list.trail.literals| && i < |list.trail.steps| && i < |list.trail.propagated|
  }

  /**
   * What a click on row i leaves behind: a click on the selected row clears
   * the selection and the shown trail; any other click selects row i and
   * shows its conflicting literals and trail, decoded. Nothing else changes.
   */
  twostate predicate ClickedOutcome(list: ConstraintList, state: App.AppState, i: nat)
    reads state
  {
    && (old(state.clickedConstraintIndex) == Some(i) ==>
          state.clickedConstraintIndex == None && state.conflictLiterals == None && state.trail == None)
    && (old(state.clickedConstraintIndex) != Some(i) ==>
          && HasConflict(list, i)
          && state.clickedConstraintIndex == Some(i)
          && state.conflictLiterals == Some(App.DecodeAll(list.trail.literals[i], old(state.encoding)))
          && state.trail == Some(App.DecodeAll(list.trail.steps[i], old(state.encoding))))
    && state.Paging() == old(state.Paging()) && state.Settings() == old(state.Settings())
    && state.Selection() == old(state.Selection())
  }

  /** A click on row i; reading the conflict of a row that has none panics in the source. */
  method Clicked(list: ConstraintList, state: App.AppState, i: nat)
    requires state.clickedConstraintIndex != Some(i) ==> HasConflict(list, i)
    modifies state
    ensures ClickedOutcome(list, state, i)
  {
    match state.clickedConstraintIndex {
      case Some(index) =>
        if index == i {
          state.clickedConstraintIndex := None;
          state.ClearTrail();
        } else {
          SelectRow(list, state, i);
        }
      case None =>
        SelectRow(list, state, i);
    }
  }

  /** Selects row i and shows its conflict; the propagation flags are not kept by the state. */
  method SelectRow(list: ConstraintList, state: App.AppState, i: nat)
    requires HasConflict(list, i)
    modifies state
    ensures state.clickedConstraintIndex == Some(i)
    ensures state.conflictLiterals == Some(App.DecodeAll(list.trail.literals[i], old(state.encoding)))
    ensures state.trail == Some(App.DecodeAll(list.trail.steps[i], old(state.encoding)))
    ensures state.Paging() == old(state.Paging()) && state.Settings() == old(state.Settings())
    ensures state.Selection() == old(state.Selection())
  {
    state.clickedConstraintIndex := Some(i);
    var enumTrail := App.DecodeAll(list.trail.steps[i], state.encoding);
    var enumLiterals := App.DecodeAll(list.trail.literals[i], state.encoding);
    state.SetTrail(enumLiterals, enumTrail);
  }

  function GetClicked(list: ConstraintList, state: App.AppState): (clicked: Option<nat>)
    reads state
    ensures clicked == state.clickedConstraintIndex
  {
    state.clickedConstraintIndex
  }

  /** The stored clauses, whatever the state. */
  function Clauses(list: ConstraintList, state: App.AppState): (clauses: seq<seq<Cnf.CnfVariable>>)
    ensures clauses == list.clauses
  {
    list.clauses
  }

  function Combiner(list: ConstraintList): (combiner: string)
    ensures combiner == list.combiner
  {
    list.combiner
  }

  /** The row selected, or 0 when none is. */
  function Current(state: App.AppState): nat
    reads state
  {
    match state.clickedConstraintIndex
    case Some(index) => index
    case None => 0
  }

  /** A click on the row above the selected one; subtracting from row 0 underflows in the source. */
  method MoveUp(list: ConstraintList, state: App.AppState)
    requires Current(state) >= 1
    requires HasConflict(list, Current(state) - 1)
    modifies state
    ensures ClickedOutcome(list, state, old(Current(state)) - 1)
  {
    var current := Current(state);
    Clicked(list, state, current - 1);
  }

  /** A click on the row below the selected one. */
  method MoveDown(list: ConstraintList, state: App.AppState)
    requires HasConflict(list, Current(state) + 1)
    modifies state
    ensures ClickedOutcome(list, state, old(Current(state)) + 1)
  {
    var current := Current(state);
    Clicked(list, state, current + 1);
  }
}
