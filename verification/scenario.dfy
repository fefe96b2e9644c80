/** An end-to-end run over a fresh store: evaluator 2 is assigned
    employee 3, submits a review (201, shown as a 7.5 average), loses the
    assignment, and the identical resubmission is refused (400) without
    adding a row. */
module Scenario {
  import opened Wrappers
  import opened Schema
  import opened Storage
  import opened Routes
  import opened HistoryTable

  function Review(): NewEvaluation
  {
    NewEvaluation(Some(3), Some(2), 0, 7, 8, 6, 9, None, "evaluator")
  }

  method RevokedAssignment(formatDate: int -> string) returns (first: Response, second: Response, stored: nat)
    ensures first.status == 201 && second.status == 400
    ensures first.body.EvaluationRecord? && RenderRow(first.body.evaluation, formatDate).average == "7.5"
    ensures stored == 1
  {
    var store := new Store();
    var caller := SignedIn(2, Evaluator);
    var link := store.CreateAssignment(2, 3);
    GateFollowsAssignments([], 1, Review());
    assert [] + [link] == [link];
    first := PostEvaluationHandler(store, caller, Some(Review()));
    ExampleRow(first.body.evaluation, formatDate);
    GateFollowsAssignments([link], 2, Review());
    store.DeleteAssignment(2, 3);
    second := PostEvaluationHandler(store, caller, Some(Review()));
    stored := |store.evaluations|;
  }
}
