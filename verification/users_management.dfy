/** The users-management page: role badges for every user, an assignments
    dialog for evaluators only, and inside it one Assign or Remove button per
    employee depending on whether the evaluator is already linked to them. */
module UsersManagement {
  import opened Wrappers
  import opened Text
  import opened Schema
  import opened Storage
  import opened Ui

  /** `isAssigned`: some assignment row links this evaluator to the employee
      (`Array.prototype.some`). */
  function IsAssigned(assignments: seq<Assignment>, evaluatorId: int, employeeId: int): (r: bool)
    ensures r <==> exists a :: a in assignments && a.evaluatorId == evaluatorId && a.employeeId == employeeId
  {
    if assignments == [] then false
    else (assignments[0].evaluatorId == evaluatorId && assignments[0].employeeId == employeeId)
         || IsAssigned(assignments[1..], evaluatorId, employeeId)
  }

  /** The page's notion of "assigned" is the store's notion of "linked", and
      hence exactly what lets an evaluator-type evaluation through the store's
      gate (for non-zero ids). */
  lemma IsAssignedMeansLinked(assignments: seq<Assignment>, evaluatorId: int, employeeId: int, n: NewEvaluation)
    ensures IsAssigned(assignments, evaluatorId, employeeId) <==> Linked(assignments, evaluatorId, employeeId)
    ensures n.kind == "evaluator" && n.evaluatorId == Some(evaluatorId) && n.employeeId == Some(employeeId)
            && evaluatorId != 0 && employeeId != 0
            ==> (IsAssigned(assignments, evaluatorId, employeeId) <==> !GateRejects(assignments, n))
  {
    GateRejectsIff(assignments, n);
  }

  /** The request a button sends. */
  datatype Request =
    | Post(path: string, evaluatorId: int, employeeId: int)
    | Delete(path: string)

  datatype Button = Button(caption: string, request: Request)

  /** The button in an employee's line of the dialog. */
  function ButtonFor(assignments: seq<Assignment>, evaluator: User, employeeId: int): (b: Button)
    ensures Linked(assignments, evaluator.id, employeeId) ==>
              b == Button("Remove", Delete("/api/assignments/" + IntToString(evaluator.id) + "/" + IntToString(employeeId)))
    ensures !Linked(assignments, evaluator.id, employeeId) ==>
              b == Button("Assign", Post("/api/assignments", evaluator.id, employeeId))
  {
    if IsAssigned(assignments, evaluator.id, employeeId) then
      Button("Remove", Delete("/api/assignments/" + IntToString(evaluator.id) + "/" + IntToString(employeeId)))
    else
      Button("Assign", Post("/api/assignments", evaluator.id, employeeId))
  }

  /** What a request would do to the assignment table if it reached the
      store's `createAssignment` or `deleteAssignment` for the same pair
      (`id` is the id the insert would get). */
  function Apply(rows: seq<Assignment>, request: Request, id: int, evaluatorId: int, employeeId: int): seq<Assignment>
  {
    match request
    case Post(_, e, x) => rows + [Assignment(id, e, x)]
    case Delete(_) => WithoutPair(rows, evaluatorId, employeeId)
  }

  /** Carrying out a button's request flips the button: Assign turns into
      Remove and Remove into Assign. */
  lemma ButtonToggles(rows: seq<Assignment>, evaluator: User, employeeId: int, id: int)
    ensures var b := ButtonFor(rows, evaluator, employeeId);
            var after := Apply(rows, b.request, id, evaluator.id, employeeId);
            ButtonFor(after, evaluator, employeeId).caption != b.caption
  {
    var b := ButtonFor(rows, evaluator, employeeId);
    var after := Apply(rows, b.request, id, evaluator.id, employeeId);
    if Linked(rows, evaluator.id, employeeId) {
      assert !Linked(after, evaluator.id, employeeId);
    } else {
      var a := Assignment(id, evaluator.id, employeeId);
      assert a in after && Links(a, evaluator.id, employeeId);
    }
  }

  /** The actions column: the dialog appears for evaluators and for nobody
      else. */
  function ShowsDialog(u: User): (r: bool)
    ensures r <==> u.role == Evaluator
  {
    RoleName(u.role) == "evaluator"
  }

  /** The role column's badge, on the role text. */
  function RoleBadge(role: string): (v: BadgeVariant)
    ensures role == "admin" ==> v == Default
    ensures role == "evaluator" ==> v == Secondary
    ensures role != "admin" && role != "evaluator" ==> v == Outline
  {
    if role == "admin" then Default else if role == "evaluator" then Secondary else Outline
  }

  /** The three roles get three different badges. */
  lemma RoleBadgesDistinct(r1: Role, r2: Role)
    ensures RoleBadge(RoleName(r1)) == RoleBadge(RoleName(r2)) <==> r1 == r2
  {
  }
}
