/** The HTTP handlers over the store: per-endpoint authentication and role
    checks, the status each answers with, and the reminder fan-out. The
    session layer is reduced to who the caller is; request parsing to whether
    the body parsed. */
module Routes {
  import opened Wrappers
  import opened Schema
  import opened Storage
  import opened Mail

  /** The caller as the session layer resolves it. */
  datatype Caller = Anonymous | SignedIn(id: int, role: Role)

  datatype Endpoint =
    | GetEvaluations   // GET  /api/evaluations/:userId
    | PostEvaluation   // POST /api/evaluations
    | GetUsers         // GET  /api/users
    | GetUsersByRole   // GET  /api/users/:role
    | SendReminders    // POST /api/send-reminders

  datatype Body =
    | NoBody
    | EvaluationList(evaluations: seq<Evaluation>)
    | EvaluationRecord(evaluation: Evaluation)
    | UserList(users: seq<User>)
    | ErrorMessage(message: string)

  datatype Response = Response(status: int, body: Body)

  predicate AdminOnly(ep: Endpoint)
  {
    ep == GetUsers || ep == SendReminders
  }

  /** The status an endpoint answers with, given the caller, whether the
      request body parsed and whether the store call succeeded. */
  function Status(caller: Caller, ep: Endpoint, bodyParsed: bool, storeOk: bool): (code: int)
    ensures code == 401 <==> caller.Anonymous? || (AdminOnly(ep) && caller.role != Admin)
    ensures code == 201 <==> ep == PostEvaluation && caller.SignedIn? && bodyParsed && storeOk
    ensures code == 400 <==> ep == PostEvaluation && caller.SignedIn? && !(bodyParsed && storeOk)
    ensures code == 500 <==> ep == SendReminders && caller.SignedIn? && caller.role == Admin && !storeOk
    ensures code == 200 <==> && caller.SignedIn? && ep != PostEvaluation
                             && (AdminOnly(ep) ==> caller.role == Admin)
                             && (ep == SendReminders ==> storeOk)
  {
    if caller.Anonymous? then 401
    else
      match ep
      case GetEvaluations => 200
      case PostEvaluation => if bodyParsed && storeOk then 201 else 400
      case GetUsers => if caller.role != Admin then 401 else 200
      case GetUsersByRole => 200
      case SendReminders => if caller.role != Admin then 401 else if storeOk then 200 else 500
  }

  /** GET /api/evaluations/:userId: any signed-in caller gets the
      evaluations about or by `userId`; the caller's own id plays no part. */
  method GetEvaluationsHandler(store: Store, caller: Caller, userId: int) returns (resp: Response)
    ensures resp.status == Status(caller, GetEvaluations, true, true)
    ensures caller.Anonymous? ==> resp.body == NoBody
    ensures caller.SignedIn? ==>
              && resp.body.EvaluationList?
              && forall e :: e in resp.body.evaluations <==> e in store.evaluations && Involves(e, userId)
  {
    if caller.Anonymous? {
      return Response(401, NoBody);
    }
    var evaluations := store.GetUserEvaluations(userId);
    resp := Response(200, EvaluationList(evaluations));
  }

  /** POST /api/evaluations: the parsed body goes to `createEvaluation` as
      it is (nothing compares its ids with the caller); 201 with the stored
      record, or 400 when the body did not parse or the store refused it. */
  method PostEvaluationHandler(store: Store, caller: Caller, body: Option<NewEvaluation>) returns (resp: Response)
    requires store.Valid()
    modifies store
    ensures store.Valid()
    ensures resp.status == Status(caller, PostEvaluation, body.Some?,
                                  body.Some? && !GateRejects(old(store.assignments), body.value))
    ensures resp.status == 201 ==>
              && resp.body == EvaluationRecord(StampEvaluation(body.value, old(store.lastEvaluationId) + 1))
              && store.evaluations == old(store.evaluations) + [resp.body.evaluation]
    ensures resp.status == 400 ==> resp.body == ErrorMessage("Invalid evaluation data")
    ensures resp.status != 201 ==> store.evaluations == old(store.evaluations)
    ensures store.lastEvaluationId == old(store.lastEvaluationId) + (if resp.status == 201 then 1 else 0)
    ensures store.users == old(store.users) && store.assignments == old(store.assignments)
    ensures store.lastUserId == old(store.lastUserId) && store.lastAssignmentId == old(store.lastAssignmentId)
    ensures caller.Anonymous? ==> unchanged(store)
  {
    if caller.Anonymous? {
      return Response(401, NoBody);
    }
    if body.None? {
      return Response(400, ErrorMessage("Invalid evaluation data"));
    }
    var saved := store.CreateEvaluation(body.value);
    if saved.Err? {
      return Response(400, ErrorMessage("Invalid evaluation data"));
    }
    resp := Response(201, EvaluationRecord(saved.value));
  }

  /** GET /api/users: the whole users table, for administrators only. */
  method GetUsersHandler(store: Store, caller: Caller) returns (resp: Response)
    ensures resp.status == Status(caller, GetUsers, true, true)
    ensures resp.status == 200 ==> resp.body == UserList(store.users)
    ensures resp.status == 401 ==> resp.body == NoBody
  {
    if caller.Anonymous? || caller.role != Admin {
      return Response(401, NoBody);
    }
    var users := store.GetAllUsers();
    resp := Response(200, UserList(users));
  }

  /** GET /api/users/:role: any signed-in caller gets the users holding the
      named role. */
  method GetUsersByRoleHandler(store: Store, caller: Caller, role: string) returns (resp: Response)
    ensures resp.status == Status(caller, GetUsersByRole, true, true)
    ensures caller.SignedIn? ==>
              && resp.body.UserList?
              && forall u :: u in resp.body.users <==> u in store.users && RoleName(u.role) == role
  {
    if caller.Anonymous? {
      return Response(401, NoBody);
    }
    var users := store.GetUsersByRole(role);
    resp := Response(200, UserList(users));
  }

  function Emails(users: seq<User>): (r: seq<string>)
    ensures |r| == |users| && forall i :: 0 <= i < |users| ==> r[i] == users[i].email
  {
    seq(|users|, i requires 0 <= i < |users| => users[i].email)
  }

  lemma EmailsStep(users: seq<User>, i: int)
    requires 0 <= i < |users|
    ensures Emails(users[..i + 1]) == Emails(users[..i]) + [users[i].email]
  {
  }

  /** POST /api/send-reminders: for an administrator, one reminder per
      employee, in table order, whatever each send reports; 200 afterwards.
      `lookupFails` stands for the employee lookup throwing, the only way to
      a 500, in which case nothing is sent. */
  method SendRemindersHandler(store: Store, caller: Caller, mailer: Mailer, lookupFails: bool) returns (resp: Response)
    modifies mailer
    ensures resp.status == Status(caller, SendReminders, true, !lookupFails)
    ensures resp.status == 200 ==> mailer.sent == old(mailer.sent) + Emails(store.GetUsersByRole("employee"))
    ensures resp.status != 200 ==> mailer.sent == old(mailer.sent)
    ensures resp.status == 500 ==> resp.body == ErrorMessage("Failed to send reminders")
  {
    if caller.Anonymous? || caller.role != Admin {
      return Response(401, NoBody);
    }
    if lookupFails {
      return Response(500, ErrorMessage("Failed to send reminders"));
    }
    var employees := store.GetUsersByRole("employee");
    for i := 0 to |employees|
      invariant mailer.sent == old(mailer.sent) + Emails(employees[..i])
    {
      var _ := mailer.SendDailyEvaluationEmail(employees[i].email);
      EmailsStep(employees, i);
    }
    assert employees[..|employees|] == employees;
    resp := Response(200, NoBody);
  }
}
