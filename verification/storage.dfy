/** The entity store: three tables held by one store object, the queries over
    them (as their relational meaning) and the inserts and deletes that change
    them, with the assignment gate that `createEvaluation` applies before it
    inserts an evaluator-type evaluation. */
module Storage {
  import opened Wrappers
  import opened Schema

  // ------------------------------------------------------------ row keys

  function UserKey(u: User): int { u.id }
  function EvaluationKey(e: Evaluation): int { e.id }
  function AssignmentKey(a: Assignment): int { a.id }

  /** Autoincrement keys: every stored id lies in 1..last, and ids grow with
      the insertion order, so no two rows share one. */
  ghost predicate KeysAscending<T>(rows: seq<T>, key: T -> int, last: int)
  {
    && (forall i, j :: 0 <= i < j < |rows| ==> key(rows[i]) < key(rows[j]))
    && (forall i :: 0 <= i < |rows| ==> 1 <= key(rows[i]) <= last)
    && 0 <= last
  }

  lemma KeysAscendingAppend<T>(rows: seq<T>, key: T -> int, last: int, row: T)
    requires KeysAscending(rows, key, last) && key(row) == last + 1
    ensures KeysAscending(rows + [row], key, last + 1)
  {
    var s := rows + [row];
    assert forall i :: 0 <= i < |rows| ==> s[i] == rows[i];
  }

  /** Two rows that share an id are the same row. */
  lemma KeysUnique<T>(rows: seq<T>, key: T -> int, last: int, i: int, j: int)
    requires KeysAscending(rows, key, last)
    requires 0 <= i < |rows| && 0 <= j < |rows| && key(rows[i]) == key(rows[j])
    ensures i == j
  {
  }

  ghost predicate UniqueUsernames(users: seq<User>)
  {
    forall i, j :: 0 <= i < j < |users| ==> users[i].username != users[j].username
  }

  predicate UsernameTaken(users: seq<User>, name: string)
  {
    exists u :: u in users && u.username == name
  }

  lemma SameUsernameSameRow(users: seq<User>, i: int, j: int)
    requires UniqueUsernames(users)
    requires 0 <= i < |users| && 0 <= j < |users| && users[i].username == users[j].username
    ensures i == j
  {
  }

  // ------------------------------------------------------------ selections

  /** First user with the given id (`select ... where id = ?`, row 0). */
  function FindUser(users: seq<User>, id: int): (r: Option<User>)
    ensures r.Some? ==> r.value in users && r.value.id == id
    ensures r.None? <==> forall u :: u in users ==> u.id != id
  {
    if users == [] then None
    else if users[0].id == id then Some(users[0])
    else FindUser(users[1..], id)
  }

  /** First user with the given username. */
  function FindUserByName(users: seq<User>, name: string): (r: Option<User>)
    ensures r.Some? ==> r.value in users && r.value.username == name
    ensures r.None? <==> !UsernameTaken(users, name)
  {
    if users == [] then None
    else if users[0].username == name then Some(users[0])
    else FindUserByName(users[1..], name)
  }

  /** `where role = ?`: the users whose role is named `role`, in table order. */
  function UsersWithRole(users: seq<User>, role: string): (r: seq<User>)
    ensures |r| <= |users|
    ensures forall u :: u in r <==> u in users && RoleName(u.role) == role
  {
    if users == [] then []
    else (if RoleName(users[0].role) == role then [users[0]] else []) + UsersWithRole(users[1..], role)
  }

  /** A role string outside the enumeration selects nobody. */
  lemma {:induction false} NoUserHasUnknownRole(users: seq<User>, role: string)
    requires role !in {"employee", "evaluator", "admin"}
    ensures UsersWithRole(users, role) == []
  {
    if users != [] {
      NoUserHasUnknownRole(users[1..], role);
    }
  }

  /** `where evaluatorId = ?` on the assignments table. */
  function AssignmentsFrom(rows: seq<Assignment>, evaluatorId: int): (r: seq<Assignment>)
    ensures |r| <= |rows|
    ensures forall a :: a in r <==> a in rows && a.evaluatorId == evaluatorId
  {
    if rows == [] then []
    else (if rows[0].evaluatorId == evaluatorId then [rows[0]] else []) + AssignmentsFrom(rows[1..], evaluatorId)
  }

  predicate Links(a: Assignment, evaluatorId: int, employeeId: int)
  {
    a.evaluatorId == evaluatorId && a.employeeId == employeeId
  }

  /** Some row links the evaluator to the employee. */
  predicate Linked(rows: seq<Assignment>, evaluatorId: int, employeeId: int)
  {
    exists a :: a in rows && Links(a, evaluatorId, employeeId)
  }

  /** Number of rows linking the evaluator to the employee. */
  function PairCount(rows: seq<Assignment>, evaluatorId: int, employeeId: int): (n: nat)
    ensures n > 0 <==> Linked(rows, evaluatorId, employeeId)
  {
    if rows == [] then 0
    else (if Links(rows[0], evaluatorId, employeeId) then 1 else 0) + PairCount(rows[1..], evaluatorId, employeeId)
  }

  lemma {:induction false} PairCountAppend(rows: seq<Assignment>, a: Assignment, evaluatorId: int, employeeId: int)
    ensures PairCount(rows + [a], evaluatorId, employeeId)
            == PairCount(rows, evaluatorId, employeeId) + (if Links(a, evaluatorId, employeeId) then 1 else 0)
  {
    if rows != [] {
      assert (rows + [a])[1..] == rows[1..] + [a];
      PairCountAppend(rows[1..], a, evaluatorId, employeeId);
    }
  }

  /** `delete ... where evaluatorId = ? and employeeId = ?`: what is left. */
  function WithoutPair(rows: seq<Assignment>, evaluatorId: int, employeeId: int): (r: seq<Assignment>)
    ensures |r| <= |rows|
    ensures forall a :: a in r <==> a in rows && !Links(a, evaluatorId, employeeId)
  {
    if rows == [] then []
    else (if Links(rows[0], evaluatorId, employeeId) then [] else [rows[0]])
         + WithoutPair(rows[1..], evaluatorId, employeeId)
  }

  function Repeat(u: User, k: nat): (r: seq<User>)
    ensures forall v :: multiset(r)[v] == if v == u then k else 0
  {
    if k == 0 then [] else [u] + Repeat(u, k - 1)
  }

  /** The join's rows for one user: one copy per matching assignment row,
      none for a non-employee. */
  function JoinRows(v: User, rows: seq<Assignment>, evaluatorId: int): (r: seq<User>)
    ensures forall u :: multiset(r)[u] == if u == v && v.role == Employee then PairCount(rows, evaluatorId, v.id) else 0
  {
    if v.role == Employee then Repeat(v, PairCount(rows, evaluatorId, v.id)) else []
  }

  /** Inner join of users with the evaluator's assignments on
      `assignment.employeeId = user.id`, restricted to role "employee": each
      employee appears once per matching assignment row, in users-table order. */
  function AssignedEmployees(users: seq<User>, rows: seq<Assignment>, evaluatorId: int): seq<User>
  {
    if users == [] then []
    else JoinRows(users[0], rows, evaluatorId) + AssignedEmployees(users[1..], rows, evaluatorId)
  }

  /** How often the join lists a user: once per copy of the user in the users
      table and per assignment row from the evaluator to the user, and never
      for a non-employee. */
  lemma {:induction false} AssignedEmployeesCount(users: seq<User>, rows: seq<Assignment>, evaluatorId: int, u: User)
    ensures multiset(AssignedEmployees(users, rows, evaluatorId))[u]
            == if u.role == Employee then multiset(users)[u] * PairCount(rows, evaluatorId, u.id) else 0
  {
    if users != [] {
      var v, tail := users[0], users[1..];
      assert users == [v] + tail;
      var head := JoinRows(v, rows, evaluatorId);
      var rest := AssignedEmployees(tail, rows, evaluatorId);
      assert AssignedEmployees(users, rows, evaluatorId) == head + rest;
      AssignedEmployeesCount(tail, rows, evaluatorId, u);
      assert multiset(head + rest)[u] == multiset(head)[u] + multiset(rest)[u];
      MultisetConsCount(v, tail, u);
      CountStep(u.role == Employee, if v == u then 1 else 0, multiset(tail)[u], multiset(users)[u],
                PairCount(rows, evaluatorId, u.id), multiset(head)[u], multiset(rest)[u]);
    }
  }

  /** The arithmetic of one step of the join count: a row contributing `k`
      copies of the user (0 or 1) in front of `m` more copies. */
  lemma CountStep(employee: bool, k: nat, m: nat, n: nat, c: nat, h: nat, r: nat)
    requires k <= 1 && n == k + m
    requires h == if employee && k == 1 then c else 0
    requires r == if employee then m * c else 0
    ensures h + r == if employee then n * c else 0
  {
    DistributeCount(k, m, c);
  }

  /** A user's count in a table with one more row in front. */
  lemma MultisetConsCount(v: User, tail: seq<User>, u: User)
    ensures multiset([v] + tail)[u] == (if v == u then 1 else 0) + multiset(tail)[u]
  {
  }

  lemma DistributeCount(a: nat, m: nat, c: nat)
    ensures (a + m) * c == a * c + m * c
  {
  }

  lemma ProductPositive(m: nat, k: nat)
    ensures m * k > 0 <==> m > 0 && k > 0
  {
    if m > 0 && k > 0 {
      assert m * k >= k by { assert m * k == (m - 1) * k + k; }
    }
  }

  /** An evaluation is about or by the user. */
  predicate Involves(e: Evaluation, userId: int)
  {
    e.employeeId == Some(userId) || e.evaluatorId == Some(userId)
  }

  /** `where employeeId = ? or evaluatorId = ?`, in table order. */
  function EvaluationsOf(evals: seq<Evaluation>, userId: int): (r: seq<Evaluation>)
    ensures |r| <= |evals|
    ensures forall e :: e in r <==> e in evals && Involves(e, userId)
  {
    if evals == [] then []
    else (if Involves(evals[0], userId) then [evals[0]] else []) + EvaluationsOf(evals[1..], userId)
  }

  // ------------------------------------------------------------ the gate

  /** JavaScript truthiness of a nullable id: null and 0 are falsy. */
  predicate Truthy(id: Option<int>)
  {
    id.Some? && id.value != 0
  }

  /** The check `createEvaluation` makes before inserting: an evaluation of
      type "evaluator" whose evaluator and employee ids are both truthy is
      refused unless one of the evaluator's assignment rows names that
      employee. Anything else passes without looking at the assignments. */
  predicate GateRejects(rows: seq<Assignment>, n: NewEvaluation)
  {
    && n.kind == "evaluator" && Truthy(n.evaluatorId) && Truthy(n.employeeId)
    && !(exists a :: a in AssignmentsFrom(rows, n.evaluatorId.value) && a.employeeId == n.employeeId.value)
  }

  /** The gate refuses exactly the evaluator-type submissions with truthy ids
      whose pair has no assignment row. */
  lemma GateRejectsIff(rows: seq<Assignment>, n: NewEvaluation)
    ensures GateRejects(rows, n)
            <==> n.kind == "evaluator" && Truthy(n.evaluatorId) && Truthy(n.employeeId)
                 && PairCount(rows, n.evaluatorId.value, n.employeeId.value) == 0
  {
    if n.kind == "evaluator" && Truthy(n.evaluatorId) && Truthy(n.employeeId) {
      var sel := AssignmentsFrom(rows, n.evaluatorId.value);
      if PairCount(rows, n.evaluatorId.value, n.employeeId.value) > 0 {
        var a :| a in rows && Links(a, n.evaluatorId.value, n.employeeId.value);
        assert a in sel;
      }
    }
  }

  // ------------------------------------------------------------ the store

  class Store {
    var users: seq<User>
    var evaluations: seq<Evaluation>
    var assignments: seq<Assignment>
    /** Highest id handed out so far, per table (SQLite's AUTOINCREMENT
        sequence; declared for users and evaluations, assumed for
        assignments). */
    var lastUserId: int
    var lastEvaluationId: int
    var lastAssignmentId: int

    ghost predicate Valid()
      reads this
    {
      && KeysAscending(users, UserKey, lastUserId)
      && KeysAscending(evaluations, EvaluationKey, lastEvaluationId)
      && KeysAscending(assignments, AssignmentKey, lastAssignmentId)
      && UniqueUsernames(users)
    }

    constructor ()
      ensures Valid()
      ensures users == [] && evaluations == [] && assignments == []
      ensures lastUserId == 0 && lastEvaluationId == 0 && lastAssignmentId == 0
    {
      users, evaluations, assignments := [], [], [];
      lastUserId, lastEvaluationId, lastAssignmentId := 0, 0, 0;
    }

    /** `getUser`: the user with this id, if any. */
    function GetUser(id: int): (r: Option<User>)
      reads this
      requires Valid()
      ensures r.Some? ==> r.value in users && r.value.id == id
      ensures forall u :: u in users && u.id == id ==> r == Some(u)
    {
      var r := FindUser(users, id);
      assert forall u :: u in users && u.id == id ==> r == Some(u) by {
        forall u | u in users && u.id == id ensures r == Some(u) {
          var i :| 0 <= i < |users| && users[i] == u;
          var j :| 0 <= j < |users| && users[j] == r.value;
          KeysUnique(users, UserKey, lastUserId, i, j);
        }
      }
      r
    }

    /** `getUserByUsername`: the user with this username, if any. */
    function GetUserByUsername(name: string): (r: Option<User>)
      reads this
      requires Valid()
      ensures r.None? <==> !UsernameTaken(users, name)
      ensures r.Some? ==> r.value in users && r.value.username == name
      ensures forall u :: u in users && u.username == name ==> r == Some(u)
    {
      var r := FindUserByName(users, name);
      assert forall u :: u in users && u.username == name ==> r == Some(u) by {
        forall u | u in users && u.username == name ensures r == Some(u) {
          var i :| 0 <= i < |users| && users[i] == u;
          var j :| 0 <= j < |users| && users[j] == r.value;
          SameUsernameSameRow(users, i, j);
        }
      }
      r
    }

    /** `getAllUsers`: the whole users table. */
    function GetAllUsers(): (r: seq<User>)
      reads this
      ensures forall u :: u in r <==> u in users
    {
      users
    }

    /** `getUsersByRole`: every user whose role is named `role`; a string
        naming no role selects nobody. */
    function GetUsersByRole(role: string): (r: seq<User>)
      reads this
      ensures forall u :: u in r <==> u in users && RoleName(u.role) == role
      ensures role !in {"employee", "evaluator", "admin"} ==> r == []
    {
      if role !in {"employee", "evaluator", "admin"} then NoUserHasUnknownRole(users, role); []
      else UsersWithRole(users, role)
    }

    /** `getAssignments`: with a truthy evaluator id, that evaluator's rows;
        with none (or 0), the whole table. */
    function GetAssignments(evaluatorId: Option<int>): (r: seq<Assignment>)
      reads this
      ensures Truthy(evaluatorId) ==> forall a :: a in r <==> a in assignments && a.evaluatorId == evaluatorId.value
      ensures !Truthy(evaluatorId) ==> r == assignments
    {
      if Truthy(evaluatorId) then AssignmentsFrom(assignments, evaluatorId.value) else assignments
    }

    /** `getAssignedEmployees`: the employees the evaluator is assigned to,
        each once per assignment row. */
    function GetAssignedEmployees(evaluatorId: int): (r: seq<User>)
      reads this
      ensures forall u :: u in r <==> u in users && u.role == Employee && Linked(assignments, evaluatorId, u.id)
      ensures forall u :: multiset(r)[u]
                == if u.role == Employee then multiset(users)[u] * PairCount(assignments, evaluatorId, u.id) else 0
    {
      var r := AssignedEmployees(users, assignments, evaluatorId);
      forall u ensures multiset(r)[u]
                == if u.role == Employee then multiset(users)[u] * PairCount(assignments, evaluatorId, u.id) else 0 {
        AssignedEmployeesCount(users, assignments, evaluatorId, u);
      }
      forall u ensures u in r <==> u in users && u.role == Employee && Linked(assignments, evaluatorId, u.id) {
        ProductPositive(multiset(users)[u], PairCount(assignments, evaluatorId, u.id));
      }
      r
    }

    /** `getUserEvaluations`: the evaluations the user is the subject or the
        author of. */
    function GetUserEvaluations(userId: int): (r: seq<Evaluation>)
      reads this
      ensures forall e :: e in r <==> e in evaluations && Involves(e, userId)
    {
      EvaluationsOf(evaluations, userId)
    }

    /** `createUser`: inserts the user under the next id, unless the username
        is taken, in which case the unique constraint makes the insert fail
        and nothing changes. */
    method CreateUser(n: NewUser) returns (r: Result<User>)
      requires Valid()
      modifies this
      ensures Valid()
      ensures r.Err? <==> UsernameTaken(old(users), n.username)
      ensures r.Err? ==> r.message == "Failed to create user"
      ensures r.Err? ==> users == old(users) && lastUserId == old(lastUserId)
      ensures r.Ok? ==> && r.value == StampUser(n, old(lastUserId) + 1)
                        && users == old(users) + [r.value]
                        && lastUserId == old(lastUserId) + 1
      ensures evaluations == old(evaluations) && lastEvaluationId == old(lastEvaluationId)
      ensures assignments == old(assignments) && lastAssignmentId == old(lastAssignmentId)
    {
      if exists u :: u in users && u.username == n.username {
        return Err("Failed to create user");
      }
      var u := StampUser(n, lastUserId + 1);
      KeysAscendingAppend(users, UserKey, lastUserId, u);
      users := users + [u];
      lastUserId := lastUserId + 1;
      r := Ok(u);
    }

    /** `createAssignment`: appends the link under the next id and returns
        it; no check of roles, of existence or of duplicates. */
    method CreateAssignment(evaluatorId: int, employeeId: int) returns (r: Assignment)
      requires Valid()
      modifies this
      ensures Valid()
      ensures r == Assignment(old(lastAssignmentId) + 1, evaluatorId, employeeId)
      ensures assignments == old(assignments) + [r] && lastAssignmentId == old(lastAssignmentId) + 1
      ensures users == old(users) && lastUserId == old(lastUserId)
      ensures evaluations == old(evaluations) && lastEvaluationId == old(lastEvaluationId)
    {
      r := Assignment(lastAssignmentId + 1, evaluatorId, employeeId);
      KeysAscendingAppend(assignments, AssignmentKey, lastAssignmentId, r);
      assignments := assignments + [r];
      lastAssignmentId := lastAssignmentId + 1;
    }

    /** `deleteAssignment`: removes every row linking the evaluator to the
        employee and keeps every other row, in order. */
    method DeleteAssignment(evaluatorId: int, employeeId: int)
      requires Valid()
      modifies this
      ensures Valid()
      ensures assignments == WithoutPair(old(assignments), evaluatorId, employeeId)
      ensures !Linked(assignments, evaluatorId, employeeId)
      ensures lastAssignmentId == old(lastAssignmentId)
      ensures users == old(users) && lastUserId == old(lastUserId)
      ensures evaluations == old(evaluations) && lastEvaluationId == old(lastEvaluationId)
    {
      WithoutPairKeepsKeys(assignments, evaluatorId, employeeId, lastAssignmentId);
      assignments := WithoutPair(assignments, evaluatorId, employeeId);
    }

    /** `createEvaluation`: the assignment gate, then the insert under the
        next id. A refused submission leaves every table as it was. */
    method CreateEvaluation(n: NewEvaluation) returns (r: Result<Evaluation>)
      requires Valid()
      modifies this
      ensures Valid()
      ensures r.Err? <==> GateRejects(old(assignments), n)
      ensures r.Err? ==> && r.message == "Failed to create evaluation"
                         && evaluations == old(evaluations) && lastEvaluationId == old(lastEvaluationId)
      ensures r.Ok? ==> && r.value == StampEvaluation(n, old(lastEvaluationId) + 1)
                        && evaluations == old(evaluations) + [r.value]
                        && lastEvaluationId == old(lastEvaluationId) + 1
      ensures users == old(users) && lastUserId == old(lastUserId)
      ensures assignments == old(assignments) && lastAssignmentId == old(lastAssignmentId)
    {
      if n.kind == "evaluator" && Truthy(n.evaluatorId) && Truthy(n.employeeId) {
        var rows := GetAssignments(n.evaluatorId);
        var isAssigned := exists a :: a in rows && a.employeeId == n.employeeId.value;
        if !isAssigned {
          return Err("Failed to create evaluation");
        }
      }
      var e := StampEvaluation(n, lastEvaluationId + 1);
      KeysAscendingAppend(evaluations, EvaluationKey, lastEvaluationId, e);
      evaluations := evaluations + [e];
      lastEvaluationId := lastEvaluationId + 1;
      r := Ok(e);
    }
  }

  lemma KeysAscendingTail(rows: seq<Assignment>, last: int)
    requires rows != [] && KeysAscending(rows, AssignmentKey, last)
    ensures KeysAscending(rows[1..], AssignmentKey, last)
    ensures forall a :: a in rows[1..] ==> rows[0].id < a.id
  {
    var tail := rows[1..];
    assert forall i :: 0 <= i < |tail| ==> tail[i] == rows[i + 1];
    forall a | a in tail ensures rows[0].id < a.id {
      var k :| 0 <= k < |tail| && tail[k] == a;
      assert AssignmentKey(rows[0]) < AssignmentKey(rows[k + 1]);
    }
  }

  /** A row whose id is below every id of an ascending table can be put in
      front of it. */
  lemma ConsKeepsKeys(a: Assignment, rest: seq<Assignment>, last: int)
    requires KeysAscending(rest, AssignmentKey, last) && 1 <= a.id <= last
    requires forall b :: b in rest ==> a.id < b.id
    ensures KeysAscending([a] + rest, AssignmentKey, last)
  {
    var r := [a] + rest;
    forall i, j | 0 <= i < j < |r| ensures AssignmentKey(r[i]) < AssignmentKey(r[j]) {
      assert r[j] == rest[j - 1];
      if i == 0 {
        assert rest[j - 1] in rest;
      } else {
        assert r[i] == rest[i - 1];
      }
    }
    forall i | 0 <= i < |r| ensures 1 <= AssignmentKey(r[i]) <= last {
      if i > 0 {
        assert r[i] == rest[i - 1];
      }
    }
  }

  /** Deleting rows keeps the remaining ids ascending. */
  lemma {:induction false} WithoutPairKeepsKeys(rows: seq<Assignment>, evaluatorId: int, employeeId: int, last: int)
    requires KeysAscending(rows, AssignmentKey, last)
    ensures KeysAscending(WithoutPair(rows, evaluatorId, employeeId), AssignmentKey, last)
  {
    if rows != [] {
      var tail := rows[1..];
      KeysAscendingTail(rows, last);
      WithoutPairKeepsKeys(tail, evaluatorId, employeeId, last);
      var rest := WithoutPair(tail, evaluatorId, employeeId);
      if !Links(rows[0], evaluatorId, employeeId) {
        assert AssignmentKey(rows[0]) <= last;
        ConsKeepsKeys(rows[0], rest, last);
      }
    }
  }

  // ------------------------------------------------------------ properties

  /** Deleting a pair that has no row changes nothing. */
  lemma {:induction false} DeleteAbsentIsNoop(rows: seq<Assignment>, evaluatorId: int, employeeId: int)
    requires !Linked(rows, evaluatorId, employeeId)
    ensures WithoutPair(rows, evaluatorId, employeeId) == rows
  {
    if rows != [] {
      assert rows[0] in rows;
      assert !Linked(rows[1..], evaluatorId, employeeId) by {
        forall a | a in rows[1..] ensures !Links(a, evaluatorId, employeeId) {
          assert a in rows;
        }
      }
      DeleteAbsentIsNoop(rows[1..], evaluatorId, employeeId);
    }
  }

  /** Deleting distributes over appending a row. */
  lemma {:induction false} WithoutPairAppend(rows: seq<Assignment>, a: Assignment, evaluatorId: int, employeeId: int)
    ensures WithoutPair(rows + [a], evaluatorId, employeeId)
            == WithoutPair(rows, evaluatorId, employeeId) + (if Links(a, evaluatorId, employeeId) then [] else [a])
  {
    if rows != [] {
      assert (rows + [a])[1..] == rows[1..] + [a];
      WithoutPairAppend(rows[1..], a, evaluatorId, employeeId);
    }
  }

  /** Creating a link for a pair that had none and then deleting that pair
      gives back the table as it was. */
  lemma AssignThenUnassign(rows: seq<Assignment>, id: int, evaluatorId: int, employeeId: int)
    requires !Linked(rows, evaluatorId, employeeId)
    ensures WithoutPair(rows + [Assignment(id, evaluatorId, employeeId)], evaluatorId, employeeId) == rows
  {
    WithoutPairAppend(rows, Assignment(id, evaluatorId, employeeId), evaluatorId, employeeId);
    DeleteAbsentIsNoop(rows, evaluatorId, employeeId);
  }

  /** After a link for the pair is created the gate admits the pair's
      evaluator-type submissions; after the pair is deleted it refuses them,
      whatever other rows exist. */
  lemma GateFollowsAssignments(rows: seq<Assignment>, id: int, n: NewEvaluation)
    requires n.kind == "evaluator" && Truthy(n.evaluatorId) && Truthy(n.employeeId)
    ensures !GateRejects(rows + [Assignment(id, n.evaluatorId.value, n.employeeId.value)], n)
    ensures GateRejects(WithoutPair(rows, n.evaluatorId.value, n.employeeId.value), n)
  {
    var e, x := n.evaluatorId.value, n.employeeId.value;
    GateRejectsIff(rows + [Assignment(id, e, x)], n);
    PairCountAppend(rows, Assignment(id, e, x), e, x);
    GateRejectsIff(WithoutPair(rows, e, x), n);
  }

  /** Adding an evaluation to the table adds it, at the end, to the result of
      every query about a user it involves, and to no other. */
  lemma {:induction false} EvaluationsOfAppend(evals: seq<Evaluation>, e: Evaluation, userId: int)
    ensures EvaluationsOf(evals + [e], userId)
            == EvaluationsOf(evals, userId) + (if Involves(e, userId) then [e] else [])
  {
    if evals != [] {
      assert (evals + [e])[1..] == evals[1..] + [e];
      EvaluationsOfAppend(evals[1..], e, userId);
    }
  }

  /** A row stored under a fresh id shows up exactly once in the query for
      any user it involves. */
  lemma NewEvaluationListedOnce(evals: seq<Evaluation>, last: int, e: Evaluation, userId: int)
    requires KeysAscending(evals, EvaluationKey, last) && e.id == last + 1 && Involves(e, userId)
    ensures multiset(EvaluationsOf(evals + [e], userId))[e] == 1
  {
    assert e !in evals by {
      forall i | 0 <= i < |evals| ensures evals[i] != e {
        assert EvaluationKey(evals[i]) <= last;
      }
    }
    EvaluationsOfAppend(evals, e, userId);
    var before := EvaluationsOf(evals, userId);
    assert multiset(before)[e] == 0;
    assert multiset(before + [e])[e] == multiset(before)[e] + multiset([e])[e];
  }

  /** A two-fold assignment lists the employee twice. */
  lemma DuplicateAssignmentListsTwice(users: seq<User>, rows: seq<Assignment>, u: User, id1: int, id2: int, evaluatorId: int)
    requires u.role == Employee && multiset(users)[u] == 1
    requires !Linked(rows, evaluatorId, u.id)
    ensures multiset(AssignedEmployees(users, rows + [Assignment(id1, evaluatorId, u.id)]
                                                     + [Assignment(id2, evaluatorId, u.id)], evaluatorId))[u] == 2
  {
    AssignedEmployeesCount(users, rows + [Assignment(id1, evaluatorId, u.id)] + [Assignment(id2, evaluatorId, u.id)], evaluatorId, u);
    PairCountAppend(rows, Assignment(id1, evaluatorId, u.id), evaluatorId, u.id);
    PairCountAppend(rows + [Assignment(id1, evaluatorId, u.id)], Assignment(id2, evaluatorId, u.id), evaluatorId, u.id);
  }
}
