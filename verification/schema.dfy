/** Record shapes of the three tables: users, evaluations and
    evaluator-to-employee assignments, plus the insert shapes that leave the
    store-assigned `id` out. */
module Schema {
  import opened Wrappers

  /** The `role` column's enumeration. */
  datatype Role = Employee | Evaluator | Admin

  function RoleName(r: Role): string
  {
    match r
    case Employee => "employee"
    case Evaluator => "evaluator"
    case Admin => "admin"
  }

  /** The role an insert stores, as the insert schema derived from the users
      table validates it: an omitted role defaults to "employee", one of the
      three enumerated names is taken as given, anything else is refused.
      `NewUser` carries an already resolved `Role`, so whoever builds one
      resolves the role with this function first. */
  function ResolveRole(given: Option<string>): (r: Option<Role>)
    ensures given.None? ==> r == Some(Employee)
    ensures given.Some? ==> (r.Some? <==> given.value in {"employee", "evaluator", "admin"})
    ensures given.Some? && r.Some? ==> RoleName(r.value) == given.value
  {
    match given
    case None => Some(Employee)
    case Some(s) =>
      if s == "employee" then Some(Employee)
      else if s == "evaluator" then Some(Evaluator)
      else if s == "admin" then Some(Admin)
      else None
  }

  /** Every role survives being written out by name and read back. */
  lemma ResolveRoleName(r: Role)
    ensures ResolveRole(Some(RoleName(r))) == Some(r)
  {
  }

  /** A stored user. `password` holds the salted hash text. */
  datatype User = User(id: int, username: string, password: string, email: string,
                       role: Role, fullName: string)

  /** What `createUser` receives: every column but `id`. */
  datatype NewUser = NewUser(username: string, password: string, email: string,
                             role: Role, fullName: string)

  function StampUser(n: NewUser, id: int): (u: User)
    ensures u.id == id && UnstampUser(u) == n
  {
    User(id, n.username, n.password, n.email, n.role, n.fullName)
  }

  function UnstampUser(u: User): NewUser
  {
    NewUser(u.username, u.password, u.email, u.role, u.fullName)
  }

  /** A stored evaluation. Both user references and the comments are nullable;
      the four scores are integers with no range; `kind` is the free-text
      `type` column ("self" or "evaluator" by convention only). `date` is the
      millisecond timestamp. */
  datatype Evaluation = Evaluation(id: int, employeeId: Option<int>, evaluatorId: Option<int>,
                                   date: int, productivity: int, quality: int, teamwork: int,
                                   communication: int, comments: Option<string>, kind: string)

  /** What `createEvaluation` receives: every column but `id`. */
  datatype NewEvaluation = NewEvaluation(employeeId: Option<int>, evaluatorId: Option<int>,
                                         date: int, productivity: int, quality: int, teamwork: int,
                                         communication: int, comments: Option<string>, kind: string)

  function StampEvaluation(n: NewEvaluation, id: int): (e: Evaluation)
    ensures e.id == id && UnstampEvaluation(e) == n
  {
    Evaluation(id, n.employeeId, n.evaluatorId, n.date, n.productivity, n.quality,
               n.teamwork, n.communication, n.comments, n.kind)
  }

  function UnstampEvaluation(e: Evaluation): NewEvaluation
  {
    NewEvaluation(e.employeeId, e.evaluatorId, e.date, e.productivity, e.quality,
                  e.teamwork, e.communication, e.comments, e.kind)
  }

  /** A directed link: the evaluator may review the employee. */
  datatype Assignment = Assignment(id: int, evaluatorId: int, employeeId: int)
}
