/** AdminServiceImpl's user half and the user gate of createBankEmployee, as functions
    over the database. Unlike UserServiceImpl it makes no format or uniqueness check of
    its own: only the database's constraints can refuse a row, and an unknown id gives
    null rather than an exception. */
module AdminServiceSpec {
  import opened Wrappers
  import opened Failures
  import opened Patterns
  import opened Tables
  import opened Dtos
  import UserServiceSpec

  function Reject<T>(db: Db, f: Failure): Step<T> {
    Step(Failure(f), db)
  }

  /** createUser: the request's username, password and email are copied, the role is
      looked up by id (a null id is refused by the repository), and the user is saved. */
  function CreateUser(db: Db, req: RegistrationRequest): (r: Step<UserView>)
    ensures r.result.Failure? ==> r.db == db
    ensures req.roleId.None? ==> r.result == Failure(IllegalArgument)
    ensures r.result.Success? ==>
      var v := r.result.value;
      && v.userId == Some(db.nextUserId) && db.nextUserId in r.db.users
      && req.password.Some? && r.db.users[db.nextUserId].password == req.password.value
      && v.username == req.username && v.email == req.email && v.roleId == req.roleId
  {
    if req.roleId.None? then Reject(db, IllegalArgument)
    else if req.roleId.value !in db.roles then Reject(db, Runtime(RoleById, req.roleId.value))
    else
      var s := SaveUser(db, None, UserDraft(req.username, req.password, req.email, req.roleId));
      if s.result.Failure? then Reject(db, s.result.error)
      else Step(Success(UserView(Some(s.result.value), req.username, req.email, req.roleId)), s.db)
  }

  /** getUserById: the view of the user, with its role's id, or null. */
  function GetUserById(db: Db, id: int): (r: Option<UserView>)
    ensures r.None? <==> id !in db.users
    ensures r.Some? ==> r.value.userId == Some(id) && r.value.roleId == Some(db.users[id].roleId)
  {
    if id in db.users then Some(UserRowView(id, db.users[id])) else None
  }

  /** getAllUsers: the view of every user, in the repository's (ascending id) order;
      each entry is the view getUserById gives for its own id. */
  function GetAllUsers(db: Db): (vs: seq<UserView>)
    ensures |vs| == |Ids(db.users, db.nextUserId)|
    ensures forall i :: 0 <= i < |vs| ==> vs[i].userId.Some? && GetUserById(db, vs[i].userId.value) == Some(vs[i])
    ensures forall i, j :: 0 <= i < j < |vs| ==> vs[i].userId.value < vs[j].userId.value
  {
    var ids := Ids(db.users, db.nextUserId);
    seq(|ids|, i requires 0 <= i < |ids| => UserRowView(ids[i], db.users[ids[i]]))
  }

  /** The role updateUser leaves: the requested one if it exists, else the stored one. */
  function KeptOrRequestedRole(db: Db, stored: int, roleId: Option<int>): int {
    if roleId.Some? && roleId.value in db.roles then roleId.value else stored
  }

  /** The columns updateUser writes back: the stored username, the patch's email as it
      is, the patch's password when non-null, the role as KeptOrRequestedRole says. */
  function AdminDraft(db: Db, stored: UserRow, req: UpdateRequest): (d: UserDraft)
    ensures d.username == Some(stored.username) && d.email == req.email
    ensures d.password.Some? && (req.password.Some? ==> d.password == req.password)
    ensures d.roleId.Some? && (d.roleId.value in db.roles || d.roleId.value == stored.roleId)
    ensures req.roleId.Some? && req.roleId.value in db.roles ==> d.roleId == req.roleId
  {
    UserDraft(Some(stored.username), if req.password.Some? then req.password else Some(stored.password),
              req.email, Some(KeptOrRequestedRole(db, stored.roleId, req.roleId)))
  }

  /** updateUser: null for an unknown id, else one save of the overwritten user. */
  function UpdateUser(db: Db, id: int, req: UpdateRequest): (r: Step<Option<UserView>>)
    ensures id !in db.users ==> r == Step(Success(None), db)
    ensures r.result.Failure? ==> r.db == db && r.result.error == ConstraintViolation
    ensures id in db.users && r.result.Success? ==>
      && id in r.db.users && r.db.users[id].username == db.users[id].username
      && r.result.value == Some(UserRowView(id, r.db.users[id]))
  {
    if id !in db.users then Step(Success(None), db)
    else
      var d := AdminDraft(db, db.users[id], req);
      var s := SaveUser(db, Some(id), d);
      if s.result.Failure? then Reject(db, s.result.error)
      else Step(Success(Some(UserView(Some(id), d.username, d.email, d.roleId))), s.db)
  }

  /** createBankEmployee's gate: the linked user must exist before the employee is saved,
      and the save refuses a second employee for the same user. */
  function CreateBankEmployee(db: Db, req: EmployeeCreateRequest): (r: Step<EmployeeView>)
    ensures r.result.Failure? ==> r.db == db
    ensures r.result.Success? <==> EmployeeFits(db, req.userId)
    ensures r.result.Success? ==>
      && r.result.value.userId == req.userId && r.result.value.employeeId.Some?
      && r.result.value.employeeId.value in r.db.employees
      && r.db.employees[r.result.value.employeeId.value] == EmployeeRow(req.userId.value)
  {
    if req.userId.None? then Reject(db, IllegalArgument)
    else if req.userId.value !in db.users then Reject(db, Runtime(UserById, req.userId.value))
    else
      var s := SaveEmployee(db, req.userId);
      if s.result.Failure? then Reject(db, s.result.error)
      else Step(Success(EmployeeView(Some(s.result.value), req.userId)), s.db)
  }

  // ------------------------------------------------------------- properties

  /** Whether no user other than self has this username or this email. */
  predicate Unclaimed(db: Db, self: Option<int>, username: string, email: string) {
    forall k :: k in db.users && Some(k) != self ==> db.users[k].username != username && db.users[k].email != email
  }

  /** createUser refuses a null role id and an unknown one before any write; otherwise
      it succeeds exactly when the database takes the row: every column non-null and the
      username and email unclaimed. No format or strength check takes part. */
  lemma CreateUserSucceedsIff(db: Db, req: RegistrationRequest)
    requires Valid(db)
    ensures var r := CreateUser(db, req);
      && (r.result.Failure? ==> r.db == db)
      && (req.roleId.None? ==> r.result == Failure(IllegalArgument))
      && (req.roleId.Some? && req.roleId.value !in db.roles ==> r.result == Failure(Runtime(RoleById, req.roleId.value)))
      && (req.roleId.Some? && req.roleId.value in db.roles ==>
            (r.result.Success? <==>
               req.username.Some? && req.password.Some? && req.email.Some?
               && Unclaimed(db, None, req.username.value, req.email.value))
            && (r.result.Failure? ==> r.result.error == ConstraintViolation))
  {
  }

  /** A successful createUser adds exactly one user, under a new id, holding the request's
      username, email, unmodified password and role; the view is that row's. */
  lemma CreateUserAddsOneUser(db: Db, req: RegistrationRequest)
    requires Valid(db)
    requires CreateUser(db, req).result.Success?
    ensures var r := CreateUser(db, req);
      var id := r.result.value.userId.value;
      && r.result.value.userId.Some? && id !in db.users
      && r.db.users == db.users[id := UserRow(req.username.value, req.password.value, req.email.value, req.roleId.value)]
      && r.db.roles == db.roles && r.db.customers == db.customers && r.db.employees == db.employees
      && r.result.value == UserRowView(id, r.db.users[id])
  {
  }

  /** The two services differ: with a free username and email and an existing role,
      createUser stores an email the pattern refuses, or a weak password, where
      registerUser raises the matching validation error and writes nothing. */
  lemma CreateUserSkipsValidation(db: Db, req: RegistrationRequest)
    requires Valid(db)
    requires req.username.Some? && req.password.Some? && req.email.Some?
    requires req.roleId.Some? && req.roleId.value in db.roles
    requires Unclaimed(db, None, req.username.value, req.email.value)
    requires !EmailPattern(req.email.value) || !PasswordPattern(req.password.value)
    ensures CreateUser(db, req).result.Success?
    ensures var r := UserServiceSpec.Register(db, req);
      && r.db == db
      && r.result == Failure(Validation(if !EmailPattern(req.email.value) then InvalidEmailFormat else WeakPassword))
  {
    UserServiceSpec.RegisterCheckOrder(db, req);
    assert !UserServiceSpec.UsernameTaken(db, req.username.value);
    assert !UserServiceSpec.EmailTaken(db, req.email.value);
  }

  /** getUserById returns null exactly for an unknown id, and otherwise the same view as
      the validating service, role id included. */
  lemma GetUserByIdAgrees(db: Db, id: int)
    ensures GetUserById(db, id).None? <==> id !in db.users
    ensures id in db.users ==>
      && GetUserById(db, id).value.roleId == Some(db.users[id].roleId)
      && UserServiceSpec.GetUserById(db, id) == Step(Success(GetUserById(db, id).value), db)
  {
  }

  /** Every stored user appears in getAllUsers. */
  lemma GetAllUsersCoversUsers(db: Db, k: int)
    requires Valid(db) && k in db.users
    ensures exists i :: 0 <= i < |GetAllUsers(db)| && GetAllUsers(db)[i].userId == Some(k)
  {
    var ids := Ids(db.users, db.nextUserId);
    var i :| 0 <= i < |ids| && ids[i] == k;
    assert GetAllUsers(db)[i].userId == Some(k);
  }

  /** getAllUsers holds one view per stored user, in ascending id order, each the view
      getUserById gives for that id. */
  lemma GetAllUsersListsEachUserOnce(db: Db)
    requires Valid(db)
    ensures var vs := GetAllUsers(db);
      && |vs| == |db.users|
      && (forall i :: 0 <= i < |vs| ==> vs[i].userId.Some? && GetUserById(db, vs[i].userId.value) == Some(vs[i]))
      && (forall i, j :: 0 <= i < j < |vs| ==> vs[i].userId.value < vs[j].userId.value)
      && (forall k :: k in db.users ==> exists i :: 0 <= i < |vs| && vs[i].userId == Some(k))
  {
    IdsCountRows(db.users, db.nextUserId);
    forall k | k in db.users
      ensures exists i :: 0 <= i < |GetAllUsers(db)| && GetAllUsers(db)[i].userId == Some(k)
    {
      GetAllUsersCoversUsers(db, k);
    }
  }

  /** updateUser on an unknown id returns null and writes nothing. On a known id a failure
      writes nothing and is a constraint violation; a success rewrites only that user's
      row under the same id: the username is kept, the email becomes the patch's,
      the password becomes the patch's when non-null (even an empty one), and the role
      becomes the requested one only when it exists. */
  lemma UpdateUserSemantics(db: Db, id: int, req: UpdateRequest)
    requires Valid(db)
    ensures var r := UpdateUser(db, id, req);
      && (id !in db.users ==> r == Step(Success(None), db))
      && (r.result.Failure? ==> r.db == db && r.result.error == ConstraintViolation)
      && (id in db.users && r.result.Success? ==>
            var stored := db.users[id];
            var row := UserRow(stored.username, if req.password.Some? then req.password.value else stored.password,
                               req.email.value,
                               if req.roleId.Some? && req.roleId.value in db.roles then req.roleId.value else stored.roleId);
            && req.email.Some?
            && r.db == db.(users := db.users[id := row])
            && r.result.value == Some(UserRowView(id, row)))
  {
  }

  /** On a known id, updateUser succeeds exactly when the patch's email is non-null and
      belongs to no other user: a null email is written as is and the NOT NULL column
      refuses it. */
  lemma UpdateUserSucceedsIff(db: Db, id: int, req: UpdateRequest)
    requires Valid(db) && id in db.users
    ensures UpdateUser(db, id, req).result.Success? <==>
      req.email.Some? && forall k :: k in db.users && k != id ==> db.users[k].email != req.email.value
    ensures req.email.None? ==> UpdateUser(db, id, req) == Step(Failure(ConstraintViolation), db)
  {
  }

  /** A role id that names no role is ignored: the update is the one without a role id. */
  lemma UnknownRoleIgnored(db: Db, id: int, req: UpdateRequest)
    requires req.roleId.Some? && req.roleId.value !in db.roles
    ensures UpdateUser(db, id, req) == UpdateUser(db, id, req.(roleId := None))
  {
  }

  /** deleteUser removes the user if present and otherwise changes nothing, so doing it
      twice is doing it once; unlike the validating service it never fails. */
  lemma DeleteUserIdempotent(db: Db, id: int)
    requires Valid(db)
    ensures DeleteUser(DeleteUser(db, id), id) == DeleteUser(db, id)
    ensures id !in db.users ==> DeleteUser(db, id) == db
  {
    DeleteAbsentUser(DeleteUser(db, id), id);
    if id !in db.users {
      DeleteAbsentUser(db, id);
    }
  }

  /** createBankEmployee: a null user id is refused by the repository and an unknown one
      raises "User not found", both before any write; a user that already has an employee
      is refused by the one-to-one link, with no write; any other existing user gets a new
      employee row linked to it, and nothing else changes. */
  lemma EmployeeGate(db: Db, req: EmployeeCreateRequest)
    requires Valid(db)
    ensures var r := CreateBankEmployee(db, req);
      && (r.result.Failure? ==> r.db == db)
      && (req.userId.None? ==> r.result == Failure(IllegalArgument))
      && (req.userId.Some? && req.userId.value !in db.users ==> r.result == Failure(Runtime(UserById, req.userId.value)))
      && (req.userId.Some? && req.userId.value in db.users && !EmployeeFits(db, req.userId) ==>
            r.result == Failure(ConstraintViolation))
      && (EmployeeFits(db, req.userId) ==>
            && r.result.Success?
            && r.result.value.employeeId == Some(db.nextEmployeeId)
            && db.nextEmployeeId !in db.employees
            && r.db == db.(employees := db.employees[db.nextEmployeeId := EmployeeRow(req.userId.value)],
                           nextEmployeeId := db.nextEmployeeId + 1))
  {
  }

  /** A second createBankEmployee for the same user is refused and writes nothing. */
  lemma SecondEmployeeRefused(db: Db, req: EmployeeCreateRequest, again: EmployeeCreateRequest)
    requires Valid(db)
    requires CreateBankEmployee(db, req).result.Success?
    requires again.userId == req.userId
    ensures var db1 := CreateBankEmployee(db, req).db;
      && CreateBankEmployee(db1, again).result == Failure(ConstraintViolation)
      && CreateBankEmployee(db1, again).db == db1
  {
    var db1 := CreateBankEmployee(db, req).db;
    EmployeeGate(db, req);
    assert db1.employees[db.nextEmployeeId].userId == req.userId.value;
  }
}
