/** The database behind the repositories, as values: one map per table from the
    auto-assigned id to the row, each with its IDENTITY counter. Valid states the column
    constraints of the entities (NOT NULL, UNIQUE, foreign keys), and every write here
    refuses a row that would break them, as the database does. */
module Tables {
  import opened Wrappers
  import opened Dates
  import opened Failures

  datatype RoleRow = RoleRow(name: string)

  datatype UserRow = UserRow(username: string, password: string, email: string, roleId: int)

  /** The seven data columns of a customer; only name is NOT NULL. */
  datatype CustomerData = CustomerData(
    name: Option<string>,
    gender: Option<string>,
    contactNumber: Option<string>,
    address: Option<string>,
    dateOfBirth: Option<LocalDate>,
    aadharNumber: Option<string>,
    panNumber: Option<string>)

  datatype CustomerRow = CustomerRow(data: CustomerData, userId: int)

  /** A bank employee row; only its link to a user is modelled. */
  datatype EmployeeRow = EmployeeRow(userId: int)

  /** A user entity's columns just before a save, when any of them may still be null. */
  datatype UserDraft = UserDraft(username: Option<string>, password: Option<string>, email: Option<string>, roleId: Option<int>)

  datatype Db = Db(
    roles: map<int, RoleRow>, nextRoleId: int,
    users: map<int, UserRow>, nextUserId: int,
    customers: map<int, CustomerRow>, nextCustomerId: int,
    employees: map<int, EmployeeRow>, nextEmployeeId: int)

  /** What a service call returns, with the database it leaves behind. */
  datatype Step<+T> = Step(result: Result<T, Failure>, db: Db)

  const Empty: Db := Db(map[], 1, map[], 1, map[], 1, map[], 1)

  /** IDENTITY columns hand out 1, 2, 3, ...: every id in use is below the counter. */
  predicate IdsBelow<R>(m: map<int, R>, next: int) {
    1 <= next && forall k :: k in m ==> 1 <= k < next
  }

  predicate RoleNamesUnique(roles: map<int, RoleRow>) {
    forall i, j :: i in roles && j in roles && roles[i].name == roles[j].name ==> i == j
  }

  predicate UsernamesUnique(users: map<int, UserRow>) {
    forall i, j :: i in users && j in users && users[i].username == users[j].username ==> i == j
  }

  predicate EmailsUnique(users: map<int, UserRow>) {
    forall i, j :: i in users && j in users && users[i].email == users[j].email ==> i == j
  }

  /** customers.user_id is UNIQUE: at most one customer per user. */
  predicate OneCustomerPerUser(customers: map<int, CustomerRow>) {
    forall i, j :: i in customers && j in customers && customers[i].userId == customers[j].userId ==> i == j
  }

  /** The one-to-one link of User.bankEmployee: at most one employee per user. */
  predicate OneEmployeePerUser(employees: map<int, EmployeeRow>) {
    forall i, j :: i in employees && j in employees && employees[i].userId == employees[j].userId ==> i == j
  }

  /** The column constraints of User, Role, Customer and BankEmployee: ids below their
      counters, UNIQUE usernames, emails and role names, a required role for every user,
      a required name and user for every customer, one customer per user, and a user for
      every employee with at most one employee per user. */
  predicate Valid(db: Db) {
    && IdsBelow(db.roles, db.nextRoleId)
    && IdsBelow(db.users, db.nextUserId)
    && IdsBelow(db.customers, db.nextCustomerId)
    && IdsBelow(db.employees, db.nextEmployeeId)
    && RoleNamesUnique(db.roles)
    && UsernamesUnique(db.users)
    && EmailsUnique(db.users)
    && (forall k :: k in db.users ==> db.users[k].roleId in db.roles)
    && (forall k :: k in db.customers ==> db.customers[k].data.name.Some? && db.customers[k].userId in db.users)
    && OneCustomerPerUser(db.customers)
    && (forall k :: k in db.employees ==> db.employees[k].userId in db.users)
    && OneEmployeePerUser(db.employees)
  }

  lemma EmptyIsValid()
    ensures Valid(Empty) && Empty.users == map[] && Empty.roles == map[]
  {
  }

  // ---------------------------------------------------------------- finders

  /** A key in [1, bound) whose row satisfies p, if there is one: a derived finder
      (findByUsername, findByName, ...), which on unique columns finds at most one row. */
  function Find<R>(m: map<int, R>, bound: int, p: R -> bool): (r: Option<int>)
    decreases bound
    ensures r.Some? ==> r.value in m && 1 <= r.value < bound && p(m[r.value])
    ensures r.None? ==> forall k :: k in m && 1 <= k < bound ==> !p(m[k])
  {
    if bound <= 1 then None
    else match Find(m, bound - 1, p)
      case Some(k) => Some(k)
      case None => if bound - 1 in m && p(m[bound - 1]) then Some(bound - 1) else None
  }

  /** findByUsername: a null argument matches no row, the column being NOT NULL. */
  function UserByUsername(db: Db, username: Option<string>): (r: Option<int>)
    ensures r.Some? ==> r.value in db.users && username == Some(db.users[r.value].username)
    ensures r.None? && IdsBelow(db.users, db.nextUserId) ==>
      forall k :: k in db.users ==> username != Some(db.users[k].username)
  {
    Find(db.users, db.nextUserId, (u: UserRow) => username == Some(u.username))
  }

  /** findByEmail. */
  function UserByEmail(db: Db, email: Option<string>): (r: Option<int>)
    ensures r.Some? ==> r.value in db.users && email == Some(db.users[r.value].email)
    ensures r.None? && IdsBelow(db.users, db.nextUserId) ==>
      forall k :: k in db.users ==> email != Some(db.users[k].email)
  {
    Find(db.users, db.nextUserId, (u: UserRow) => email == Some(u.email))
  }

  /** IRoleRepository.findByName. */
  function RoleByName(db: Db, name: string): (r: Option<int>)
    ensures r.Some? ==> r.value in db.roles && db.roles[r.value].name == name
    ensures r.None? && IdsBelow(db.roles, db.nextRoleId) ==>
      forall k :: k in db.roles ==> db.roles[k].name != name
  {
    Find(db.roles, db.nextRoleId, (role: RoleRow) => role.name == name)
  }

  /** ICustomerRepository.findByUser_UserId. */
  function CustomerByUser(db: Db, userId: int): (r: Option<int>)
    ensures r.Some? ==> r.value in db.customers && db.customers[r.value].userId == userId
    ensures r.None? && IdsBelow(db.customers, db.nextCustomerId) ==>
      forall k :: k in db.customers ==> db.customers[k].userId != userId
  {
    Find(db.customers, db.nextCustomerId, (c: CustomerRow) => c.userId == userId)
  }

  /** The ids of a table in ascending order: the order findAll returns rows in. */
  function Ids<R>(m: map<int, R>, bound: int): (s: seq<int>)
    decreases bound
    ensures forall i, j :: 0 <= i < j < |s| ==> s[i] < s[j]
    ensures forall k :: k in s <==> k in m && 1 <= k < bound
  {
    if bound <= 1 then []
    else
      var below := Ids(m, bound - 1);
      assert forall i :: 0 <= i < |below| ==> below[i] in below && below[i] < bound - 1;
      below + (if bound - 1 in m then [bound - 1] else [])
  }

  lemma {:induction false} AscendingHasDistinctElements(s: seq<int>)
    requires forall i, j :: 0 <= i < j < |s| ==> s[i] < s[j]
    ensures |set x | x in s| == |s|
  {
    if |s| > 0 {
      var init := s[..|s| - 1];
      AscendingHasDistinctElements(init);
      assert (set x | x in s) == (set x | x in init) + {s[|s| - 1]};
      assert s[|s| - 1] !in (set x | x in init);
    }
  }

  /** findAll lists every row once: as many ids as rows. */
  lemma IdsCountRows<R>(m: map<int, R>, bound: int)
    requires IdsBelow(m, bound)
    ensures |Ids(m, bound)| == |m|
  {
    var s := Ids(m, bound);
    AscendingHasDistinctElements(s);
    assert (set x | x in s) == m.Keys;
  }

  /** What the UNIQUE columns buy: on a database that keeps its constraints, each derived
      finder on a unique column returns exactly the row that holds the value. */
  lemma FindersExact(db: Db, k: int)
    requires Valid(db)
    ensures k in db.users ==> UserByUsername(db, Some(db.users[k].username)) == Some(k)
    ensures k in db.users ==> UserByEmail(db, Some(db.users[k].email)) == Some(k)
    ensures k in db.customers ==> CustomerByUser(db, db.customers[k].userId) == Some(k)
  {
  }

  // ----------------------------------------------------------------- writes

  /** The row a draft becomes when none of its NOT NULL columns is null. */
  function UserRowOf(d: UserDraft): Option<UserRow> {
    if d.username.Some? && d.password.Some? && d.email.Some? && d.roleId.Some?
    then Some(UserRow(d.username.value, d.password.value, d.email.value, d.roleId.value))
    else None
  }

  /** The draft of a row with every column set. */
  function DraftOf(row: UserRow): (d: UserDraft)
    ensures UserRowOf(d) == Some(row)
  {
    UserDraft(Some(row.username), Some(row.password), Some(row.email), Some(row.roleId))
  }

  /** Whether row may be stored under key self (None for a new row): its role exists and
      no other user has its username or its email. */
  predicate UserFits(db: Db, self: Option<int>, row: UserRow) {
    && row.roleId in db.roles
    && forall k :: k in db.users && Some(k) != self ==>
         db.users[k].username != row.username && db.users[k].email != row.email
  }

  /** save(user): a new entity (no id) is inserted under the next id, a loaded one
      overwrites its row; a row the constraints refuse leaves the table as it was. */
  function SaveUser(db: Db, id: Option<int>, d: UserDraft): (r: Step<int>)
    requires id.Some? ==> id.value in db.users
    ensures r.result.Success? <==> UserRowOf(d).Some? && UserFits(db, id, UserRowOf(d).value)
    ensures r.result.Failure? ==> r.result.error == ConstraintViolation && r.db == db
    ensures r.result.Success? ==>
      && r.result.value == (if id.Some? then id.value else db.nextUserId)
      && r.db == db.(users := db.users[r.result.value := UserRowOf(d).value],
                     nextUserId := if id.Some? then db.nextUserId else db.nextUserId + 1)
    ensures Valid(db) && r.result.Success? ==> Valid(r.db)
  {
    var row := UserRowOf(d);
    if row.None? || !UserFits(db, id, row.value) then Step(Failure(ConstraintViolation), db)
    else
      var key := if id.Some? then id.value else db.nextUserId;
      Step(Success(key), db.(users := db.users[key := row.value],
                             nextUserId := if id.Some? then db.nextUserId else db.nextUserId + 1))
  }

  /** Whether a customer may be stored under key self: name is NOT NULL, the user exists
      and no other customer is linked to it. */
  predicate CustomerFits(db: Db, self: Option<int>, data: CustomerData, userId: Option<int>) {
    && data.name.Some?
    && userId.Some? && userId.value in db.users
    && forall k :: k in db.customers && Some(k) != self ==> db.customers[k].userId != userId.value
  }

  /** save(customer), as SaveUser. */
  function SaveCustomer(db: Db, id: Option<int>, data: CustomerData, userId: Option<int>): (r: Step<int>)
    requires id.Some? ==> id.value in db.customers
    ensures r.result.Success? <==> CustomerFits(db, id, data, userId)
    ensures r.result.Failure? ==> r.result.error == ConstraintViolation && r.db == db
    ensures r.result.Success? ==>
      && r.result.value == (if id.Some? then id.value else db.nextCustomerId)
      && r.db == db.(customers := db.customers[r.result.value := CustomerRow(data, userId.value)],
                     nextCustomerId := if id.Some? then db.nextCustomerId else db.nextCustomerId + 1)
    ensures Valid(db) && r.result.Success? ==> Valid(r.db)
  {
    if !CustomerFits(db, id, data, userId) then Step(Failure(ConstraintViolation), db)
    else
      var key := if id.Some? then id.value else db.nextCustomerId;
      Step(Success(key), db.(customers := db.customers[key := CustomerRow(data, userId.value)],
                             nextCustomerId := if id.Some? then db.nextCustomerId else db.nextCustomerId + 1))
  }

  /** Whether a new employee may be linked to userId: the user exists and no employee is
      linked to it yet. */
  predicate EmployeeFits(db: Db, userId: Option<int>) {
    && userId.Some? && userId.value in db.users
    && forall k :: k in db.employees ==> db.employees[k].userId != userId.value
  }

  /** save of a new bank employee linked to a user (None: a user without an id). */
  function SaveEmployee(db: Db, userId: Option<int>): (r: Step<int>)
    ensures r.result.Success? <==> EmployeeFits(db, userId)
    ensures r.result.Failure? ==> r.result.error == ConstraintViolation && r.db == db
    ensures r.result.Success? ==>
      r.result.value == db.nextEmployeeId &&
      r.db == db.(employees := db.employees[db.nextEmployeeId := EmployeeRow(userId.value)],
                  nextEmployeeId := db.nextEmployeeId + 1)
    ensures Valid(db) && r.result.Success? ==> Valid(r.db)
  {
    if !EmployeeFits(db, userId) then Step(Failure(ConstraintViolation), db)
    else Step(Success(db.nextEmployeeId),
              db.(employees := db.employees[db.nextEmployeeId := EmployeeRow(userId.value)],
                  nextEmployeeId := db.nextEmployeeId + 1))
  }

  /** Inserting a role; the name column is UNIQUE. */
  function AddRole(db: Db, name: string): (r: Step<int>)
    ensures r.result.Success? <==> forall k :: k in db.roles ==> db.roles[k].name != name
    ensures r.result.Failure? ==> r.result.error == ConstraintViolation && r.db == db
    ensures r.result.Success? ==>
      r.result.value == db.nextRoleId &&
      r.db == db.(roles := db.roles[db.nextRoleId := RoleRow(name)], nextRoleId := db.nextRoleId + 1)
    ensures Valid(db) && r.result.Success? ==> Valid(r.db)
  {
    if exists k :: k in db.roles && db.roles[k].name == name then Step(Failure(ConstraintViolation), db)
    else Step(Success(db.nextRoleId), db.(roles := db.roles[db.nextRoleId := RoleRow(name)], nextRoleId := db.nextRoleId + 1))
  }

  /** deleteById on users, "remove if present": the cascade on User.customer and
      User.bankEmployee removes the rows linked to the user with it. */
  function DeleteUser(db: Db, id: int): (r: Db)
    ensures r.users == db.users - {id}
    ensures forall k :: k in r.customers <==> k in db.customers && db.customers[k].userId != id
    ensures forall k :: k in r.employees <==> k in db.employees && db.employees[k].userId != id
    ensures forall k :: k in r.customers ==> r.customers[k] == db.customers[k]
    ensures forall k :: k in r.employees ==> r.employees[k] == db.employees[k]
    ensures r.roles == db.roles
    ensures r.nextRoleId == db.nextRoleId && r.nextUserId == db.nextUserId
      && r.nextCustomerId == db.nextCustomerId && r.nextEmployeeId == db.nextEmployeeId
    ensures Valid(db) ==> Valid(r)
  {
    db.(users := db.users - {id},
        customers := map k | k in db.customers && db.customers[k].userId != id :: db.customers[k],
        employees := map k | k in db.employees && db.employees[k].userId != id :: db.employees[k])
  }

  /** Deleting an id no user has changes nothing: no row can be linked to it. */
  lemma DeleteAbsentUser(db: Db, id: int)
    requires Valid(db) && id !in db.users
    ensures DeleteUser(db, id) == db
  {
    var r := DeleteUser(db, id);
    assert r.users == db.users;
    assert forall k :: k in db.customers ==> k in r.customers && r.customers[k] == db.customers[k];
    assert r.customers == db.customers;
    assert forall k :: k in db.employees ==> k in r.employees && r.employees[k] == db.employees[k];
    assert r.employees == db.employees;
  }

  /** deleteById on customers, "remove if present". */
  function DeleteCustomer(db: Db, id: int): (r: Db)
    ensures r == db.(customers := db.customers - {id})
    ensures Valid(db) ==> Valid(r)
  {
    db.(customers := db.customers - {id})
  }
}
