/** The repositories (IRoleRepository, IUserRepository, ICustomerRepository,
    IBankEmployeeRepository) over one in-memory database. A find hands out fresh entity
    objects that hold a row's columns (with the role, or the customer's user, loaded
    with it); a save reads an entity's columns, writes the row and gives a new entity its
    id. Every operation is specified by the matching function of Tables on State(). */
module Persistence {
  import opened Wrappers
  import opened Failures
  import opened Tables
  import opened Entities
  import opened Dtos

  class Store {
    var roles: map<int, RoleRow>
    var nextRoleId: int
    var users: map<int, UserRow>
    var nextUserId: int
    var customers: map<int, CustomerRow>
    var nextCustomerId: int
    var employees: map<int, EmployeeRow>
    var nextEmployeeId: int

    function State(): Db
      reads this
    {
      Db(roles, nextRoleId, users, nextUserId, customers, nextCustomerId, employees, nextEmployeeId)
    }

    predicate Valid()
      reads this
    {
      Tables.Valid(State())
    }

    /** An empty database. */
    constructor ()
      ensures State() == Empty && Valid()
    {
      roles, nextRoleId := map[], 1;
      users, nextUserId := map[], 1;
      customers, nextCustomerId := map[], 1;
      employees, nextEmployeeId := map[], 1;
    }

    method SetState(db: Db)
      modifies this
      ensures State() == db
    {
      roles, nextRoleId := db.roles, db.nextRoleId;
      users, nextUserId := db.users, db.nextUserId;
      customers, nextCustomerId := db.customers, db.nextCustomerId;
      employees, nextEmployeeId := db.employees, db.nextEmployeeId;
    }

    /** Inserts a role (the roles table is filled outside the services). */
    method AddRole(name: string) returns (r: Result<int, Failure>)
      requires Valid()
      modifies this
      ensures Valid()
      ensures Step(r, State()) == Tables.AddRole(old(State()), name)
    {
      var s := Tables.AddRole(State(), name);
      SetState(s.db);
      r := s.result;
    }

    // ------------------------------------------------------------ entities

    /** role holds the row of roles[id]. */
    predicate HoldsRole(role: Role, id: int)
      reads this, role
    {
      id in roles && role.roleId == Some(id) && role.name == Some(roles[id].name)
    }

    /** u holds the row of users[id], with its role loaded. */
    predicate HoldsUser(u: User, id: int)
      reads this, u, u.role
    {
      && id in users
      && u.userId == Some(id)
      && u.username == Some(users[id].username)
      && u.password == Some(users[id].password)
      && u.email == Some(users[id].email)
      && u.role != null && HoldsRole(u.role, users[id].roleId)
    }

    /** c holds the row of customers[id], with its user loaded. */
    predicate HoldsCustomer(c: Customer, id: int)
      reads this, c, c.user, if c.user == null then null else c.user.role
    {
      && id in customers
      && c.customerId == Some(id)
      && c.Data() == customers[id].data
      && c.user != null && HoldsUser(c.user, customers[id].userId)
    }

    /** A loaded user writes back the row it came from, and shows as that row's view. */
    lemma HeldUserColumns(u: User, id: int)
      requires HoldsUser(u, id)
      ensures u.Draft() == DraftOf(users[id])
      ensures UserDto(u) == UserRowView(id, users[id])
    {
    }

    /** A loaded customer shows as its row's view. */
    lemma HeldCustomerColumns(c: Customer, id: int)
      requires HoldsCustomer(c, id)
      ensures CustomerDto(c) == CustomerRowView(id, customers[id])
    {
    }

    method LoadRole(id: int) returns (role: Role)
      requires id in roles
      ensures fresh(role) && HoldsRole(role, id) && role.users.None?
    {
      role := new Role();
      role.roleId, role.name := Some(id), Some(roles[id].name);
    }

    method LoadUser(id: int) returns (u: User)
      requires Valid() && id in users
      ensures fresh(u) && fresh(u.role) && HoldsUser(u, id)
      ensures u.customer == null && u.bankEmployee == null
    {
      var row := users[id];
      var role := LoadRole(row.roleId);
      u := new User(Some(id), Some(row.username), Some(row.password), Some(row.email), role, null, null);
    }

    method LoadCustomer(id: int) returns (c: Customer)
      requires Valid() && id in customers
      ensures fresh(c) && fresh(c.user) && fresh(c.user.role) && HoldsCustomer(c, id)
    {
      var row := customers[id];
      var u := LoadUser(row.userId);
      c := new Customer();
      // hydration writes the fields directly, as JPA's field access does
      c.customerId := Some(id);
      c.name, c.gender, c.contactNumber := row.data.name, row.data.gender, row.data.contactNumber;
      c.address, c.dateOfBirth := row.data.address, row.data.dateOfBirth;
      c.aadharNumber, c.panNumber := row.data.aadharNumber, row.data.panNumber;
      c.user := u;
    }

    // ---------------------------------------------------------------- roles

    /** IRoleRepository.findById. */
    method FindRoleById(id: int) returns (role: Role?)
      ensures role == null <==> id !in roles
      ensures role != null ==> fresh(role) && HoldsRole(role, id)
    {
      if id in roles {
        role := LoadRole(id);
      } else {
        role := null;
      }
    }

    /** IRoleRepository.findByName. */
    method FindRoleByName(name: string) returns (role: Role?)
      ensures role == null <==> RoleByName(State(), name).None?
      ensures role != null ==> fresh(role) && HoldsRole(role, RoleByName(State(), name).value)
    {
      var found := RoleByName(State(), name);
      if found.Some? {
        role := LoadRole(found.value);
      } else {
        role := null;
      }
    }

    // ---------------------------------------------------------------- users

    /** IUserRepository.findById. */
    method FindUserById(id: int) returns (u: User?)
      requires Valid()
      ensures u == null <==> id !in users
      ensures u != null ==> fresh(u) && fresh(u.role) && HoldsUser(u, id)
    {
      if id in users {
        u := LoadUser(id);
      } else {
        u := null;
      }
    }

    /** IUserRepository.existsById. */
    method ExistsUser(id: int) returns (b: bool)
      ensures b <==> id in users
    {
      b := id in users;
    }

    /** IUserRepository.findByUsername. */
    method FindUserByUsername(username: Option<string>) returns (u: User?)
      requires Valid()
      ensures u == null <==> UserByUsername(State(), username).None?
      ensures u != null ==> fresh(u) && fresh(u.role) && HoldsUser(u, UserByUsername(State(), username).value)
    {
      var found := UserByUsername(State(), username);
      if found.Some? {
        u := LoadUser(found.value);
      } else {
        u := null;
      }
    }

    /** IUserRepository.findByEmail. */
    method FindUserByEmail(email: Option<string>) returns (u: User?)
      requires Valid()
      ensures u == null <==> UserByEmail(State(), email).None?
      ensures u != null ==> fresh(u) && fresh(u.role) && HoldsUser(u, UserByEmail(State(), email).value)
    {
      var found := UserByEmail(State(), email);
      if found.Some? {
        u := LoadUser(found.value);
      } else {
        u := null;
      }
    }

    /** IUserRepository.findAll: one loaded user per row, in ascending id order. */
    method FindAllUsers() returns (us: seq<User>)
      requires Valid()
      ensures |us| == |Ids(users, nextUserId)|
      ensures forall i :: 0 <= i < |us| ==> fresh(us[i]) && fresh(us[i].role) && HoldsUser(us[i], Ids(users, nextUserId)[i])
    {
      var ids := Ids(users, nextUserId);
      us := [];
      var i := 0;
      while i < |ids|
        invariant 0 <= i <= |ids| && |us| == i
        invariant forall j :: 0 <= j < i ==> fresh(us[j]) && fresh(us[j].role) && HoldsUser(us[j], ids[j])
      {
        var u := LoadUser(ids[i]);
        us := us + [u];
        i := i + 1;
      }
    }

    /** IUserRepository.save: the entity's id decides between insert and overwrite, and an
        inserted entity receives its new id. */
    method SaveUser(u: User) returns (r: Result<int, Failure>)
      requires Valid()
      requires u.userId.Some? ==> u.userId.value in users
      modifies this, u`userId
      ensures Valid()
      ensures Step(r, State()) == Tables.SaveUser(old(State()), old(u.userId), old(u.Draft()))
      ensures u.userId == if r.Success? then Some(r.value) else old(u.userId)
    {
      var s := Tables.SaveUser(State(), u.userId, u.Draft());
      SetState(s.db);
      r := s.result;
      if r.Success? {
        u.SetUserId(Some(r.value));
      }
    }

    /** IUserRepository.deleteById: remove if present, with the user's customer and employee rows. */
    method DeleteUserById(id: int)
      requires Valid()
      modifies this
      ensures Valid()
      ensures State() == Tables.DeleteUser(old(State()), id)
    {
      SetState(Tables.DeleteUser(State(), id));
    }

    // ------------------------------------------------------------ customers

    /** ICustomerRepository.findById. */
    method FindCustomerById(id: int) returns (c: Customer?)
      requires Valid()
      ensures c == null <==> id !in customers
      ensures c != null ==> fresh(c) && fresh(c.user) && fresh(c.user.role) && HoldsCustomer(c, id)
    {
      if id in customers {
        c := LoadCustomer(id);
      } else {
        c := null;
      }
    }

    /** ICustomerRepository.existsById. */
    method ExistsCustomer(id: int) returns (b: bool)
      ensures b <==> id in customers
    {
      b := id in customers;
    }

    /** ICustomerRepository.findByUser_UserId. */
    method FindCustomerByUserId(userId: int) returns (c: Customer?)
      requires Valid()
      ensures c == null <==> CustomerByUser(State(), userId).None?
      ensures c != null ==> fresh(c) && fresh(c.user) && fresh(c.user.role) && HoldsCustomer(c, CustomerByUser(State(), userId).value)
    {
      var found := CustomerByUser(State(), userId);
      if found.Some? {
        c := LoadCustomer(found.value);
      } else {
        c := null;
      }
    }

    /** ICustomerRepository.findAll. */
    method FindAllCustomers() returns (cs: seq<Customer>)
      requires Valid()
      ensures |cs| == |Ids(customers, nextCustomerId)|
      ensures forall i :: 0 <= i < |cs| ==>
        fresh(cs[i]) && fresh(cs[i].user) && fresh(cs[i].user.role) && HoldsCustomer(cs[i], Ids(customers, nextCustomerId)[i])
    {
      var ids := Ids(customers, nextCustomerId);
      cs := [];
      var i := 0;
      while i < |ids|
        invariant 0 <= i <= |ids| && |cs| == i
        invariant forall j :: 0 <= j < i ==>
          fresh(cs[j]) && fresh(cs[j].user) && fresh(cs[j].user.role) && HoldsCustomer(cs[j], ids[j])
      {
        var c := LoadCustomer(ids[i]);
        cs := cs + [c];
        i := i + 1;
      }
    }

    /** ICustomerRepository.save: the customer's user is stored by its id. */
    method SaveCustomer(c: Customer) returns (r: Result<int, Failure>)
      requires Valid()
      requires c.customerId.Some? ==> c.customerId.value in customers
      modifies this, c`customerId
      ensures Valid()
      ensures Step(r, State()) ==
        Tables.SaveCustomer(old(State()), old(c.customerId), old(c.Data()), old(if c.user == null then None else c.user.userId))
      ensures c.customerId == if r.Success? then Some(r.value) else old(c.customerId)
    {
      var s := Tables.SaveCustomer(State(), c.customerId, c.Data(), if c.user == null then None else c.user.userId);
      SetState(s.db);
      r := s.result;
      if r.Success? {
        c.SetCustomerId(Some(r.value));
      }
    }

    /** ICustomerRepository.deleteById. */
    method DeleteCustomerById(id: int)
      requires Valid()
      modifies this
      ensures Valid()
      ensures State() == Tables.DeleteCustomer(old(State()), id)
    {
      SetState(Tables.DeleteCustomer(State(), id));
    }

    // ------------------------------------------------------------ employees

    /** IBankEmployeeRepository.save of a new employee. */
    method SaveEmployee(e: BankEmployee) returns (r: Result<int, Failure>)
      requires Valid()
      modifies this, e`employeeId
      ensures Valid()
      ensures Step(r, State()) == Tables.SaveEmployee(old(State()), old(if e.userId == null then None else e.userId.userId))
      ensures e.employeeId == if r.Success? then Some(r.value) else old(e.employeeId)
    {
      var s := Tables.SaveEmployee(State(), if e.userId == null then None else e.userId.userId);
      SetState(s.db);
      r := s.result;
      if r.Success? {
        e.employeeId := Some(r.value);
      }
    }
  }
}
