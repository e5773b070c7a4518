/** AdminServiceImpl's user half and the user gate of createBankEmployee: each method
    works on entities through the repositories as the source does, and is proved to
    return and to leave behind what the matching function of AdminServiceSpec says. */
module AdminService {
  import opened Wrappers
  import opened Failures
  import opened Tables
  import opened Entities
  import opened Dtos
  import opened Persistence
  import Spec = AdminServiceSpec

  class AdminServiceImpl {
    const db: Store

    constructor (db: Store)
      ensures this.db == db
    {
      this.db := db;
    }

    method CreateUser(req: RegistrationRequest) returns (r: Result<UserView, Failure>)
      requires db.Valid()
      modifies db
      ensures db.Valid()
      ensures Step(r, db.State()) == Spec.CreateUser(old(db.State()), req)
    {
      var user := new User.Blank();
      // the properties the request shares with User, then the password again
      user.SetUsername(req.username);
      user.SetPassword(req.password);
      user.SetEmail(req.email);
      user.SetPassword(req.password);

      if req.roleId.None? {
        return Failure(IllegalArgument);
      }
      var role := db.FindRoleById(req.roleId.value);
      if role == null {
        return Failure(Runtime(RoleById, req.roleId.value));
      }
      user.SetRole(role);
      assert user.Draft() == UserDraft(req.username, req.password, req.email, req.roleId);

      var saved := db.SaveUser(user);
      if saved.Failure? {
        return Failure(saved.error);
      }
      r := Success(UserDto(user));
    }

    method GetUserById(id: int) returns (v: Option<UserView>)
      requires db.Valid()
      ensures v == Spec.GetUserById(db.State(), id)
    {
      var user := db.FindUserById(id);
      if user == null {
        return None;
      }
      db.HeldUserColumns(user, id);
      v := Some(UserDto(user));
    }

    method GetAllUsers() returns (vs: seq<UserView>)
      requires db.Valid()
      ensures vs == Spec.GetAllUsers(db.State())
    {
      var users := db.FindAllUsers();
      vs := UserDtos(users);
      var ids := Ids(db.users, db.nextUserId);
      forall i | 0 <= i < |users|
        ensures vs[i] == UserRowView(ids[i], db.users[ids[i]])
      {
        db.HeldUserColumns(users[i], ids[i]);
      }
    }

    /** updateUser's setters on the loaded user: the email as it is, the password when
        non-null, the role when the requested one exists, and the id again. */
    method Overwrite(user: User, id: int, req: UpdateRequest)
      requires db.Valid() && db.HoldsUser(user, id)
      modifies user`email, user`password, user`role, user`userId
      ensures user.userId == Some(id)
      ensures user.Draft() == Spec.AdminDraft(db.State(), db.users[id], req)
    {
      user.SetEmail(req.email);
      if req.password.Some? {
        user.SetPassword(req.password);
      }
      if req.roleId.Some? {
        var role := db.FindRoleById(req.roleId.value);
        if role != null {
          user.SetRole(role);
        }
      }
      user.SetUserId(Some(id));
    }

    method UpdateUser(id: int, req: UpdateRequest) returns (r: Result<Option<UserView>, Failure>)
      requires db.Valid()
      modifies db
      ensures db.Valid()
      ensures Step(r, db.State()) == Spec.UpdateUser(old(db.State()), id, req)
    {
      var user := db.FindUserById(id);
      if user == null {
        return Success(None);
      }
      Overwrite(user, id, req);
      var saved := db.SaveUser(user);
      if saved.Failure? {
        return Failure(saved.error);
      }
      r := Success(Some(UserDto(user)));
    }

    /** deleteUser: deleteById without an existence check, as "remove if present". */
    method DeleteUser(id: int)
      requires db.Valid()
      modifies db
      ensures db.Valid()
      ensures db.State() == Tables.DeleteUser(old(db.State()), id)
    {
      db.DeleteUserById(id);
    }

    /** createBankEmployee, reduced to its user gate and the save. */
    method CreateBankEmployee(req: EmployeeCreateRequest) returns (r: Result<EmployeeView, Failure>)
      requires db.Valid()
      modifies db
      ensures db.Valid()
      ensures Step(r, db.State()) == Spec.CreateBankEmployee(old(db.State()), req)
    {
      var employee := new BankEmployee();
      if req.userId.None? {
        return Failure(IllegalArgument);
      }
      var user := db.FindUserById(req.userId.value);
      if user == null {
        return Failure(Runtime(UserById, req.userId.value));
      }
      employee.SetUserId(user);
      var saved := db.SaveEmployee(employee);
      if saved.Failure? {
        return Failure(saved.error);
      }
      // the view is built from what the save returned: the new id and the linked user
      r := Success(EmployeeView(Some(saved.value), user.userId));
    }
  }
}
