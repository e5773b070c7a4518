/** UserServiceImpl: each method works on entities through the repositories, step by
    step as the source does, and is proved to return and to leave behind what the
    matching function of UserServiceSpec says. */
module UserService {
  import opened Wrappers
  import opened Failures
  import opened Patterns
  import opened Tables
  import opened Entities
  import opened Dtos
  import opened Persistence
  import Spec = UserServiceSpec

  class UserServiceImpl {
    const db: Store

    constructor (db: Store)
      ensures this.db == db
    {
      this.db := db;
    }

    /** The checks of registerUser, in source order. */
    method CheckRegistration(req: RegistrationRequest) returns (check: Outcome<Failure>)
      requires db.Valid()
      ensures check == Spec.RegisterCheck(db.State(), req)
    {
      var byName := db.FindUserByUsername(req.username);
      if byName != null {
        return Fail(Validation(UsernameExists));
      }
      var emailOk := Spec.MatchesEmail(req.email);
      if emailOk.Failure? {
        return Fail(emailOk.error);
      }
      if !emailOk.value {
        return Fail(Validation(InvalidEmailFormat));
      }
      var byEmail := db.FindUserByEmail(req.email);
      if byEmail != null {
        return Fail(Validation(EmailExists));
      }
      var passwordOk := Spec.MatchesPassword(req.password);
      if passwordOk.Failure? {
        return Fail(passwordOk.error);
      }
      if !passwordOk.value {
        return Fail(Validation(WeakPassword));
      }
      check := Pass;
    }

    /** registerUser's role: the requested one if it exists, else the CUSTOMER role. */
    method ChooseRole(roleId: Option<int>) returns (role: Role?)
      ensures role == null <==> Spec.ChosenRole(db.State(), roleId).None?
      ensures role != null ==> fresh(role) && role.roleId == Spec.ChosenRole(db.State(), roleId)
    {
      if roleId.Some? {
        var requested := db.FindRoleById(roleId.value);
        var fallback := db.FindRoleByName("CUSTOMER");
        role := if requested != null then requested else fallback;
      } else {
        role := db.FindRoleByName("CUSTOMER");
      }
    }

    method RegisterUser(req: RegistrationRequest) returns (r: Result<UserView, Failure>)
      requires db.Valid()
      modifies db
      ensures db.Valid()
      ensures Step(r, db.State()) == Spec.Register(old(db.State()), req)
    {
      var check := CheckRegistration(req);
      if check.Fail? {
        return Failure(check.error);
      }

      var user := new User.Blank();
      user.SetUsername(req.username);
      user.SetPassword(req.password);
      user.SetEmail(req.email);
      var role := ChooseRole(req.roleId);
      user.SetRole(role);
      assert user.Draft() == UserDraft(req.username, req.password, req.email, Spec.ChosenRole(db.State(), req.roleId));

      var saved := db.SaveUser(user);
      if saved.Failure? {
        return Failure(saved.error);
      }
      r := Success(UserDto(user));
    }

    method Login(req: LoginRequest) returns (r: Result<string, Failure>)
      requires db.Valid()
      ensures Step(r, db.State()) == Spec.Login(db.State(), req)
    {
      var user := db.FindUserByUsername(req.username);
      if user == null || user.password != req.password {
        return Failure(Validation(InvalidCredentials));
      }
      r := Success("Login successful");
    }

    method GetUserById(id: int) returns (r: Result<UserView, Failure>)
      requires db.Valid()
      ensures Step(r, db.State()) == Spec.GetUserById(db.State(), id)
    {
      var user := db.FindUserById(id);
      if user == null {
        return Failure(NoSuchElement(UserById, id));
      }
      db.HeldUserColumns(user, id);
      r := Success(UserDto(user));
    }

    /** updateUser's username step: a new, non-null name must be free before it is set. */
    method PatchUsername(user: User, stored: string, req: UpdateRequest) returns (check: Outcome<Failure>)
      requires db.Valid() && user.username == Some(stored)
      modifies user`username
      ensures check.Fail? <==> req.username.Some? && req.username.value != stored && UserByUsername(db.State(), req.username).Some?
      ensures check.Fail? ==> check.error == Validation(UsernameExists)
      ensures check.Pass? ==> user.username == Some(Spec.Patched(req.username, stored))
    {
      if req.username.Some? && req.username != user.username {
        var other := db.FindUserByUsername(req.username);
        if other != null {
          return Fail(Validation(UsernameExists));
        }
        user.SetUsername(req.username);
      }
      check := Pass;
    }

    /** updateUser's password step: a non-null, non-empty password must match the pattern. */
    method PatchPassword(user: User, stored: string, req: UpdateRequest) returns (check: Outcome<Failure>)
      requires user.password == Some(stored)
      modifies user`password
      ensures check.Fail? <==> req.password.Some? && req.password.value != "" && !IsValidPassword(req.password.value)
      ensures check.Fail? ==> check.error == Validation(PasswordFormat)
      ensures check.Pass? ==> user.password == Some(Spec.PatchedPassword(req.password, stored))
    {
      if req.password.Some? && req.password.value != "" {
        if !IsValidPassword(req.password.value) {
          return Fail(Validation(PasswordFormat));
        }
        user.SetPassword(req.password);
      }
      check := Pass;
    }

    /** updateUser's email step: a new, non-null email must be well formed and free. */
    method PatchEmail(user: User, stored: string, req: UpdateRequest) returns (check: Outcome<Failure>)
      requires db.Valid() && user.email == Some(stored)
      modifies user`email
      ensures var changed := req.email.Some? && req.email.value != stored;
        && (check.Fail? <==> changed && (!IsValidEmail(req.email.value) || UserByEmail(db.State(), req.email).Some?))
        && (check.Fail? ==> check.error == if !IsValidEmail(req.email.value) then Validation(InvalidEmailFormat)
                                           else Validation(EmailExists))
      ensures check.Pass? ==> user.email == Some(Spec.Patched(req.email, stored))
    {
      if req.email.Some? && req.email != user.email {
        if !IsValidEmail(req.email.value) {
          return Fail(Validation(InvalidEmailFormat));
        }
        var other := db.FindUserByEmail(req.email);
        if other != null {
          return Fail(Validation(EmailExists));
        }
        user.SetEmail(req.email);
      }
      check := Pass;
    }

    /** updateUser's role step: a non-null role id must name a role, which is then set. */
    method PatchRole(user: User, stored: int, req: UpdateRequest) returns (check: Outcome<Failure>)
      requires user.role != null && user.role.roleId == Some(stored)
      modifies user`role
      ensures check.Fail? <==> req.roleId.Some? && req.roleId.value !in db.roles
      ensures check.Fail? ==> check.error == NoSuchElement(RoleById, req.roleId.value)
      ensures check.Pass? ==> user.role != null && user.role.roleId == Some(if req.roleId.Some? then req.roleId.value else stored)
    {
      if req.roleId.Some? {
        var role := db.FindRoleById(req.roleId.value);
        if role == null {
          return Fail(NoSuchElement(RoleById, req.roleId.value));
        }
        user.SetRole(role);
      }
      check := Pass;
    }

    /** The checks of updateUser, each followed by the setter it guards, on the loaded user. */
    method ApplyUpdate(user: User, id: int, req: UpdateRequest) returns (check: Outcome<Failure>)
      requires db.Valid() && db.HoldsUser(user, id)
      modifies user`username, user`password, user`email, user`role
      ensures check == Spec.UpdateCheck(db.State(), id, req)
      ensures check.Pass? ==> user.role != null && user.Draft() == DraftOf(Spec.UpdatedRow(db.users[id], req))
    {
      var row := db.users[id];
      check := PatchUsername(user, row.username, req);
      if check.Fail? {
        return;
      }
      check := PatchPassword(user, row.password, req);
      if check.Fail? {
        return;
      }
      check := PatchEmail(user, row.email, req);
      if check.Fail? {
        return;
      }
      check := PatchRole(user, row.roleId, req);
    }

    method UpdateUser(id: int, req: UpdateRequest) returns (r: Result<UserView, Failure>)
      requires db.Valid()
      modifies db
      ensures db.Valid()
      ensures Step(r, db.State()) == Spec.Update(old(db.State()), id, req)
    {
      var user := db.FindUserById(id);
      if user == null {
        return Failure(NoSuchElement(UserById, id));
      }
      var check := ApplyUpdate(user, id, req);
      if check.Fail? {
        return Failure(check.error);
      }
      var saved := db.SaveUser(user);
      if saved.Failure? {
        return Failure(saved.error);
      }
      r := Success(UserDto(user));
    }

    method DeleteUser(id: int) returns (r: Result<(), Failure>)
      requires db.Valid()
      modifies db
      ensures db.Valid()
      ensures Step(r, db.State()) == Spec.Delete(old(db.State()), id)
    {
      var present := db.ExistsUser(id);
      if !present {
        return Failure(NoSuchElement(UserById, id));
      }
      db.DeleteUserById(id);
      r := Success(());
    }

    /** getUserByUsername: the loaded user, or null. */
    method GetUserByUsername(username: Option<string>) returns (u: User?)
      requires db.Valid()
      ensures u == null <==> UserByUsername(db.State(), username).None?
      ensures u != null ==> fresh(u) && db.HoldsUser(u, UserByUsername(db.State(), username).value)
    {
      u := db.FindUserByUsername(username);
    }
  }
}
