/** The JPA entities Role, User and Customer as mutable objects. A Java field that may
    be null is an Option (a reference field is a nullable class type). Each setter's
    frame is its own field, so it changes nothing else. equals and hashCode follow the
    source: only the listed fields take part. */
module Entities {
  import opened Wrappers
  import opened Dates
  import opened JavaObjects
  import opened Tables

  class Role {
    var roleId: Option<int>
    var name: Option<string>
    var users: Option<seq<User>>

    /** The implicit no-argument constructor. */
    constructor ()
      ensures roleId.None? && name.None? && users.None?
    {
      roleId := None;
      name := None;
      users := None;
    }

    method SetRoleId(id: Option<int>)
      modifies this`roleId
      ensures roleId == id
    {
      roleId := id;
    }

    method SetName(n: Option<string>)
      modifies this`name
      ensures name == n
    {
      name := n;
    }

    method SetUsers(us: Option<seq<User>>)
      modifies this`users
      ensures users == us
    {
      users := us;
    }

    function HashCode(): (h: int)
      reads this
      ensures -0x8000_0000 <= h < 0x8000_0000
    {
      ObjectsHash([OptStringHash(name), OptLongHash(roleId)])
    }

    /** equals: the same object, or another Role with the same name and roleId; the users
        list does not take part. Equal roles have equal hash codes. */
    function Equals(obj: object?): (r: bool)
      reads this, obj
      ensures r <==> obj is Role && name == (obj as Role).name && roleId == (obj as Role).roleId
      ensures obj == this ==> r
      ensures obj == null ==> !r
      ensures r ==> HashCode() == (obj as Role).HashCode()
    {
      if obj == this then true
      else if obj == null then false
      else if !(obj is Role) then false
      else
        var other := obj as Role;
        name == other.name && roleId == other.roleId
    }
  }

  /** The bank employee entity, reduced to its id and its link to a user, the field the
      source names userId. */
  class BankEmployee {
    var employeeId: Option<int>
    var userId: User?

    constructor ()
      ensures employeeId.None? && userId == null
    {
      employeeId := None;
      userId := null;
    }

    method SetUserId(u: User?)
      modifies this`userId
      ensures userId == u
    {
      userId := u;
    }
  }

  class User {
    var userId: Option<int>
    var username: Option<string>
    var password: Option<string>
    var email: Option<string>
    var role: Role?
    var customer: Customer?
    var bankEmployee: BankEmployee?

    /** new User(): every field null. */
    constructor Blank()
      ensures userId.None? && username.None? && password.None? && email.None?
      ensures role == null && customer == null && bankEmployee == null
    {
      userId := None;
      username := None;
      password := None;
      email := None;
      role := null;
      customer := null;
      bankEmployee := null;
    }

    /** The all-arguments constructor: each field takes its argument. */
    constructor (userId: Option<int>, username: Option<string>, password: Option<string>, email: Option<string>,
                 role: Role?, customer: Customer?, bankEmployee: BankEmployee?)
      ensures this.userId == userId && this.username == username && this.password == password
      ensures this.email == email && this.role == role && this.customer == customer
      ensures this.bankEmployee == bankEmployee
    {
      this.userId := userId;
      this.username := username;
      this.password := password;
      this.email := email;
      this.role := role;
      this.customer := customer;
      this.bankEmployee := bankEmployee;
    }

    method SetUserId(id: Option<int>)
      modifies this`userId
      ensures userId == id
    {
      userId := id;
    }

    method SetUsername(n: Option<string>)
      modifies this`username
      ensures username == n
    {
      username := n;
    }

    method SetPassword(p: Option<string>)
      modifies this`password
      ensures password == p
    {
      password := p;
    }

    method SetEmail(e: Option<string>)
      modifies this`email
      ensures email == e
    {
      email := e;
    }

    method SetRole(r: Role?)
      modifies this`role
      ensures role == r
    {
      role := r;
    }

    method SetCustomer(c: Customer?)
      modifies this`customer
      ensures customer == c
    {
      customer := c;
    }

    method SetBankEmployee(b: BankEmployee?)
      modifies this`bankEmployee
      ensures bankEmployee == b
    {
      bankEmployee := b;
    }

    /** The columns save writes: the role is stored by its id. */
    function Draft(): UserDraft
      reads this, role
    {
      UserDraft(username, password, email, if role == null then None else role.roleId)
    }

    function HashCode(): (h: int)
      reads this
      ensures -0x8000_0000 <= h < 0x8000_0000
    {
      ObjectsHash([OptStringHash(email), OptStringHash(password), OptLongHash(userId), OptStringHash(username)])
    }

    /** equals: the same object, or another User with the same email, password, userId
        and username; role, customer and bankEmployee do not take part. Equal users have
        equal hash codes. */
    function Equals(obj: object?): (r: bool)
      reads this, obj
      ensures r <==> obj is User && SameColumns(obj as User)
      ensures obj == this ==> r
      ensures obj == null ==> !r
      ensures r ==> HashCode() == (obj as User).HashCode()
    {
      if obj == this then true
      else if obj == null then false
      else if !(obj is User) then false
      else SameColumns(obj as User)
    }

    predicate SameColumns(other: User)
      reads this, other
    {
      email == other.email && password == other.password && userId == other.userId && username == other.username
    }
  }

  /** Objects.equals on two users: both null, or equal by User.equals. */
  predicate SameUser(a: User?, b: User?)
    reads a, b
  {
    a == b || (a != null && a.Equals(b))
  }

  class Customer {
    var customerId: Option<int>
    var name: Option<string>
    var gender: Option<string>
    var contactNumber: Option<string>
    var address: Option<string>
    var dateOfBirth: Option<LocalDate>
    var aadharNumber: Option<string>
    var panNumber: Option<string>
    var user: User?

    /** new Customer(): every field null. */
    constructor ()
      ensures customerId.None? && Data() == CustomerData(None, None, None, None, None, None, None) && user == null
    {
      customerId := None;
      name := None;
      gender := None;
      contactNumber := None;
      address := None;
      dateOfBirth := None;
      aadharNumber := None;
      panNumber := None;
      user := null;
    }

    /** The seven data columns. */
    function Data(): CustomerData
      reads this
    {
      CustomerData(name, gender, contactNumber, address, dateOfBirth, aadharNumber, panNumber)
    }

    method SetCustomerId(id: Option<int>)
      modifies this`customerId
      ensures customerId == id
    {
      customerId := id;
    }

    method SetName(v: Option<string>)
      modifies this`name
      ensures name == v
    {
      name := v;
    }

    method SetGender(v: Option<string>)
      modifies this`gender
      ensures gender == v
    {
      gender := v;
    }

    method SetContactNumber(v: Option<string>)
      modifies this`contactNumber
      ensures contactNumber == v
    {
      contactNumber := v;
    }

    method SetAddress(v: Option<string>)
      modifies this`address
      ensures address == v
    {
      address := v;
    }

    method SetDateOfBirth(v: Option<LocalDate>)
      modifies this`dateOfBirth
      ensures dateOfBirth == v
    {
      dateOfBirth := v;
    }

    method SetAadharNumber(v: Option<string>)
      modifies this`aadharNumber
      ensures aadharNumber == v
    {
      aadharNumber := v;
    }

    method SetPanNumber(v: Option<string>)
      modifies this`panNumber
      ensures panNumber == v
    {
      panNumber := v;
    }

    method SetUser(u: User?)
      modifies this`user
      ensures user == u
    {
      user := u;
    }

    function HashCode(): (h: int)
      reads this, user
      ensures -0x8000_0000 <= h < 0x8000_0000
    {
      ObjectsHash([OptStringHash(aadharNumber), OptStringHash(address), OptStringHash(contactNumber),
                   OptLongHash(customerId), OptDateHash(dateOfBirth), OptStringHash(gender),
                   OptStringHash(name), OptStringHash(panNumber), if user == null then 0 else user.HashCode()])
    }

    /** equals: the same object, or another Customer with the same eight scalar fields and
        an equal user; the account, loan and closure-request lists do not take part. Equal
        customers have equal hash codes. */
    function Equals(obj: object?): (r: bool)
      reads this, obj, user, if obj is Customer then (obj as Customer).user else null
      ensures r <==> obj is Customer && Data() == (obj as Customer).Data()
                     && customerId == (obj as Customer).customerId && SameUser(user, (obj as Customer).user)
      ensures obj == this ==> r
      ensures obj == null ==> !r
      ensures r ==> HashCode() == (obj as Customer).HashCode()
    {
      if obj == this then true
      else if obj == null then false
      else if !(obj is Customer) then false
      else
        var other := obj as Customer;
        && aadharNumber == other.aadharNumber && address == other.address
        && contactNumber == other.contactNumber && customerId == other.customerId
        && dateOfBirth == other.dateOfBirth && gender == other.gender
        && name == other.name && panNumber == other.panNumber
        && SameUser(user, other.user)
    }
  }

  /** Equality of users is symmetric and transitive: an equivalence. */
  lemma UserEqualsIsEquivalence(a: User, b: User, c: User)
    ensures a.Equals(b) ==> b.Equals(a)
    ensures a.Equals(b) && b.Equals(c) ==> a.Equals(c)
  {
  }

  lemma RoleEqualsIsEquivalence(a: Role, b: Role, c: Role)
    ensures a.Equals(b) ==> b.Equals(a)
    ensures a.Equals(b) && b.Equals(c) ==> a.Equals(c)
  {
  }

  lemma CustomerEqualsIsEquivalence(a: Customer, b: Customer, c: Customer)
    ensures a.Equals(b) ==> b.Equals(a)
    ensures a.Equals(b) && b.Equals(c) ==> a.Equals(c)
  {
    if a.Equals(b) {
      if a.user != null && b.user != null { UserEqualsIsEquivalence(a.user, b.user, a.user); }
    }
    if a.Equals(b) && b.Equals(c) && a.user != null && b.user != null && c.user != null {
      UserEqualsIsEquivalence(a.user, b.user, c.user);
    }
  }

  /** Setting a field that equals ignores leaves equality untouched: giving a user a new
      role changes neither its equality with another user nor its hash code. */
  method RoleDoesNotAffectUserEquality(u: User, other: User, r: Role?)
    modifies u`role
    ensures u.Equals(other) == old(u.Equals(other))
    ensures u.HashCode() == old(u.HashCode())
  {
    u.SetRole(r);
  }
}
