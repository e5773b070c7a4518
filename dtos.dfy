/** The request and response objects of the services, and the converters from entities
    to responses. Only the properties the services read or write are modelled. */
module Dtos {
  import opened Wrappers
  import opened Tables
  import opened Entities

  /** UserDTO: userId, username, email and roleId; it has no password. */
  datatype UserView = UserView(userId: Option<int>, username: Option<string>, email: Option<string>, roleId: Option<int>)

  /** CustomerDTO: the id, the seven data fields and the linked user's id. */
  datatype CustomerView = CustomerView(customerId: Option<int>, data: CustomerData, userId: Option<int>)

  /** BankEmployeeDTO, reduced to the employee's id and the linked user's id. */
  datatype EmployeeView = EmployeeView(employeeId: Option<int>, userId: Option<int>)

  /** UserRegistrationRequestDTO, read by registerUser and by the admin's createUser. */
  datatype RegistrationRequest = RegistrationRequest(
    username: Option<string>, password: Option<string>, email: Option<string>, roleId: Option<int>)

  /** UserUpdateRequestDTO: a null field means "leave as it is" (in the validating service). */
  datatype UpdateRequest = UpdateRequest(
    username: Option<string>, password: Option<string>, email: Option<string>, roleId: Option<int>)

  datatype LoginRequest = LoginRequest(username: Option<string>, password: Option<string>)

  /** CustomerCreateRequestDTO: the seven data fields and the id of the user to link. */
  datatype CustomerCreateRequest = CustomerCreateRequest(data: CustomerData, userId: Option<int>)

  /** CustomerUpdateRequestDTO: the seven data fields as a patch; null keeps the stored value. */
  datatype CustomerUpdateRequest = CustomerUpdateRequest(patch: CustomerData)

  /** BankEmployeeCreateRequestDTO, reduced to the id of the user to link. */
  datatype EmployeeCreateRequest = EmployeeCreateRequest(userId: Option<int>)

  /** convertUserToDTO, and the admin service's copy of a User into a UserDTO: the id,
      username and email are copied, the role is replaced by its id (null without a
      role), and the password is left behind. */
  function UserDto(u: User): (v: UserView)
    reads u, u.role
    ensures v.userId == u.userId && v.username == u.username && v.email == u.email
    ensures v.roleId.Some? ==> u.role != null && v.roleId == u.role.roleId
    ensures u.role != null ==> v.roleId == u.role.roleId
  {
    UserView(u.userId, u.username, u.email, if u.role == null then None else u.role.roleId)
  }

  /** The view of a stored user row. */
  function UserRowView(id: int, row: UserRow): UserView {
    UserView(Some(id), Some(row.username), Some(row.email), Some(row.roleId))
  }

  /** The views of a list of users, one each, in the list's order: a stream map. */
  function UserDtos(us: seq<User>): (vs: seq<UserView>)
    reads set u | u in us, set u | u in us :: u.role
    ensures |vs| == |us|
    ensures forall i :: 0 <= i < |us| ==> vs[i] == UserDto(us[i])
  {
    if |us| == 0 then [] else UserDtos(us[..|us| - 1]) + [UserDto(us[|us| - 1])]
  }

  /** convertEntityToDTO of the customer service: the id and the seven data fields are
      copied, and the linked user is replaced by its id (null without a user). */
  function CustomerDto(c: Customer): (v: CustomerView)
    reads c, c.user
    ensures v.customerId == c.customerId && v.data == c.Data()
    ensures v.userId.Some? ==> c.user != null && v.userId == c.user.userId
    ensures c.user != null ==> v.userId == c.user.userId
  {
    CustomerView(c.customerId, c.Data(), if c.user == null then None else c.user.userId)
  }

  /** The view of a stored customer row. */
  function CustomerRowView(id: int, row: CustomerRow): CustomerView {
    CustomerView(Some(id), row.data, Some(row.userId))
  }

  function CustomerDtos(cs: seq<Customer>): (vs: seq<CustomerView>)
    reads set c | c in cs, set c | c in cs :: c.user
    ensures |vs| == |cs|
    ensures forall i :: 0 <= i < |cs| ==> vs[i] == CustomerDto(cs[i])
  {
    if |cs| == 0 then [] else CustomerDtos(cs[..|cs| - 1]) + [CustomerDto(cs[|cs| - 1])]
  }

  /** A user view never depends on the password: rows that differ only in the
      password give the same view. */
  lemma UserViewHidesPassword(id: int, row: UserRow, password: string)
    ensures UserRowView(id, row.(password := password)) == UserRowView(id, row)
  {
  }
}
