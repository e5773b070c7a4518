# MaverickBank identity and customer onboarding, in Dafny

This project models the identity and customer-onboarding core of the MaverickBank back
office, which is a Spring Boot application over a relational database. The core has three
services and three entities:

- `UserServiceImpl` is the validating user service. It covers registration with its
  ordered checks, login, lookups, partial updates and deletion.
- `AdminServiceImpl` is the administrator's user service. It makes no checks of its own,
  overwrites the email even with null, ignores an unknown role on update and returns null
  for an unknown id. The model also covers the user gate of its `createBankEmployee`.
- `CustomerServiceImpl` creates, reads, updates and deletes customers. It validates the
  name, date of birth (age at least 18), address and contact number.
- The JPA entities `User`, `Customer` and `Role` cover fields, setters, constructors,
  `equals` and `hashCode`.

The model has two layers.

- **Values.** `Tables` holds the database as maps from auto-assigned ids to rows, with
  the column constraints as an invariant (`Tables.Valid`). The constraints are:
  - unique, non-null usernames and emails;
  - unique role names;
  - a required role for every user;
  - a non-null customer name;
  - at most one customer per user.

  Each repository operation (`findBy…`, `save`, `deleteById`) is a function over this
  state. Each service operation is a function in `UserServiceSpec`, `AdminServiceSpec` or
  `CustomerServiceSpec`, and the lemmas there state what the source promises.
- **Objects.** `Entities` holds the entities as classes whose setters change only their
  own field. `Persistence.Store` holds the repositories as a class whose finders hand out
  freshly loaded entities and whose save reads an entity's columns back. The classes
  `UserServiceImpl`, `AdminServiceImpl` and `CustomerServiceImpl` do what the Java does,
  step by step, on those objects: find, call setters, save. Each method is proved to
  return and to leave in the store exactly what its spec function says, and to keep the
  store's invariant.

Exceptions are values of `Failures.Failure`:

- `Validation` is `ValidationException`; each reason carries the exact message.
- `NoSuchElement` is `NoSuchElementException`.
- `Runtime` is the administrator service's plain `RuntimeException`.
- `IllegalArgument` is the repository refusing a null id.
- `NullPointer` is `Pattern.matcher(null)`.
- `ConstraintViolation` is the database refusing a row.

The two regular expressions are modelled as the languages they denote under `matches`, as
ghost predicates. They are paired with the recognisers, and the lemmas prove the two
agree. The hash codes use Java's 32-bit int arithmetic, `String.hashCode` over UTF-16
code units, `Long.hashCode`, `LocalDate.hashCode` and `Objects.hash`. The age check uses
the years component of `Period.between`, with today's date passed in.

Four behaviours of the code that the model keeps:

- When neither the requested role nor a role named `CUSTOMER` exists, registration
  saves the user with a null role. The NOT NULL `role_id` column refuses that row, so the
  call fails with `ConstraintViolation`.
- A uniqueness conflict that only the database finds surfaces as `ConstraintViolation`.
  No service translates it into a validation error.
- Passwords are stored and compared as plain text.
- Deleting a user removes its customer and bank-employee rows, through the cascade on
  `User.customer` and `User.bankEmployee`.

## Model

| member | source | states |
|---|---|---|
| Patterns.IsValidPassword | MaverickBank/src/main/java/com/hexaware/maverickBank/service/implementation/UserServiceImpl.java:33-37 | isValidPassword accepts exactly the strings of at least 8 characters, without a line terminator, that hold an ASCII lower-case letter, an ASCII upper-case letter and an ASCII digit |
| Patterns.PasswordRecogniserCorrect | MaverickBank/src/main/java/com/hexaware/maverickBank/service/implementation/UserServiceImpl.java:33-37 | isValidPassword accepts exactly the language of its lookahead pattern, read with Java's `matches` semantics (`.` excluding line terminators, `\d` as ASCII digits) |
| Patterns.PasswordScanMeaning | MaverickBank/src/main/java/com/hexaware/maverickBank/service/implementation/UserServiceImpl.java:33-37 | the one-pass scan from position i succeeds iff no line terminator follows and each class was already seen or occurs later |
| Patterns.PasswordLengthBoundary | MaverickBank/src/main/java/com/hexaware/maverickBank/service/implementation/UserServiceImpl.java:33-37 | for every string without a line terminator that holds a lower-case letter, an upper-case letter and a digit: accepted iff it has at least eight characters, so seven are refused |
| Patterns.IsValidEmail | MaverickBank/src/main/java/com/hexaware/maverickBank/service/implementation/UserServiceImpl.java:39-43 | an address isValidEmail accepts holds an '@', and exactly one |
| Patterns.EmailRecogniserCorrect | MaverickBank/src/main/java/com/hexaware/maverickBank/service/implementation/UserServiceImpl.java:39-43 | isValidEmail accepts exactly the language of its pattern: local runs, '@', labels each ending in '.', and a 2-7 letter top-level domain |
| Patterns.DomainRecogniserCorrect | MaverickBank/src/main/java/com/hexaware/maverickBank/service/implementation/UserServiceImpl.java:39-43 | splitting the domain at its last dot accepts exactly `(?:[a-zA-Z-]+\.)+[a-zA-Z]{2,7}` |
| Patterns.RunsAreDotSeparated | MaverickBank/src/main/java/com/hexaware/maverickBank/service/implementation/UserServiceImpl.java:39-43 | `[c]+(?:\.[c]+)*` denotes exactly the non-empty strings over c with no leading, trailing or doubled dot |
| Patterns.LabelsAreDotTerminated | MaverickBank/src/main/java/com/hexaware/maverickBank/service/implementation/UserServiceImpl.java:39-43 | `(?:[a-zA-Z-]+\.)+` denotes exactly a dot-separated label string followed by one dot |
| Patterns.NoAtInDomain | MaverickBank/src/main/java/com/hexaware/maverickBank/service/implementation/UserServiceImpl.java:39-43 | no '@' can follow the '@' that starts a valid domain: neither the labels nor the top-level domain may hold one |
| Patterns.TldLengthBoundary | MaverickBank/src/main/java/com/hexaware/maverickBank/service/implementation/UserServiceImpl.java:39-43 | "a@x." followed by letters is accepted iff there are 2 to 7 letters |
| Dates.PeriodYears | MaverickBank/src/main/java/com/hexaware/maverickBank/service/implementation/CustomerServiceImpl.java:57-58 | Period.between(start, end).getYears() for start on or before end is non-negative and is the difference of the years or one less; reversed dates give the negated bounds |
| Dates.YearsReached | MaverickBank/src/main/java/com/hexaware/maverickBank/service/implementation/CustomerServiceImpl.java:57-58 | Period.between(start, end).getYears() >= n iff the n-th anniversary (year + n, same month and day) is on or before end |
| Dates.FutureBirthHasNoYears | MaverickBank/src/main/java/com/hexaware/maverickBank/service/implementation/CustomerServiceImpl.java:57-58 | a start date after the end date gives no full year |
| Dates.EighteenthBirthday | MaverickBank/src/main/java/com/hexaware/maverickBank/service/implementation/CustomerServiceImpl.java:57-60 | a date of birth exactly 18 calendar years before today gives 18 years, and the day after gives fewer |
| JavaObjects.Int32 | MaverickBank/src/main/java/com/hexaware/maverickBank/entity/User.java:104-107 | the hash arithmetic wraps to a 32-bit int congruent to the exact value modulo 2^32 |
| JavaObjects.StringHash | MaverickBank/src/main/java/com/hexaware/maverickBank/entity/User.java:104-107 | String.hashCode is an int, 0 for the empty string, and the code unit itself for one character of the Basic Multilingual Plane |
| JavaObjects.LongHash | MaverickBank/src/main/java/com/hexaware/maverickBank/entity/User.java:104-107 | Long.hashCode of the id is an int |
| JavaObjects.DateHash | src/main/java/com/hexaware/maverickBank/entity/Customer.java:126-130 | LocalDate.hashCode of the date of birth is an int |
| JavaObjects.ObjectsHash | MaverickBank/src/main/java/com/hexaware/maverickBank/entity/User.java:104-107 | Objects.hash of no values is 1, of one value is 31 plus that value's hash in int arithmetic, and otherwise an int |
| Tables.FindersExact | MaverickBank/src/main/java/com/hexaware/maverickBank/entity/User.java:25-36 | on a database that keeps its constraints, findByUsername, findByEmail and findByUser_UserId each return exactly the one row holding the value, as the UNIQUE columns guarantee |
| Tables.SaveUser | MaverickBank/src/main/java/com/hexaware/maverickBank/entity/User.java:21-36 | save succeeds iff no column is null, the role exists and no other user has the username or the email; a refused row is a ConstraintViolation that writes nothing; success inserts under the next id or overwrites the own row, and keeps the invariant |
| Tables.SaveCustomer | src/main/java/com/hexaware/maverickBank/entity/Customer.java:29-40 | save succeeds iff the name is non-null, the user exists and no other customer is linked to it; otherwise a ConstraintViolation that writes nothing; success keeps the invariant |
| Tables.AddRole | MaverickBank/src/main/java/com/hexaware/maverickBank/entity/Role.java:23-24 | a role is inserted iff no role has its name, and role names stay unique |
| Tables.SaveEmployee | src/main/java/com/hexaware/maverickBank/service/implementation/AdminServiceImpl.java:178 | bankEmployeeRepository.save succeeds iff the employee is linked to an existing user that has no employee yet (the one-to-one link of User.bankEmployee); a refusal is a ConstraintViolation that writes nothing; success stores one employee row under the next id and keeps the invariant |
| Tables.DeleteUser | MaverickBank/src/main/java/com/hexaware/maverickBank/entity/User.java:38-42 | removes the user and, by the cascade, exactly the customer and employee rows linked to it; every surviving row keeps its value, the roles and the id counters are unchanged, and the invariant holds |
| Tables.DeleteAbsentUser | src/main/java/com/hexaware/maverickBank/service/implementation/AdminServiceImpl.java:160-164 | deleting an id no user has changes nothing |
| Tables.DeleteCustomer | MaverickBank/src/main/java/com/hexaware/maverickBank/service/implementation/CustomerServiceImpl.java:133 | removes exactly that customer and keeps the invariant |
| Tables.UserByUsername | MaverickBank/src/main/java/com/hexaware/maverickBank/service/implementation/UserServiceImpl.java:49 | findByUsername finds a user with that name, or none exists |
| Tables.RoleByName | MaverickBank/src/main/java/com/hexaware/maverickBank/service/implementation/UserServiceImpl.java:71-72 | findByName finds a role with that name, or no role has it |
| Tables.UserByEmail | MaverickBank/src/main/java/com/hexaware/maverickBank/service/implementation/UserServiceImpl.java:57 | findByEmail finds a user with that email, or none exists |
| Tables.CustomerByUser | MaverickBank/src/main/java/com/hexaware/maverickBank/service/implementation/CustomerServiceImpl.java:138 | findByUser_UserId finds a customer linked to that user, or none exists |
| Tables.Ids | src/main/java/com/hexaware/maverickBank/service/implementation/AdminServiceImpl.java:113 | every stored id exactly once, in ascending order, which is the order the model gives findAll (see Left out) |
| Tables.IdsCountRows | src/main/java/com/hexaware/maverickBank/service/implementation/AdminServiceImpl.java:113 | findAll lists as many rows as the table holds |
| Entities.Role.constructor | MaverickBank/src/main/java/com/hexaware/maverickBank/entity/Role.java:17-27 | the implicit constructor leaves every field null |
| Entities.Role.SetRoleId | MaverickBank/src/main/java/com/hexaware/maverickBank/entity/Role.java:32-34 | sets roleId and changes no other field |
| Entities.Role.SetName | MaverickBank/src/main/java/com/hexaware/maverickBank/entity/Role.java:38-40 | sets name and changes no other field |
| Entities.Role.SetUsers | MaverickBank/src/main/java/com/hexaware/maverickBank/entity/Role.java:44-46 | sets users and changes no other field |
| Entities.Role.HashCode | MaverickBank/src/main/java/com/hexaware/maverickBank/entity/Role.java:48-51 | Objects.hash(name, roleId), an int |
| Entities.Role.Equals | MaverickBank/src/main/java/com/hexaware/maverickBank/entity/Role.java:53-63 | true iff obj is a Role with the same name and roleId; reflexive; false for null; equal roles have equal hash codes |
| Entities.RoleEqualsIsEquivalence | MaverickBank/src/main/java/com/hexaware/maverickBank/entity/Role.java:53-63 | Role.equals is symmetric and transitive |
| Entities.BankEmployee.constructor | src/main/java/com/hexaware/maverickBank/service/implementation/AdminServiceImpl.java:171 | a new employee has no id and no user |
| Entities.BankEmployee.SetUserId | src/main/java/com/hexaware/maverickBank/service/implementation/AdminServiceImpl.java:174 | links the employee to the user and changes nothing else |
| Entities.User.Blank | MaverickBank/src/main/java/com/hexaware/maverickBank/entity/User.java:44-47 | new User() leaves every field null |
| Entities.User.constructor | MaverickBank/src/main/java/com/hexaware/maverickBank/entity/User.java:49-59 | the all-arguments constructor sets every field to its argument |
| Entities.User.SetUserId | MaverickBank/src/main/java/com/hexaware/maverickBank/entity/User.java:64-66 | sets userId and changes no other field |
| Entities.User.SetUsername | MaverickBank/src/main/java/com/hexaware/maverickBank/entity/User.java:70-72 | sets username and changes no other field |
| Entities.User.SetPassword | MaverickBank/src/main/java/com/hexaware/maverickBank/entity/User.java:76-78 | sets password and changes no other field |
| Entities.User.SetEmail | MaverickBank/src/main/java/com/hexaware/maverickBank/entity/User.java:82-84 | sets email and changes no other field |
| Entities.User.SetRole | MaverickBank/src/main/java/com/hexaware/maverickBank/entity/User.java:88-90 | sets role and changes no other field |
| Entities.User.SetCustomer | MaverickBank/src/main/java/com/hexaware/maverickBank/entity/User.java:94-96 | sets customer and changes no other field |
| Entities.User.SetBankEmployee | MaverickBank/src/main/java/com/hexaware/maverickBank/entity/User.java:100-102 | sets bankEmployee and changes no other field |
| Entities.User.HashCode | MaverickBank/src/main/java/com/hexaware/maverickBank/entity/User.java:104-107 | Objects.hash(email, password, userId, username), an int |
| Entities.User.Equals | MaverickBank/src/main/java/com/hexaware/maverickBank/entity/User.java:109-120 | true iff obj is a User with the same email, password, userId and username (role, customer and bankEmployee ignored); reflexive; false for null; equal users have equal hash codes |
| Entities.UserEqualsIsEquivalence | MaverickBank/src/main/java/com/hexaware/maverickBank/entity/User.java:109-120 | User.equals is symmetric and transitive |
| Entities.RoleDoesNotAffectUserEquality | MaverickBank/src/main/java/com/hexaware/maverickBank/entity/User.java:104-120 | changing a user's role changes neither its equality with another user nor its hash code |
| Entities.Customer.constructor | src/main/java/com/hexaware/maverickBank/entity/Customer.java:23-49 | the implicit constructor leaves every field null |
| Entities.Customer.SetCustomerId | src/main/java/com/hexaware/maverickBank/entity/Customer.java:54-56 | sets customerId and changes no other field |
| Entities.Customer.SetName | src/main/java/com/hexaware/maverickBank/entity/Customer.java:60-62 | sets name and changes no other field |
| Entities.Customer.SetGender | src/main/java/com/hexaware/maverickBank/entity/Customer.java:66-68 | sets gender and changes no other field |
| Entities.Customer.SetContactNumber | src/main/java/com/hexaware/maverickBank/entity/Customer.java:72-74 | sets contactNumber and changes no other field |
| Entities.Customer.SetAddress | src/main/java/com/hexaware/maverickBank/entity/Customer.java:78-80 | sets address and changes no other field |
| Entities.Customer.SetDateOfBirth | src/main/java/com/hexaware/maverickBank/entity/Customer.java:84-86 | sets dateOfBirth and changes no other field |
| Entities.Customer.SetAadharNumber | src/main/java/com/hexaware/maverickBank/entity/Customer.java:90-92 | sets aadharNumber and changes no other field |
| Entities.Customer.SetPanNumber | src/main/java/com/hexaware/maverickBank/entity/Customer.java:96-98 | sets panNumber and changes no other field |
| Entities.Customer.SetUser | src/main/java/com/hexaware/maverickBank/entity/Customer.java:102-104 | sets user and changes no other field |
| Entities.Customer.HashCode | src/main/java/com/hexaware/maverickBank/entity/Customer.java:126-130 | Objects.hash over the eight scalar fields and the user, an int |
| Entities.Customer.Equals | src/main/java/com/hexaware/maverickBank/entity/Customer.java:131-145 | true iff obj is a Customer with the same eight scalar fields and an Objects.equals-equal user (the three lists ignored); reflexive; false for null; equal customers have equal hash codes |
| Entities.CustomerEqualsIsEquivalence | src/main/java/com/hexaware/maverickBank/entity/Customer.java:131-145 | Customer.equals is symmetric and transitive |
| Dtos.UserDto | MaverickBank/src/main/java/com/hexaware/maverickBank/service/implementation/UserServiceImpl.java:142-151 | convertUserToDTO copies the id, username and email, replaces a present role by its id (none without a role) and leaves the password behind |
| Dtos.CustomerDto | MaverickBank/src/main/java/com/hexaware/maverickBank/service/implementation/CustomerServiceImpl.java:145-159 | convertEntityToDTO copies the id and the seven data fields and replaces a present linked user by its id (none without one) |
| Dtos.UserDtos | src/main/java/com/hexaware/maverickBank/service/implementation/AdminServiceImpl.java:114-121 | the stream map gives one view per user, in the list's order |
| Dtos.CustomerDtos | MaverickBank/src/main/java/com/hexaware/maverickBank/service/implementation/CustomerServiceImpl.java:88-90 | the stream map gives one view per customer, in the list's order |
| Dtos.UserViewHidesPassword | MaverickBank/src/main/java/com/hexaware/maverickBank/service/implementation/UserServiceImpl.java:142-151 | a user's view does not depend on its password |
| Persistence.Store.HeldUserColumns | MaverickBank/src/main/java/com/hexaware/maverickBank/service/implementation/UserServiceImpl.java:142-151 | convertUserToDTO of a loaded user is its row's view (id, username, email, role id), and saving it writes the row back unchanged |
| Persistence.Store.HeldCustomerColumns | MaverickBank/src/main/java/com/hexaware/maverickBank/service/implementation/CustomerServiceImpl.java:145-159 | convertEntityToDTO of a loaded customer is its row's view, with the linked user's id |
| Persistence.Store.FindAllUsers | src/main/java/com/hexaware/maverickBank/service/implementation/AdminServiceImpl.java:113 | findAll loads one user per row, in the model's ascending id order |
| Persistence.Store.FindAllCustomers | MaverickBank/src/main/java/com/hexaware/maverickBank/service/implementation/CustomerServiceImpl.java:88 | findAll loads one customer per row, with its user, in the model's ascending id order |
| Persistence.Store.SaveUser | MaverickBank/src/main/java/com/hexaware/maverickBank/service/implementation/UserServiceImpl.java:76 | save writes the entity's columns as Tables.SaveUser says, and a newly inserted user receives its id |
| Persistence.Store.FindRoleById | MaverickBank/src/main/java/com/hexaware/maverickBank/service/implementation/UserServiceImpl.java:126-127 | roleRepository.findById is empty iff no role has the id, else a fresh entity holding that row |
| Persistence.Store.FindRoleByName | MaverickBank/src/main/java/com/hexaware/maverickBank/service/implementation/UserServiceImpl.java:71-72 | roleRepository.findByName is null iff Tables.RoleByName finds none, else a fresh entity holding the row it finds |
| Persistence.Store.FindUserById | MaverickBank/src/main/java/com/hexaware/maverickBank/service/implementation/UserServiceImpl.java:98-99 | userRepository.findById is empty iff no user has the id, else a fresh user with its role holding that row |
| Persistence.Store.ExistsUser | MaverickBank/src/main/java/com/hexaware/maverickBank/service/implementation/UserServiceImpl.java:136 | existsById is true iff a user has the id |
| Persistence.Store.FindUserByUsername | MaverickBank/src/main/java/com/hexaware/maverickBank/service/implementation/UserServiceImpl.java:49 | findByUsername is null iff Tables.UserByUsername finds none, else a fresh user holding the row it finds |
| Persistence.Store.FindUserByEmail | MaverickBank/src/main/java/com/hexaware/maverickBank/service/implementation/UserServiceImpl.java:57 | findByEmail is null iff Tables.UserByEmail finds none, else a fresh user holding the row it finds |
| Persistence.Store.DeleteUserById | MaverickBank/src/main/java/com/hexaware/maverickBank/service/implementation/UserServiceImpl.java:139 | deleteById leaves the store as Tables.DeleteUser says, cascade included, and keeps the invariant |
| Persistence.Store.FindCustomerById | MaverickBank/src/main/java/com/hexaware/maverickBank/service/implementation/CustomerServiceImpl.java:81-82 | customerRepository.findById is empty iff no customer has the id, else a fresh customer with its user holding that row |
| Persistence.Store.ExistsCustomer | MaverickBank/src/main/java/com/hexaware/maverickBank/service/implementation/CustomerServiceImpl.java:130 | existsById is true iff a customer has the id |
| Persistence.Store.FindCustomerByUserId | MaverickBank/src/main/java/com/hexaware/maverickBank/service/implementation/CustomerServiceImpl.java:138 | findByUser_UserId is null iff Tables.CustomerByUser finds none, else a fresh customer holding the row it finds |
| Persistence.Store.SaveCustomer | MaverickBank/src/main/java/com/hexaware/maverickBank/service/implementation/CustomerServiceImpl.java:76 | save writes the entity's columns as Tables.SaveCustomer says, and a newly inserted customer receives its id |
| Persistence.Store.DeleteCustomerById | MaverickBank/src/main/java/com/hexaware/maverickBank/service/implementation/CustomerServiceImpl.java:133 | deleteById leaves the store as Tables.DeleteCustomer says and keeps the invariant |
| Persistence.Store.SaveEmployee | src/main/java/com/hexaware/maverickBank/service/implementation/AdminServiceImpl.java:178 | save writes the employee as Tables.SaveEmployee says, and a newly inserted employee receives its id |
| UserServiceSpec.ChosenRole | MaverickBank/src/main/java/com/hexaware/maverickBank/service/implementation/UserServiceImpl.java:70-74 | the role registerUser gives always exists: the requested one when it exists, else a role named CUSTOMER; none only when no role has that name |
| UserServiceSpec.RegisterCheck | MaverickBank/src/main/java/com/hexaware/maverickBank/service/implementation/UserServiceImpl.java:49-63 | the checks pass iff the username is not taken, the email is non-null, valid and not taken, and the password is non-null and valid; a failure is a validation error or Pattern.matcher(null)'s NullPointer |
| UserServiceSpec.Register | MaverickBank/src/main/java/com/hexaware/maverickBank/service/implementation/UserServiceImpl.java:46-78 | registration keeps the store's invariant, so usernames and emails stay unique |
| UserServiceSpec.RegisterCheckOrder | MaverickBank/src/main/java/com/hexaware/maverickBank/service/implementation/UserServiceImpl.java:49-63 | the checks run in the order username taken, email null or malformed, email taken, password null or weak; the first failing one decides, and a failure writes nothing |
| UserServiceSpec.RegisterSucceedsIff | MaverickBank/src/main/java/com/hexaware/maverickBank/service/implementation/UserServiceImpl.java:46-78 | registration succeeds iff the username is free, the email matches the pattern and is free, the password matches its pattern and a role is found |
| UserServiceSpec.RegisterAddsOneUser | MaverickBank/src/main/java/com/hexaware/maverickBank/service/implementation/UserServiceImpl.java:65-77 | success adds exactly one user under a new id, with the request's username, email and unmodified password, the requested role if it exists and otherwise CUSTOMER; the view is that row's, without the password |
| UserServiceSpec.RegisterTwiceFails | MaverickBank/src/main/java/com/hexaware/maverickBank/service/implementation/UserServiceImpl.java:49-51 | registering the same username again fails with "Username already exists" and writes nothing |
| UserServiceSpec.GetUserById | MaverickBank/src/main/java/com/hexaware/maverickBank/service/implementation/UserServiceImpl.java:90-94 | never writes; succeeds iff the id is stored, with that user's id, username and email; otherwise NoSuchElement for that id |
| UserServiceSpec.RegisterThenGet | MaverickBank/src/main/java/com/hexaware/maverickBank/service/implementation/UserServiceImpl.java:90-94 | a registered user is read back by id as the view registration returned |
| UserServiceSpec.FindByUsernameExact | MaverickBank/src/main/java/com/hexaware/maverickBank/service/implementation/UserServiceImpl.java:49 | on unique usernames, findByUsername returns id exactly when that user has the name |
| UserServiceSpec.FindByEmailExact | MaverickBank/src/main/java/com/hexaware/maverickBank/service/implementation/UserServiceImpl.java:57 | on unique emails, findByEmail returns id exactly when that user has the email |
| UserServiceSpec.Login | MaverickBank/src/main/java/com/hexaware/maverickBank/service/implementation/UserServiceImpl.java:81-87 | login never writes; success means a stored user has that username and exactly that password, and any failure is "Invalid credentials" |
| UserServiceSpec.LoginSucceedsIff | MaverickBank/src/main/java/com/hexaware/maverickBank/service/implementation/UserServiceImpl.java:81-87 | login succeeds iff some user has that username and exactly that password; it never writes |
| UserServiceSpec.UpdateCheck | MaverickBank/src/main/java/com/hexaware/maverickBank/service/implementation/UserServiceImpl.java:101-129 | the checks pass iff UpdateChecksPass holds; a failure is a validation error or NoSuchElement for the requested role |
| UserServiceSpec.UpdatedRow | MaverickBank/src/main/java/com/hexaware/maverickBank/service/implementation/UserServiceImpl.java:101-129 | each column is the stored value or the patch's; a password is only replaced by a non-empty one; a given role id is taken; an all-null patch changes nothing |
| UserServiceSpec.Update | MaverickBank/src/main/java/com/hexaware/maverickBank/service/implementation/UserServiceImpl.java:97-132 | the update keeps the store's invariant, so usernames and emails stay unique |
| UserServiceSpec.UpdateFieldSemantics | MaverickBank/src/main/java/com/hexaware/maverickBank/service/implementation/UserServiceImpl.java:97-132 | an unknown id raises NoSuchElement; a failure writes nothing; a success rewrites only that row under the same id (username and email from a non-null patch, password from a non-null non-empty one, role from a given roleId) and returns its view |
| UserServiceSpec.UpdatedRowFits | MaverickBank/src/main/java/com/hexaware/maverickBank/service/implementation/UserServiceImpl.java:101-129 | once the update's checks pass, the database has nothing to refuse in the saved row |
| UserServiceSpec.UpdateSucceedsWhenChecksPass | MaverickBank/src/main/java/com/hexaware/maverickBank/service/implementation/UserServiceImpl.java:97-132 | the update succeeds exactly when the recognisers' and finders' checks on the changed fields pass |
| UserServiceSpec.UpdateSucceedsIff | MaverickBank/src/main/java/com/hexaware/maverickBank/service/implementation/UserServiceImpl.java:97-132 | the update succeeds iff the user exists, a changed username is untaken, a non-empty password matches its pattern, a changed email matches its pattern and is untaken, and a given role exists |
| UserServiceSpec.EmptyPatchChangesNothing | MaverickBank/src/main/java/com/hexaware/maverickBank/service/implementation/UserServiceImpl.java:97-132 | an all-null patch leaves the store as it was and returns the stored view |
| UserServiceSpec.Delete | MaverickBank/src/main/java/com/hexaware/maverickBank/service/implementation/UserServiceImpl.java:135-140 | succeeds iff the user exists, and then the user is gone and every other user is kept as it was; otherwise NoSuchElement with nothing written |
| UserServiceSpec.DeleteTwice | MaverickBank/src/main/java/com/hexaware/maverickBank/service/implementation/UserServiceImpl.java:135-140 | delete removes that user and keeps every other one, and a second delete raises NoSuchElement |
| UserService.UserServiceImpl.CheckRegistration | MaverickBank/src/main/java/com/hexaware/maverickBank/service/implementation/UserServiceImpl.java:49-63 | the four checks, made through the repository, give RegisterCheck's verdict |
| UserService.UserServiceImpl.ChooseRole | MaverickBank/src/main/java/com/hexaware/maverickBank/service/implementation/UserServiceImpl.java:70-72 | the role found is the requested one if it exists, else the CUSTOMER role, else null |
| UserService.UserServiceImpl.RegisterUser | MaverickBank/src/main/java/com/hexaware/maverickBank/service/implementation/UserServiceImpl.java:46-78 | returns and stores what Register says, and keeps the store's invariant |
| UserService.UserServiceImpl.Login | MaverickBank/src/main/java/com/hexaware/maverickBank/service/implementation/UserServiceImpl.java:81-87 | returns what Login says and writes nothing |
| UserService.UserServiceImpl.GetUserById | MaverickBank/src/main/java/com/hexaware/maverickBank/service/implementation/UserServiceImpl.java:90-94 | returns the stored user's view or NoSuchElement, and writes nothing |
| UserService.UserServiceImpl.PatchUsername | MaverickBank/src/main/java/com/hexaware/maverickBank/service/implementation/UserServiceImpl.java:101-106 | a non-null, different username is refused if taken and otherwise set; else the username stays |
| UserService.UserServiceImpl.PatchPassword | MaverickBank/src/main/java/com/hexaware/maverickBank/service/implementation/UserServiceImpl.java:108-113 | a non-null, non-empty password is refused if weak and otherwise set; else the password stays |
| UserService.UserServiceImpl.PatchEmail | MaverickBank/src/main/java/com/hexaware/maverickBank/service/implementation/UserServiceImpl.java:115-123 | a non-null, different email is refused if malformed or taken and otherwise set; else the email stays |
| UserService.UserServiceImpl.PatchRole | MaverickBank/src/main/java/com/hexaware/maverickBank/service/implementation/UserServiceImpl.java:125-129 | a given role id must name a role, which is then set; else the role stays |
| UserService.UserServiceImpl.ApplyUpdate | MaverickBank/src/main/java/com/hexaware/maverickBank/service/implementation/UserServiceImpl.java:101-129 | the checks on the loaded user give UpdateCheck's verdict; on success the user holds UpdatedRow's columns |
| UserService.UserServiceImpl.UpdateUser | MaverickBank/src/main/java/com/hexaware/maverickBank/service/implementation/UserServiceImpl.java:97-132 | returns and stores what Update says, and keeps the store's invariant |
| UserService.UserServiceImpl.DeleteUser | MaverickBank/src/main/java/com/hexaware/maverickBank/service/implementation/UserServiceImpl.java:135-140 | returns and stores what Delete says |
| UserService.UserServiceImpl.GetUserByUsername | MaverickBank/src/main/java/com/hexaware/maverickBank/service/implementation/UserServiceImpl.java:154-156 | returns null exactly when no user has the name, and otherwise that user, loaded |
| AdminServiceSpec.CreateUser | src/main/java/com/hexaware/maverickBank/service/implementation/AdminServiceImpl.java:69-90 | a failure writes nothing and a null role id is IllegalArgument; a success stores the user under the next id with the request's unmodified password and returns the request's username, email and role id |
| AdminServiceSpec.GetUserById | src/main/java/com/hexaware/maverickBank/service/implementation/AdminServiceImpl.java:93-108 | null exactly for an unknown id; otherwise that user's view carrying its role's id |
| AdminServiceSpec.GetAllUsers | src/main/java/com/hexaware/maverickBank/service/implementation/AdminServiceImpl.java:111-124 | as many views as stored ids, each the view getUserById gives for its own id, in ascending id order |
| AdminServiceSpec.GetAllUsersCoversUsers | src/main/java/com/hexaware/maverickBank/service/implementation/AdminServiceImpl.java:111-124 | every stored user appears in getAllUsers |
| AdminServiceSpec.AdminDraft | src/main/java/com/hexaware/maverickBank/service/implementation/AdminServiceImpl.java:131-144 | the columns updateUser saves: the stored username, the patch's email as given, a non-null password (the patch's when given), and the requested role when it exists, else the stored one |
| AdminServiceSpec.UpdateUser | src/main/java/com/hexaware/maverickBank/service/implementation/AdminServiceImpl.java:127-157 | null and no write for an unknown id; a failure is a ConstraintViolation that writes nothing; a success keeps the username and returns the stored row's view |
| AdminServiceSpec.CreateBankEmployee | src/main/java/com/hexaware/maverickBank/service/implementation/AdminServiceImpl.java:169-188 | succeeds iff the user id is given, names a user and that user has no employee yet; a failure writes nothing; a success stores an employee row linked to that user and returns its id |
| AdminServiceSpec.CreateUserSucceedsIff | src/main/java/com/hexaware/maverickBank/service/implementation/AdminServiceImpl.java:69-90 | a null role id is refused and an unknown one raises "Role not found", both before any write; otherwise the creation succeeds iff every column is non-null and the username and email are unclaimed, and fails only by a ConstraintViolation |
| AdminServiceSpec.CreateUserAddsOneUser | src/main/java/com/hexaware/maverickBank/service/implementation/AdminServiceImpl.java:71-89 | success adds exactly one user with the request's username, email, unmodified password and role; the view is that row's |
| AdminServiceSpec.CreateUserSkipsValidation | src/main/java/com/hexaware/maverickBank/service/implementation/AdminServiceImpl.java:69-90 | a malformed email or weak password that registerUser refuses, without writing, is stored by createUser |
| AdminServiceSpec.GetUserByIdAgrees | src/main/java/com/hexaware/maverickBank/service/implementation/AdminServiceImpl.java:93-108 | returns null exactly for an unknown id, and otherwise the view with the role's id, the same as the validating service's |
| AdminServiceSpec.GetAllUsersListsEachUserOnce | src/main/java/com/hexaware/maverickBank/service/implementation/AdminServiceImpl.java:111-124 | one view per stored user, in the model's ascending id order, each the view of its own id |
| AdminServiceSpec.UpdateUserSemantics | src/main/java/com/hexaware/maverickBank/service/implementation/AdminServiceImpl.java:127-157 | an unknown id returns null and writes nothing; a failure is a ConstraintViolation that writes nothing; a success rewrites only that row under the same id, keeping the username, taking the patch's email, the patch's password when non-null (even empty) and the requested role only when it exists |
| AdminServiceSpec.UpdateUserSucceedsIff | src/main/java/com/hexaware/maverickBank/service/implementation/AdminServiceImpl.java:132-145 | on a known id, the update succeeds iff the patch's email is non-null and no other user has it; a null email is refused by the column |
| AdminServiceSpec.UnknownRoleIgnored | src/main/java/com/hexaware/maverickBank/service/implementation/AdminServiceImpl.java:138-142 | a role id naming no role has the same effect as no role id |
| AdminServiceSpec.DeleteUserIdempotent | src/main/java/com/hexaware/maverickBank/service/implementation/AdminServiceImpl.java:160-164 | deleting twice is deleting once, and deleting an unknown id changes nothing |
| AdminServiceSpec.EmployeeGate | src/main/java/com/hexaware/maverickBank/service/implementation/AdminServiceImpl.java:169-178 | a null user id is refused and an unknown one raises "User not found", both without writing; a user that already has an employee is refused with a ConstraintViolation and no write; any other existing user gets exactly one new employee row linked to it |
| AdminServiceSpec.SecondEmployeeRefused | MaverickBank/src/main/java/com/hexaware/maverickBank/entity/User.java:41 | after a successful createBankEmployee, a second one for the same user is refused with a ConstraintViolation and writes nothing |
| AdminService.AdminServiceImpl.CreateUser | src/main/java/com/hexaware/maverickBank/service/implementation/AdminServiceImpl.java:69-90 | returns and stores what AdminServiceSpec.CreateUser says, and keeps the store's invariant |
| AdminService.AdminServiceImpl.GetUserById | src/main/java/com/hexaware/maverickBank/service/implementation/AdminServiceImpl.java:93-108 | returns AdminServiceSpec.GetUserById's view or null, and writes nothing |
| AdminService.AdminServiceImpl.GetAllUsers | src/main/java/com/hexaware/maverickBank/service/implementation/AdminServiceImpl.java:111-124 | the stream map over findAll is AdminServiceSpec.GetAllUsers |
| AdminService.AdminServiceImpl.Overwrite | src/main/java/com/hexaware/maverickBank/service/implementation/AdminServiceImpl.java:131-144 | after the setters the loaded user holds the patch's email, its password when non-null, the requested role when it exists, and its own id |
| AdminService.AdminServiceImpl.UpdateUser | src/main/java/com/hexaware/maverickBank/service/implementation/AdminServiceImpl.java:127-157 | returns and stores what AdminServiceSpec.UpdateUser says, and keeps the store's invariant |
| AdminService.AdminServiceImpl.DeleteUser | src/main/java/com/hexaware/maverickBank/service/implementation/AdminServiceImpl.java:160-164 | deleteById removes the user, with its customer and employee rows, if present |
| AdminService.AdminServiceImpl.CreateBankEmployee | src/main/java/com/hexaware/maverickBank/service/implementation/AdminServiceImpl.java:169-188 | returns and stores what AdminServiceSpec.CreateBankEmployee says |
| CustomerServiceSpec.ValidateCustomer | MaverickBank/src/main/java/com/hexaware/maverickBank/service/implementation/CustomerServiceImpl.java:50-67 | validateCustomer accepts iff the name, address and contact number are non-null and non-empty and the eighteenth birthday is today or earlier; every rejection is a validation error |
| CustomerServiceSpec.AdultIff | MaverickBank/src/main/java/com/hexaware/maverickBank/service/implementation/CustomerServiceImpl.java:57-60 | eighteen full years by Period.between iff the eighteenth birthday is on or before today |
| CustomerServiceSpec.ValidateCustomerOrder | MaverickBank/src/main/java/com/hexaware/maverickBank/service/implementation/CustomerServiceImpl.java:50-67 | each rejection names the first failing check, in the order name, date of birth, age, address, contact number |
| CustomerServiceSpec.AgeBoundary | MaverickBank/src/main/java/com/hexaware/maverickBank/service/implementation/CustomerServiceImpl.java:57-60 | born exactly 18 calendar years before today passes the age check, born one day later fails it, and a future date of birth fails it |
| CustomerServiceSpec.Create | MaverickBank/src/main/java/com/hexaware/maverickBank/service/implementation/CustomerServiceImpl.java:70-77 | a failure writes nothing; a success means the user exists and the data validates, and stores the request's data linked to that user under the next id |
| CustomerServiceSpec.CreateSucceedsIff | MaverickBank/src/main/java/com/hexaware/maverickBank/service/implementation/CustomerServiceImpl.java:70-77 | a missing or unknown user is a validation error; the creation succeeds iff the user exists, the data validates and the user has no customer yet (else ConstraintViolation); a failure writes nothing |
| CustomerServiceSpec.CreateStoresRequest | MaverickBank/src/main/java/com/hexaware/maverickBank/service/implementation/CustomerServiceImpl.java:70-77 | success stores one new customer with the request's seven fields linked to the request's user; the view is that row's and is what getCustomerByUserId returns |
| CustomerServiceSpec.SecondCustomerRefused | src/main/java/com/hexaware/maverickBank/entity/Customer.java:38-40 | after one customer was created for a user, a second creation for that user fails and writes nothing |
| CustomerServiceSpec.GetById | MaverickBank/src/main/java/com/hexaware/maverickBank/service/implementation/CustomerServiceImpl.java:80-84 | never writes; succeeds iff the id is stored, with that customer's id, data and user id; otherwise NoSuchElement |
| CustomerServiceSpec.GetByUserId | MaverickBank/src/main/java/com/hexaware/maverickBank/service/implementation/CustomerServiceImpl.java:137-143 | never writes; succeeds iff some customer is linked to the user, returning a view with that user id that getCustomerById agrees with; otherwise NoSuchElement |
| CustomerServiceSpec.LookupsAgree | MaverickBank/src/main/java/com/hexaware/maverickBank/service/implementation/CustomerServiceImpl.java:137-143 | getCustomerById and getCustomerByUserId raise NoSuchElement exactly when nothing matches, otherwise return the match's view (with that userId), and never write |
| CustomerServiceSpec.GetAll | MaverickBank/src/main/java/com/hexaware/maverickBank/service/implementation/CustomerServiceImpl.java:87-91 | as many views as stored ids, each what getCustomerById gives for its own id, in ascending id order |
| CustomerServiceSpec.GetAllCoversCustomers | MaverickBank/src/main/java/com/hexaware/maverickBank/service/implementation/CustomerServiceImpl.java:87-91 | every stored customer appears in getAllCustomers |
| CustomerServiceSpec.GetAllListsEachCustomerOnce | MaverickBank/src/main/java/com/hexaware/maverickBank/service/implementation/CustomerServiceImpl.java:87-91 | one view per stored customer, in ascending id order, each what getCustomerById gives |
| CustomerServiceSpec.Update | MaverickBank/src/main/java/com/hexaware/maverickBank/service/implementation/CustomerServiceImpl.java:94-125 | a failure writes nothing and an unknown id is NoSuchElement; a success returns a validating customer with its id and user kept and rewrites only that row |
| CustomerServiceSpec.UpdateSemantics | MaverickBank/src/main/java/com/hexaware/maverickBank/service/implementation/CustomerServiceImpl.java:94-125 | an unknown id raises NoSuchElement; the update succeeds iff the merged customer validates, else it raises that validation error and writes nothing; success rewrites only that row, keeping its id and user |
| CustomerServiceSpec.Merge | MaverickBank/src/main/java/com/hexaware/maverickBank/service/implementation/CustomerServiceImpl.java:100-120 | an all-null patch is the identity, a given name or date of birth wins, and a null never erases a stored name, date of birth, address or contact number |
| CustomerServiceSpec.MergeFields | MaverickBank/src/main/java/com/hexaware/maverickBank/service/implementation/CustomerServiceImpl.java:100-120 | each non-null patch field replaces its field and each null one keeps it; an all-null patch is the identity and patching twice is patching once |
| CustomerServiceSpec.EmptyNameRejected | MaverickBank/src/main/java/com/hexaware/maverickBank/service/implementation/CustomerServiceImpl.java:122-124 | a patch name of "" is refused as an empty name and the store is unchanged |
| CustomerServiceSpec.EmptyPatchChangesNothing | MaverickBank/src/main/java/com/hexaware/maverickBank/service/implementation/CustomerServiceImpl.java:94-125 | an all-null patch on a customer that still validates changes nothing and returns its view |
| CustomerServiceSpec.Delete | MaverickBank/src/main/java/com/hexaware/maverickBank/service/implementation/CustomerServiceImpl.java:129-134 | succeeds iff the customer exists, and then removes exactly it; otherwise NoSuchElement with nothing written |
| CustomerServiceSpec.DeleteSemantics | MaverickBank/src/main/java/com/hexaware/maverickBank/service/implementation/CustomerServiceImpl.java:129-134 | an unknown id raises NoSuchElement and writes nothing; otherwise exactly that customer is removed, and a second delete raises NoSuchElement |
| CustomerService.CustomerServiceImpl.FromCreateRequest | MaverickBank/src/main/java/com/hexaware/maverickBank/service/implementation/CustomerServiceImpl.java:161-176 | a new customer with the request's seven fields, no id, linked to the loaded user |
| CustomerService.CustomerServiceImpl.CreateCustomer | MaverickBank/src/main/java/com/hexaware/maverickBank/service/implementation/CustomerServiceImpl.java:70-77 | returns and stores what CustomerServiceSpec.Create says, and keeps the store's invariant |
| CustomerService.CustomerServiceImpl.GetCustomerById | MaverickBank/src/main/java/com/hexaware/maverickBank/service/implementation/CustomerServiceImpl.java:80-84 | returns what GetById says and writes nothing |
| CustomerService.CustomerServiceImpl.GetAllCustomers | MaverickBank/src/main/java/com/hexaware/maverickBank/service/implementation/CustomerServiceImpl.java:87-91 | the stream map over findAll is GetAll |
| CustomerService.CustomerServiceImpl.ApplyPatch | MaverickBank/src/main/java/com/hexaware/maverickBank/service/implementation/CustomerServiceImpl.java:100-120 | after the setters the customer's data is Merge of its old data and the patch; id and user untouched |
| CustomerService.CustomerServiceImpl.UpdateCustomer | MaverickBank/src/main/java/com/hexaware/maverickBank/service/implementation/CustomerServiceImpl.java:94-125 | returns and stores what CustomerServiceSpec.Update says, and keeps the store's invariant |
| CustomerService.CustomerServiceImpl.DeleteCustomer | MaverickBank/src/main/java/com/hexaware/maverickBank/service/implementation/CustomerServiceImpl.java:129-134 | returns and stores what CustomerServiceSpec.Delete says |
| CustomerService.CustomerServiceImpl.GetCustomerByUserId | MaverickBank/src/main/java/com/hexaware/maverickBank/service/implementation/CustomerServiceImpl.java:137-143 | returns what GetByUserId says and writes nothing |

## Left out

- The HTTP controllers, the service interfaces and the application bootstrap are outside
  the model. They adapt transport, declare signatures or start the application.
- The bank-employee operations other than the user gate of `createBankEmployee` are left
  out: getting, listing, updating and deleting employees. The employee's own fields and
  their copying by `BeanUtils.copyProperties` are also left out, because `BankEmployee.java`
  is not part of this model. An employee is reduced to its id and its user link, which
  the store keeps one-to-one as `User.bankEmployee` declares it.
- `BeanUtils.copyProperties` from a registration request to a `User` is modelled as
  copying the properties the two share: username, password and email. The copies into
  the user and customer views are modelled as the converters `Dtos.UserDto` and
  `Dtos.CustomerDto`.
- Logging and the `toString` methods are left out.
- JPA mechanics are left out: lazy loading, the persistence context, flush timing,
  transactions and JSON back-references. `Role.users` is not kept in step with the users
  table. The accounts, loan-application and closure-request lists of `Customer`, and
  their cascades, are left out. Only the column constraints are kept, as the store
  invariant, plus the cascade from a user to its customer and employee rows.
- The Java regular-expression engine is left out. The model covers the language each
  pattern denotes and a recogniser proved to accept exactly that language.
- `java.time.Period` is modelled for its years component only, which is the only part
  the age check reads.
- The system clock is left out: today's date is a parameter of the customer service.
- Concurrency is left out. The read-then-write uniqueness checks are racy under parallel
  requests, and the model is sequential.
- Ids taken from a request path are modelled as integers. A null path id, which the
  repositories refuse, is not modelled. The null role and user ids inside request bodies
  are modelled.
- Exception messages are modelled as the fixed message text plus the id as a number. The
  concatenated string is not built.
- The second user lookup in `convertCreateRequestDTOtoEntity` is modelled without its
  "User not found" error path. `createCustomer` has just checked that the user exists,
  so that path cannot be taken.
- Persistence.Store.SaveUser requires an entity that carries an id to be stored already.
- Persistence.Store.SaveCustomer requires the same of a customer that carries an id.
  The services only save entities they have just loaded or freshly created, so the
  merge of a detached entity with an unknown id is not modelled.
- Deleting an absent id is modelled as "remove if present", which is the behaviour of
  current Spring Data JPA. Older versions, which raise on an absent id, are not modelled.
- Which code path runs under a transaction is left out. Every service operation is one
  atomic step on the store: checks, then at most one write.
- `findAll` without a `Sort` promises no order. The model lists rows in ascending id
  order, so every statement about order in `Tables.Ids`, `Store.FindAllUsers`,
  `Store.FindAllCustomers` and the two "get all" operations is about that choice.
- Id assignment is the model's choice: every successful insert takes the next value of
  its table's counter, and a refused insert leaves the counter as it was. An IDENTITY or
  sequence column may use up a value on a failed insert, and the code promises no
  particular id, so the statements that name `nextUserId`, `nextCustomerId` or
  `nextEmployeeId` are about that choice.
- Dates are unbounded in the model. `java.time.LocalDate` limits the year to
  ±999,999,999, which the age check never comes near.
- JavaObjects.LongHash: the contract states only that the result is an int. The
  `(int)(value ^ (value >>> 32))` formula is its body, but no further property of it is
  proved.
- JavaObjects.DateHash: the contract states only that the result is an int. The bit
  layout of `LocalDate.hashCode` is its body, but no further property of it is proved.
