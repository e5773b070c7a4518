/** The exceptions the services raise, one constructor per exception class, with the
    message each throw site attaches. */
module Failures {

  /** The throw sites of jakarta.validation.ValidationException. */
  datatype ValidationReason =
    | UsernameExists
    | InvalidEmailFormat
    | EmailExists
    | WeakPassword          // registerUser's wording
    | PasswordFormat        // updateUser's wording for the same check
    | InvalidCredentials
    | UserIdRequired
    | CustomerNameEmpty
    | DateOfBirthRequired
    | Underage
    | AddressEmpty
    | ContactNumberEmpty
  {
    function Message(): string {
      match this
      case UsernameExists => "Username already exists"
      case InvalidEmailFormat => "Invalid email format"
      case EmailExists => "Email already exists"
      case WeakPassword => "Password must be at least 8 characters long and contain at least one uppercase letter, one lowercase letter, and one digit"
      case PasswordFormat => "Password must meet the required format"
      case InvalidCredentials => "Invalid username or password"
      case UserIdRequired => "User ID is required and must exist"
      case CustomerNameEmpty => "Customer name cannot be empty"
      case DateOfBirthRequired => "Date of birth is required"
      case Underage => "Customer must be at least 18 years old"
      case AddressEmpty => "Address cannot be empty"
      case ContactNumberEmpty => "Contact number cannot be empty"
    }
  }

  /** Which lookup failed; the message is this prefix followed by the id. */
  datatype Lookup = UserById | RoleById | CustomerById | CustomerByUserId
  {
    function Prefix(): string {
      match this
      case UserById => "User not found with ID: "
      case RoleById => "Role not found with ID: "
      case CustomerById => "Customer not found with ID: "
      case CustomerByUserId => "Customer not found for User ID: "
    }
  }

  datatype Failure =
    | Validation(reason: ValidationReason)       // jakarta.validation.ValidationException
    | NoSuchElement(lookup: Lookup, id: int)     // java.util.NoSuchElementException
    | Runtime(lookup: Lookup, id: int)           // a plain RuntimeException
    | IllegalArgument                            // a repository handed a null id
    | NullPointer                                // Pattern.matcher(null)
    | ConstraintViolation                        // the database refuses the row (NOT NULL, UNIQUE, foreign key)
}
