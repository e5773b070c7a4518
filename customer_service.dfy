/** CustomerServiceImpl: each method works on Customer entities through the
    repositories as the source does (updateCustomer overwrites the loaded customer's
    fields in place) and is proved to return and to leave behind what the matching
    function of CustomerServiceSpec says. Today's date is a parameter. */
module CustomerService {
  import opened Wrappers
  import opened Dates
  import opened Failures
  import opened Tables
  import opened Entities
  import opened Dtos
  import opened Persistence
  import Spec = CustomerServiceSpec

  class CustomerServiceImpl {
    const db: Store

    constructor (db: Store)
      ensures this.db == db
    {
      this.db := db;
    }

    /** convertCreateRequestDTOtoEntity: a new customer with the request's seven fields,
        linked to the loaded user. */
    method FromCreateRequest(req: CustomerCreateRequest) returns (c: Customer)
      requires db.Valid() && req.userId.Some? && req.userId.value in db.users
      ensures fresh(c) && c.customerId.None? && c.Data() == req.data
      ensures c.user != null && fresh(c.user) && c.user.userId == req.userId
    {
      c := new Customer();
      c.SetName(req.data.name);
      c.SetGender(req.data.gender);
      c.SetContactNumber(req.data.contactNumber);
      c.SetAddress(req.data.address);
      c.SetDateOfBirth(req.data.dateOfBirth);
      c.SetAadharNumber(req.data.aadharNumber);
      c.SetPanNumber(req.data.panNumber);
      var user := db.FindUserById(req.userId.value);
      c.SetUser(user);
    }

    method CreateCustomer(req: CustomerCreateRequest, today: LocalDate) returns (r: Result<CustomerView, Failure>)
      requires db.Valid()
      modifies db
      ensures db.Valid()
      ensures Step(r, db.State()) == Spec.Create(old(db.State()), req, today)
    {
      if req.userId.None? {
        return Failure(Validation(UserIdRequired));
      }
      var present := db.FindUserById(req.userId.value);
      if present == null {
        return Failure(Validation(UserIdRequired));
      }
      var customer := FromCreateRequest(req);
      var check := Spec.ValidateCustomer(customer.Data(), today);
      if check.Fail? {
        return Failure(check.error);
      }
      var saved := db.SaveCustomer(customer);
      if saved.Failure? {
        return Failure(saved.error);
      }
      r := Success(CustomerDto(customer));
    }

    method GetCustomerById(id: int) returns (r: Result<CustomerView, Failure>)
      requires db.Valid()
      ensures Step(r, db.State()) == Spec.GetById(db.State(), id)
    {
      var customer := db.FindCustomerById(id);
      if customer == null {
        return Failure(NoSuchElement(CustomerById, id));
      }
      db.HeldCustomerColumns(customer, id);
      r := Success(CustomerDto(customer));
    }

    method GetAllCustomers() returns (vs: seq<CustomerView>)
      requires db.Valid()
      ensures vs == Spec.GetAll(db.State())
    {
      var customers := db.FindAllCustomers();
      vs := CustomerDtos(customers);
      var ids := Ids(db.customers, db.nextCustomerId);
      forall i | 0 <= i < |customers|
        ensures vs[i] == CustomerRowView(ids[i], db.customers[ids[i]])
      {
        db.HeldCustomerColumns(customers[i], ids[i]);
      }
    }

    /** updateCustomer's setters: each non-null patch field overwrites its field of the
        loaded customer; the id and the user are not touched. */
    method ApplyPatch(c: Customer, patch: CustomerData)
      modifies c`name, c`gender, c`contactNumber, c`address, c`dateOfBirth, c`aadharNumber, c`panNumber
      ensures c.Data() == Spec.Merge(old(c.Data()), patch)
    {
      if patch.name.Some? {
        c.SetName(patch.name);
      }
      if patch.gender.Some? {
        c.SetGender(patch.gender);
      }
      if patch.contactNumber.Some? {
        c.SetContactNumber(patch.contactNumber);
      }
      if patch.address.Some? {
        c.SetAddress(patch.address);
      }
      if patch.dateOfBirth.Some? {
        c.SetDateOfBirth(patch.dateOfBirth);
      }
      if patch.aadharNumber.Some? {
        c.SetAadharNumber(patch.aadharNumber);
      }
      if patch.panNumber.Some? {
        c.SetPanNumber(patch.panNumber);
      }
    }

    method UpdateCustomer(id: int, req: CustomerUpdateRequest, today: LocalDate) returns (r: Result<CustomerView, Failure>)
      requires db.Valid()
      modifies db
      ensures db.Valid()
      ensures Step(r, db.State()) == Spec.Update(old(db.State()), id, req, today)
    {
      var customer := db.FindCustomerById(id);
      if customer == null {
        return Failure(NoSuchElement(CustomerById, id));
      }
      ApplyPatch(customer, req.patch);
      var check := Spec.ValidateCustomer(customer.Data(), today);
      if check.Fail? {
        return Failure(check.error);
      }
      var saved := db.SaveCustomer(customer);
      if saved.Failure? {
        return Failure(saved.error);
      }
      r := Success(CustomerDto(customer));
    }

    method DeleteCustomer(id: int) returns (r: Result<(), Failure>)
      requires db.Valid()
      modifies db
      ensures db.Valid()
      ensures Step(r, db.State()) == Spec.Delete(old(db.State()), id)
    {
      var present := db.ExistsCustomer(id);
      if !present {
        return Failure(NoSuchElement(CustomerById, id));
      }
      db.DeleteCustomerById(id);
      r := Success(());
    }

    method GetCustomerByUserId(userId: int) returns (r: Result<CustomerView, Failure>)
      requires db.Valid()
      ensures Step(r, db.State()) == Spec.GetByUserId(db.State(), userId)
    {
      var customer := db.FindCustomerByUserId(userId);
      if customer == null {
        return Failure(NoSuchElement(CustomerByUserId, userId));
      }
      db.HeldCustomerColumns(customer, CustomerByUser(db.State(), userId).value);
      r := Success(CustomerDto(customer));
    }
  }
}
