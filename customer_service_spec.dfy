/** CustomerServiceImpl as functions over the database: validateCustomer's ordered
    checks, with today's date passed in, and the create, read, update and delete
    operations built on them. */
module CustomerServiceSpec {
  import opened Wrappers
  import opened Dates
  import opened Failures
  import opened Tables
  import opened Dtos

  function Reject<T>(db: Db, f: Failure): Step<T> {
    Step(Failure(f), db)
  }

  /** Whether a text field is null or the empty string. */
  predicate Blank(s: Option<string>) {
    s.None? || s.value == ""
  }

  /** validateCustomer: the first failing check decides. The age is the years component
      of the period from the date of birth to today. */
  function ValidateCustomer(data: CustomerData, today: LocalDate): (r: Outcome<Failure>)
    ensures r.Fail? ==> r.error.Validation?
    ensures r.Pass? <==>
      && !Blank(data.name) && !Blank(data.address) && !Blank(data.contactNumber)
      && data.dateOfBirth.Some? && OnOrBefore(Adulthood(data.dateOfBirth.value), today)
  {
    AdultIff(data.dateOfBirth, today);
    if Blank(data.name) then Fail(Validation(CustomerNameEmpty))
    else if data.dateOfBirth.None? then Fail(Validation(DateOfBirthRequired))
    else if PeriodYears(data.dateOfBirth.value, today) < 18 then Fail(Validation(Underage))
    else if Blank(data.address) then Fail(Validation(AddressEmpty))
    else if Blank(data.contactNumber) then Fail(Validation(ContactNumberEmpty))
    else Pass
  }

  /** The eighteenth birthday of a date of birth, as (year + 18, month, day); for a
      29 February it falls between 28 February and 1 March of a common year. */
  function Adulthood(dob: LocalDate): Date {
    Date(dob.year + 18, dob.month, dob.day)
  }

  /** Eighteen full years have passed exactly when the eighteenth birthday is today or earlier. */
  lemma AdultIff(dob: Option<LocalDate>, today: LocalDate)
    ensures dob.Some? ==> (PeriodYears(dob.value, today) >= 18 <==> OnOrBefore(Adulthood(dob.value), today))
  {
    if dob.Some? {
      YearsReached(dob.value, today, 18);
    }
  }

  /** createCustomer: the user must be given and exist, the request's data must validate,
      and then one save of a new customer linked to that user. */
  function Create(db: Db, req: CustomerCreateRequest, today: LocalDate): (r: Step<CustomerView>)
    ensures r.result.Failure? ==> r.db == db
    ensures r.result.Success? ==>
      var v := r.result.value;
      && req.userId.Some? && req.userId.value in db.users && ValidateCustomer(req.data, today).Pass?
      && v.data == req.data && v.userId == req.userId
      && v.customerId == Some(db.nextCustomerId)
      && r.db.customers == db.customers[db.nextCustomerId := CustomerRow(req.data, req.userId.value)]
  {
    if req.userId.None? || req.userId.value !in db.users then Reject(db, Validation(UserIdRequired))
    else
      var check := ValidateCustomer(req.data, today);
      if check.Fail? then Reject(db, check.error)
      else
        var s := SaveCustomer(db, None, req.data, req.userId);
        if s.result.Failure? then Reject(db, s.result.error)
        else Step(Success(CustomerView(Some(s.result.value), req.data, req.userId)), s.db)
  }

  /** getCustomerById: the stored customer's view, or NoSuchElement; it never writes. */
  function GetById(db: Db, id: int): (r: Step<CustomerView>)
    ensures r.db == db
    ensures r.result.Success? <==> id in db.customers
    ensures r.result.Failure? ==> r.result.error == NoSuchElement(CustomerById, id)
    ensures r.result.Success? ==>
      && r.result.value.customerId == Some(id)
      && r.result.value.data == db.customers[id].data
      && r.result.value.userId == Some(db.customers[id].userId)
  {
    if id !in db.customers then Reject(db, NoSuchElement(CustomerById, id))
    else Step(Success(CustomerRowView(id, db.customers[id])), db)
  }

  /** getAllCustomers: the view of every customer, in ascending id order; each entry is
      what getCustomerById gives for its own id. */
  function GetAll(db: Db): (vs: seq<CustomerView>)
    ensures |vs| == |Ids(db.customers, db.nextCustomerId)|
    ensures forall i :: 0 <= i < |vs| ==>
      vs[i].customerId.Some? && GetById(db, vs[i].customerId.value) == Step(Success(vs[i]), db)
    ensures forall i, j :: 0 <= i < j < |vs| ==> vs[i].customerId.value < vs[j].customerId.value
  {
    var ids := Ids(db.customers, db.nextCustomerId);
    seq(|ids|, i requires 0 <= i < |ids| => CustomerRowView(ids[i], db.customers[ids[i]]))
  }

  /** The value a patch field leaves: the patch's when non-null, else the stored one. */
  function Keep<T>(patch: Option<T>, stored: Option<T>): Option<T> {
    if patch.Some? then patch else stored
  }

  /** The seven data fields after updateCustomer's setters. */
  function Merge(stored: CustomerData, patch: CustomerData): (m: CustomerData)
    ensures patch == CustomerData(None, None, None, None, None, None, None) ==> m == stored
    ensures patch.name.Some? ==> m.name == patch.name
    ensures patch.dateOfBirth.Some? ==> m.dateOfBirth == patch.dateOfBirth
    ensures m.name.None? ==> stored.name.None? && patch.name.None?
    ensures m.dateOfBirth.None? ==> stored.dateOfBirth.None? && patch.dateOfBirth.None?
    ensures m.address.None? ==> stored.address.None? && patch.address.None?
    ensures m.contactNumber.None? ==> stored.contactNumber.None? && patch.contactNumber.None?
  {
    CustomerData(Keep(patch.name, stored.name), Keep(patch.gender, stored.gender),
                 Keep(patch.contactNumber, stored.contactNumber), Keep(patch.address, stored.address),
                 Keep(patch.dateOfBirth, stored.dateOfBirth), Keep(patch.aadharNumber, stored.aadharNumber),
                 Keep(patch.panNumber, stored.panNumber))
  }

  /** updateCustomer: load, merge the patch, validate the merged customer, save it. */
  function Update(db: Db, id: int, req: CustomerUpdateRequest, today: LocalDate): (r: Step<CustomerView>)
    ensures r.result.Failure? ==> r.db == db
    ensures id !in db.customers ==> r.result == Failure(NoSuchElement(CustomerById, id))
    ensures r.result.Success? ==>
      var v := r.result.value;
      && id in db.customers && v.customerId == Some(id) && v.userId == Some(db.customers[id].userId)
      && ValidateCustomer(v.data, today).Pass?
      && r.db.customers == db.customers[id := CustomerRow(v.data, db.customers[id].userId)]
  {
    if id !in db.customers then Reject(db, NoSuchElement(CustomerById, id))
    else
      var stored := db.customers[id];
      var merged := Merge(stored.data, req.patch);
      var check := ValidateCustomer(merged, today);
      if check.Fail? then Reject(db, check.error)
      else
        var s := SaveCustomer(db, Some(id), merged, Some(stored.userId));
        if s.result.Failure? then Reject(db, s.result.error)
        else Step(Success(CustomerView(Some(id), merged, Some(stored.userId))), s.db)
  }

  /** deleteCustomer: NoSuchElement for an unknown id, with nothing written; otherwise
      exactly that customer is removed. */
  function Delete(db: Db, id: int): (r: Step<()>)
    ensures r.result.Success? <==> id in db.customers
    ensures r.result.Failure? ==> r.db == db && r.result.error == NoSuchElement(CustomerById, id)
    ensures r.result.Success? ==> r.db.customers == db.customers - {id} && r.db.users == db.users
  {
    if id !in db.customers then Reject(db, NoSuchElement(CustomerById, id))
    else Step(Success(()), DeleteCustomer(db, id))
  }

  /** getCustomerByUserId. */
  function GetByUserId(db: Db, userId: int): (r: Step<CustomerView>)
    ensures r.db == db
    ensures r.result.Failure? ==> r.result.error == NoSuchElement(CustomerByUserId, userId)
    ensures r.result.Success? ==>
      && r.result.value.userId == Some(userId) && r.result.value.customerId.Some?
      && GetById(db, r.result.value.customerId.value) == Step(Success(r.result.value), db)
    ensures IdsBelow(db.customers, db.nextCustomerId) ==>
      (r.result.Success? <==> exists k :: k in db.customers && db.customers[k].userId == userId)
  {
    var found := CustomerByUser(db, userId);
    if found.None? then Reject(db, NoSuchElement(CustomerByUserId, userId))
    else Step(Success(CustomerRowView(found.value, db.customers[found.value])), db)
  }

  // ------------------------------------------------------------- properties

  /** Each rejection names the first failing check: its own condition fails and every
      check before it passes. */
  lemma ValidateCustomerOrder(data: CustomerData, today: LocalDate)
    ensures var c := ValidateCustomer(data, today);
      && (c == Fail(Validation(CustomerNameEmpty)) <==> Blank(data.name))
      && (c == Fail(Validation(DateOfBirthRequired)) <==> !Blank(data.name) && data.dateOfBirth.None?)
      && (c == Fail(Validation(Underage)) <==>
            !Blank(data.name) && data.dateOfBirth.Some? && !OnOrBefore(Adulthood(data.dateOfBirth.value), today))
      && (c == Fail(Validation(AddressEmpty)) <==>
            !Blank(data.name) && data.dateOfBirth.Some? && OnOrBefore(Adulthood(data.dateOfBirth.value), today)
            && Blank(data.address))
      && (c == Fail(Validation(ContactNumberEmpty)) <==>
            !Blank(data.name) && data.dateOfBirth.Some? && OnOrBefore(Adulthood(data.dateOfBirth.value), today)
            && !Blank(data.address) && Blank(data.contactNumber))
  {
    if data.dateOfBirth.Some? {
      YearsReached(data.dateOfBirth.value, today, 18);
    }
  }

  /** The age boundary: born exactly 18 calendar years before today passes the age check,
      born a day later fails it, and a date of birth after today always fails it. */
  lemma AgeBoundary(data: CustomerData, today: LocalDate)
    requires !Blank(data.name)
    ensures ValidateCustomer(data.(dateOfBirth := Some(MinusYears(today, 18))), today) != Fail(Validation(Underage))
    ensures ValidateCustomer(data.(dateOfBirth := Some(NextDay(MinusYears(today, 18)))), today) == Fail(Validation(Underage))
    ensures data.dateOfBirth.Some? && !OnOrBefore(data.dateOfBirth.value, today) ==>
      ValidateCustomer(data, today) == Fail(Validation(Underage))
  {
    EighteenthBirthday(today);
    if data.dateOfBirth.Some? && !OnOrBefore(data.dateOfBirth.value, today) {
      FutureBirthHasNoYears(data.dateOfBirth.value, today);
    }
  }

  /** Whether some customer other than self is linked to the user. */
  predicate UserHasCustomer(db: Db, self: Option<int>, userId: int) {
    exists k :: k in db.customers && Some(k) != self && db.customers[k].userId == userId
  }

  /** createCustomer writes nothing when it fails; a missing or unknown user is a
      validation error raised before the customer is validated. It succeeds exactly when
      the user exists, the data validates and the user has no customer yet; the last is
      left to the database, whose UNIQUE column refuses a second customer. */
  lemma CreateSucceedsIff(db: Db, req: CustomerCreateRequest, today: LocalDate)
    requires Valid(db)
    ensures var r := Create(db, req, today);
      && (r.result.Failure? ==> r.db == db)
      && (req.userId.None? || req.userId.value !in db.users ==> r.result == Failure(Validation(UserIdRequired)))
      && (r.result.Success? <==>
            req.userId.Some? && req.userId.value in db.users && ValidateCustomer(req.data, today).Pass?
            && !UserHasCustomer(db, None, req.userId.value))
      && ((req.userId.Some? && req.userId.value in db.users && ValidateCustomer(req.data, today).Pass?
             && UserHasCustomer(db, None, req.userId.value)) ==> r.result == Failure(ConstraintViolation))
  {
    if req.userId.Some? && UserHasCustomer(db, None, req.userId.value) {
      var k :| k in db.customers && db.customers[k].userId == req.userId.value;
    }
  }

  /** A successful createCustomer stores one new customer holding the request's seven
      fields, linked to the request's user; nothing else changes, and the view returned
      is the stored customer's. */
  lemma CreateStoresRequest(db: Db, req: CustomerCreateRequest, today: LocalDate)
    requires Valid(db)
    requires Create(db, req, today).result.Success?
    ensures var r := Create(db, req, today);
      var id := r.result.value.customerId.value;
      && r.result.value.customerId.Some? && id !in db.customers
      && r.db == db.(customers := db.customers[id := CustomerRow(req.data, req.userId.value)],
                     nextCustomerId := db.nextCustomerId + 1)
      && r.result.value == CustomerRowView(id, r.db.customers[id])
      && GetByUserId(r.db, req.userId.value) == Step(Success(r.result.value), r.db)
  {
    var r := Create(db, req, today);
    var id := r.result.value.customerId.value;
    assert r.db.customers[id].userId == req.userId.value;
    assert CustomerByUser(r.db, req.userId.value) == Some(id);
  }

  /** A user gets at most one customer: once createCustomer has succeeded for a user, a
      second createCustomer for the same user fails and writes nothing. */
  lemma SecondCustomerRefused(db: Db, req: CustomerCreateRequest, again: CustomerCreateRequest, today: LocalDate)
    requires Valid(db)
    requires Create(db, req, today).result.Success?
    requires again.userId == req.userId
    ensures var db1 := Create(db, req, today).db;
      && Create(db1, again, today).result.Failure?
      && Create(db1, again, today).db == db1
  {
    var r := Create(db, req, today);
    CreateStoresRequest(db, req, today);
    var id := r.result.value.customerId.value;
    assert r.db.customers[id].userId == req.userId.value;
    CreateSucceedsIff(r.db, again, today);
  }

  /** getCustomerById and getCustomerByUserId return the matching customer's view, and
      raise NoSuchElement exactly when there is none; neither writes. */
  lemma LookupsAgree(db: Db, id: int, userId: int)
    requires Valid(db)
    ensures GetById(db, id).db == db && GetByUserId(db, userId).db == db
    ensures GetById(db, id).result.Failure? <==> id !in db.customers
    ensures GetByUserId(db, userId).result.Failure? <==> !UserHasCustomer(db, None, userId)
    ensures GetByUserId(db, userId).result.Failure? ==>
      GetByUserId(db, userId).result.error == NoSuchElement(CustomerByUserId, userId)
    ensures GetByUserId(db, userId).result.Success? ==>
      var v := GetByUserId(db, userId).result.value;
      && v.userId == Some(userId)
      && GetById(db, v.customerId.value) == Step(Success(v), db)
  {
    if UserHasCustomer(db, None, userId) {
      var k :| k in db.customers && db.customers[k].userId == userId;
    }
  }

  /** Every stored customer appears in getAllCustomers. */
  lemma GetAllCoversCustomers(db: Db, k: int)
    requires Valid(db) && k in db.customers
    ensures exists i :: 0 <= i < |GetAll(db)| && GetAll(db)[i].customerId == Some(k)
  {
    var ids := Ids(db.customers, db.nextCustomerId);
    var i :| 0 <= i < |ids| && ids[i] == k;
    assert GetAll(db)[i].customerId == Some(k);
  }

  /** getAllCustomers holds exactly one view per stored customer. */
  lemma GetAllListsEachCustomerOnce(db: Db)
    requires Valid(db)
    ensures var vs := GetAll(db);
      && |vs| == |db.customers|
      && (forall i :: 0 <= i < |vs| ==> vs[i].customerId.Some? && GetById(db, vs[i].customerId.value) == Step(Success(vs[i]), db))
      && (forall i, j :: 0 <= i < j < |vs| ==> vs[i].customerId.value < vs[j].customerId.value)
      && (forall k :: k in db.customers ==> exists i :: 0 <= i < |vs| && vs[i].customerId == Some(k))
  {
    IdsCountRows(db.customers, db.nextCustomerId);
    forall k | k in db.customers
      ensures exists i :: 0 <= i < |GetAll(db)| && GetAll(db)[i].customerId == Some(k)
    {
      GetAllCoversCustomers(db, k);
    }
  }

  /** updateCustomer: an unknown id raises NoSuchElement; it succeeds exactly when the
      merged customer validates, and then rewrites only that customer's row, keeping its
      id and its user; each non-null patch field replaces the stored one and each null
      one keeps it. A failure writes nothing. */
  lemma UpdateSemantics(db: Db, id: int, req: CustomerUpdateRequest, today: LocalDate)
    requires Valid(db)
    ensures var r := Update(db, id, req, today);
      && (r.result.Failure? ==> r.db == db)
      && (id !in db.customers ==> r.result == Failure(NoSuchElement(CustomerById, id)))
      && (id in db.customers ==>
            var stored := db.customers[id];
            var merged := Merge(stored.data, req.patch);
            && (r.result.Success? <==> ValidateCustomer(merged, today).Pass?)
            && (r.result.Failure? ==> r.result == Failure(ValidateCustomer(merged, today).error))
            && (r.result.Success? ==>
                  && r.db == db.(customers := db.customers[id := CustomerRow(merged, stored.userId)])
                  && r.result.value == CustomerRowView(id, r.db.customers[id])))
  {
    if id in db.customers {
      var stored := db.customers[id];
      var merged := Merge(stored.data, req.patch);
      if ValidateCustomer(merged, today).Pass? {
        assert CustomerFits(db, Some(id), merged, Some(stored.userId));
      }
    }
  }

  /** The merge, field by field: a non-null patch value wins, a null one keeps the
      stored value. */
  lemma MergeFields(stored: CustomerData, patch: CustomerData)
    ensures var m := Merge(stored, patch);
      && (patch.name.Some? ==> m.name == patch.name) && (patch.name.None? ==> m.name == stored.name)
      && (patch.gender.Some? ==> m.gender == patch.gender) && (patch.gender.None? ==> m.gender == stored.gender)
      && (patch.contactNumber.Some? ==> m.contactNumber == patch.contactNumber)
      && (patch.contactNumber.None? ==> m.contactNumber == stored.contactNumber)
      && (patch.address.Some? ==> m.address == patch.address) && (patch.address.None? ==> m.address == stored.address)
      && (patch.dateOfBirth.Some? ==> m.dateOfBirth == patch.dateOfBirth)
      && (patch.dateOfBirth.None? ==> m.dateOfBirth == stored.dateOfBirth)
      && (patch.aadharNumber.Some? ==> m.aadharNumber == patch.aadharNumber)
      && (patch.aadharNumber.None? ==> m.aadharNumber == stored.aadharNumber)
      && (patch.panNumber.Some? ==> m.panNumber == patch.panNumber)
      && (patch.panNumber.None? ==> m.panNumber == stored.panNumber)
    ensures Merge(stored, CustomerData(None, None, None, None, None, None, None)) == stored
    ensures Merge(Merge(stored, patch), patch) == Merge(stored, patch)
  {
  }

  /** A patch whose name is the empty string is refused as an empty name, and the
      database is left as it was. */
  lemma EmptyNameRejected(db: Db, id: int, req: CustomerUpdateRequest, today: LocalDate)
    requires Valid(db) && id in db.customers
    requires req.patch.name == Some("")
    ensures Update(db, id, req, today) == Step(Failure(Validation(CustomerNameEmpty)), db)
  {
  }

  /** An all-null patch on a customer that still validates changes nothing and returns
      the stored customer's view. */
  lemma EmptyPatchChangesNothing(db: Db, id: int, today: LocalDate)
    requires Valid(db) && id in db.customers
    requires ValidateCustomer(db.customers[id].data, today).Pass?
    ensures var req := CustomerUpdateRequest(CustomerData(None, None, None, None, None, None, None));
      Update(db, id, req, today) == Step(Success(CustomerRowView(id, db.customers[id])), db)
  {
    var stored := db.customers[id];
    MergeFields(stored.data, CustomerData(None, None, None, None, None, None, None));
    assert CustomerFits(db, Some(id), stored.data, Some(stored.userId));
    assert db.customers[id := stored] == db.customers;
  }

  /** deleteCustomer on an unknown id raises NoSuchElement and writes nothing; otherwise
      it removes exactly that customer, and a second delete finds nothing. */
  lemma DeleteSemantics(db: Db, id: int)
    requires Valid(db)
    ensures var r := Delete(db, id);
      && (id !in db.customers ==> r == Step(Failure(NoSuchElement(CustomerById, id)), db))
      && (id in db.customers ==>
            && r.result.Success?
            && r.db.customers == db.customers - {id}
            && r.db.users == db.users && r.db.roles == db.roles && r.db.employees == db.employees
            && Delete(r.db, id) == Step(Failure(NoSuchElement(CustomerById, id)), r.db))
  {
  }
}
