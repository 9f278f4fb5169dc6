/** The `customers` resource: the five actions of `CustomerController`.

    Post, Put and Delete look a customer up, check it, change the table,
    commit and answer with a status; the two reads fetch rows, clear the
    password and answer, and never write. The controller's database context is the
    `customers` field of the class; requests are handled one after another. */
module Controllers {
  import opened CustomerTable

  const InvalidCustomer: string := "Cliente inválido."
  const DuplicateEmail: string := "Um cliente com esse email já existe."
  const CustomerDeleted: string := "Cliente deletado com sucesso."

  /** The HTTP answer of an action. */
  datatype Response =
    | OkList(list: seq<Customer>)                     // 200 with the customers
    | OkCustomer(customer: Customer)                  // 200 with one customer
    | OkMessage(message: string)                      // 200 with a confirmation
    | Created(location: Id, customer: Customer)       // 201, location is the new key
    | NotFound                                        // 404, empty body
    | BadRequest(message: string)                     // 400 with a message

  /** How the database behaves during one request. When `readsFail`, every
      query throws; when `commitFails`, `SaveChanges` throws; a commit that
      would store a second row under one key throws as well. `error` is the
      message of whatever exception the database raises. */
  datatype Database = Database(readsFail: bool, commitFails: bool, error: string)

  class CustomerController {
    /** The Customers table as committed, in the model's fixed row order. */
    var customers: seq<Customer>

    /** The database's primary key; no row is stored under `Guid.Empty`,
        since `Add` always replaces that key by a generated one. */
    ghost predicate Valid()
      reads this
    {
      UniqueIds(customers) && EmptyId !in Ids(customers)
    }

    constructor (table: seq<Customer>)
      requires UniqueIds(table) && EmptyId !in Ids(table)
      ensures Valid() && customers == table
    {
      customers := table;
    }

    /** GET /customers: every stored customer, in table order, with its
        password cleared; the stored rows keep their passwords. */
    method GetAllCustomers() returns (r: Response)
      ensures r.OkList? && |r.list| == |customers|
      ensures forall i :: 0 <= i < |customers| ==> r.list[i] == Redacted(customers[i])
    {
      var response := customers;  // untracked copies of the rows
      if |response| > 0 {
        var k := 0;
        while k < |response|
          invariant |response| == |customers| && 0 <= k <= |response|
          invariant forall i :: 0 <= i < k ==> response[i] == Redacted(customers[i])
          invariant forall i :: k <= i < |response| ==> response[i] == customers[i]
        {
          response := response[k := response[k].(password := "")];
          k := k + 1;
        }
      }
      r := OkList(response);
    }

    /** GET /customers/{id}: the customer with its password cleared, 404
        when no row has the key, 400 with the exception's message when the
        query throws. */
    method GetCustomerById(id: Id, db: Database) returns (r: Response)
      ensures db.readsFail ==> r == BadRequest(db.error)
      ensures !db.readsFail && id !in Ids(customers) ==> r == NotFound
      ensures !db.readsFail && id in Ids(customers) ==>
        r == OkCustomer(Redacted(customers[IndexOf(customers, id)]))
    {
      if db.readsFail {
        return BadRequest(db.error);
      }
      var response := FirstOrDefault(customers, (c: Customer) => c.id == id);
      if response.None? {
        assert id !in Ids(customers);
        return NotFound;
      }
      var customer := response.value.(password := "");
      return OkCustomer(customer);
    }

    /** POST /customers. `valid` is the binder's verdict on the payload and
        `generated` the Guid Entity Framework generates for it on `Add`. */
    method PostCustomer(payload: Customer, valid: Customer -> bool, generated: Id, db: Database)
      returns (r: Response)
      requires Valid()
      requires generated != EmptyId && generated !in Ids(customers)
      modifies this
      ensures Valid()
      ensures old(UniqueEmails(customers)) ==> UniqueEmails(customers)
      ensures !valid(payload) ==> r == BadRequest(InvalidCustomer)
      ensures valid(payload) && db.readsFail ==> r == BadRequest(db.error)
      ensures valid(payload) && !db.readsFail && payload.email in Emails(old(customers)) ==>
        r == BadRequest(DuplicateEmail)
      ensures valid(payload) && !db.readsFail && payload.email !in Emails(old(customers)) &&
              (db.commitFails || WithStoreKey(payload, generated).id in Ids(old(customers))) ==>
        r == BadRequest(db.error)
      ensures r.Created? <==>
        && valid(payload) && !db.readsFail && payload.email !in Emails(old(customers))
        && !db.commitFails && WithStoreKey(payload, generated).id !in Ids(old(customers))
      ensures r.Created? || r.BadRequest?
      ensures r.BadRequest? ==> customers == old(customers)
      ensures r.Created? ==>
        && r.customer == WithStoreKey(payload, generated)
        && r.location == r.customer.id
        && customers == old(customers) + [r.customer]
    {
      if !valid(payload) {
        return BadRequest(InvalidCustomer);
      }
      if db.readsFail {
        return BadRequest(db.error);
      }
      var customerExists := FirstOrDefault(customers, (c: Customer) => c.email == payload.email);
      if customerExists.Some? {
        return BadRequest(DuplicateEmail);
      }
      assert payload.email !in Emails(customers);
      // Add: Entity Framework keys the payload
      var customer := WithStoreKey(payload, generated);
      // SaveChanges
      if db.commitFails || customer.id in Ids(customers) {
        return BadRequest(db.error);
      }
      AppendKeepsUnique(customers, customer);
      customers := customers + [customer];
      return Created(customer.id, customer);
    }

    /** PUT /customers/{id}: the whole row is replaced by the payload, whose
        key is forced to the one in the path. */
    method PutCustomer(id: Id, payload: Customer, db: Database) returns (r: Response)
      requires Valid()
      modifies this
      ensures Valid()
      ensures old(UniqueEmails(customers)) ==> UniqueEmails(customers)
      ensures db.readsFail ==> r == BadRequest(db.error)
      ensures !db.readsFail && id !in Ids(old(customers)) ==> r == NotFound
      ensures !db.readsFail && id in Ids(old(customers)) &&
              EmailTakenByOther(old(customers), payload.email, id) ==>
        r == BadRequest(DuplicateEmail)
      ensures !db.readsFail && id in Ids(old(customers)) &&
              !EmailTakenByOther(old(customers), payload.email, id) ==>
        r == (if db.commitFails then BadRequest(db.error) else OkCustomer(payload.(id := id)))
      ensures !r.OkCustomer? ==> customers == old(customers)
      ensures r.OkCustomer? ==>
        customers == old(customers)[IndexOf(old(customers), id) := payload.(id := id)]
    {
      if db.readsFail {
        return BadRequest(db.error);
      }
      var customerExists := FirstOrDefault(customers, (c: Customer) => c.id == id);
      if customerExists.None? {
        assert id !in Ids(customers);
        return NotFound;
      }
      customerExists := FirstOrDefault(customers, (c: Customer) => c.id != id && c.email == payload.email);
      if customerExists.Some? {
        assert customerExists.value in customers;
        return BadRequest(DuplicateEmail);
      }
      assert !EmailTakenByOther(customers, payload.email, id) by {
        forall c | c in customers && c.id != id
          ensures c.email != payload.email
        {
          var i :| 0 <= i < |customers| && customers[i] == c;
        }
      }
      var customer := payload.(id := id);
      // Update, then SaveChanges
      if db.commitFails {
        return BadRequest(db.error);
      }
      ghost var i := IndexOf(customers, id);
      UpdateRowAt(customers, customer, i);
      ReplaceKeepsUnique(customers, i, customer);
      customers := UpdateRow(customers, customer);
      return OkCustomer(customer);
    }

    /** DELETE /customers/{id}: the row keyed `id` is removed. */
    method DeleteCustomer(id: Id, db: Database) returns (r: Response)
      requires Valid()
      modifies this
      ensures Valid()
      ensures old(UniqueEmails(customers)) ==> UniqueEmails(customers)
      ensures db.readsFail ==> r == BadRequest(db.error)
      ensures !db.readsFail && id !in Ids(old(customers)) ==> r == NotFound
      ensures !db.readsFail && id in Ids(old(customers)) ==>
        r == (if db.commitFails then BadRequest(db.error) else OkMessage(CustomerDeleted))
      ensures !r.OkMessage? ==> customers == old(customers)
      ensures r.OkMessage? ==>
        && id !in Ids(customers)
        && var i := IndexOf(old(customers), id);
           customers == old(customers)[..i] + old(customers)[i + 1..]
    {
      if db.readsFail {
        return BadRequest(db.error);
      }
      var customerExists := FirstOrDefault(customers, (c: Customer) => c.id == id);
      if customerExists.None? {
        assert id !in Ids(customers);
        return NotFound;
      }
      // Remove, then SaveChanges
      if db.commitFails {
        return BadRequest(db.error);
      }
      ghost var i := IndexOf(customers, id);
      RemoveRowAt(customers, customerExists.value.id, i);
      DeleteKeepsUnique(customers, i);
      customers := RemoveRow(customers, customerExists.value.id);
      return OkMessage(CustomerDeleted);
    }
  }
}
