/** Properties that span several requests to one controller, each stated as
    a client that issues the requests in order and promises what it sees. */
module CustomerScenarios {
  import opened CustomerTable
  import opened Controllers

  /** A database that raises nothing during the request. */
  const Healthy: Database := Database(false, false, "")

  /** A customer read back after a successful create is the created one with
      its password cleared. */
  method CreateThenFetch(table: seq<Customer>, payload: Customer, valid: Customer -> bool,
                         generated: Id, db: Database)
    returns (created: Response, fetched: Response)
    requires UniqueIds(table) && EmptyId !in Ids(table)
    requires generated != EmptyId && generated !in Ids(table)
    ensures created.Created? ==>
      && created.customer.password == payload.password
      && fetched == OkCustomer(Redacted(created.customer))
      && fetched.customer.password == ""
  {
    var controller := new CustomerController(table);
    created := controller.PostCustomer(payload, valid, generated, db);
    fetched := controller.GetCustomerById(if created.Created? then created.location else EmptyId, db);
  }

  /** A second create with an email already stored is refused, and the table
      still holds that email exactly once. */
  method CreateTwice(table: seq<Customer>, first: Customer, second: Customer,
                     valid: Customer -> bool, g1: Id, g2: Id, db: Database)
    returns (r1: Response, r2: Response, rows: seq<Customer>)
    requires UniqueIds(table) && UniqueEmails(table) && EmptyId !in Ids(table)
    requires g1 != EmptyId && g2 != EmptyId && g1 != g2
    requires g1 !in Ids(table) && g2 !in Ids(table) && g2 != first.id
    requires first.email == second.email && valid(second)
    ensures r1.Created? ==> r2 == BadRequest(DuplicateEmail) && rows == table + [r1.customer]
    ensures UniqueEmails(rows)
    ensures r1.Created? ==> exists i :: 0 <= i < |rows| && rows[i].email == first.email
  {
    var controller := new CustomerController(table);
    r1 := controller.PostCustomer(first, valid, g1, db);
    r2 := controller.PostCustomer(second, valid, g2, db);
    rows := controller.customers;
    if r1.Created? {
      assert rows[|table|].email == first.email;
    }
  }

  /** Updating with one key in the path and another in the body stores and
      returns the row under the path key; reading it back gives the payload
      with that key and no password. */
  method UpdateThenFetch(table: seq<Customer>, id: Id, payload: Customer, db: Database)
    returns (updated: Response, fetched: Response)
    requires UniqueIds(table) && EmptyId !in Ids(table)
    ensures updated.OkCustomer? ==>
      && updated.customer == payload.(id := id)
      && fetched == OkCustomer(Redacted(payload.(id := id)))
  {
    var controller := new CustomerController(table);
    updated := controller.PutCustomer(id, payload, db);
    if updated.OkCustomer? {
      IndexOfUnique(controller.customers, id, IndexOf(table, id));
    }
    fetched := controller.GetCustomerById(id, db);
  }

  /** A customer may keep its own email on update. */
  method UpdateKeepingEmail(table: seq<Customer>, id: Id, payload: Customer)
    returns (r: Response)
    requires UniqueIds(table) && UniqueEmails(table) && EmptyId !in Ids(table)
    requires id in Ids(table) && table[IndexOf(table, id)].email == payload.email
    ensures r == OkCustomer(payload.(id := id))
  {
    var controller := new CustomerController(table);
    r := controller.PutCustomer(id, payload, Healthy);
    assert !EmailTakenByOther(table, payload.email, id) by {
      var k := IndexOf(table, id);
      forall c | c in table && c.id != id
        ensures c.email != payload.email
      {
        var j :| 0 <= j < |table| && table[j] == c;
        assert j != k;
      }
    }
  }

  /** After a successful delete the key is not found any more. */
  method DeleteThenFetch(table: seq<Customer>, id: Id, db: Database)
    returns (deleted: Response, fetched: Response)
    requires UniqueIds(table) && EmptyId !in Ids(table)
    ensures deleted.OkMessage? ==> deleted.message == CustomerDeleted && fetched == NotFound
  {
    var controller := new CustomerController(table);
    deleted := controller.DeleteCustomer(id, db);
    fetched := controller.GetCustomerById(id, db);
  }

  /** Two listings with no write in between are identical, and neither shows
      a password. */
  method ListTwice(table: seq<Customer>) returns (first: Response, second: Response)
    requires UniqueIds(table) && EmptyId !in Ids(table)
    ensures first == second && first.OkList? && |first.list| == |table|
    ensures forall i :: 0 <= i < |first.list| ==> first.list[i].password == ""
  {
    var controller := new CustomerController(table);
    first := controller.GetAllCustomers();
    second := controller.GetAllCustomers();
  }

  /** Create, create again with the same email, delete the first, read it:
      201 with the password as sent, 400, 200, 404. */
  method CreateDuplicateDeleteFetch(g1: Id, g2: Id, profile: Profile)
    returns (created: Response, duplicate: Response, deleted: Response, fetched: Response)
    requires g1 != EmptyId && g2 != EmptyId && g1 != g2
    ensures created == Created(g1, Customer(g1, "a@x.com", "p", profile))
    ensures duplicate == BadRequest(DuplicateEmail)
    ensures deleted == OkMessage(CustomerDeleted)
    ensures fetched == NotFound
  {
    var controller := new CustomerController([]);
    var valid := (c: Customer) => true;
    created := controller.PostCustomer(Customer(EmptyId, "a@x.com", "p", profile), valid, g1, Healthy);
    assert "a@x.com" in Emails(controller.customers) by {
      assert controller.customers[0].email == "a@x.com";
    }
    duplicate := controller.PostCustomer(Customer(EmptyId, "a@x.com", "q", profile), valid, g2, Healthy);
    assert g1 in Ids(controller.customers) by {
      assert controller.customers[0].id == g1;
    }
    deleted := controller.DeleteCustomer(g1, Healthy);
    fetched := controller.GetCustomerById(g1, Healthy);
  }
}
