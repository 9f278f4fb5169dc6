# Customer CRUD controller

A Dafny model of the `customers` resource of TemplateMVC: the ASP.NET Core
controller `CustomerController` and its five actions over the `Customers`
table of an Entity Framework Core context. Post, Put and Delete look a
customer up, check it, change the table, commit with `SaveChanges` and
answer with a status. The two reads fetch rows, clear the password and
answer, and never write.

- `customers.dfy`, module `CustomerTable`: the `Customer` entity and the table.
  The table is a sequence of rows in one fixed order. It comes with the queries
  and writes the controller issues through Entity Framework:
  - `FirstOrDefault` on an untracked query;
  - key generation on `Add` (`WithStoreKey`);
  - `Update` and `Remove` by key (`UpdateRow`, `RemoveRow`).

  It also holds the two integrity properties and lemmas that each write keeps
  them. `UniqueIds` is the primary key. `UniqueEmails` is the controller's
  rule of at most one customer per email.
- `controller.dfy`, module `Controllers`: the class `CustomerController`.
  Its field `customers` is the committed table. It has one method per
  action, each returning a `Response`: `OkList`, `OkCustomer`, `OkMessage`,
  `Created`, `NotFound` or `BadRequest(message)`, with the controller's own
  Portuguese messages. The class invariant `Valid()` is the primary key, plus
  the fact that no row is stored under `Guid.Empty` (`Add` never stores
  one), so Put and Delete on `Guid.Empty` answer 404.
  Every writing action also keeps `UniqueEmails` when it held before.
  Every error branch leaves the table as it was.
- `scenarios.dfy`, module `CustomerScenarios`: client methods that issue
  several requests to one controller in order. Each states what the caller
  observes: create then read, a duplicate create, an update whose path id
  differs from the body id, keeping one's own email on update, delete then
  read, two listings, and a create, a second create with the same email, a delete
  and a read on an empty table (`CreateDuplicateDeleteFetch`).

Inputs the controller gets from code outside this model are parameters:
- `valid: Customer -> bool` is `ModelState.IsValid`, whose rules live on the
  Customer model's annotations.
- `generated` is the Guid that Entity Framework generates on the client at
  `Add`. It is required to be non-empty and not already a key.
- `Database(readsFail, commitFails, error)` says whether the queries or
  `SaveChanges` throw during this request, and with which message. The
  `catch` blocks turn that message into `BadRequest(error)`.

Guids are natural numbers, with `0` standing for `Guid.Empty`. The customer's
fields other than `id`, `email` and `password` are an opaque `profile` map.

Two behaviours of the code that the model keeps:
- The 201 answer to a create carries the payload with its password. Only the
  read paths clear it (TemplateMVC/Controllers/CustomerController.cs:90).
  `PostCustomer` and `CreateDuplicateDeleteFetch` state this.
- `Add` keeps a non-empty key that the payload brings, and generates one only
  for `Guid.Empty` (`WithStoreKey`). A taken key makes `SaveChanges` throw,
  and the caller gets `BadRequest` with the database's message
  (TemplateMVC/Controllers/CustomerController.cs:84-86).

## Model

| member | source | states |
|---|---|---|
| `CustomerTable.FirstOrDefault` | TemplateMVC/Controllers/CustomerController.cs:107-118 | the untracked query returns nothing exactly when no row matches, otherwise a stored row that matches and before which no row matches |
| `CustomerTable.IndexOf` | TemplateMVC/Controllers/CustomerController.cs:47 | for a present key, the position of the first row with that key |
| `CustomerTable.IndexOfUnique` | TemplateMVC/Controllers/CustomerController.cs:47 | under the primary key, the row with a given key is the only one, so the lookup by id finds exactly it |
| `CustomerTable.WithStoreKey` | TemplateMVC/Controllers/CustomerController.cs:84 | `Add` stores the payload under a non-empty key: its own, or the generated one when it carries `Guid.Empty`; no other field changes |
| `CustomerTable.UpdateRow` | TemplateMVC/Controllers/CustomerController.cs:127-129 | `Update` plus commit keeps the table's length, replaces each row with the payload's key by the payload and leaves every other row as it was |
| `CustomerTable.UpdateRowAt` | TemplateMVC/Controllers/CustomerController.cs:127-129 | under the primary key, the update replaces exactly the position of the customer's row |
| `CustomerTable.RemoveRow` | TemplateMVC/Controllers/CustomerController.cs:156-158 | `Remove` plus commit keeps exactly the rows whose key differs from the removed one |
| `CustomerTable.RemoveRowAbsent` | TemplateMVC/Controllers/CustomerController.cs:156-158 | removing a key that no row has leaves the table unchanged |
| `CustomerTable.RemoveRowConcat` | TemplateMVC/Controllers/CustomerController.cs:156-158 | removing a key from two stretches of rows one after the other is removing it from each stretch |
| `CustomerTable.RemoveRowAt` | TemplateMVC/Controllers/CustomerController.cs:156-158 | under the primary key, the delete removes exactly the customer's row and keeps the others in order |
| `CustomerTable.AppendKeepsUnique` | TemplateMVC/Controllers/CustomerController.cs:78-86 | inserting a row with a new key keeps the primary key, and with an email not yet stored keeps at most one row per email |
| `CustomerTable.ReplaceKeepsUnique` | TemplateMVC/Controllers/CustomerController.cs:117-129 | replacing a row under its own key keeps the primary key, and with an email no other customer uses keeps at most one row per email |
| `CustomerTable.DeleteKeepsUnique` | TemplateMVC/Controllers/CustomerController.cs:149-158 | deleting a row keeps both uniqueness properties and its key is no longer present |
| `Controllers.CustomerController.constructor` | TemplateMVC/Controllers/CustomerController.cs:15-20 | the controller works on the injected table as it is, given that the table satisfies the primary key and has no row under `Guid.Empty` |
| `Controllers.CustomerController.GetAllCustomers` | TemplateMVC/Controllers/CustomerController.cs:23-37 | 200 with every stored customer, same count and order, each with its password empty and every other field kept; the stored rows keep their passwords |
| `Controllers.CustomerController.GetCustomerById` | TemplateMVC/Controllers/CustomerController.cs:39-64 | 400 with the exception's message when the query throws; 404 exactly when no row has the key; otherwise 200 with that row, its password empty; the table never changes |
| `Controllers.CustomerController.PostCustomer` | TemplateMVC/Controllers/CustomerController.cs:66-97 | invalid payload gives "Cliente inválido."; a stored customer with exactly the same email gives "Um cliente com esse email já existe."; a throwing query, a failing commit or a taken key give 400 with the database's message; every 400 leaves the table unchanged; 201 exactly when none of these happens, with the payload (password kept) under its store key appended as the only new row; the primary key and at-most-one-row-per-email are kept |
| `Controllers.CustomerController.PutCustomer` | TemplateMVC/Controllers/CustomerController.cs:99-139 | 404 when the path key is absent; "Um cliente com esse email já existe." when a customer with another key has the email; 400 with the database's message on a throwing query or commit; otherwise 200 with the payload under the path key, which replaces only that row; keeping one's own email is accepted; every non-200 leaves the table unchanged; both uniqueness properties are kept |
| `Controllers.CustomerController.DeleteCustomer` | TemplateMVC/Controllers/CustomerController.cs:141-168 | 404 when the key is absent; 400 with the database's message on a throwing query or commit; otherwise 200 "Cliente deletado com sucesso." and exactly that row is gone, the others kept in order; every non-200 leaves the table unchanged; both uniqueness properties are kept |
| `CustomerScenarios.CreateThenFetch` | TemplateMVC/Controllers/CustomerController.cs:47-90 | after a 201, reading the new key returns the created customer with its password empty, while the 201 itself carried the password as sent |
| `CustomerScenarios.CreateTwice` | TemplateMVC/Controllers/CustomerController.cs:78-86 | after a first create succeeds, a second valid create with the same email is refused with the duplicate-email message; the table holds the email and still has at most one row per email |
| `CustomerScenarios.UpdateThenFetch` | TemplateMVC/Controllers/CustomerController.cs:117-132 | a successful update answers with the payload under the path key, whatever key the body carried, and reading that key returns it with its password empty |
| `CustomerScenarios.UpdateKeepingEmail` | TemplateMVC/Controllers/CustomerController.cs:117-121 | an update that keeps the customer's own current email succeeds when the database raises nothing |
| `CustomerScenarios.DeleteThenFetch` | TemplateMVC/Controllers/CustomerController.cs:149-161 | after a successful delete, reading the same key gives 404 |
| `CustomerScenarios.ListTwice` | TemplateMVC/Controllers/CustomerController.cs:29-36 | two listings with no write between them are identical, have one entry per row and show no password |
| `CustomerScenarios.CreateDuplicateDeleteFetch` | TemplateMVC/Controllers/CustomerController.cs:72-161 | on an empty table: create gives 201 with the password as sent, the same email again gives 400 with the duplicate-email message, deleting the first gives 200, reading it again gives 404 |

## Left out

- GetAllCustomers: its query has no `try`/`catch`. A throwing query leaves the action unhandled and the framework answers it; the model's listing never fails.
- Read failures are all-or-nothing per request (`readsFail`). A database that fails on Put's second query but not its first ends in the same `BadRequest`, possibly with another message.
- Concurrency: the email check and the write that follows are a read-then-write sequence. Simultaneous requests can both pass the check. Requests are modelled one after another and the race is not modelled.
- The `[ApiController]` attribute answers an invalid payload with its own 400 before the action runs. Program.cs does not switch that off. The model runs Post's own `ModelState.IsValid` check as written. `PutCustomer` has no such check in the action and takes no validity input, so an invalid Put payload reaches the update in the model, where the framework would refuse it with its own 400 before the action runs. The validation rules themselves are on the Customer model, which is not part of this model.
- Entity Framework change tracking, SQL Server, the text of the exceptions and the Guid format are not modelled. A commit either applies all of the action's change or none of it.
- The `CreatedAtAction` location header is reduced to the new key; routes, JSON camel-case naming, Swagger, CORS, authentication and HTTPS redirection (Program.cs) are left out.
- In-place mutation of the request objects is modelled by value. `ForEach` on the fetched list, `Password = string.Empty` on the fetched row and `customer.Id = id` on the payload become record updates. The copies read with `AsNoTracking` are detached from the stored rows, and the request ends after the answer, so no aliasing is observable.
- Email comparison: the model compares emails exactly, character by character (`UniqueEmails`, `PostCustomer`, `PutCustomer`). The comparisons at lines 78 and 117-118 run in SQL Server under the column's collation. The default collation ignores case and trailing spaces, so the database can treat more strings as equal. For example, "A@x.com" against a stored "a@x.com" gets the duplicate-email 400 from the database but 201 in the model.
- Row order: none of the queries has an `OrderBy`, so SQL Server promises no row order. The model fixes one order, the sequence order of the table. The "same order" of `GetAllCustomers` and the equality of the two listings in `ListTwice` hold only for that fixed order. The database promises only the same rows, each redacted. Lookups by key, and by email under `UniqueEmails`, match at most one row, so they do not depend on the order.
- Entity Framework's `Update` of an entity whose key is `Guid.Empty` inserts a new row under a generated key instead of replacing one. The model rules this case out: `Valid()` excludes a stored `Guid.Empty` row, so Put on that key is 404.
- The Customer model's fields other than `Id`, `Email` and `Password` are not known here. They are carried unchanged as an opaque map.
