/** The Customer entity and the Customers table of the database context.

    The table is a sequence of rows in one fixed order. The queries carry no
    `OrderBy`, so the database promises no order; the model lists the rows
    in sequence order and `FirstOrDefault` returns the first match in it.
    Under the two uniqueness properties, a lookup by key or by email matches
    at most one row, so the order does not affect it. The functions below
    are the operations the controller performs on the table through
    Entity Framework: a first-match query, `Update` and `Remove` by key, and
    `Add` with key generation. */
module CustomerTable {

  datatype Option<T> = None | Some(value: T)

  /** A Guid. `EmptyId` stands for `Guid.Empty`, the value for which
      Entity Framework generates a key on `Add`. */
  type Id = nat

  const EmptyId: Id := 0

  /** The profile fields of a customer that no action inspects. */
  type Profile = map<string, string>

  datatype Customer = Customer(id: Id, email: string, password: string, profile: Profile)

  /** The copy of a customer that the read paths hand to a caller. */
  function Redacted(c: Customer): Customer
  {
    c.(password := "")
  }

  /** The keys present in the table. */
  function Ids(rows: seq<Customer>): set<Id>
  {
    set c | c in rows :: c.id
  }

  /** The email addresses present in the table. */
  function Emails(rows: seq<Customer>): set<string>
  {
    set c | c in rows :: c.email
  }

  /** The primary key: exactly one row per id. */
  ghost predicate UniqueIds(rows: seq<Customer>)
  {
    forall i, j :: 0 <= i < j < |rows| ==> rows[i].id != rows[j].id
  }

  /** The application-level constraint: at most one row per email. */
  ghost predicate UniqueEmails(rows: seq<Customer>)
  {
    forall i, j :: 0 <= i < j < |rows| ==> rows[i].email != rows[j].email
  }

  /** Some row other than the one keyed `id` uses `email`. */
  ghost predicate EmailTakenByOther(rows: seq<Customer>, email: string, id: Id)
  {
    exists c :: c in rows && c.id != id && c.email == email
  }

  /** The position of the first row keyed `id`. */
  ghost function IndexOf(rows: seq<Customer>, id: Id): (i: nat)
    requires id in Ids(rows)
    ensures i < |rows| && rows[i].id == id
    ensures forall j :: 0 <= j < i ==> rows[j].id != id
  {
    if rows[0].id == id then 0
    else
      assert id in Ids(rows[1..]) by {
        var c :| c in rows && c.id == id;
        assert c in rows[1..];
      }
      IndexOf(rows[1..], id) + 1
  }

  /** Under the primary key, the row keyed `id` is the only one. */
  lemma IndexOfUnique(rows: seq<Customer>, id: Id, i: nat)
    requires UniqueIds(rows)
    requires i < |rows| && rows[i].id == id
    ensures id in Ids(rows) && IndexOf(rows, id) == i
  {
    assert rows[i] in rows;
  }

  /** `FirstOrDefault(p)` on an untracked query: the first row satisfying
      `p`, or nothing when no row does. */
  function FirstOrDefault(rows: seq<Customer>, p: Customer -> bool): (r: Option<Customer>)
    ensures r.None? <==> forall i :: 0 <= i < |rows| ==> !p(rows[i])
    ensures r.Some? ==>
      exists i :: 0 <= i < |rows| && rows[i] == r.value && p(rows[i]) &&
        (forall j :: 0 <= j < i ==> !p(rows[j]))
  {
    if rows == [] then None
    else if p(rows[0]) then Some(rows[0])
    else
      var r := FirstOrDefault(rows[1..], p);
      assert r.Some? ==>
        exists k :: 0 <= k < |rows[1..]| && rows[1..][k] == r.value && p(rows[1..][k]) &&
          (forall j :: 0 <= j < k ==> !p(rows[1..][j]));
      assert forall k :: 0 <= k < |rows[1..]| ==> rows[1..][k] == rows[k + 1];
      r
  }

  /** The key `Add` stores a customer under: the payload's own key, or the
      generated one when the payload carries `Guid.Empty`. */
  function WithStoreKey(c: Customer, generated: Id): (r: Customer)
    requires generated != EmptyId
    ensures r.id != EmptyId
    ensures c.id == EmptyId ==> r.id == generated
    ensures c.id != EmptyId ==> r.id == c.id
    ensures r.(id := c.id) == c
  {
    if c.id == EmptyId then c.(id := generated) else c
  }

  /** `Update(c)` followed by a commit: every row stored under `c`'s key is
      replaced by `c`, all other rows stay as they were. */
  function UpdateRow(rows: seq<Customer>, c: Customer): (r: seq<Customer>)
    ensures |r| == |rows|
    ensures forall i :: 0 <= i < |rows| ==> r[i] == if rows[i].id == c.id then c else rows[i]
  {
    if rows == [] then []
    else [if rows[0].id == c.id then c else rows[0]] + UpdateRow(rows[1..], c)
  }

  /** `Remove` of the row keyed `id` followed by a commit. */
  function RemoveRow(rows: seq<Customer>, id: Id): (r: seq<Customer>)
    ensures forall c :: c in r <==> c in rows && c.id != id
    ensures |r| <= |rows|
  {
    if rows == [] then []
    else if rows[0].id == id then RemoveRow(rows[1..], id)
    else [rows[0]] + RemoveRow(rows[1..], id)
  }

  /** Under the primary key, updating the row at `i` replaces exactly that
      position. */
  lemma UpdateRowAt(rows: seq<Customer>, c: Customer, i: nat)
    requires UniqueIds(rows)
    requires i < |rows| && rows[i].id == c.id
    ensures UpdateRow(rows, c) == rows[i := c]
  {
    var r := UpdateRow(rows, c);
    forall k | 0 <= k < |rows|
      ensures r[k] == rows[i := c][k]
    {
      if k != i {
        assert rows[k].id != c.id by {
          if k < i { assert rows[k].id != rows[i].id; }
          else { assert rows[i].id != rows[k].id; }
        }
      }
    }
  }

  /** Removing a key no row has leaves the table as it is. */
  lemma {:induction false} RemoveRowAbsent(rows: seq<Customer>, id: Id)
    requires forall k :: 0 <= k < |rows| ==> rows[k].id != id
    ensures RemoveRow(rows, id) == rows
  {
    if rows != [] {
      RemoveRowAbsent(rows[1..], id);
      assert [rows[0]] + rows[1..] == rows;
    }
  }

  /** Removing a key from two stretches of rows one after the other is
      removing it from each. */
  lemma {:induction false} RemoveRowConcat(a: seq<Customer>, b: seq<Customer>, id: Id)
    ensures RemoveRow(a + b, id) == RemoveRow(a, id) + RemoveRow(b, id)
  {
    if a == [] {
      assert a + b == b;
    } else {
      assert (a + b)[0] == a[0] && (a + b)[1..] == a[1..] + b;
      RemoveRowConcat(a[1..], b, id);
    }
  }

  /** Under the primary key, removing the key of the row at `i` deletes
      exactly that row and keeps the others in order. */
  lemma RemoveRowAt(rows: seq<Customer>, id: Id, i: nat)
    requires UniqueIds(rows)
    requires i < |rows| && rows[i].id == id
    ensures RemoveRow(rows, id) == rows[..i] + rows[i + 1..]
  {
    var before, after := rows[..i], rows[i + 1..];
    assert rows == before + ([rows[i]] + after);
    assert forall k :: 0 <= k < |before| ==> before[k].id != id by {
      forall k | 0 <= k < |before| ensures before[k].id != id {
        assert rows[k].id != rows[i].id;
      }
    }
    assert forall k :: 0 <= k < |after| ==> after[k].id != id by {
      forall k | 0 <= k < |after| ensures after[k].id != id {
        assert rows[i].id != rows[i + 1 + k].id;
      }
    }
    RemoveRowConcat(before, [rows[i]] + after, id);
    RemoveRowConcat([rows[i]], after, id);
    assert RemoveRow([rows[i]], id) == [];
    RemoveRowAbsent(before, id);
    RemoveRowAbsent(after, id);
  }

  /** Appending a row with a new key and a new email keeps both uniqueness
      properties. */
  lemma AppendKeepsUnique(rows: seq<Customer>, c: Customer)
    requires c.id !in Ids(rows)
    ensures UniqueIds(rows) ==> UniqueIds(rows + [c])
    ensures UniqueEmails(rows) && c.email !in Emails(rows) ==> UniqueEmails(rows + [c])
  {
    var r := rows + [c];
    forall i, j | 0 <= i < j < |r| && UniqueIds(rows)
      ensures r[i].id != r[j].id
    {
      if j == |rows| { assert rows[i] in rows; }
    }
    if UniqueEmails(rows) && c.email !in Emails(rows) {
      forall i, j | 0 <= i < j < |r|
        ensures r[i].email != r[j].email
      {
        if j == |rows| { assert rows[i] in rows; }
      }
    }
  }

  /** Replacing the row at `i` by one with the same key and an email no
      other row uses keeps both uniqueness properties. */
  lemma ReplaceKeepsUnique(rows: seq<Customer>, i: nat, c: Customer)
    requires UniqueIds(rows)
    requires i < |rows| && rows[i].id == c.id
    ensures UniqueIds(rows[i := c])
    ensures UniqueEmails(rows) && !EmailTakenByOther(rows, c.email, c.id) ==> UniqueEmails(rows[i := c])
  {
    if UniqueEmails(rows) && !EmailTakenByOther(rows, c.email, c.id) {
      var r := rows[i := c];
      forall j, k | 0 <= j < k < |r|
        ensures r[j].email != r[k].email
      {
        if j == i {
          assert rows[k] in rows && rows[k].id != c.id;
        } else if k == i {
          assert rows[j] in rows && rows[j].id != c.id;
        }
      }
    }
  }

  /** Deleting a row keeps both uniqueness properties, and the deleted key is
      gone from the table. */
  lemma DeleteKeepsUnique(rows: seq<Customer>, i: nat)
    requires UniqueIds(rows)
    requires i < |rows|
    ensures UniqueIds(rows[..i] + rows[i + 1..])
    ensures UniqueEmails(rows) ==> UniqueEmails(rows[..i] + rows[i + 1..])
    ensures rows[i].id !in Ids(rows[..i] + rows[i + 1..])
  {
    var r := rows[..i] + rows[i + 1..];
    assert forall k :: 0 <= k < |r| ==> r[k] == if k < i then rows[k] else rows[k + 1];
  }
}
