/**
 The SQLite-backed customer store of crm/database.py as an abstract state:
 the rows of the `customers` and `interactions` tables in insertion (rowid)
 order, and the AUTOINCREMENT counter of each table. Every operation is a
 pure function of the state; writes return the state after the call, which
 is the state before it whenever the statement failed.
 */
module Store {
  import opened Wrappers
  import opened Text
  import opened SqlLike
  import opened Sorting

  /** The largest rowid SQLite assigns (2^63 - 1). Once an AUTOINCREMENT
      table has used it, every further insert fails with SQLITE_FULL. */
  const MaxRowId: int := 0x7FFF_FFFF_FFFF_FFFF

  /** The smallest value of SQLite's 64-bit signed INTEGER. */
  const MinInteger: int := -0x8000_0000_0000_0000

  /** Python's sqlite3 binds an `int` parameter as a 64-bit signed INTEGER and
      raises OverflowError, before the statement runs, for one outside it. */
  predicate FitsInteger(n: int)
  {
    MinInteger <= n <= MaxRowId
  }

  /** `created_at` is `CURRENT_TIMESTAMP` text, `YYYY-MM-DD HH:MM:SS`, whose
      text order is its chronological order; the model keeps the number of
      seconds since an epoch. */
  type Stamp = int

  datatype Customer = Customer(
    id: int,
    name: string,
    email: Option<string>,
    phone: Option<string>,
    company: Option<string>)

  /** `kind` is the `type` column (`type` is a Dafny keyword). */
  datatype Interaction = Interaction(
    id: int,
    customerId: int,
    kind: string,
    notes: Option<string>,
    createdAt: Stamp)

  /** The database file: both tables and the `sqlite_sequence` entry of each. */
  datatype Db = Db(
    customers: seq<Customer>,
    interactions: seq<Interaction>,
    customerSeq: nat,
    interactionSeq: nat)

  /** The `sqlite3.IntegrityError` / `OperationalError` a statement raises
      (`column` is the `table.column` SQLite names in its message), or the
      OverflowError of binding an id outside `FitsInteger`. */
  datatype DbError = NotNull(column: string) | Unique(column: string) | Full | Overflow

  /** The state after a call together with what the call returned or raised. */
  datatype Reply<+T> = Reply(db: Db, result: Result<T, DbError>)

  /** A freshly created database file: both tables exist and are empty. */
  const Empty: Db := Db([], [], 0, 0)

  /** What the schema and AUTOINCREMENT guarantee of every reachable state:
      ids are positive, strictly increasing in rowid order and never above
      the table's counter, and no two customers share a non-NULL email. */
  predicate Valid(db: Db)
  {
    && db.customerSeq <= MaxRowId
    && db.interactionSeq <= MaxRowId
    && (forall i :: 0 <= i < |db.customers| ==> 0 < db.customers[i].id <= db.customerSeq)
    && (forall i, j :: 0 <= i < j < |db.customers| ==> db.customers[i].id < db.customers[j].id)
    && (forall i, j :: 0 <= i < j < |db.customers| && db.customers[i].email.Some? ==>
          db.customers[i].email != db.customers[j].email)
    && (forall i :: 0 <= i < |db.interactions| ==> 0 < db.interactions[i].id <= db.interactionSeq)
    && (forall i, j :: 0 <= i < j < |db.interactions| ==> db.interactions[i].id < db.interactions[j].id)
  }

  /** The `_connection()` scope: `commit()` runs only when the statement
      returned normally; an exception skips it and `close()` discards the
      open transaction. */
  function Commit<T>(db: Db, attempt: Result<(Db, T), DbError>): (r: Reply<T>)
    ensures r.result.Failure? ==> attempt.Failure? && r.db == db && r.result.error == attempt.error
    ensures r.result.Success? ==> attempt.Success? && r.db == attempt.value.0 && r.result.value == attempt.value.1
  {
    match attempt
    case Success((db', v)) => Reply(db', Success(v))
    case Failure(e) => Reply(db, Failure(e))
  }

  predicate EmailTaken(cs: seq<Customer>, e: string)
  {
    exists c :: c in cs && c.email == Some(e)
  }

  /** `INSERT INTO customers (name, email, phone, company)`: the new rowid
      is drawn first, then the NOT NULL and UNIQUE constraints are checked. */
  function InsertCustomer(db: Db, name: Option<string>, email: Option<string>,
                          phone: Option<string>, company: Option<string>): (r: Result<(Db, int), DbError>)
    ensures r.Success? <==>
      db.customerSeq < MaxRowId && name.Some? && (email.Some? ==> !EmailTaken(db.customers, email.value))
    ensures db.customerSeq >= MaxRowId ==> r == Failure(Full)
    ensures r.Success? ==>
      && r.value.1 == db.customerSeq + 1
      && r.value.0 == db.(customers := db.customers + [Customer(r.value.1, name.value, email, phone, company)],
                          customerSeq := r.value.1)
  {
    if db.customerSeq >= MaxRowId then Failure(Full)
    else if name.None? then Failure(NotNull("customers.name"))
    else if email.Some? && EmailTaken(db.customers, email.value) then Failure(Unique("customers.email"))
    else
      var id := db.customerSeq + 1;
      Success((db.(customers := db.customers + [Customer(id, name.value, email, phone, company)],
                   customerSeq := id), id))
  }

  /** `add_customer`. Only a NULL name is refused (there is no empty-string
      check), and the email comparison is exact, so emails differing in case
      do not collide and any number of customers may have a NULL email. */
  function AddCustomer(db: Db, name: Option<string>, email: Option<string>,
                       phone: Option<string>, company: Option<string>): (r: Reply<int>)
    ensures r.result.Success? <==>
      db.customerSeq < MaxRowId && name.Some? && (email.Some? ==> !EmailTaken(db.customers, email.value))
    ensures db.customerSeq >= MaxRowId ==> r.result == Failure(Full)
    ensures db.customerSeq < MaxRowId && name.None? ==> r.result == Failure(NotNull("customers.name"))
    ensures db.customerSeq < MaxRowId && name.Some? && email.Some? && EmailTaken(db.customers, email.value) ==>
      r.result == Failure(Unique("customers.email"))
    ensures r.result.Failure? ==> r.db == db
    ensures r.result.Success? ==>
      && r.result.value > db.customerSeq
      && r.db.customerSeq == r.result.value
      && r.db.customers == db.customers + [Customer(r.result.value, name.value, email, phone, company)]
      && r.db.interactions == db.interactions
      && r.db.interactionSeq == db.interactionSeq
    ensures Valid(db) && r.result.Success? ==> forall c :: c in db.customers ==> c.id < r.result.value
    ensures Valid(db) ==> Valid(r.db)
  {
    var r := Commit(db, InsertCustomer(db, name, email, phone, company));
    assert Valid(db) && r.result.Success? ==> Valid(r.db) by {
      if Valid(db) && r.result.Success? {
        var cs := r.db.customers;
        forall i, j | 0 <= i < j < |cs| && cs[i].email.Some?
          ensures cs[i].email != cs[j].email
        {
          if j == |cs| - 1 {
            assert cs[i] in db.customers;
          }
        }
      }
    }
    r
  }

  function FindCustomer(cs: seq<Customer>, id: int): (r: Option<Customer>)
    ensures r.None? <==> forall c :: c in cs ==> c.id != id
    ensures r.Some? ==> r.value in cs && r.value.id == id
  {
    if |cs| == 0 then None
    else if cs[0].id == id then Some(cs[0])
    else FindCustomer(cs[1..], id)
  }

  /** `get_customer`: the OverflowError of an id no INTEGER can hold;
      otherwise `None` exactly when no stored customer has the id. */
  function GetCustomer(db: Db, id: int): (r: Result<Option<Customer>, DbError>)
    ensures r.Failure? <==> !FitsInteger(id)
    ensures r.Failure? ==> r.error == Overflow
    ensures r.Success? ==> (r.value.None? <==> forall c :: c in db.customers ==> c.id != id)
    ensures r.Success? && r.value.Some? ==> r.value.value in db.customers && r.value.value.id == id
  {
    if !FitsInteger(id) then Failure(Overflow) else Success(FindCustomer(db.customers, id))
  }

  /** The WHERE clause of `list_customers`: `name LIKE p OR email LIKE p OR
      company LIKE p` with `p = '%' + search + '%'`; a NULL column is never
      LIKE anything. */
  predicate MatchesPattern(c: Customer, p: string)
  {
    || Like(p, c.name)
    || (c.email.Some? && Like(p, c.email.value))
    || (c.company.Some? && Like(p, c.company.value))
  }

  /** `if search:` skips the WHERE clause for `None` and for `""`. */
  predicate Selected(c: Customer, search: Option<string>)
  {
    search.None? || search.value == "" || MatchesPattern(c, "%" + search.value + "%")
  }

  function Matching(cs: seq<Customer>, search: Option<string>): (r: seq<Customer>)
    ensures forall c :: multiset(r)[c] == if Selected(c, search) then multiset(cs)[c] else 0
  {
    if |cs| == 0 then []
    else
      assert cs == [cs[0]] + cs[1..];
      (if Selected(cs[0], search) then [cs[0]] else []) + Matching(cs[1..], search)
  }

  /** `ORDER BY name COLLATE NOCASE`. */
  predicate NameLeq(a: Customer, b: Customer)
  {
    LexLeq(Lower(a.name), Lower(b.name))
  }

  lemma NameOrderIsTotal()
    ensures TotalPreorder(NameLeq)
  {
    forall a: Customer, b: Customer
      ensures NameLeq(a, b) || NameLeq(b, a)
    {
      LexLeqTotal(Lower(a.name), Lower(b.name));
    }
    forall a: Customer, b: Customer, c: Customer | NameLeq(a, b) && NameLeq(b, c)
      ensures NameLeq(a, c)
    {
      LexLeqTransitive(Lower(a.name), Lower(b.name), Lower(c.name));
    }
  }

  /** `list_customers(search)`: the selected customers, each as often as it
      is stored, in case-insensitive name order. */
  function ListCustomers(db: Db, search: Option<string>): (r: seq<Customer>)
    ensures SortedBy(r, NameLeq)
    ensures forall c :: multiset(r)[c] == if Selected(c, search) then multiset(db.customers)[c] else 0
    ensures search.None? || search == Some("") ==> multiset(r) == multiset(db.customers)
  {
    NameOrderIsTotal();
    SortBy(Matching(db.customers, search), NameLeq)
  }

  /** `INSERT INTO interactions (customer_id, type, notes)`: the customer id
      is bound first, then the new rowid is drawn, then the NOT NULL
      constraints are checked in column order. There is no
      reference check, because SQLite leaves FOREIGN KEY clauses unenforced
      unless `PRAGMA foreign_keys=ON` was issued, and it never is. */
  function InsertInteraction(db: Db, customerId: Option<int>, kind: Option<string>,
                             notes: Option<string>, now: Stamp): (r: Result<(Db, int), DbError>)
    ensures r.Success? <==>
      customerId.Some? && FitsInteger(customerId.value) && db.interactionSeq < MaxRowId && kind.Some?
    ensures customerId.Some? && !FitsInteger(customerId.value) ==> r == Failure(Overflow)
    ensures r.Success? ==>
      && r.value.1 == db.interactionSeq + 1
      && r.value.0 == db.(interactions := db.interactions + [Interaction(r.value.1, customerId.value, kind.value, notes, now)],
                          interactionSeq := r.value.1)
  {
    if customerId.Some? && !FitsInteger(customerId.value) then Failure(Overflow)
    else if db.interactionSeq >= MaxRowId then Failure(Full)
    else if customerId.None? then Failure(NotNull("interactions.customer_id"))
    else if kind.None? then Failure(NotNull("interactions.type"))
    else
      var id := db.interactionSeq + 1;
      Success((db.(interactions := db.interactions + [Interaction(id, customerId.value, kind.value, notes, now)],
                   interactionSeq := id), id))
  }

  /** `add_interaction`, with `now` the clock reading `CURRENT_TIMESTAMP`
      takes. It succeeds for a customer id no customer has. */
  function AddInteraction(db: Db, customerId: Option<int>, kind: Option<string>,
                          notes: Option<string>, now: Stamp): (r: Reply<int>)
    ensures r.result.Success? <==>
      customerId.Some? && FitsInteger(customerId.value) && db.interactionSeq < MaxRowId && kind.Some?
    ensures customerId.Some? && !FitsInteger(customerId.value) ==> r.result == Failure(Overflow)
    ensures (customerId.Some? ==> FitsInteger(customerId.value)) && db.interactionSeq >= MaxRowId ==>
      r.result == Failure(Full)
    ensures db.interactionSeq < MaxRowId && customerId.None? ==>
      r.result == Failure(NotNull("interactions.customer_id"))
    ensures customerId.Some? && FitsInteger(customerId.value) && db.interactionSeq < MaxRowId && kind.None? ==>
      r.result == Failure(NotNull("interactions.type"))
    ensures r.result.Failure? ==> r.db == db
    ensures r.result.Success? ==>
      && r.result.value > db.interactionSeq
      && r.db.interactionSeq == r.result.value
      && r.db.interactions == db.interactions + [Interaction(r.result.value, customerId.value, kind.value, notes, now)]
      && r.db.customers == db.customers
      && r.db.customerSeq == db.customerSeq
    ensures Valid(db) && r.result.Success? ==> forall x :: x in db.interactions ==> x.id < r.result.value
    ensures Valid(db) ==> Valid(r.db)
  {
    Commit(db, InsertInteraction(db, customerId, kind, notes, now))
  }

  function OfCustomer(xs: seq<Interaction>, cid: int): (r: seq<Interaction>)
    ensures forall x :: multiset(r)[x] == if x.customerId == cid then multiset(xs)[x] else 0
  {
    if |xs| == 0 then []
    else
      assert xs == [xs[0]] + xs[1..];
      (if xs[0].customerId == cid then [xs[0]] else []) + OfCustomer(xs[1..], cid)
  }

  /** `ORDER BY created_at DESC`. */
  predicate NewerOrSame(a: Interaction, b: Interaction)
  {
    a.createdAt >= b.createdAt
  }

  /** `list_interactions(cid)`: the OverflowError of an id no INTEGER can
      hold; otherwise the interactions recorded for `cid`, each as often as
      it is stored, newest first; empty, not an error, when there are none. */
  function ListInteractions(db: Db, cid: int): (r: Result<seq<Interaction>, DbError>)
    ensures r.Failure? <==> !FitsInteger(cid)
    ensures r.Failure? ==> r.error == Overflow
    ensures r.Success? ==> forall i, j :: 0 <= i < j < |r.value| ==> r.value[i].createdAt >= r.value[j].createdAt
    ensures r.Success? ==>
      forall x :: multiset(r.value)[x] == if x.customerId == cid then multiset(db.interactions)[x] else 0
    ensures r.Success? ==> (|r.value| == 0 <==> forall x :: x in db.interactions ==> x.customerId != cid)
  {
    if !FitsInteger(cid) then Failure(Overflow)
    else
      var l := SortBy(OfCustomer(db.interactions, cid), NewerOrSame);
      NoneListed(db.interactions, l, cid);
      Success(l)
  }

  /** A selection by customer is empty exactly when no row names it. */
  lemma NoneListed(xs: seq<Interaction>, r: seq<Interaction>, cid: int)
    requires forall x :: multiset(r)[x] == if x.customerId == cid then multiset(xs)[x] else 0
    ensures |r| == 0 <==> forall x :: x in xs ==> x.customerId != cid
  {
    if |r| > 0 {
      assert multiset(r)[r[0]] > 0;
    }
    if x :| x in xs && x.customerId == cid {
      assert multiset(r)[x] > 0;
    }
  }

  function Kinds(xs: seq<Interaction>): (ks: seq<string>)
    ensures |ks| == |xs|
    ensures forall i :: 0 <= i < |xs| ==> ks[i] == xs[i].kind
  {
    seq(|xs|, i requires 0 <= i < |xs| => xs[i].kind)
  }

  /** `SELECT type, COUNT(*) ... GROUP BY type` turned into a dict: one key
      per distinct type (compared exactly), mapped to how often it occurs. */
  function CountByKind(xs: seq<Interaction>): (m: map<string, nat>)
    ensures m.Keys == set x | x in xs :: x.kind
    ensures forall k :: k in m ==> m[k] == multiset(Kinds(xs))[k]
  {
    if |xs| == 0 then map[]
    else
      var last := xs[|xs| - 1];
      var m := CountByKind(xs[..|xs| - 1]);
      CountStep(xs, m);
      m[last.kind := (if last.kind in m then m[last.kind] else 0) + 1]
  }

  /** Counting one more interaction: its type gains one, the others stay. */
  lemma CountStep(xs: seq<Interaction>, m: map<string, nat>)
    requires |xs| > 0
    requires m.Keys == set x | x in xs[..|xs| - 1] :: x.kind
    requires forall k :: k in m ==> m[k] == multiset(Kinds(xs[..|xs| - 1]))[k]
    ensures var last := xs[|xs| - 1];
      var m' := m[last.kind := (if last.kind in m then m[last.kind] else 0) + 1];
      && m'.Keys == (set x | x in xs :: x.kind)
      && forall k :: k in m' ==> m'[k] == multiset(Kinds(xs))[k]
  {
    KindsStep(xs);
    SetOfKindsStep(xs);
  }

  lemma KindsStep(xs: seq<Interaction>)
    requires |xs| > 0
    ensures multiset(Kinds(xs)) == multiset(Kinds(xs[..|xs| - 1])) + multiset{xs[|xs| - 1].kind}
  {
    assert Kinds(xs) == Kinds(xs[..|xs| - 1]) + [xs[|xs| - 1].kind];
  }

  lemma SetOfKindsStep(xs: seq<Interaction>)
    requires |xs| > 0
    ensures (set x | x in xs :: x.kind) == (set x | x in xs[..|xs| - 1] :: x.kind) + {xs[|xs| - 1].kind}
  {
    assert xs == xs[..|xs| - 1] + [xs[|xs| - 1]];
  }

  datatype Summary = Summary(customer: Customer, counts: map<string, nat>)

  /** `customer_summary(cid)`: the OverflowError of an id no INTEGER can
      hold; `None` when the customer is absent; otherwise the customer and,
      for each type among its interactions, how many of them have it. */
  function CustomerSummary(db: Db, cid: int): (r: Result<Option<Summary>, DbError>)
    ensures r.Failure? <==> !FitsInteger(cid)
    ensures r.Failure? ==> r.error == Overflow
    ensures r.Success? ==> (r.value.None? <==> forall c :: c in db.customers ==> c.id != cid)
    ensures r.Success? && r.value.Some? ==> r.value.value.customer in db.customers && r.value.value.customer.id == cid
    ensures r.Success? && r.value.Some? ==>
      r.value.value.counts.Keys == set x | x in db.interactions && x.customerId == cid :: x.kind
    ensures r.Success? && r.value.Some? ==> forall k :: k in r.value.value.counts ==>
      r.value.value.counts[k] == multiset(Kinds(OfCustomer(db.interactions, cid)))[k]
  {
    match GetCustomer(db, cid)
    case Failure(e) => Failure(e)
    case Success(None) => Success(None)
    case Success(Some(c)) =>
      var mine := OfCustomer(db.interactions, cid);
      assert forall x :: x in mine <==> x in db.interactions && x.customerId == cid by {
        forall x ensures x in mine <==> x in db.interactions && x.customerId == cid {
          assert x in mine <==> multiset(mine)[x] > 0;
        }
      }
      Success(Some(Summary(c, CountByKind(mine))))
  }
}
