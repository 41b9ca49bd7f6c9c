/**
 Properties of the customer store that relate several calls: round trips,
 fresh ids over any sequence of writes, what a search selects, and how the
 summary agrees with the interaction listing. The scenario lemmas at the end
 replay crm/tests/test_database.py.
 */
module StoreFacts {
  import opened Wrappers
  import opened Text
  import opened SqlLike
  import opened Sorting
  import opened Store

  lemma EmptyIsValid()
    ensures Valid(Empty)
  {
  }

  /** `get_customer` returns exactly what `add_customer` stored. */
  lemma AddThenGet(db: Db, name: string, email: Option<string>, phone: Option<string>, company: Option<string>)
    requires Valid(db)
    ensures var r := AddCustomer(db, Some(name), email, phone, company);
      r.result.Success? ==>
        GetCustomer(r.db, r.result.value) == Success(Some(Customer(r.result.value, name, email, phone, company)))
  {
    var r := AddCustomer(db, Some(name), email, phone, company);
    if r.result.Success? {
      var c := Customer(r.result.value, name, email, phone, company);
      assert c in r.db.customers;
    }
  }

  /** A second customer with an email already stored is refused, nothing is
      written, and the first stays retrievable. */
  lemma SameEmailTwice(db: Db, name1: string, name2: string, email: string,
                       phone1: Option<string>, phone2: Option<string>,
                       company1: Option<string>, company2: Option<string>)
    requires Valid(db)
    ensures var r1 := AddCustomer(db, Some(name1), Some(email), phone1, company1);
      var r2 := AddCustomer(r1.db, Some(name2), Some(email), phone2, company2);
      r1.result.Success? ==>
        && r2.result.Failure?
        && (r1.db.customerSeq < MaxRowId ==> r2.result.error == Unique("customers.email"))
        && r2.db == r1.db
        && GetCustomer(r2.db, r1.result.value) == Success(Some(Customer(r1.result.value, name1, Some(email), phone1, company1)))
  {
    var r1 := AddCustomer(db, Some(name1), Some(email), phone1, company1);
    if r1.result.Success? {
      var c := Customer(r1.result.value, name1, Some(email), phone1, company1);
      assert r1.db.customers[|r1.db.customers| - 1] == c;
      assert EmailTaken(r1.db.customers, email);
      AddThenGet(db, name1, Some(email), phone1, company1);
    }
  }

  /** NULL emails never collide: two customers without email are both
      stored. */
  lemma NullEmailsRepeat(db: Db, name1: string, name2: string)
    requires Valid(db)
    requires db.customerSeq + 2 <= MaxRowId
    ensures var r1 := AddCustomer(db, Some(name1), None, None, None);
      var r2 := AddCustomer(r1.db, Some(name2), None, None, None);
      && r1.result.Success? && r2.result.Success?
      && |r2.db.customers| == |db.customers| + 2
  {
  }

  /** A write the store can be asked for. */
  datatype Call =
    | NewCustomer(name: Option<string>, email: Option<string>, phone: Option<string>, company: Option<string>)
    | NewInteraction(customerId: Option<int>, kind: Option<string>, notes: Option<string>, now: Stamp)

  function Apply(db: Db, call: Call): Reply<int>
  {
    match call
    case NewCustomer(n, e, p, c) => AddCustomer(db, n, e, p, c)
    case NewInteraction(cid, k, notes, now) => AddInteraction(db, cid, k, notes, now)
  }

  /** The state after a sequence of writes and the ids handed out, per table,
      in the order they were returned. */
  datatype Log = Log(db: Db, customerIds: seq<int>, interactionIds: seq<int>)

  function Replay(db: Db, calls: seq<Call>): Log
    decreases |calls|
  {
    if |calls| == 0 then Log(db, [], [])
    else
      var prev := Replay(db, calls[..|calls| - 1]);
      var call := calls[|calls| - 1];
      var r := Apply(prev.db, call);
      if r.result.Failure? then prev
      else if call.NewCustomer? then prev.(db := r.db, customerIds := prev.customerIds + [r.result.value])
      else prev.(db := r.db, interactionIds := prev.interactionIds + [r.result.value])
  }

  /** One write keeps the state valid, never lowers a counter, and hands
      out an id above the old counter of its table. */
  lemma ApplyStep(db: Db, call: Call)
    requires Valid(db)
    ensures var r := Apply(db, call);
      && Valid(r.db)
      && (r.result.Failure? ==> r.db == db)
      && (r.result.Success? && call.NewCustomer? ==>
            db.customerSeq < r.result.value == r.db.customerSeq && r.db.interactionSeq == db.interactionSeq)
      && (r.result.Success? && call.NewInteraction? ==>
            db.interactionSeq < r.result.value == r.db.interactionSeq && r.db.customerSeq == db.customerSeq)
  {
  }

  predicate StrictlyIncreasing(s: seq<int>)
  {
    forall i, j :: 0 <= i < j < |s| ==> s[i] < s[j]
  }

  lemma Extend(s: seq<int>, x: int, low: int, high: int)
    requires StrictlyIncreasing(s)
    requires forall i :: 0 <= i < |s| ==> low < s[i] <= high
    requires low <= high < x
    ensures StrictlyIncreasing(s + [x])
    ensures forall i :: 0 <= i < |s + [x]| ==> low < (s + [x])[i] <= x
  {
  }

  /** Ids are never reused: over any sequence of writes each table hands out
      strictly increasing ids, all above any id it held before, and the
      state stays valid. */
  lemma {:induction false} IdsNeverReused(db: Db, calls: seq<Call>)
    requires Valid(db)
    ensures var log := Replay(db, calls);
      && Valid(log.db)
      && db.customerSeq <= log.db.customerSeq
      && db.interactionSeq <= log.db.interactionSeq
      && StrictlyIncreasing(log.customerIds)
      && StrictlyIncreasing(log.interactionIds)
      && (forall i :: 0 <= i < |log.customerIds| ==> db.customerSeq < log.customerIds[i] <= log.db.customerSeq)
      && (forall i :: 0 <= i < |log.interactionIds| ==> db.interactionSeq < log.interactionIds[i] <= log.db.interactionSeq)
    decreases |calls|
  {
    if |calls| > 0 {
      var init := calls[..|calls| - 1];
      var call := calls[|calls| - 1];
      var prev := Replay(db, init);
      var r := Apply(prev.db, call);
      IdsNeverReused(db, init);
      ApplyStep(prev.db, call);
      var log := Replay(db, calls);
      if r.result.Failure? {
        assert log == prev;
      } else if call.NewCustomer? {
        assert log == prev.(db := r.db, customerIds := prev.customerIds + [r.result.value]);
        Extend(prev.customerIds, r.result.value, db.customerSeq, prev.db.customerSeq);
      } else {
        assert log == prev.(db := r.db, interactionIds := prev.interactionIds + [r.result.value]);
        Extend(prev.interactionIds, r.result.value, db.interactionSeq, prev.db.interactionSeq);
      }
    }
  }

  /** For search text free of LIKE wildcards, a non-empty search selects
      exactly the customers whose name, email or company contains it,
      ignoring ASCII case; a NULL field never matches. */
  lemma SearchIsSubstring(c: Customer, s: string)
    requires s != "" && NoWildcards(s)
    ensures Selected(c, Some(s)) <==>
      || IsSubstring(Lower(s), Lower(c.name))
      || (c.email.Some? && IsSubstring(Lower(s), Lower(c.email.value)))
      || (c.company.Some? && IsSubstring(Lower(s), Lower(c.company.value)))
  {
    SearchPatternIsSubstring(s, c.name);
    if c.email.Some? {
      SearchPatternIsSubstring(s, c.email.value);
    }
    if c.company.Some? {
      SearchPatternIsSubstring(s, c.company.value);
    }
  }

  /** A search result is part of the full listing. */
  lemma SearchWithinAll(db: Db, search: Option<string>)
    ensures multiset(ListCustomers(db, search)) <= multiset(ListCustomers(db, None))
  {
  }

  lemma DistinctCount<T>(s: seq<T>, x: T)
    requires forall i, j :: 0 <= i < j < |s| ==> s[i] != s[j]
    ensures multiset(s)[x] <= 1
  {
    if |s| > 0 {
      assert s == [s[0]] + s[1..];
      DistinctCount(s[1..], x);
      if s[0] == x {
        assert x !in s[1..];
      }
    }
  }

  lemma RepeatCount<T>(s: seq<T>, i: int, j: int)
    requires 0 <= i < j < |s| && s[i] == s[j]
    ensures multiset(s)[s[i]] >= 2
  {
    assert s == s[..j] + [s[j]] + s[j + 1..];
    assert s[i] in s[..j];
  }

  /** In a valid store every customer appears at most once in a listing. */
  lemma ListedAtMostOnce(db: Db, search: Option<string>)
    requires Valid(db)
    ensures var r := ListCustomers(db, search);
      forall i, j :: 0 <= i < j < |r| ==> r[i].id != r[j].id
  {
    var r := ListCustomers(db, search);
    forall i, j | 0 <= i < j < |r|
      ensures r[i].id != r[j].id
    {
      assert forall c :: multiset(r)[c] <= multiset(db.customers)[c];
      NotRepeated(db, r, i, j);
    }
  }

  /** Two entries of a sub-multiset of a valid store's customers have
      different ids. */
  lemma NotRepeated(db: Db, r: seq<Customer>, i: int, j: int)
    requires Valid(db)
    requires forall c :: multiset(r)[c] <= multiset(db.customers)[c]
    requires 0 <= i < j < |r|
    ensures r[i].id != r[j].id
  {
    assert r[i] in multiset(db.customers) && r[j] in multiset(db.customers);
    if r[i].id == r[j].id {
      var a :| 0 <= a < |db.customers| && db.customers[a] == r[i];
      var b :| 0 <= b < |db.customers| && db.customers[b] == r[j];
      assert a == b;
      RepeatCount(r, i, j);
      DistinctCount(db.customers, r[i]);
    }
  }

  /** With a clock that moved on since the customer's last interaction, the
      interaction just added heads `list_interactions`. */
  lemma NewestFirst(db: Db, cid: int, kind: string, notes: Option<string>, now: Stamp)
    requires forall x :: x in db.interactions && x.customerId == cid ==> x.createdAt < now
    ensures var r := AddInteraction(db, Some(cid), Some(kind), notes, now);
      r.result.Success? ==>
        && ListInteractions(r.db, cid).Success?
        && ListInteractions(r.db, cid).value[0] == Interaction(r.result.value, cid, kind, notes, now)
  {
    var r := AddInteraction(db, Some(cid), Some(kind), notes, now);
    if r.result.Success? {
      var x := Interaction(r.result.value, cid, kind, notes, now);
      var l := ListInteractions(r.db, cid).value;
      assert x in r.db.interactions;
      assert multiset(l)[x] > 0;
      var k :| 0 <= k < |l| && l[k] == x;
      assert l[0] in multiset(l);
      assert l[0] in r.db.interactions;
      assert l[0].createdAt >= now;
    }
  }

  ghost function SomeKey(m: map<string, nat>): (k: string)
    requires |m| > 0
    ensures k in m
  {
    assert m.Keys != {};
    var k :| k in m;
    k
  }

  /** The sum of a map's values. */
  ghost function MapSum(m: map<string, nat>): nat
    decreases |m|
  {
    if |m| == 0 then 0
    else
      var k := SomeKey(m);
      assert (m - {k}).Keys == m.Keys - {k};
      m[k] + MapSum(m - {k})
  }

  lemma {:induction false} MapSumRemove(m: map<string, nat>, k: string)
    requires k in m
    ensures MapSum(m) == m[k] + MapSum(m - {k})
    decreases |m|
  {
    var k' := SomeKey(m);
    if k' != k {
      assert (m - {k'}).Keys == m.Keys - {k'};
      assert (m - {k}).Keys == m.Keys - {k};
      MapSumRemove(m - {k'}, k);
      MapSumRemove(m - {k}, k');
      assert m - {k'} - {k} == m - {k} - {k'};
    }
  }

  lemma MapSumBump(m: map<string, nat>, k: string)
    ensures MapSum(m[k := (if k in m then m[k] else 0) + 1]) == MapSum(m) + 1
  {
    var m' := m[k := (if k in m then m[k] else 0) + 1];
    MapSumRemove(m', k);
    if k in m {
      MapSumRemove(m, k);
      assert m' - {k} == m - {k};
    } else {
      assert m' - {k} == m;
    }
  }

  /** The per-type counts add up to the number of interactions counted. */
  lemma {:induction false} CountsSumToLength(xs: seq<Interaction>)
    ensures MapSum(CountByKind(xs)) == |xs|
    decreases |xs|
  {
    if |xs| > 0 {
      var init := xs[..|xs| - 1];
      CountsSumToLength(init);
      MapSumBump(CountByKind(init), xs[|xs| - 1].kind);
    }
  }

  lemma RemoveOne<T>(s: seq<T>, j: int)
    requires 0 <= j < |s|
    ensures multiset(s) == multiset(s[..j] + s[j + 1..]) + multiset{s[j]}
  {
    assert s == s[..j] + [s[j]] + s[j + 1..];
  }

  lemma Cancel<T>(a: multiset<T>, b: multiset<T>, x: T)
    requires a + multiset{x} == b + multiset{x}
    ensures a == b
  {
    forall y
      ensures a[y] == b[y]
    {
      assert (a + multiset{x})[y] == (b + multiset{x})[y];
    }
  }

  lemma KindsRemoveOne(s: seq<Interaction>, j: int)
    requires 0 <= j < |s|
    ensures multiset(Kinds(s)) == multiset(Kinds(s[..j] + s[j + 1..])) + multiset{s[j].kind}
  {
    var ks := Kinds(s);
    RemoveOne(ks, j);
    assert ks[..j] + ks[j + 1..] == Kinds(s[..j] + s[j + 1..]);
  }

  lemma IndexOf<T>(s: seq<T>, x: T) returns (j: int)
    requires x in multiset(s)
    ensures 0 <= j < |s| && s[j] == x
  {
    j :| 0 <= j < |s| && s[j] == x;
  }

  /** Reordering interactions does not change how often each type occurs. */
  lemma {:induction false} KindsOfPermutation(a: seq<Interaction>, b: seq<Interaction>)
    requires multiset(a) == multiset(b)
    ensures multiset(Kinds(a)) == multiset(Kinds(b))
    decreases |a|
  {
    if |a| > 0 {
      assert a[0] in multiset(b);
      var j := IndexOf(b, a[0]);
      PermutedTails(a, b, j);
      KindsOfPermutation(a[1..], b[..j] + b[j + 1..]);
      KindsPeeled(a, b, j);
    }
  }

  /** Taking the same element out of two permutations leaves permutations. */
  lemma PermutedTails<T>(a: seq<T>, b: seq<T>, j: int)
    requires multiset(a) == multiset(b) && |a| > 0
    requires 0 <= j < |b| && b[j] == a[0]
    ensures multiset(a[1..]) == multiset(b[..j] + b[j + 1..])
  {
    assert a[..0] + a[1..] == a[1..];
    RemoveOne(a, 0);
    RemoveOne(b, j);
    Cancel(multiset(a[1..]), multiset(b[..j] + b[j + 1..]), a[0]);
  }

  /** One step of the induction: equal type counts on the tails give equal
      counts on the whole. */
  lemma KindsPeeled(a: seq<Interaction>, b: seq<Interaction>, j: int)
    requires |a| > 0 && 0 <= j < |b| && b[j] == a[0]
    requires multiset(Kinds(a[1..])) == multiset(Kinds(b[..j] + b[j + 1..]))
    ensures multiset(Kinds(a)) == multiset(Kinds(b))
  {
    var k := a[0].kind;
    assert Kinds(a) == [k] + Kinds(a[1..]);
    assert multiset(Kinds(b)) == multiset(Kinds(b[..j] + b[j + 1..])) + multiset{k} by {
      KindsRemoveOne(b, j);
    }
  }

  /** The summary agrees with the listing: both refuse the same ids; each
      count is the number of listed interactions of that type, and the
      counts add up to the length of the listing. */
  lemma SummaryMatchesListing(db: Db, cid: int)
    ensures CustomerSummary(db, cid).Failure? <==> ListInteractions(db, cid).Failure?
    ensures var s := CustomerSummary(db, cid);
      var l := ListInteractions(db, cid);
      s.Success? && s.value.Some? ==>
        var counts := s.value.value.counts;
        && (forall k :: k in counts ==> counts[k] == multiset(Kinds(l.value))[k])
        && (forall x :: x in l.value ==> x.kind in counts)
        && MapSum(counts) == |l.value|
  {
    var s := CustomerSummary(db, cid);
    if s.Success? && s.value.Some? {
      var l := ListInteractions(db, cid).value;
      var mine := OfCustomer(db.interactions, cid);
      assert multiset(l) == multiset(mine);
      KindsOfPermutation(l, mine);
      CountsSumToLength(mine);
      assert |multiset(l)| == |multiset(mine)|;
      forall x | x in l
        ensures x.kind in s.value.value.counts
      {
        assert x in multiset(l);
      }
    }
  }

  /** An id outside SQLite's 64-bit INTEGER is refused before the table is
      consulted, even when the table is also full. */
  lemma HugeIdRefused(db: Db)
    ensures AddInteraction(db, Some(MaxRowId + 1), Some("call"), None, 0) == Reply(db, Failure(Overflow))
    ensures AddInteraction(db, Some(MinInteger - 1), Some("call"), None, 0) == Reply(db, Failure(Overflow))
    ensures GetCustomer(db, MaxRowId + 1) == Failure(Overflow)
    ensures ListInteractions(db, MinInteger - 1) == Failure(Overflow)
  {
  }

  // ---- crm/tests/test_database.py ----

  lemma CustomerAppended(db: Db, name: string, email: Option<string>, phone: Option<string>, company: Option<string>)
    requires db.customerSeq < MaxRowId && (email.Some? ==> !EmailTaken(db.customers, email.value))
    ensures var r := AddCustomer(db, Some(name), email, phone, company);
      && r.db.customers == db.customers + [Customer(db.customerSeq + 1, name, email, phone, company)]
      && r.db.customerSeq == db.customerSeq + 1
      && r.db.interactions == db.interactions && r.db.interactionSeq == db.interactionSeq
  {
  }

  lemma InteractionAppended(db: Db, cid: int, kind: string, notes: Option<string>, now: Stamp)
    requires db.interactionSeq < MaxRowId && FitsInteger(cid)
    ensures var r := AddInteraction(db, Some(cid), Some(kind), notes, now);
      && r.db.interactions == db.interactions + [Interaction(db.interactionSeq + 1, cid, kind, notes, now)]
      && r.db.interactionSeq == db.interactionSeq + 1
      && r.db.customers == db.customers && r.db.customerSeq == db.customerSeq
  {
  }

  const Alice := Customer(1, "Alice", Some("alice@example.com"), Some("123"), Some("ACME"))

  /** test_add_and_get_customer */
  lemma AddAndGetScenario()
    ensures var r := AddCustomer(Empty, Some("Alice"), Some("alice@example.com"), Some("123"), Some("ACME"));
      r.result == Success(1) && GetCustomer(r.db, 1) == Success(Some(Alice))
  {
    EmptyIsValid();
    CustomerAppended(Empty, "Alice", Some("alice@example.com"), Some("123"), Some("ACME"));
    AddThenGet(Empty, "Alice", Some("alice@example.com"), Some("123"), Some("ACME"));
  }

  /** A sequence holding exactly one element, once. */
  lemma SingleOf<T>(l: seq<T>, c: T)
    requires multiset(l) == multiset{c}
    ensures l == [c]
  {
    assert |l| == |multiset(l)| == 1;
    assert l[0] in multiset(l);
  }

  /** A sequence holding exactly two distinct elements, once each. */
  lemma PairOf<T>(l: seq<T>, a: T, b: T)
    requires multiset(l) == multiset{a, b} && a != b
    ensures l == [a, b] || l == [b, a]
  {
    assert |l| == |multiset(l)| == 2;
    assert l == [l[0], l[1]];
    assert multiset(l) == multiset{l[0], l[1]};
  }

  /** A listing holds exactly the one selected customer. */
  lemma OnlyMatch(db: Db, search: Option<string>, c: Customer)
    requires multiset(db.customers)[c] == 1 && Selected(c, search)
    requires forall d :: d in db.customers && d != c ==> !Selected(d, search)
    ensures ListCustomers(db, search) == [c]
  {
    var r := ListCustomers(db, search);
    assert multiset(r) == multiset{c} by {
      forall d ensures multiset(r)[d] == multiset{c}[d] {
        if d != c && d in db.customers {
          assert !Selected(d, search);
        }
      }
    }
    SingleOf(r, c);
  }

  /** An unfiltered listing of two customers, the first strictly before the
      second in name order. */
  lemma TwoInOrder(db: Db, a: Customer, b: Customer)
    requires db.customers == [a, b] && !NameLeq(b, a)
    ensures ListCustomers(db, None) == [a, b]
  {
    var r := ListCustomers(db, None);
    assert a != b by {
      NameOrderIsTotal();
    }
    assert multiset(r) == multiset{a, b};
    PairOf(r, a, b);
    assert NameLeq(r[0], r[1]);
  }

  const AliceSmith := Customer(1, "Alice Smith", Some("alice@example.com"), None, None)
  const BobJohnson := Customer(2, "Bob Johnson", None, None, Some("Beta Corp"))

  function TwoCustomers(): Db
  {
    AddCustomer(AddCustomer(Empty, Some("Alice Smith"), Some("alice@example.com"), None, None).db,
                Some("Bob Johnson"), None, None, Some("Beta Corp")).db
  }

  /** The first customer of a fresh database gets id 1. */
  lemma FirstCustomer(name: string, email: Option<string>, phone: Option<string>, company: Option<string>)
    ensures AddCustomer(Empty, Some(name), email, phone, company).db ==
      Db([Customer(1, name, email, phone, company)], [], 1, 0)
  {
    CustomerAppended(Empty, name, email, phone, company);
  }

  /** A second customer, with no clashing email, gets id 2. */
  lemma SecondCustomer(db: Db, c: Customer, name: string, email: Option<string>,
                       phone: Option<string>, company: Option<string>)
    requires db == Db([c], [], 1, 0) && (email.Some? ==> c.email != email)
    ensures AddCustomer(db, Some(name), email, phone, company).db ==
      Db([c, Customer(2, name, email, phone, company)], [], 2, 0)
  {
    CustomerAppended(db, name, email, phone, company);
  }

  lemma TwoCustomersStored()
    ensures TwoCustomers().customers == [AliceSmith, BobJohnson]
  {
    FirstCustomer("Alice Smith", Some("alice@example.com"), None, None);
    SecondCustomer(Db([AliceSmith], [], 1, 0), AliceSmith, "Bob Johnson", None, None, Some("Beta Corp"));
  }

  lemma NoLetterA(t: string)
    requires forall i :: 0 <= i < |t| ==> LowerChar(t[i]) != 'a'
    ensures !IsSubstring(Lower("Alice"), Lower(t))
  {
    forall i | 0 <= i <= |Lower(t)|
      ensures !OccursAt(Lower("Alice"), Lower(t), i)
    {
      if i + 5 <= |t| {
        assert Lower(t)[i..i + 5][0] == LowerChar(t[i]);
      }
    }
  }

  lemma AliceSelection()
    ensures Selected(AliceSmith, Some("Alice"))
    ensures !Selected(BobJohnson, Some("Alice"))
  {
    assert NoWildcards("Alice");
    SearchIsSubstring(AliceSmith, "Alice");
    SearchIsSubstring(BobJohnson, "Alice");
    assert OccursAt(Lower("Alice"), Lower("Alice Smith"), 0);
    NoLetterA("Bob Johnson");
    var company := "Beta Corp";
    forall i | 0 <= i <= |Lower(company)|
      ensures !OccursAt(Lower("Alice"), Lower(company), i)
    {
      if i + 5 <= |company| {
        assert Lower(company)[i..i + 5][0] == LowerChar(company[i]);
        assert Lower(company)[i..i + 5][1] == LowerChar(company[i + 1]);
      }
    }
  }

  lemma AliceFound(db: Db)
    requires db.customers == [AliceSmith, BobJohnson]
    ensures ListCustomers(db, Some("Alice")) == [AliceSmith]
  {
    AliceSelection();
    assert multiset(db.customers)[AliceSmith] == 1;
    OnlyMatch(db, Some("Alice"), AliceSmith);
  }

  lemma AliceBeforeBob(db: Db)
    requires db.customers == [AliceSmith, BobJohnson]
    ensures ListCustomers(db, None) == [AliceSmith, BobJohnson]
  {
    assert !NameLeq(BobJohnson, AliceSmith) by {
      assert Lower(BobJohnson.name)[0] == 'b' && Lower(AliceSmith.name)[0] == 'a';
    }
    TwoInOrder(db, AliceSmith, BobJohnson);
  }

  /** test_list_customers_search, and the unfiltered listing in name order. */
  lemma SearchScenario()
    ensures ListCustomers(TwoCustomers(), Some("Alice")) == [AliceSmith]
    ensures ListCustomers(TwoCustomers(), None) == [AliceSmith, BobJohnson]
  {
    TwoCustomersStored();
    AliceFound(TwoCustomers());
    AliceBeforeBob(TwoCustomers());
  }

  const Charlie := Customer(1, "Charlie", None, None, None)

  /** The two interactions of test_interactions_and_summary, stamped with
      the clock readings `CURRENT_TIMESTAMP` took. */
  function CallAt(now: Stamp): Interaction
  {
    Interaction(1, 1, "call", Some("Initial call"), now)
  }

  function EmailAt(now: Stamp): Interaction
  {
    Interaction(2, 1, "email", None, now)
  }

  function CharlieDb(now1: Stamp, now2: Stamp): Db
  {
    var r := AddCustomer(Empty, Some("Charlie"), None, None, None);
    var r1 := AddInteraction(r.db, Some(1), Some("call"), Some("Initial call"), now1);
    AddInteraction(r1.db, Some(1), Some("email"), None, now2).db
  }

  /** An interaction added to a state with none gets id 1. */
  lemma FirstInteraction(db: Db, cid: int, kind: string, notes: Option<string>, now: Stamp)
    requires db.interactions == [] && db.interactionSeq == 0 && FitsInteger(cid)
    ensures AddInteraction(db, Some(cid), Some(kind), notes, now).db ==
      db.(interactions := [Interaction(1, cid, kind, notes, now)], interactionSeq := 1)
  {
    InteractionAppended(db, cid, kind, notes, now);
  }

  /** An interaction added after exactly one other gets id 2. */
  lemma SecondInteraction(db: Db, x: Interaction, cid: int, kind: string, notes: Option<string>, now: Stamp)
    requires db.interactions == [x] && db.interactionSeq == 1 && FitsInteger(cid)
    ensures AddInteraction(db, Some(cid), Some(kind), notes, now).db ==
      db.(interactions := [x, Interaction(2, cid, kind, notes, now)], interactionSeq := 2)
  {
    InteractionAppended(db, cid, kind, notes, now);
  }

  lemma CharlieStored(now1: Stamp, now2: Stamp)
    ensures CharlieDb(now1, now2).customers == [Charlie]
    ensures CharlieDb(now1, now2).interactions == [CallAt(now1), EmailAt(now2)]
  {
    FirstCustomer("Charlie", None, None, None);
    FirstInteraction(Db([Charlie], [], 1, 0), 1, "call", Some("Initial call"), now1);
    SecondInteraction(Db([Charlie], [CallAt(now1)], 1, 1), CallAt(now1), 1, "email", None, now2);
  }

  /** Both interactions are listed, in one order or the other; a call
      followed by a later email is listed email first. */
  lemma CallThenEmailListing(db: Db, now1: Stamp, now2: Stamp)
    requires db.interactions == [CallAt(now1), EmailAt(now2)]
    ensures ListInteractions(db, 1).Success?
    ensures ListInteractions(db, 1).value == [CallAt(now1), EmailAt(now2)] ||
            ListInteractions(db, 1).value == [EmailAt(now2), CallAt(now1)]
    ensures now1 < now2 ==> ListInteractions(db, 1).value == [EmailAt(now2), CallAt(now1)]
  {
    var l := ListInteractions(db, 1).value;
    assert multiset(l) == multiset{CallAt(now1), EmailAt(now2)};
    PairOf(l, CallAt(now1), EmailAt(now2));
    assert l[0].createdAt >= l[1].createdAt;
  }

  /** The types among two interactions of the same customer. */
  lemma KindsOfTwo(xs: seq<Interaction>, a: Interaction, b: Interaction, cid: int)
    requires xs == [a, b] && a.customerId == cid && b.customerId == cid
    ensures (set x | x in xs && x.customerId == cid :: x.kind) == {a.kind, b.kind}
  {
    assert a in xs && b in xs;
  }

  lemma CallThenEmailKinds(db: Db, now1: Stamp, now2: Stamp)
    requires Charlie in db.customers
    requires db.interactions == [CallAt(now1), EmailAt(now2)]
    ensures CustomerSummary(db, 1).Success? && CustomerSummary(db, 1).value.Some?
    ensures CustomerSummary(db, 1).value.value.counts.Keys == {"call", "email"}
  {
    KindsOfTwo(db.interactions, CallAt(now1), EmailAt(now2), 1);
  }

  /** Two interactions of one customer, of different types: each type
      occurs once among the customer's interactions. */
  lemma CountsOfTwo(xs: seq<Interaction>, a: Interaction, b: Interaction, cid: int)
    requires xs == [a, b] && a.customerId == cid && b.customerId == cid && a.kind != b.kind
    ensures multiset(Kinds(OfCustomer(xs, cid)))[a.kind] == 1
    ensures multiset(Kinds(OfCustomer(xs, cid)))[b.kind] == 1
  {
    assert xs[1..] == [b] && xs[1..][1..] == [];
    assert OfCustomer(xs, cid) == [a, b];
    assert Kinds([a, b]) == [a.kind, b.kind];
  }

  lemma CallThenEmailCounts(db: Db, now1: Stamp, now2: Stamp)
    requires Charlie in db.customers
    requires db.interactions == [CallAt(now1), EmailAt(now2)]
    ensures CustomerSummary(db, 1).Success? && CustomerSummary(db, 1).value.Some?
    ensures var m := CustomerSummary(db, 1).value.value.counts;
      && ("call" in m ==> m["call"] == 1)
      && ("email" in m ==> m["email"] == 1)
  {
    CountsOfTwo(db.interactions, CallAt(now1), EmailAt(now2), 1);
  }

  /** The summary of a customer with one call and one email. */
  lemma CallThenEmailSummary(db: Db, now1: Stamp, now2: Stamp)
    requires Charlie in db.customers
    requires db.interactions == [CallAt(now1), EmailAt(now2)]
    ensures CustomerSummary(db, 1).Success? && CustomerSummary(db, 1).value.Some?
    ensures CustomerSummary(db, 1).value.value.counts == map["call" := 1, "email" := 1]
  {
    var m := CustomerSummary(db, 1).value.value.counts;
    assert m.Keys == {"call", "email"} by {
      CallThenEmailKinds(db, now1, now2);
    }
    assert m["call"] == 1 && m["email"] == 1 by {
      CallThenEmailCounts(db, now1, now2);
    }
    MapOfTwo(m, "call", "email", 1, 1);
  }

  lemma MapOfTwo(m: map<string, nat>, a: string, b: string, va: nat, vb: nat)
    requires m.Keys == {a, b} && a in m && b in m && m[a] == va && m[b] == vb
    ensures m == map[a := va, b := vb]
  {
  }

  /** test_interactions_and_summary, for any two clock readings: both
      interactions are listed (newest first when the second is later), and
      the summary is customer 1 with one call and one email. */
  lemma InteractionsScenario(now1: Stamp, now2: Stamp)
    ensures var l := ListInteractions(CharlieDb(now1, now2), 1);
      && l.Success? && |l.value| == 2
      && (now1 < now2 ==> l.value == [EmailAt(now2), CallAt(now1)])
    ensures var s := CustomerSummary(CharlieDb(now1, now2), 1);
      && s.Success? && s.value.Some?
      && s.value.value.customer.id == 1
      && s.value.value.counts == map["call" := 1, "email" := 1]
  {
    CharlieStored(now1, now2);
    CallThenEmailListing(CharlieDb(now1, now2), now1, now2);
    CallThenEmailSummary(CharlieDb(now1, now2), now1, now2);
  }
}
