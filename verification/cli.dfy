/**
 The one piece of logic crm/cli.py adds on top of the store: `add-interaction`
 looks the customer up first and reports "Customer not found." instead of
 inserting. Because SQLite leaves the FOREIGN KEY clause unenforced, that
 look-up is the only thing keeping interactions attached to real customers.
 */
module Cli {
  import opened Wrappers
  import opened Store

  predicate HasCustomer(cs: seq<Customer>, id: int)
  {
    exists c :: c in cs && c.id == id
  }

  /** Every interaction names a stored customer: what an enforced FOREIGN
      KEY would guarantee. */
  predicate Referential(db: Db)
  {
    forall x :: x in db.interactions ==> HasCustomer(db.customers, x.customerId)
  }

  /** How `add-interaction` ends: the "Customer not found." exit, the
      store's reply, or the error the look-up raised. */
  datatype Outcome = NotFound | Saved(reply: Reply<int>) | Raised(error: DbError)

  /** The `add-interaction` command. argparse makes `customer_id` an int
      of any size and `--type` required, so neither can be NULL here; an
      id outside SQLite's 64-bit range makes the look-up itself raise. */
  function GuardedAddInteraction(db: Db, cid: int, kind: string, notes: Option<string>,
                                 now: Stamp): (r: Outcome)
    ensures r.Raised? <==> !FitsInteger(cid)
    ensures r.Raised? ==> r.error == Overflow
    ensures r.NotFound? <==> FitsInteger(cid) && !HasCustomer(db.customers, cid)
    ensures r.Saved? ==> r.reply == AddInteraction(db, Some(cid), Some(kind), notes, now)
    ensures r.Saved? ==> (r.reply.result.Success? <==> db.interactionSeq < MaxRowId)
    ensures Referential(db) && r.Saved? ==> Referential(r.reply.db)
  {
    match GetCustomer(db, cid)
    case Failure(e) => Raised(e)
    case Success(None) => NotFound
    case Success(Some(_)) => Saved(AddInteraction(db, Some(cid), Some(kind), notes, now))
  }

  /** Adding a customer never detaches an interaction. */
  lemma {:induction false} AddCustomerKeepsReferences(db: Db, name: Option<string>, email: Option<string>,
                                                     phone: Option<string>, company: Option<string>)
    requires Referential(db)
    ensures Referential(AddCustomer(db, name, email, phone, company).db)
  {
    var r := AddCustomer(db, name, email, phone, company);
    if r.result.Success? {
      forall x | x in r.db.interactions
        ensures HasCustomer(r.db.customers, x.customerId)
      {
        assert HasCustomer(db.customers, x.customerId);
        var c :| c in db.customers && c.id == x.customerId;
        assert c in r.db.customers;
      }
    }
  }

  /** Without the guard the store accepts an interaction for a customer id
      that does not exist, and the state stops being referential. */
  lemma OrphanInteraction()
    ensures AddInteraction(Empty, Some(7), Some("call"), None, 0).result == Success(1)
    ensures !Referential(AddInteraction(Empty, Some(7), Some("call"), None, 0).db)
  {
    var r := AddInteraction(Empty, Some(7), Some("call"), None, 0);
    assert r.db.interactions[0] in r.db.interactions;
  }

  /** The guard turns the same call into the not-found exit. */
  lemma GuardRefusesOrphan()
    ensures GuardedAddInteraction(Empty, 7, "call", None, 0) == NotFound
  {
  }

  /** An id one past the largest INTEGER never reaches the store: the
      look-up raises OverflowError. */
  lemma GuardRaisesOnHugeId()
    ensures GuardedAddInteraction(Empty, MaxRowId + 1, "call", None, 0) == Raised(Overflow)
  {
  }
}
