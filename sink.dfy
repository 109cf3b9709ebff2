/**
 * The transaction-state effects of the persistence session the loader drives
 * (HibernateUtil.startSession, save, getTransaction().commit(),
 * beginTransaction(), isActive(), rollback(), close()). Records saved in the
 * open transaction are pending; a commit makes them durable as one batch, a
 * rollback drops them.
 */
module Sink {
  import opened Records

  class Session {
    /** Durable records, in the order they were saved. */
    var committed: seq<DrugPrice>
    /** Records saved in the open transaction and not yet committed. */
    var pending: seq<DrugPrice>
    /** The size of every commit so far, in order. */
    var batches: seq<nat>
    var active: bool
    var open: bool

    /** A new session with its transaction already begun. */
    constructor Start()
      ensures committed == [] && pending == [] && batches == []
      ensures active && open
    {
      committed, pending, batches := [], [], [];
      active, open := true, true;
    }

    method Save(dp: DrugPrice)
      requires open && active
      modifies this
      ensures pending == old(pending) + [dp]
      ensures committed == old(committed) && batches == old(batches)
      ensures active && open
    {
      pending := pending + [dp];
    }

    method Commit()
      requires open && active
      modifies this
      ensures committed == old(committed) + old(pending) && pending == []
      ensures batches == old(batches) + [|old(pending)|]
      ensures !active && open
    {
      committed, batches := committed + pending, batches + [|pending|];
      pending := [];
      active := false;
    }

    method BeginTransaction()
      requires open && !active
      modifies this
      ensures committed == old(committed) && pending == old(pending) && batches == old(batches)
      ensures active && open
    {
      active := true;
    }

    method IsActive() returns (b: bool)
      requires open
      ensures b == active
    {
      b := active;
    }

    method Rollback()
      requires open && active
      modifies this
      ensures committed == old(committed) && pending == [] && batches == old(batches)
      ensures !active && open
    {
      pending := [];
      active := false;
    }

    method Close()
      requires open
      modifies this
      ensures committed == old(committed) && pending == old(pending) && batches == old(batches)
      ensures active == old(active) && !open
    {
      open := false;
    }
  }
}
