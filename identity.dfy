/**
 * The description-to-id map of one run (ndcNpdMap, LoadNadac.java line 80)
 * together with the state of the id generator. Util.generateId is not part of
 * this model; it is stood in for by a counter, so "the generator returns an
 * id not in use" becomes the invariant Fresh.
 */
module Identity {

  type Id = nat

  datatype Identities = Identities(ids: map<string, Id>, nextId: Id) {

    /** Every id in use is below nextId, and no two descriptions share an id. */
    ghost predicate Fresh() {
      && (forall d :: d in ids ==> ids[d] < nextId)
      && (forall d1, d2 :: d1 in ids && d2 in ids && ids[d1] == ids[d2] ==> d1 == d2)
    }

    /** containsKey / put(description, generateId()) of lines 91-93. */
    function Resolve(description: string): (r: Identities)
      ensures description in r.ids
      ensures r.ids.Keys == ids.Keys + {description}
      ensures forall d :: d in ids ==> r.ids[d] == ids[d]
      ensures description !in ids ==> r.ids[description] == nextId && r.nextId == nextId + 1
      ensures description in ids ==> r == this
    {
      if description in ids then this else Identities(ids[description := nextId], nextId + 1)
    }
  }

  /** Resolving keeps ids unique, and an id handed out for a new description clashes with no earlier one. */
  lemma ResolveKeepsFresh(m: Identities, description: string)
    requires m.Fresh()
    ensures m.Resolve(description).Fresh()
    ensures description !in m.ids ==>
      forall d :: d in m.ids ==> m.Resolve(description).ids[description] != m.ids[d]
  {
    var r := m.Resolve(description);
    if description !in m.ids {
      forall d1, d2 | d1 in r.ids && d2 in r.ids && r.ids[d1] == r.ids[d2]
        ensures d1 == d2
      {
        if d1 != description && d2 != description {
          assert m.ids[d1] == m.ids[d2];
        }
      }
    }
  }

  /** Two descriptions resolved one after the other get the same id exactly when they are equal. */
  lemma ResolveSameIdIffSameDescription(m: Identities, d1: string, d2: string)
    requires m.Fresh()
    ensures var r := m.Resolve(d1).Resolve(d2);
      r.ids[d1] == r.ids[d2] <==> d1 == d2
  {
    ResolveKeepsFresh(m, d1);
    ResolveKeepsFresh(m.Resolve(d1), d2);
  }
}
