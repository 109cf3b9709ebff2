/**
 * LoadNadac.loadNADAC as the imperative run it is: a loop over the rows that
 * updates the description-to-id map, the saved-items counter and the
 * session's transaction, proved to end in the state Pipeline.Ingest gives.
 * The map and the counter are locals of the run in the source; here they are
 * fields reset when a run with a wholesaler begins. The id generator's state
 * is a field that persists across runs.
 */
module Loader {
  import opened Wrappers
  import opened Normalize
  import opened Identity
  import opened Records
  import opened Sink
  import opened Pipeline

  class LoadNadac {
    var ndcNpdMap: map<string, Id>
    var nextId: Id
    var itemsSaved: int32
    /**
     * The position of the next row in the stream. The source keeps no row
     * index; the model keeps one to name the failing row in the Failure it
     * returns.
     */
    var rowsRead: nat
    /** Every record handed to save in the current run, and the row each came from. */
    ghost var saved: seq<DrugPrice>
    ghost var origins: seq<nat>

    ghost function Snapshot(session: Session): RunState
      reads this, session
    {
      RunState(Identities(ndcNpdMap, nextId), itemsSaved, saved, origins, rowsRead,
               session.committed, session.pending, session.batches)
    }

    constructor (firstId: Id)
      ensures ndcNpdMap == map[] && nextId == firstId && itemsSaved == 0 && rowsRead == 0
      ensures saved == [] && origins == []
    {
      ndcNpdMap, nextId, itemsSaved, rowsRead := map[], firstId, 0, 0;
      saved, origins := [], [];
    }

    /** Util.generateId: an id never handed out before. */
    method GenerateId() returns (id: Id)
      modifies this`nextId
      ensures id == old(nextId) && nextId == old(nextId) + 1
    {
      id := nextId;
      nextId := nextId + 1;
    }

    /** Lines 91-93 and the ndcNpdMap.get of line 98. */
    method Resolve(description: string) returns (npdId: Id)
      modifies this`ndcNpdMap, this`nextId
      ensures Identities(ndcNpdMap, nextId) == old(Identities(ndcNpdMap, nextId)).Resolve(description)
      ensures description in ndcNpdMap && npdId == ndcNpdMap[description]
    {
      if description !in ndcNpdMap {
        var id := GenerateId();
        ndcNpdMap := ndcNpdMap[description := id];
      }
      npdId := ndcNpdMap[description];
    }

    /** One row through the stream's three stages and the forEach consumer (lines 85-148). */
    method ProcessRow(row: Row, o: Oracles, postId: PostId, session: Session) returns (failure: Option<Failure>)
      requires session.open && session.active
      modifies this, session
      ensures session.open && session.active
      ensures match Step(old(Snapshot(session)), row, o, postId)
        case Running(t) => failure == None && Snapshot(session) == t
        case Stopped(c, t) => failure == Some(c) && Snapshot(session) == t
    {
      ghost var s0 := Snapshot(session);
      if |row| <= NDC_DESCRIPTION {
        assert Step(s0, row, o, postId) == Stopped(ShortRow(rowsRead), s0);
        return Some(ShortRow(rowsRead));
      }
      var description := NormalizeDescription(row[NDC_DESCRIPTION]);
      var npdId := Resolve(description);
      ghost var s1 := s0.(identities := s0.identities.Resolve(description));
      assert Snapshot(session) == s1;
      if |row| <= PRICING_UNIT {
        assert Step(s0, row, o, postId) == Stopped(ShortRow(rowsRead), s1);
        return Some(ShortRow(rowsRead));
      }
      var item := Itemize(row, description, npdId);
      match BuildRecord(item, o)
      case PriceUnparseable =>
        assert Step(s0, row, o, postId) == Stopped(BadPrice(rowsRead), s1);
        failure := Some(BadPrice(rowsRead));
      case ConstructorFailed =>
        assert Step(s0, row, o, postId) == Running(s1.(rowsRead := rowsRead + 1));
        rowsRead := rowsRead + 1;
        failure := None;
      case Record(dp) =>
        var record := dp.(postId := Some(postId));
        assert Step(s0, row, o, postId) == Running(SaveRecord(s1, record));
        session.Save(record);
        saved, origins := saved + [record], origins + [rowsRead];
        rowsRead := rowsRead + 1;
        itemsSaved := Inc32(itemsSaved);
        if JavaRem(itemsSaved as int, COMMIT_BOUNDARY) == 0 {
          session.Commit();
          session.BeginTransaction();
        }
        failure := None;
    }

    /**
     * loadNADAC. wholesaler is what the lookup by name returned, input the
     * fetched rows (None: the fetch threw), postSave what saveAtomic gave the
     * post (None: it threw), now the clock reading for the post's default date.
     * Returns the session it opened, closed, or null when there was no wholesaler.
     */
    method Load(wholesaler: Option<Wholesaler>, now: int, input: Option<seq<Row>>,
                postSave: Option<PostId>, o: Oracles)
      returns (outcome: Outcome, post: Option<Post>, session: Session?)
      modifies this
      ensures var r := Ingest(wholesaler, now, input, postSave, o, old(nextId));
        && outcome == r.outcome && post == r.post
        && (wholesaler.None? ==> session == null && unchanged(this))
        && (wholesaler.Some? ==>
              session != null && fresh(session) && !session.open && !session.active
              && Snapshot(session) == r.final)
    {
      if wholesaler.None? {
        return NoWholesaler, None, null;
      }
      ndcNpdMap, itemsSaved, rowsRead := map[], 0, 0;
      saved, origins := [], [];
      ghost var start := Initial(nextId);
      session := new Session.Start();
      assert Snapshot(session) == start;
      var failure: Option<Failure> := None;
      post := None;
      if input.None? {
        failure := Some(StreamUnavailable);
      } else if postSave.None? {
        failure := Some(PostNotSaved);
      } else {
        var rows, postId := input.value, postSave.value;
        post := Some(Post(postId, wholesaler.value.id, now));
        var i := 0;
        while i < |rows| && failure.None?
          invariant 0 <= i <= |rows|
          invariant session.open && session.active
          invariant failure.None? ==> Process(start, rows[..i], o, postId) == Running(Snapshot(session))
          invariant failure.Some? ==> Process(start, rows[..i], o, postId) == Stopped(failure.value, Snapshot(session))
        {
          assert rows[..i + 1][..i] == rows[..i];
          failure := ProcessRow(rows[i], o, postId, session);
          i := i + 1;
        }
        if failure.None? {
          assert rows[..i] == rows;
          session.Commit();
        } else {
          StoppedPersists(start, rows, i, o, postId);
        }
      }
      if failure.Some? {
        var active := session.IsActive();
        if active {
          session.Rollback();
        }
        outcome := Aborted(failure.value);
      } else {
        outcome := Completed;
      }
      session.Close();
    }
  }
}
