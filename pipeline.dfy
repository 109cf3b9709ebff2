/**
 * The whole run of loadNADAC as a function of its inputs: rows flow one at a
 * time through description normalisation, id resolution, record building and
 * the batch committer. This is the specification the imperative loader in
 * module Loader is proved against, and the lemmas here state what a run
 * promises.
 */
module Pipeline {
  import opened Wrappers
  import opened Normalize
  import opened Identity
  import opened Records

  /** COMMIT_BOUNDARY: records per committed batch. */
  const COMMIT_BOUNDARY := 10000

  /** The exceptions that end a run early and reach the outer handler. */
  datatype Failure =
    | ShortRow(row: nat)      // CSVRecord.get on a row with fewer than five values
    | BadPrice(row: nat)      // Double.parseDouble on line 113
    | StreamUnavailable       // fetching the object on line 73
    | PostNotSaved            // saveAtomic(post) on line 83

  datatype Outcome = NoWholesaler | Completed | Aborted(cause: Failure)

  /**
   * The state of a run between rows. saved lists every record handed to save,
   * origins the index of the row each came from; committed, pending and
   * batches are the session's.
   */
  datatype RunState = RunState(
    identities: Identities,
    itemsSaved: int32,
    saved: seq<DrugPrice>,
    origins: seq<nat>,
    rowsRead: nat,
    committed: seq<DrugPrice>,
    pending: seq<DrugPrice>,
    batches: seq<nat>)

  datatype Progress = Running(state: RunState) | Stopped(cause: Failure, state: RunState)

  datatype LoadResult = LoadResult(outcome: Outcome, post: Option<Post>, final: RunState)

  function Initial(nextId: Id): RunState {
    RunState(Identities(map[], nextId), 0, [], [], 0, [], [], [])
  }

  /** getTransaction().commit() followed, while running, by beginTransaction(). */
  function Commit(s: RunState): (r: RunState)
    ensures r.committed + r.pending == s.committed + s.pending && r.pending == []
    ensures r.saved == s.saved && r.identities == s.identities && r.rowsRead == s.rowsRead
  {
    s.(committed := s.committed + s.pending, pending := [], batches := s.batches + [|s.pending|])
  }

  /** getTransaction().rollback(): the open transaction's records are dropped, the committed ones stay. */
  function Rollback(s: RunState): (r: RunState)
    ensures r.committed == s.committed && r.batches == s.batches && r.pending == []
    ensures r.saved == s.saved && r.identities == s.identities && r.rowsRead == s.rowsRead
  {
    s.(pending := [])
  }

  /** Lines 127-146: save, ++itemsSaved, and a commit when the counter is a multiple of the boundary. */
  function SaveRecord(s: RunState, dp: DrugPrice): (r: RunState)
    ensures r.saved == s.saved + [dp] && r.origins == s.origins + [s.rowsRead]
    ensures r.committed + r.pending == s.committed + s.pending + [dp]
    ensures r.itemsSaved == Inc32(s.itemsSaved) && r.rowsRead == s.rowsRead + 1 && r.identities == s.identities
  {
    var count := Inc32(s.itemsSaved);
    var t := s.(itemsSaved := count, saved := s.saved + [dp], origins := s.origins + [s.rowsRead],
                rowsRead := s.rowsRead + 1, pending := s.pending + [dp]);
    if JavaRem(count as int, COMMIT_BOUNDARY) == 0 then Commit(t) else t
  }

  /** One row through the three stages of the stream (lines 85-148). */
  function Step(s: RunState, row: Row, o: Oracles, postId: PostId): Progress {
    if |row| <= NDC_DESCRIPTION then Stopped(ShortRow(s.rowsRead), s)
    else
      var description := NormalizeDescription(row[NDC_DESCRIPTION]);
      var s1 := s.(identities := s.identities.Resolve(description));
      if |row| <= PRICING_UNIT then Stopped(ShortRow(s.rowsRead), s1)
      else
        match BuildRecord(Itemize(row, description, s1.identities.ids[description]), o)
        case PriceUnparseable => Stopped(BadPrice(s.rowsRead), s1)
        case ConstructorFailed => Running(s1.(rowsRead := s.rowsRead + 1))
        case Record(dp) => Running(SaveRecord(s1, dp.(postId := Some(postId))))
  }

  /** The rows in order, stopping at the first failure. */
  function Process(s: RunState, rows: seq<Row>, o: Oracles, postId: PostId): Progress
    decreases |rows|
  {
    if rows == [] then Running(s)
    else Then(Process(s, rows[..|rows| - 1], o, postId), rows[|rows| - 1], o, postId)
  }

  /** The next row, unless the run has already stopped. */
  function Then(p: Progress, row: Row, o: Oracles, postId: PostId): Progress {
    match p
    case Running(t) => Step(t, row, o, postId)
    case Stopped(c, t) => p
  }

  /**
   * loadNADAC (lines 47-179). wholesaler is the lookup's result, input the
   * fetched and tokenised rows (None: the fetch failed), postSave the id
   * saveAtomic gives the post (None: it threw), nextId the generator state.
   */
  function Ingest(wholesaler: Option<Wholesaler>, now: int, input: Option<seq<Row>>,
                  postSave: Option<PostId>, o: Oracles, nextId: Id): (r: LoadResult)
    ensures r.outcome.NoWholesaler? <==> wholesaler.None?
    ensures r.post.Some? <==> wholesaler.Some? && input.Some? && postSave.Some?
    ensures r.post.Some? ==> r.post.value == Post(postSave.value, wholesaler.value.id, now)
    ensures r.final.pending == []
  {
    var start := Initial(nextId);
    match wholesaler
    case None => LoadResult(NoWholesaler, None, start)
    case Some(w) =>
      match input
      case None => LoadResult(Aborted(StreamUnavailable), None, Rollback(start))
      case Some(rows) =>
        match postSave
        case None => LoadResult(Aborted(PostNotSaved), None, Rollback(start))
        case Some(pid) =>
          var post := Some(Post(pid, w.id, now));
          match Process(start, rows, o, pid)
          case Running(t) => LoadResult(Completed, post, Commit(t))
          case Stopped(c, t) => LoadResult(Aborted(c), post, Rollback(t))
  }

  // ---------------------------------------------------------------------------
  // Invariants of a run

  ghost predicate AllFull(batches: seq<nat>) {
    forall k :: 0 <= k < |batches| ==> batches[k] == COMMIT_BOUNDARY
  }

  /** The committer's and the resolver's invariant between rows. */
  ghost predicate Inv(s: RunState) {
    && |s.saved| <= s.rowsRead <= INT32_MAX as int
    && s.itemsSaved as int == |s.saved|
    && s.committed + s.pending == s.saved
    && |s.committed| == COMMIT_BOUNDARY * (|s.saved| / COMMIT_BOUNDARY)
    && |s.batches| == |s.saved| / COMMIT_BOUNDARY
    && AllFull(s.batches)
    && s.identities.Fresh()
    && (forall k :: 0 <= k < |s.saved| ==>
          s.saved[k].description in s.identities.ids && s.identities.ids[s.saved[k].description] == s.saved[k].npdId)
  }

  /** dp is exactly the record the row builds, with the run's post id set. */
  ghost predicate Produced(row: Row, dp: DrugPrice, o: Oracles, postId: PostId) {
    && |row| > PRICING_UNIT
    && dp.description == NormalizeDescription(row[NDC_DESCRIPTION])
    && dp.ndc == Trim(row[NDC])
    && o.parsePrice(Trim(row[NADAC_PER_UNIT])) == Some(dp.price)
    && dp.effDate == EffectiveDate(Trim(row[EFFECTIVE_DATE]), o)
    && dp.uom == Trim(row[PRICING_UNIT])
    && dp.classification == UNDEFINED
    && o.constructs(dp.(postId := None))
    && dp.postId == Some(postId)
  }

  /** Every saved record comes from an earlier row, and rows are saved in increasing order. */
  ghost predicate FromRows(s: RunState, rows: seq<Row>, o: Oracles, postId: PostId) {
    Traced(s.saved, s.origins, s.rowsRead, rows, o, postId)
  }

  /** saved[k] was built from row origins[k], which is below read; origins increase. */
  ghost predicate Traced(saved: seq<DrugPrice>, origins: seq<nat>, read: nat, rows: seq<Row>, o: Oracles, postId: PostId) {
    && |origins| == |saved|
    && (forall k :: 0 <= k < |saved| ==>
          origins[k] < read && origins[k] < |rows| && Produced(rows[origins[k]], saved[k], o, postId))
    && (forall k, l :: 0 <= k < l < |origins| ==> origins[k] < origins[l])
  }

  lemma TracedAppend(saved: seq<DrugPrice>, origins: seq<nat>, read: nat, rows: seq<Row>, dp: DrugPrice, o: Oracles, postId: PostId)
    requires Traced(saved, origins, read, rows, o, postId) && read < |rows|
    requires Produced(rows[read], dp, o, postId)
    ensures Traced(saved + [dp], origins + [read], read + 1, rows, o, postId)
  {
    var saved', origins' := saved + [dp], origins + [read];
    forall k | 0 <= k < |saved'|
      ensures origins'[k] < read + 1 && origins'[k] < |rows| && Produced(rows[origins'[k]], saved'[k], o, postId)
    {
      if k < |saved| {
        assert origins'[k] == origins[k] && saved'[k] == saved[k];
      }
    }
  }

  lemma DivStep(n: nat)
    ensures (n + 1) % COMMIT_BOUNDARY == 0 ==>
      n % COMMIT_BOUNDARY == COMMIT_BOUNDARY - 1 && (n + 1) / COMMIT_BOUNDARY == n / COMMIT_BOUNDARY + 1
    ensures (n + 1) % COMMIT_BOUNDARY != 0 ==>
      (n + 1) / COMMIT_BOUNDARY == n / COMMIT_BOUNDARY && (n + 1) % COMMIT_BOUNDARY == n % COMMIT_BOUNDARY + 1
  {
  }

  /**
   * Saving one record keeps the invariant, and the commit happens exactly
   * when the incremented counter is a multiple of COMMIT_BOUNDARY; after it
   * nothing is pending.
   */
  lemma SaveRecordCommitsAtBoundary(s: RunState, dp: DrugPrice)
    requires Inv(s) && s.rowsRead < INT32_MAX as int
    requires dp.description in s.identities.ids && s.identities.ids[dp.description] == dp.npdId
    ensures var t := SaveRecord(s, dp);
      && Inv(t)
      && t.saved == s.saved + [dp]
      && t.itemsSaved as int == |s.saved| + 1
      && (|t.batches| == |s.batches| + 1 <==> (|s.saved| + 1) % COMMIT_BOUNDARY == 0)
      && ((|s.saved| + 1) % COMMIT_BOUNDARY == 0 ==> t.pending == [] && t.committed == t.saved)
  {
    var n := |s.saved|;
    DivStep(n);
    assert |s.pending| == n % COMMIT_BOUNDARY;
    var t := SaveRecord(s, dp);
    assert (s.committed + s.pending) + [dp] == s.committed + (s.pending + [dp]);
  }

  /** Resolving a description keeps the invariant; the rows' facts do not involve ids. */
  lemma ResolveKeepsInv(s: RunState, description: string)
    requires Inv(s)
    ensures Inv(s.(identities := s.identities.Resolve(description)))
  {
    ResolveKeepsFresh(s.identities, description);
  }

  /** Saving the record built from the next row keeps every saved record traced to its row. */
  lemma SaveRecordKeepsOrigins(s: RunState, rows: seq<Row>, dp: DrugPrice, o: Oracles, postId: PostId)
    requires FromRows(s, rows, o, postId) && s.rowsRead < |rows|
    requires Produced(rows[s.rowsRead], dp, o, postId)
    ensures FromRows(SaveRecord(s, dp), rows, o, postId)
  {
    var t := SaveRecord(s, dp);
    assert t.origins == s.origins + [s.rowsRead] && t.saved == s.saved + [dp] && t.rowsRead == s.rowsRead + 1;
    TracedAppend(s.saved, s.origins, s.rowsRead, rows, dp, o, postId);
  }

  /** One step keeps the invariants and records the row it came from. */
  lemma StepKeepsInvariants(s: RunState, rows: seq<Row>, o: Oracles, postId: PostId)
    requires Inv(s) && FromRows(s, rows, o, postId)
    requires s.rowsRead < |rows| <= INT32_MAX as int
    ensures match Step(s, rows[s.rowsRead], o, postId)
      case Running(t) => Inv(t) && FromRows(t, rows, o, postId) && t.rowsRead == s.rowsRead + 1
      case Stopped(c, t) =>
        Inv(t) && FromRows(t, rows, o, postId) && t.rowsRead == s.rowsRead
        && (c.ShortRow? || c.BadPrice?) && c.row == s.rowsRead
  {
    var row := rows[s.rowsRead];
    if |row| <= NDC_DESCRIPTION {
      assert Step(s, row, o, postId) == Stopped(ShortRow(s.rowsRead), s);
    } else {
      var description := NormalizeDescription(row[NDC_DESCRIPTION]);
      var s1 := s.(identities := s.identities.Resolve(description));
      ResolveKeepsInv(s, description);
      if |row| <= PRICING_UNIT {
        assert Step(s, row, o, postId) == Stopped(ShortRow(s.rowsRead), s1);
      } else {
        var item := Itemize(row, description, s1.identities.ids[description]);
        match BuildRecord(item, o)
        case PriceUnparseable =>
          assert Step(s, row, o, postId) == Stopped(BadPrice(s.rowsRead), s1);
        case ConstructorFailed =>
          assert Step(s, row, o, postId) == Running(s1.(rowsRead := s.rowsRead + 1));
        case Record(dp) =>
          var rec := dp.(postId := Some(postId));
          assert Step(s, row, o, postId) == Running(SaveRecord(s1, rec));
          assert Produced(row, rec, o, postId);
          SaveRecordCommitsAtBoundary(s1, rec);
          SaveRecordKeepsOrigins(s1, rows, rec, o, postId);
      }
    }
  }

  /** A prefix's facts about rows carry over to the whole sequence. */
  lemma FromRowsExtend(s: RunState, rows: seq<Row>, o: Oracles, postId: PostId)
    requires rows != [] && FromRows(s, rows[..|rows| - 1], o, postId)
    ensures FromRows(s, rows, o, postId)
  {
    var p := rows[..|rows| - 1];
    forall k | 0 <= k < |s.saved|
      ensures s.origins[k] < |rows| && Produced(rows[s.origins[k]], s.saved[k], o, postId)
    {
      assert rows[s.origins[k]] == p[s.origins[k]];
    }
  }

  /** What holds of a run after the given rows. */
  ghost predicate Good(p: Progress, rows: seq<Row>, o: Oracles, postId: PostId) {
    match p
    case Running(t) => Inv(t) && FromRows(t, rows, o, postId) && t.rowsRead == |rows|
    case Stopped(c, t) =>
      Inv(t) && FromRows(t, rows, o, postId) && t.rowsRead < |rows|
      && (c.ShortRow? || c.BadPrice?) && c.row == t.rowsRead
  }

  lemma ThenKeepsGood(p: Progress, rows: seq<Row>, o: Oracles, postId: PostId)
    requires rows != [] && |rows| <= INT32_MAX as int
    requires Good(p, rows[..|rows| - 1], o, postId)
    ensures Good(Then(p, rows[|rows| - 1], o, postId), rows, o, postId)
  {
    FromRowsExtend(p.state, rows, o, postId);
    if p.Running? {
      assert rows[p.state.rowsRead] == rows[|rows| - 1];
      StepKeepsInvariants(p.state, rows, o, postId);
    }
  }

  /** What holds after any number of rows from the start of a run. */
  lemma {:induction false} ProcessInvariant(nextId: Id, rows: seq<Row>, o: Oracles, postId: PostId)
    requires |rows| <= INT32_MAX as int
    ensures Good(Process(Initial(nextId), rows, o, postId), rows, o, postId)
    decreases |rows|
  {
    if rows != [] {
      var p := rows[..|rows| - 1];
      ProcessInvariant(nextId, p, o, postId);
      ThenKeepsGood(Process(Initial(nextId), p, o, postId), rows, o, postId);
    }
  }

  /** Once a prefix of the rows has stopped the run, later rows change nothing. */
  lemma {:induction false} StoppedPersists(s: RunState, rows: seq<Row>, k: nat, o: Oracles, postId: PostId)
    requires k <= |rows|
    requires Process(s, rows[..k], o, postId).Stopped?
    ensures Process(s, rows, o, postId) == Process(s, rows[..k], o, postId)
    decreases |rows| - k
  {
    if k < |rows| {
      assert rows[..k + 1][..k] == rows[..k];
      StoppedPersists(s, rows, k + 1, o, postId);
    } else {
      assert rows[..k] == rows;
    }
  }

  /**
   * The row's record builds when its description gets the id ids holds for it.
   * ids only grows and never rebinds a description, so the final map gives each
   * row the id it had when it was read.
   */
  ghost predicate Builds(row: Row, ids: map<string, Id>, o: Oracles) {
    && |row| > PRICING_UNIT
    && NormalizeDescription(row[NDC_DESCRIPTION]) in ids
    && BuildRecord(Itemize(row, NormalizeDescription(row[NDC_DESCRIPTION]),
                           ids[NormalizeDescription(row[NDC_DESCRIPTION])]), o).Record?
  }

  /** Every row read so far had five values and its description resolved, and each one whose record builds was saved. */
  ghost predicate Complete(s: RunState, rows: seq<Row>, o: Oracles) {
    && s.rowsRead <= |rows|
    && (forall i :: 0 <= i < s.rowsRead ==>
          |rows[i]| > PRICING_UNIT && NormalizeDescription(rows[i][NDC_DESCRIPTION]) in s.identities.ids)
    && (forall i :: 0 <= i < s.rowsRead && Builds(rows[i], s.identities.ids, o) ==> i in s.origins)
  }

  /** Resolving a description changes no row's id, so completeness is kept. */
  lemma ResolveKeepsComplete(s: RunState, rows: seq<Row>, o: Oracles, d: string)
    requires Complete(s, rows, o)
    ensures Complete(s.(identities := s.identities.Resolve(d)), rows, o)
  {
    var ids, ids1 := s.identities.ids, s.identities.Resolve(d).ids;
    forall i | 0 <= i < s.rowsRead
      ensures NormalizeDescription(rows[i][NDC_DESCRIPTION]) in ids1
      ensures Builds(rows[i], ids1, o) == Builds(rows[i], ids, o)
    {
      var di := NormalizeDescription(rows[i][NDC_DESCRIPTION]);
      assert ids1[di] == ids[di];
    }
  }

  /** Moving past a row whose description is resolved keeps completeness if the row is saved when it builds. */
  lemma AdvanceKeepsComplete(s: RunState, t: RunState, rows: seq<Row>, o: Oracles)
    requires Complete(s, rows, o) && s.rowsRead < |rows|
    requires |rows[s.rowsRead]| > PRICING_UNIT
    requires NormalizeDescription(rows[s.rowsRead][NDC_DESCRIPTION]) in s.identities.ids
    requires t.identities == s.identities && t.rowsRead == s.rowsRead + 1
    requires t.origins == s.origins || t.origins == s.origins + [s.rowsRead]
    requires Builds(rows[s.rowsRead], s.identities.ids, o) ==> t.origins == s.origins + [s.rowsRead]
    ensures Complete(t, rows, o)
  {
    forall i | 0 <= i < t.rowsRead && Builds(rows[i], t.identities.ids, o) ensures i in t.origins {
      if i < s.rowsRead {
        assert i in s.origins;
      } else {
        assert t.origins[|s.origins|] == i;
      }
    }
  }

  /** One step keeps every built row saved; it reads the row exactly when the run goes on. */
  lemma StepKeepsComplete(s: RunState, rows: seq<Row>, o: Oracles, postId: PostId)
    requires Complete(s, rows, o) && s.rowsRead < |rows|
    ensures var p := Step(s, rows[s.rowsRead], o, postId);
      && Complete(p.state, rows, o)
      && (p.Running? ==> p.state.rowsRead == s.rowsRead + 1)
      && (p.Stopped? ==> p.state.rowsRead == s.rowsRead)
  {
    var row := rows[s.rowsRead];
    if |row| <= NDC_DESCRIPTION {
      assert Step(s, row, o, postId) == Stopped(ShortRow(s.rowsRead), s);
    } else {
      var d := NormalizeDescription(row[NDC_DESCRIPTION]);
      var s1 := s.(identities := s.identities.Resolve(d));
      ResolveKeepsComplete(s, rows, o, d);
      if |row| <= PRICING_UNIT {
        assert Step(s, row, o, postId) == Stopped(ShortRow(s.rowsRead), s1);
      } else {
        var ids1 := s1.identities.ids;
        match BuildRecord(Itemize(row, d, ids1[d]), o)
        case PriceUnparseable =>
          assert Step(s, row, o, postId) == Stopped(BadPrice(s.rowsRead), s1);
        case ConstructorFailed =>
          var t := s1.(rowsRead := s.rowsRead + 1);
          assert Step(s, row, o, postId) == Running(t);
          AdvanceKeepsComplete(s1, t, rows, o);
        case Record(dp) =>
          var t := SaveRecord(s1, dp.(postId := Some(postId)));
          assert Step(s, row, o, postId) == Running(t);
          AdvanceKeepsComplete(s1, t, rows, o);
      }
    }
  }

  /** A prefix's completeness carries over to the whole sequence. */
  lemma CompleteExtend(s: RunState, rows: seq<Row>, o: Oracles)
    requires rows != [] && Complete(s, rows[..|rows| - 1], o)
    ensures Complete(s, rows, o)
  {
    forall i | 0 <= i < s.rowsRead ensures rows[i] == rows[..|rows| - 1][i] {
    }
  }

  /** After any number of rows from the start, every row read whose record builds was saved. */
  lemma {:induction false} ProcessComplete(nextId: Id, rows: seq<Row>, o: Oracles, postId: PostId)
    ensures var p := Process(Initial(nextId), rows, o, postId);
      Complete(p.state, rows, o) && (p.Running? ==> p.state.rowsRead == |rows|)
    decreases |rows|
  {
    if rows != [] {
      var pre := rows[..|rows| - 1];
      ProcessComplete(nextId, pre, o, postId);
      var q := Process(Initial(nextId), pre, o, postId);
      CompleteExtend(q.state, rows, o);
      if q.Running? {
        assert rows[q.state.rowsRead] == rows[|rows| - 1];
        StepKeepsComplete(q.state, rows, o, postId);
      }
    }
  }

  /** A record traced to a row, with the id the map gives its description, is what that row builds. */
  lemma ProducedBuilds(row: Row, dp: DrugPrice, ids: map<string, Id>, o: Oracles, postId: PostId)
    requires Produced(row, dp, o, postId)
    requires dp.description in ids && ids[dp.description] == dp.npdId
    ensures Builds(row, ids, o)
  {
    var d := NormalizeDescription(row[NDC_DESCRIPTION]);
    assert BuildRecord(Itemize(row, d, ids[d]), o) == Record(dp.(postId := None));
  }

  // ---------------------------------------------------------------------------
  // One row

  /** A row with fewer than five values stops the run when its fields are read. */
  lemma ShortRowStopsRun(s: RunState, row: Row, o: Oracles, postId: PostId)
    requires |row| <= PRICING_UNIT
    ensures Step(s, row, o, postId) == Stopped(ShortRow(s.rowsRead), Step(s, row, o, postId).state)
    ensures Step(s, row, o, postId).state.saved == s.saved
    ensures Step(s, row, o, postId).state.pending == s.pending
  {
  }

  /**
   * The description is resolved before anything else can fail: the id map
   * then holds it, keeps every earlier entry and only grows.
   */
  lemma StepGrowsIdentities(s: RunState, row: Row, o: Oracles, postId: PostId)
    requires |row| > NDC_DESCRIPTION
    ensures var m := Step(s, row, o, postId).state.identities.ids;
      && s.identities.ids.Keys <= m.Keys
      && NormalizeDescription(row[NDC_DESCRIPTION]) in m
      && (forall d :: d in s.identities.ids ==> m[d] == s.identities.ids[d])
  {
  }

  /**
   * An unparseable date does not stop or skip the row: with a parseable price
   * the run goes on, and the row's record is built with the date 0 and saved
   * exactly when the constructor accepts it.
   */
  lemma BadDateKeepsRow(s: RunState, row: Row, o: Oracles, postId: PostId)
    requires |row| > PRICING_UNIT
    requires o.parseDate(Trim(row[EFFECTIVE_DATE])).None?
    requires o.parsePrice(Trim(row[NADAC_PER_UNIT])).Some?
    ensures Step(s, row, o, postId).Running?
    ensures var d := NormalizeDescription(row[NDC_DESCRIPTION]);
      var dp := DrugPrice(Trim(row[NDC]), d, s.identities.Resolve(d).ids[d],
                          o.parsePrice(Trim(row[NADAC_PER_UNIT])).value, Trim(row[PRICING_UNIT]), UNDEFINED, 0, None);
      var t := Step(s, row, o, postId).state;
      && (o.constructs(dp) ==> t.saved == s.saved + [dp.(postId := Some(postId))])
      && (!o.constructs(dp) ==> t.saved == s.saved)
  {
  }

  /**
   * A row whose record builds is saved: the record, with the run's post id set,
   * is appended to what was saved and to the open transaction, and the counter
   * is incremented.
   */
  lemma BuiltRecordIsSaved(s: RunState, row: Row, o: Oracles, postId: PostId)
    requires |row| > PRICING_UNIT
    requires var d := NormalizeDescription(row[NDC_DESCRIPTION]);
      BuildRecord(Itemize(row, d, s.identities.Resolve(d).ids[d]), o).Record?
    ensures var d := NormalizeDescription(row[NDC_DESCRIPTION]);
      var dp := BuildRecord(Itemize(row, d, s.identities.Resolve(d).ids[d]), o).dp.(postId := Some(postId));
      var p := Step(s, row, o, postId);
      && p.Running?
      && p.state.saved == s.saved + [dp]
      && p.state.origins == s.origins + [s.rowsRead]
      && p.state.committed + p.state.pending == s.committed + s.pending + [dp]
      && p.state.itemsSaved == Inc32(s.itemsSaved)
      && p.state.rowsRead == s.rowsRead + 1
  {
  }

  /** An unparseable price stops the run at that row, whatever the date and the constructor would do, and saves nothing. */
  lemma BadPriceStopsRun(s: RunState, row: Row, o: Oracles, postId: PostId)
    requires |row| > PRICING_UNIT
    requires o.parsePrice(Trim(row[NADAC_PER_UNIT])).None?
    ensures Step(s, row, o, postId) == Stopped(BadPrice(s.rowsRead), Step(s, row, o, postId).state)
    ensures var t := Step(s, row, o, postId).state;
      t.saved == s.saved && t.itemsSaved == s.itemsSaved && t.pending == s.pending && t.committed == s.committed
  {
  }

  /**
   * A row whose DrugPrice constructor fails is skipped: nothing is saved, the
   * counter and the session are untouched, and the run goes on to the next row.
   */
  lemma FailedConstructionSkipsRow(s: RunState, row: Row, o: Oracles, postId: PostId)
    requires |row| > PRICING_UNIT
    requires var d := NormalizeDescription(row[NDC_DESCRIPTION]);
      BuildRecord(Itemize(row, d, s.identities.Resolve(d).ids[d]), o).ConstructorFailed?
    ensures Step(s, row, o, postId).Running?
    ensures var t := Step(s, row, o, postId).state;
      && t.saved == s.saved && t.itemsSaved == s.itemsSaved
      && t.committed == s.committed && t.pending == s.pending && t.batches == s.batches
      && t.rowsRead == s.rowsRead + 1
  {
  }

  // ---------------------------------------------------------------------------
  // A whole run

  ghost predicate InputFits(input: Option<seq<Row>>) {
    input.Some? ==> |input.value| <= INT32_MAX as int
  }

  /** The final state of any run satisfies the invariant. */
  lemma IngestInvariant(wholesaler: Option<Wholesaler>, now: int, input: Option<seq<Row>>,
                        postSave: Option<PostId>, o: Oracles, nextId: Id)
    requires InputFits(input)
    ensures var r := Ingest(wholesaler, now, input, postSave, o, nextId);
      && r.final.pending == []
      && r.final.itemsSaved as int == |r.final.saved|
      && r.final.identities.Fresh()
      && (forall k :: 0 <= k < |r.final.saved| ==>
            r.final.saved[k].description in r.final.identities.ids
            && r.final.identities.ids[r.final.saved[k].description] == r.final.saved[k].npdId)
      && (r.outcome.Completed? ==>
            r.final.committed == r.final.saved
            && |r.final.batches| == |r.final.saved| / COMMIT_BOUNDARY + 1
            && AllFull(r.final.batches[..|r.final.batches| - 1])
            && r.final.batches[|r.final.batches| - 1] == |r.final.saved| % COMMIT_BOUNDARY)
      && (!r.outcome.Completed? ==>
            r.final.committed == r.final.saved[..COMMIT_BOUNDARY * (|r.final.saved| / COMMIT_BOUNDARY)]
            && |r.final.batches| == |r.final.saved| / COMMIT_BOUNDARY
            && AllFull(r.final.batches))
  {
    var r := Ingest(wholesaler, now, input, postSave, o, nextId);
    if wholesaler.Some? && input.Some? && postSave.Some? {
      ProcessInvariant(nextId, input.value, o, postSave.value);
      var t := Process(Initial(nextId), input.value, o, postSave.value).state;
      assert |t.pending| == |t.saved| % COMMIT_BOUNDARY;
      assert t.committed == t.saved[..|t.committed|];
    }
  }

  /**
   * On normal completion with K records saved, everything saved is committed
   * in save order: floor(K / 10000) full batches and one final commit holding
   * the K mod 10000 that remain, and the counter equals K.
   */
  lemma CompletedRunCommitsEverything(wholesaler: Option<Wholesaler>, now: int, input: Option<seq<Row>>,
                                      postSave: Option<PostId>, o: Oracles, nextId: Id)
    requires InputFits(input)
    requires Ingest(wholesaler, now, input, postSave, o, nextId).outcome == Completed
    ensures var f := Ingest(wholesaler, now, input, postSave, o, nextId).final;
      && f.itemsSaved as int == |f.saved|
      && f.committed == f.saved && f.pending == []
      && |f.batches| == |f.saved| / COMMIT_BOUNDARY + 1
      && (forall k :: 0 <= k < |f.batches| - 1 ==> f.batches[k] == COMMIT_BOUNDARY)
      && f.batches[|f.batches| - 1] == |f.saved| % COMMIT_BOUNDARY
  {
    IngestInvariant(wholesaler, now, input, postSave, o, nextId);
    var f := Ingest(wholesaler, now, input, postSave, o, nextId).final;
    forall k | 0 <= k < |f.batches| - 1 ensures f.batches[k] == COMMIT_BOUNDARY {
      assert f.batches[..|f.batches| - 1][k] == f.batches[k];
    }
  }

  /**
   * A run that fails after n records were saved leaves exactly the first
   * 10000 * floor(n / 10000) of them committed, in full batches; the open
   * transaction's tail is rolled back. A failure before the rows are read
   * (no object, no post) leaves no post and nothing saved.
   */
  lemma AbortedRunKeepsCommittedBatches(wholesaler: Option<Wholesaler>, now: int, input: Option<seq<Row>>,
                                        postSave: Option<PostId>, o: Oracles, nextId: Id)
    requires InputFits(input)
    requires Ingest(wholesaler, now, input, postSave, o, nextId).outcome.Aborted?
    ensures var r := Ingest(wholesaler, now, input, postSave, o, nextId);
      var n := |r.final.saved|;
      && r.final.itemsSaved as int == n
      && r.final.committed == r.final.saved[..COMMIT_BOUNDARY * (n / COMMIT_BOUNDARY)]
      && r.final.pending == []
      && |r.final.batches| == n / COMMIT_BOUNDARY
      && (forall k :: 0 <= k < |r.final.batches| ==> r.final.batches[k] == COMMIT_BOUNDARY)
      && (r.outcome.cause.StreamUnavailable? || r.outcome.cause.PostNotSaved? ==> r.post.None? && n == 0)
      && (r.post.None? <==> r.outcome.cause.StreamUnavailable? || r.outcome.cause.PostNotSaved?)
  {
    IngestInvariant(wholesaler, now, input, postSave, o, nextId);
    if wholesaler.Some? && input.Some? && postSave.Some? {
      ProcessInvariant(nextId, input.value, o, postSave.value);
    }
  }

  /** Across a run, two saved records share an id exactly when they share a description. */
  lemma EqualDescriptionsShareId(wholesaler: Option<Wholesaler>, now: int, input: Option<seq<Row>>,
                                 postSave: Option<PostId>, o: Oracles, nextId: Id)
    requires InputFits(input)
    ensures var f := Ingest(wholesaler, now, input, postSave, o, nextId).final;
      forall k, l :: 0 <= k < |f.saved| && 0 <= l < |f.saved| ==>
        (f.saved[k].npdId == f.saved[l].npdId <==> f.saved[k].description == f.saved[l].description)
  {
    IngestInvariant(wholesaler, now, input, postSave, o, nextId);
    var f := Ingest(wholesaler, now, input, postSave, o, nextId).final;
    forall k, l | 0 <= k < |f.saved| && 0 <= l < |f.saved|
      ensures f.saved[k].npdId == f.saved[l].npdId <==> f.saved[k].description == f.saved[l].description
    {
      var m := f.identities.ids;
      assert m[f.saved[k].description] == f.saved[k].npdId && m[f.saved[l].description] == f.saved[l].npdId;
    }
  }

  /**
   * Records are saved in source-row order, each is exactly what its row
   * builds (trimmed fields, normalised description, parsed price, date or 0,
   * classification "undefined", the constructor accepting it), and each
   * carries the run's post id. Conversely, a row read before the run ended is
   * saved exactly when its record builds; the run ends after the last row or
   * at the row that threw.
   */
  lemma RecordsFollowRows(w: Wholesaler, now: int, rows: seq<Row>, postId: PostId, o: Oracles, nextId: Id)
    requires |rows| <= INT32_MAX as int
    ensures var r := Ingest(Some(w), now, Some(rows), Some(postId), o, nextId);
      var f := r.final;
      && |f.origins| == |f.saved|
      && (forall k, l :: 0 <= k < l < |f.origins| ==> f.origins[k] < f.origins[l])
      && (forall k :: 0 <= k < |f.saved| ==>
            f.origins[k] < |rows| && Produced(rows[f.origins[k]], f.saved[k], o, postId))
      && f.rowsRead <= |rows|
      && (r.outcome.Completed? ==> f.rowsRead == |rows|)
      && (r.outcome.Aborted? ==> (r.outcome.cause.ShortRow? || r.outcome.cause.BadPrice?) && r.outcome.cause.row == f.rowsRead)
      && (forall i :: 0 <= i < f.rowsRead ==> (i in f.origins <==> Builds(rows[i], f.identities.ids, o)))
  {
    ProcessInvariant(nextId, rows, o, postId);
    ProcessComplete(nextId, rows, o, postId);
    var f := Ingest(Some(w), now, Some(rows), Some(postId), o, nextId).final;
    forall i | 0 <= i < f.rowsRead && i in f.origins ensures Builds(rows[i], f.identities.ids, o) {
      var k :| 0 <= k < |f.origins| && f.origins[k] == i;
      ProducedBuilds(rows[i], f.saved[k], f.identities.ids, o, postId);
    }
  }
}
