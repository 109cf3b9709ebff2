# NADAC price-list loader, modelled in Dafny

This project models the core of `LoadNadac.loadNADAC`. That method loads one NADAC price-list CSV into the
database as a single price posting. It works row by row:

- It normalises each row's drug description: the field is trimmed, then every leading and trailing
  double quote is removed.
- It gives every distinct description a synthetic NPD id. The id is generated on first sight and
  reused after that.
- It builds a `DrugPrice` from each row. An unparseable effective date falls back to 0. An unparseable
  price throws and ends the run. A failing `DrugPrice` constructor skips the row.
- It saves every built record under the run's post id, in the open transaction. It commits and begins a
  new transaction each time the saved-items counter reaches a multiple of `COMMIT_BOUNDARY` (10000).
- It commits once more when the stream ends. On any exception it rolls back the open transaction only,
  so batches already committed stay durable.

Modules (one file each):

- `Normalize` (`normalize.dfy`): `String.trim()` and `StringUtils.stripStart`/`stripEnd` with the
  set `"`, as functions, with lemmas that characterise them.
- `Identity` (`identity.dfy`): the description-to-id map together with the id generator's state,
  as a value.
- `Records` (`records.dfy`): the tokenised row, the per-row map of lines 96-98 (`NormalizedRow`),
  `DrugPrice`, the post, Java's `int` `++` (wrap-around) and `%`, and the second stream stage
  `BuildRecord`.
- `Sink` (`sink.dfy`): class `Session`, the transaction effects of the persistence session. It holds
  the committed records, the pending records, the size of every commit, and whether the transaction
  and the session are open.
- `Pipeline` (`pipeline.dfy`): the run as functions. `Step` processes one row, `Process` processes
  the rows up to the first failure, and `Ingest` is the whole method including its early exits.
  The lemmas state what a run promises.
- `Loader` (`loader.dfy`): class `LoadNadac`, the imperative run. It has a map field, the counter,
  the generator state and a `while` loop over the rows. Its `rowsRead` field has no counterpart in
  the Java code, which keeps no row index. It is a device of the model that names the failing row in
  `Failure`, which is returned from compiled code and so cannot be ghost. The run is proved to end
  in exactly the state `Pipeline.Ingest` gives.

Collaborators become inputs:

- The wholesaler lookup is an `Option<Wholesaler>`.
- The fetched and tokenised rows are an `Option<seq<Row>>`, where `None` means the fetch threw.
- The id `saveAtomic` gives the post is an `Option<PostId>`, where `None` means it threw.
- The clock reading for the post's default date is `now`.
- Date parsing, price parsing and the `DrugPrice` constructor are the oracles in `Records.Oracles`.
- `Util.generateId` is a counter. Its ids are fresh by construction.
- `HibernateUtil.startSession` is assumed to return a session whose transaction has already begun.
  The code commits without calling `beginTransaction` first, so it depends on this.

## Behaviour of the code that a reader might not expect (the model follows the code)

- **Quote stripping.** Every leading and every trailing double quote is removed, not just one pair,
  and the result is not trimmed again, so blanks inside the quotes survive. See
  `Normalize.AllQuoteLayersExample` and `Normalize.InnerBlanksExample`.
- **Bad price.** A non-numeric price does not skip the row. `Double.parseDouble` (line 113) is outside
  any handler, so the whole run aborts and rolls back to the last boundary commit. See
  `Pipeline.BadPriceStopsRun`.
- **Bad date.** An unparseable date is logged and the row goes on with date 0. It is saved if the
  `DrugPrice` constructor accepts that record, and skipped if the constructor throws. See
  `Pipeline.BadDateKeepsRow`.
- **Number of commits.** A run of K saved records makes floor(K/10000) boundary commits plus one
  unconditional final commit. That final commit is empty when K is a multiple of 10000, and it is the
  only commit when K is below 10000. See `Pipeline.CompletedRunCommitsEverything`.
- **Cleanup.** `csvFile.close()` in the `finally` block (line 165) is unguarded, so if it throws,
  `session.close()` is skipped.
- **Short rows.** A row with fewer than five values makes `CSVRecord.get` throw, which ends the run
  like a bad price. The description has already been resolved to an id by then.

## Model

| member | source | states |
|---|---|---|
| `Normalize.StripStart` | src/main/java/com/cmmps/nppx/aws/LoadNadac.java:87 | Computes `stripStart`: drops characters from the front while they are in the strip set. Its meaning is stated by `StripStartSpec`. |
| `Normalize.StripStartSpec` | src/main/java/com/cmmps/nppx/aws/LoadNadac.java:87 | stripStart keeps a suffix of its input. Everything it removes is in the strip set, and what it keeps does not begin with a stripped character. |
| `Normalize.StripEnd` | src/main/java/com/cmmps/nppx/aws/LoadNadac.java:87-88 | Computes `stripEnd`: drops characters from the back while they are in the strip set. Its meaning is stated by `StripEndSpec`. |
| `Normalize.StripEndSpec` | src/main/java/com/cmmps/nppx/aws/LoadNadac.java:87-88 | stripEnd keeps a prefix of its input. Everything it removes is in the strip set, and what it keeps does not end with a stripped character. |
| `Normalize.Trim` | src/main/java/com/cmmps/nppx/aws/LoadNadac.java:87 | A trimmed field is empty, or it starts and ends with a character above U+0020. |
| `Normalize.StripQuotes` | src/main/java/com/cmmps/nppx/aws/LoadNadac.java:87-88 | After the quote strip, the text neither starts nor ends with a double quote. |
| `Normalize.NormalizeDescription` | src/main/java/com/cmmps/nppx/aws/LoadNadac.java:87-88 | A normalised description never starts or ends with a double quote. |
| `Normalize.StripBothUnique` | src/main/java/com/cmmps/nppx/aws/LoadNadac.java:87-88 | Stripping one set from both ends has a unique answer. If s is stripped characters, then a middle part that neither starts nor ends with one, then stripped characters, the result is that middle part. |
| `Normalize.TrimUnique` | src/main/java/com/cmmps/nppx/aws/LoadNadac.java:87 | `trim()` characterised. If s is characters up to U+0020, then a middle part starting and ending above U+0020, then such characters, `Trim(s)` is exactly that middle part. |
| `Normalize.NormalizeUnique` | src/main/java/com/cmmps/nppx/aws/LoadNadac.java:87-88 | Write trim(raw) as quotes + middle + quotes, where the middle neither starts nor ends with a quote. Then the description is exactly that middle, so every quote layer goes and inner blanks stay. |
| `Normalize.StripQuotesIdempotent` | src/main/java/com/cmmps/nppx/aws/LoadNadac.java:87-88 | Stripping quotes twice gives the same result as stripping them once. |
| `Normalize.NormalizeIdempotent` | src/main/java/com/cmmps/nppx/aws/LoadNadac.java:87-88 | Applying the quote strip again to a normalised description changes nothing. |
| `Normalize.NormalizeUnquoted` | src/main/java/com/cmmps/nppx/aws/LoadNadac.java:87-88 | A trimmed field with no quote at either end comes back unchanged. |
| `Normalize.QuotedDescriptionExample` | src/main/java/com/cmmps/nppx/aws/LoadNadac.java:87-88 | `"ASPIRIN 325MG"` with its quotes becomes `ASPIRIN 325MG`. |
| `Normalize.AllQuoteLayersExample` | src/main/java/com/cmmps/nppx/aws/LoadNadac.java:87-88 | Two layers of quotes are both removed. |
| `Normalize.InnerBlanksExample` | src/main/java/com/cmmps/nppx/aws/LoadNadac.java:87-88 | Blanks inside the quotes survive, because the stripped text is not trimmed again. |
| `Records.Itemize` | src/main/java/com/cmmps/nppx/aws/LoadNadac.java:96-98 | Computes the per-row map: the NDC, price text, date text and unit, each trimmed, together with the resolved id and the normalised description. |
| `Records.EffectiveDate` | src/main/java/com/cmmps/nppx/aws/LoadNadac.java:105-111 | Computes the effective date: the parsed date, or 0 when `SimpleDateFormat.parse` throws. |
| `Records.BuildRecord` | src/main/java/com/cmmps/nppx/aws/LoadNadac.java:100-124 | The price text fails to parse exactly when the result is `PriceUnparseable`. A built record has the item's fields, the parsed price, the date or 0 and classification "undefined", with no post id yet, and the constructor accepted it. |
| `Records.Inc32` | src/main/java/com/cmmps/nppx/aws/LoadNadac.java:136 | Java `int` `++`: the result is x + 1 taken modulo 2^32 in two's complement, so the counter wraps from 2^31 - 1 to -2^31. |
| `Records.JavaRem` | src/main/java/com/cmmps/nppx/aws/LoadNadac.java:136 | Java `%`: the remainder is smaller than the divisor in absolute value, has the sign of the dividend, and differs from the dividend by a multiple of the divisor. |
| `Identity.Identities.Resolve` | src/main/java/com/cmmps/nppx/aws/LoadNadac.java:91-93 | After resolving, the map holds the description. Its keys only grow and existing entries are never overwritten. A new description gets the next fresh id, and a known one reuses its id. |
| `Identity.ResolveKeepsFresh` | src/main/java/com/cmmps/nppx/aws/LoadNadac.java:91-93 | Resolving keeps ids unique and below the generator's next id. A newly generated id differs from every id already in use. |
| `Identity.ResolveSameIdIffSameDescription` | src/main/java/com/cmmps/nppx/aws/LoadNadac.java:91-98 | Two descriptions resolved one after the other get the same id if and only if they are equal. |
| `Pipeline.Step` | src/main/java/com/cmmps/nppx/aws/LoadNadac.java:85-148 | Computes one row through the three stream stages: resolve the description, build the record, save it. Its behaviour is stated by the row lemmas below and by `StepKeepsInvariants`/`StepKeepsComplete`. |
| `Pipeline.Then` | src/main/java/com/cmmps/nppx/aws/LoadNadac.java:85-148 | Computes the forEach continuation: the next row is processed only while no exception has been thrown. |
| `Pipeline.Process` | src/main/java/com/cmmps/nppx/aws/LoadNadac.java:85-148 | Computes the stream over the rows, stopping at the first exception. Its behaviour is stated by `ProcessInvariant`, `ProcessComplete` and `StoppedPersists`. |
| `Pipeline.SaveRecord` | src/main/java/com/cmmps/nppx/aws/LoadNadac.java:126-146 | Saving appends the record to what was saved. Committed plus pending grows by exactly that record, so no record is lost or duplicated. The counter becomes `Inc32` of its old value. |
| `Pipeline.Commit` | src/main/java/com/cmmps/nppx/aws/LoadNadac.java:138-150 | A commit moves every pending record to committed, keeping their order. Nothing is left pending, and what was saved and the id map are unchanged. |
| `Pipeline.Rollback` | src/main/java/com/cmmps/nppx/aws/LoadNadac.java:159-161 | A rollback drops the pending records. Committed records and batches stay as they are. |
| `Pipeline.Ingest` | src/main/java/com/cmmps/nppx/aws/LoadNadac.java:47-179 | There is no wholesaler exactly when the outcome is `NoWholesaler`. A post exists exactly when the lookup, the fetch and the post save all succeeded, and it carries the saved id, the wholesaler's id and the current time. No run ends with records pending. |
| `Pipeline.ShortRowStopsRun` | src/main/java/com/cmmps/nppx/aws/LoadNadac.java:96-97 | A row with fewer than five values ends the run at that row and saves nothing. |
| `Pipeline.StepGrowsIdentities` | src/main/java/com/cmmps/nppx/aws/LoadNadac.java:91-93 | After any row that has a description, the map holds that row's description. It keeps every earlier entry unchanged, and its key set only grows. |
| `Pipeline.BadDateKeepsRow` | src/main/java/com/cmmps/nppx/aws/LoadNadac.java:105-130 | An unparseable date does not stop the run when the price parses. The row's record is built with date 0, and it is appended to what was saved exactly when the constructor accepts it. Otherwise nothing is saved. |
| `Pipeline.BuiltRecordIsSaved` | src/main/java/com/cmmps/nppx/aws/LoadNadac.java:124-136 | A row whose record builds is saved with the run's post id. It is appended to what was saved and to committed plus pending, its row index is recorded, and the counter is incremented. |
| `Pipeline.BadPriceStopsRun` | src/main/java/com/cmmps/nppx/aws/LoadNadac.java:113 | An unparseable price stops the run at that row, whatever the date and the constructor would do. Nothing is saved or counted for that row. |
| `Pipeline.FailedConstructionSkipsRow` | src/main/java/com/cmmps/nppx/aws/LoadNadac.java:115-126 | A failing constructor skips the row. Nothing is saved, the counter and the session are untouched, and the run goes on to the next row. |
| `Pipeline.SaveRecordCommitsAtBoundary` | src/main/java/com/cmmps/nppx/aws/LoadNadac.java:125-146 | Saving appends the record and increments the counter. A commit happens exactly when the new count is a multiple of 10000, and afterwards nothing is pending and everything saved is committed. The run invariant is kept. |
| `Pipeline.StepKeepsInvariants` | src/main/java/com/cmmps/nppx/aws/LoadNadac.java:85-148 | Each row keeps the run invariant: the counter equals the number saved, committed + pending = saved, only full batches are committed, ids are unique and agree with the saved records, and each saved record is traced to its row. A stop names the failing row. |
| `Pipeline.ProcessInvariant` | src/main/java/com/cmmps/nppx/aws/LoadNadac.java:85-148 | After any prefix of the rows, whether the run is still going or has stopped, the run invariant and the tracing to rows hold. |
| `Pipeline.StepKeepsComplete` | src/main/java/com/cmmps/nppx/aws/LoadNadac.java:85-148 | Each row keeps completeness: every row read so far had five values and its description resolved, and each one whose record builds was saved. The row is read exactly when the run goes on. |
| `Pipeline.ProcessComplete` | src/main/java/com/cmmps/nppx/aws/LoadNadac.java:85-148 | After any prefix of the rows, every row read whose record builds was saved. A run still going has read every row. |
| `Pipeline.StoppedPersists` | src/main/java/com/cmmps/nppx/aws/LoadNadac.java:85-155 | Once a row has thrown, the rows after it change nothing. |
| `Pipeline.IngestInvariant` | src/main/java/com/cmmps/nppx/aws/LoadNadac.java:125-161 | Every run ends with nothing pending, the counter equal to the number saved, and ids consistent. On completion everything saved is committed. Otherwise exactly the full batches are committed. |
| `Pipeline.CompletedRunCommitsEverything` | src/main/java/com/cmmps/nppx/aws/LoadNadac.java:136-150 | When a run completes with K records saved, all of them are committed in save order. The commits are floor(K/10000) batches of exactly 10000, then one final commit of K mod 10000. The counter equals K. |
| `Pipeline.AbortedRunKeepsCommittedBatches` | src/main/java/com/cmmps/nppx/aws/LoadNadac.java:155-161 | When a run fails after n records were saved, exactly the first 10000*floor(n/10000) stay committed, all in full batches, and the pending tail is rolled back. If the fetch or the post save fails, there is no post and nothing is saved. |
| `Pipeline.EqualDescriptionsShareId` | src/main/java/com/cmmps/nppx/aws/LoadNadac.java:91-98 | In any run, two saved records share an id if and only if they share a description. |
| `Pipeline.RecordsFollowRows` | src/main/java/com/cmmps/nppx/aws/LoadNadac.java:96-136 | Records are saved in source-row order. Each has its row's trimmed fields, the normalised description, the parsed price, the parsed date or 0, classification "undefined", the constructor's acceptance and the run's post id. Every row read before the run ended is saved exactly when its record builds. The run ends after the last row or at the row that threw. |
| `Loader.LoadNadac.constructor` | src/main/java/com/cmmps/nppx/aws/LoadNadac.java:33-35 | A new loader has an empty map, a zero counter and the given generator state. |
| `Loader.LoadNadac.GenerateId` | src/main/java/com/cmmps/nppx/aws/LoadNadac.java:92 | Returns an id never handed out before and advances the generator. |
| `Loader.LoadNadac.Resolve` | src/main/java/com/cmmps/nppx/aws/LoadNadac.java:91-98 | Updates the map and the generator as `Identities.Resolve` does, and returns the description's id. |
| `Loader.LoadNadac.ProcessRow` | src/main/java/com/cmmps/nppx/aws/LoadNadac.java:85-148 | One row in place. The loader's fields and the session end in exactly the state `Step` gives, or the method reports the failure that stops the run. The transaction stays open. |
| `Loader.LoadNadac.Load` | src/main/java/com/cmmps/nppx/aws/LoadNadac.java:47-179 | With no wholesaler: no session, no post, and nothing changes. Otherwise the outcome, the post and the closed session's committed records and commit sizes are exactly those of `Ingest`, and no transaction is left open. |
| `Sink.Session.Start` | src/main/java/com/cmmps/nppx/aws/LoadNadac.java:68 | A new session has nothing committed or pending, and its transaction is open. |
| `Sink.Session.Save` | src/main/java/com/cmmps/nppx/aws/LoadNadac.java:130 | Appends the record to the pending records of the open transaction. |
| `Sink.Session.Commit` | src/main/java/com/cmmps/nppx/aws/LoadNadac.java:138 | Makes the pending records durable as one batch and records the batch's size. The transaction is then inactive. |
| `Sink.Session.BeginTransaction` | src/main/java/com/cmmps/nppx/aws/LoadNadac.java:145 | Opens a new transaction and changes nothing else. |
| `Sink.Session.IsActive` | src/main/java/com/cmmps/nppx/aws/LoadNadac.java:159 | Tells whether a transaction is open. |
| `Sink.Session.Rollback` | src/main/java/com/cmmps/nppx/aws/LoadNadac.java:160 | Drops the pending records and leaves committed batches as they are. |
| `Sink.Session.Close` | src/main/java/com/cmmps/nppx/aws/LoadNadac.java:169 | Closes the session and changes nothing else. |

## Left out

- Fetching the object from S3, the `InputStreamReader`/`BufferedReader` plumbing and the Commons CSV
  tokeniser (lines 71-76, 85) are I/O and a foreign library. The input is the sequence of tokenised
  rows, or `None` when the fetch throws. A tokeniser error in the middle of the stream is not modelled.
- Hibernate internals are not modelled: `getByNameAtomic`, `saveAtomic` and the session's own
  behaviour. Their results are parameters, and `Session` keeps only the transaction-state effects.
  A `save`, `commit` or `close` that throws is not modelled. Only the failures named above end a
  run. The rollback lemmas are stated for any failure point, counted in records saved.
- Wall-clock timing, the `SAVE_WARN_THRESHOLD` warning and all logging (lines 48, 129-143,
  152-157) are observability only.
- The price is a `real` produced by an oracle. `Double` precision and `Double.parseDouble`'s accepted
  syntax are not modelled.
- `SimpleDateFormat("MM/dd/yyyy")` leniency and time zones are not modelled. The date parse is an
  oracle returning an optional epoch value.
- `Util.generateId` and the `DrugPrice` constructor's validation are not part of this model. They are
  a counter and an oracle. A null id, which would make `Map.of` throw, cannot occur in the model.
- Releasing resources in `finally` (lines 163-173) is not modelled beyond `Session.Close`. The model
  always closes the session, while the code skips `session.close()` if `csvFile.close()` throws.
- `INITIAL_NDC_MAP_CAPACITY` is a sizing hint with no effect on behaviour. `main` and the `AwsApp`
  set-up behind the constructor are process wiring.
- Pipeline.ProcessInvariant: stated for at most 2^31 - 1 rows. This bound on rows is a sufficient
  condition: the `int` counter counts saved records, and past 2^31 - 1 saved records it can wrap
  (modelled by `Inc32`). After that the batch arithmetic no longer holds.
- Pipeline.IngestInvariant: stated for at most 2^31 - 1 rows, for the same reason.
- Pipeline.CompletedRunCommitsEverything: stated for at most 2^31 - 1 rows, for the same reason.
- Pipeline.AbortedRunKeepsCommittedBatches: stated for at most 2^31 - 1 rows, for the same reason.
- Pipeline.EqualDescriptionsShareId: stated for at most 2^31 - 1 rows, because its proof uses the run
  invariant.
- Pipeline.RecordsFollowRows: stated for at most 2^31 - 1 rows, because its proof uses the run
  invariant.
