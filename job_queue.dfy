/** The job queue `insertJob` writes to: a collection of job records and the
    one operation used on it, `updateOne(filter, {$setOnInsert: newJob},
    {upsert: true})`. The collection is an in-memory sequence of records; a
    filter is matched the way the document store matches an equality on a
    field, including its rule for array-valued fields. */
module JobQueue {
  import opened Wrappers
  import opened StagingUtils

  // ---------------------------------------------------------------------------
  // Records
  // ---------------------------------------------------------------------------

  /** A stored or queried field value: a string, or an array of strings. */
  datatype Value = Text(s: string) | Texts(items: seq<string>)

  /** A creation or start time, as the store keeps it; the clock is an input. */
  datatype Timestamp = Timestamp(millis: int)

  /** One queued job. */
  datatype JobRecord = JobRecord(
    title: string,
    user: string,
    email: string,
    status: Value,
    createdTime: Timestamp,
    startTime: Option<Timestamp>,
    endTime: Option<Timestamp>,
    priority: int,
    numFailures: int,
    failures: seq<string>,
    result: Option<string>,
    payload: Payload,
    logs: map<string, string>)

  /** The state a job starts in: queued, not started, not ended, priority 1,
      no failures, no result and no logs. */
  predicate IsNewlyQueued(job: JobRecord) {
    job.status == Text("inQueue") && job.startTime.None? && job.endTime.None?
    && job.priority == 1 && job.numFailures == 0 && job.failures == []
    && job.result.None? && job.logs == map[]
  }

  /** The `newJob` document `insertJob` asks the store to insert. */
  function NewJob(payload: Payload, title: string, user: string, email: string, created: Timestamp): (job: JobRecord)
    ensures IsNewlyQueued(job)
    ensures job.payload == payload && job.title == title && job.user == user && job.email == email
    ensures job.createdTime == created
  {
    JobRecord(title, user, email, Text("inQueue"), created, None, None, 1, 0, [], None, payload, map[])
  }

  // ---------------------------------------------------------------------------
  // Filters
  // ---------------------------------------------------------------------------

  /** A query: equality on the payload and the status, or either of two queries. */
  datatype Filter = Eq(payload: Payload, status: Value) | Or(left: Filter, right: Filter)

  /** The store's equality on one field: the values are equal, or the field
      holds an array one of whose elements equals the queried string. */
  predicate FieldEquals(field: Value, query: Value) {
    field == query || (field.Texts? && query.Text? && query.s in field.items)
  }

  predicate Matches(f: Filter, job: JobRecord) {
    match f
    case Eq(payload, status) => job.payload == payload && FieldEquals(job.status, status)
    case Or(left, right) => Matches(left, job) || Matches(right, job)
  }

  /** A status the queue has not finished with. */
  predicate IsUnfinished(status: Value) {
    FieldEquals(status, Text("inQueue")) || FieldEquals(status, Text("inProgress"))
  }

  /** The filter as `insertJob` builds it: the status compared for equality
      with the array `["inProgress", "inQueue"]`. */
  function AsWrittenFilter(payload: Payload): Filter {
    Eq(payload, Texts(["inProgress", "inQueue"]))
  }

  /** The filter the array of statuses and the commented-out `$or`
      alternative aim at: same payload, and status "inQueue" or "inProgress".
      The comment above them reads more narrowly, as jobs not yet started,
      which is "inQueue" alone. */
  function IntendedFilter(payload: Payload): Filter {
    Or(Eq(payload, Text("inQueue")), Eq(payload, Text("inProgress")))
  }

  /** As written, a record matches only if its status is that very array. */
  lemma AsWrittenFilterMeaning(payload: Payload, job: JobRecord)
    ensures Matches(AsWrittenFilter(payload), job)
        <==> job.payload == payload && job.status == Texts(["inProgress", "inQueue"])
  {
  }

  /** The intended filter matches exactly the unfinished jobs with the payload. */
  lemma IntendedFilterMeaning(payload: Payload, job: JobRecord)
    ensures Matches(IntendedFilter(payload), job) <==> job.payload == payload && IsUnfinished(job.status)
  {
  }

  /** The document inserted is found by the intended filter for its payload,
      and never by the filter as written. */
  lemma NewJobAgainstFilters(payload: Payload, title: string, user: string, email: string, created: Timestamp)
    ensures Matches(IntendedFilter(payload), NewJob(payload, title, user, email, created))
    ensures !Matches(AsWrittenFilter(payload), NewJob(payload, title, user, email, created))
  {
  }

  // ---------------------------------------------------------------------------
  // The upsert
  // ---------------------------------------------------------------------------

  /** The first record the filter matches, if any. */
  function FindMatch(records: seq<JobRecord>, f: Filter): (r: Option<nat>)
    ensures r.None? <==> forall i :: 0 <= i < |records| ==> !Matches(f, records[i])
    ensures r.Some? ==> r.value < |records| && Matches(f, records[r.value])
    ensures r.Some? ==> forall i :: 0 <= i < r.value ==> !Matches(f, records[i])
    decreases |records|
  {
    if records == [] then None
    else if Matches(f, records[0]) then Some(0)
    else
      match FindMatch(records[1..], f)
      case None => None
      case Some(i) => Some(i + 1)
  }

  /** The collection after `updateOne(f, {$setOnInsert: doc}, {upsert: true})`:
      untouched when a record matches, otherwise with `doc` appended. */
  function Upserted(records: seq<JobRecord>, f: Filter, doc: JobRecord): (r: seq<JobRecord>)
    ensures |records| <= |r| <= |records| + 1 && r[..|records|] == records
    ensures |r| == |records| <==> exists i :: 0 <= i < |records| && Matches(f, records[i])
    ensures |r| > |records| ==> r[|records|] == doc
  {
    if FindMatch(records, f).Some? then records else records + [doc]
  }

  /** At most one unfinished job per payload: the property deduplication is for. */
  ghost predicate AtMostOneUnfinished(records: seq<JobRecord>) {
    forall i, j :: 0 <= i < j < |records| && records[i].payload == records[j].payload
      ==> !(IsUnfinished(records[i].status) && IsUnfinished(records[j].status))
  }

  /** As written, a collection whose statuses are all strings never has a
      match, so every submission inserts. */
  lemma AsWrittenAlwaysInserts(records: seq<JobRecord>, payload: Payload, doc: JobRecord)
    requires forall i :: 0 <= i < |records| ==> records[i].status.Text?
    ensures Upserted(records, AsWrittenFilter(payload), doc) == records + [doc]
  {
    assert FindMatch(records, AsWrittenFilter(payload)).None?;
  }

  /** As written, submitting the same job twice queues it twice, both
      unfinished: deduplication never takes place. */
  lemma AsWrittenQueuesDuplicates(payload: Payload, title: string, user: string, email: string, created: Timestamp)
    ensures
      var job := NewJob(payload, title, user, email, created);
      var once := Upserted([], AsWrittenFilter(payload), job);
      var twice := Upserted(once, AsWrittenFilter(payload), job);
      twice == [job, job] && !AtMostOneUnfinished(twice)
  {
    var job := NewJob(payload, title, user, email, created);
    AsWrittenAlwaysInserts([], payload, job);
    var once := [job];
    assert once == [] + [job];
    AsWrittenAlwaysInserts(once, payload, job);
    assert IsUnfinished(job.status);
  }

  /** With the intended filter, a second submission of a payload whose first
      submission is still unfinished changes nothing. */
  lemma IntendedSecondSubmissionIsNoOp(records: seq<JobRecord>, payload: Payload, first: JobRecord, second: JobRecord)
    requires first.payload == payload && IsUnfinished(first.status)
    ensures
      var once := Upserted(records, IntendedFilter(payload), first);
      Upserted(once, IntendedFilter(payload), second) == once
  {
    var once := Upserted(records, IntendedFilter(payload), first);
    var k := if |once| == |records| then FindMatch(records, IntendedFilter(payload)).value else |records|;
    assert Matches(IntendedFilter(payload), once[k]);
  }

  /** The intended upsert keeps the queue free of unfinished duplicates. */
  lemma IntendedUpsertKeepsAtMostOneUnfinished(records: seq<JobRecord>, payload: Payload, doc: JobRecord)
    requires AtMostOneUnfinished(records)
    requires doc.payload == payload
    ensures AtMostOneUnfinished(Upserted(records, IntendedFilter(payload), doc))
  {
    var after := Upserted(records, IntendedFilter(payload), doc);
    if |after| > |records| {
      forall i, j | 0 <= i < j < |after| && after[i].payload == after[j].payload
        ensures !(IsUnfinished(after[i].status) && IsUnfinished(after[j].status))
      {
        if j == |records| {
          assert after[i] == records[i] && !Matches(IntendedFilter(payload), records[i]);
          assert after[j] == doc;
          IntendedFilterMeaning(payload, records[i]);
        } else {
          assert after[i] == records[i] && after[j] == records[j];
        }
      }
    }
  }

  /** Once every record with the payload has finished, submitting it again
      queues a new record. */
  lemma IntendedResubmitAfterFinish(records: seq<JobRecord>, payload: Payload, doc: JobRecord)
    requires forall i :: 0 <= i < |records| && records[i].payload == payload ==> !IsUnfinished(records[i].status)
    ensures Upserted(records, IntendedFilter(payload), doc) == records + [doc]
  {
    forall i | 0 <= i < |records|
      ensures !Matches(IntendedFilter(payload), records[i])
    {
      IntendedFilterMeaning(payload, records[i]);
    }
  }

  /** The whole story for one payload: submitted, submitted again while
      queued (no change), then, once the job has succeeded or failed,
      submitted a third time (a new record). */
  lemma IntendedSubmissionHistory(payload: Payload, job: JobRecord, finalStatus: string)
    requires job.payload == payload && IsNewlyQueued(job)
    requires finalStatus == "succeeded" || finalStatus == "failed"
    ensures
      var once := Upserted([], IntendedFilter(payload), job);
      var twice := Upserted(once, IntendedFilter(payload), job);
      var done := [twice[0].(status := Text(finalStatus))];
      && once == [job] && twice == once
      && Upserted(done, IntendedFilter(payload), job) == done + [job]
  {
    var once := Upserted([], IntendedFilter(payload), job);
    assert once == [] + [job];
    IntendedSecondSubmissionIsNoOp([], payload, job, job);
    var done := [job.(status := Text(finalStatus))];
    IntendedResubmitAfterFinish(done, payload, job);
  }

  // ---------------------------------------------------------------------------
  // The collection
  // ---------------------------------------------------------------------------

  /** Whether the store could be reached and the update ran. */
  datatype StoreStatus = Reachable | ConnectFails | QueryFails

  /** What `insertJob` logs: the new record's id (its position here), that
      the job already existed, or the connection or query error. */
  datatype InsertOutcome = Inserted(id: nat) | AlreadyExisted | ConnectionError | QueryError

  /** The effect of one `insertJob` on a collection holding `before`: an
      unreachable store leaves it alone and reports the error; a reachable one
      upserts and reports whether the filter already matched a record. */
  ghost predicate InsertEffect(before: seq<JobRecord>, after: seq<JobRecord>, filter: Filter, job: JobRecord,
                               store: StoreStatus, outcome: InsertOutcome)
  {
    match store
    case ConnectFails => after == before && outcome == ConnectionError
    case QueryFails => after == before && outcome == QueryError
    case Reachable =>
      && after == Upserted(before, filter, job)
      && outcome == (if FindMatch(before, filter).Some? then AlreadyExisted else Inserted(|before|))
  }

  class JobCollection {
    var records: seq<JobRecord>

    constructor (initial: seq<JobRecord>)
      ensures records == initial
    {
      records := initial;
    }

    /** `updateOne(filter, {$setOnInsert: doc}, {upsert: true})`: the id of
        the inserted document, or nothing when a record already matched. */
    method UpdateOneSetOnInsert(filter: Filter, doc: JobRecord) returns (upsertedId: Option<nat>)
      modifies this
      ensures records == Upserted(old(records), filter, doc)
      ensures upsertedId.None? <==> FindMatch(old(records), filter).Some?
      ensures upsertedId.Some? ==> upsertedId.value == |old(records)| && records[upsertedId.value] == doc
    {
      if FindMatch(records, filter).Some? {
        upsertedId := None;
      } else {
        upsertedId := Some(|records|);
        records := records + [doc];
      }
    }

    /** `insertJob`: build the new job document and the filter as written,
        and upsert. Only a reachable store changes. */
    method InsertJob(payload: Payload, title: string, user: string, email: string,
                     created: Timestamp, store: StoreStatus) returns (outcome: InsertOutcome)
      modifies this
      ensures InsertEffect(old(records), records, AsWrittenFilter(payload),
                           NewJob(payload, title, user, email, created), store, outcome)
      ensures store == Reachable ==> (outcome == AlreadyExisted <==> FindMatch(old(records), AsWrittenFilter(payload)).Some?)
      ensures outcome.Inserted? ==>
        outcome.id == |old(records)| && records == old(records) + [NewJob(payload, title, user, email, created)]
    {
      var newJob := NewJob(payload, title, user, email, created);
      var filterDoc := AsWrittenFilter(payload);
      if store == ConnectFails {
        return ConnectionError;
      }
      if store == QueryFails {
        return QueryError;
      }
      var upsertedId := UpdateOneSetOnInsert(filterDoc, newJob);
      if upsertedId.Some? {
        outcome := Inserted(upsertedId.value);
      } else {
        outcome := AlreadyExisted;
      }
    }
  }
}
