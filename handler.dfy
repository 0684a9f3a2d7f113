/** `lambda_handler` (main.py lines 13-91) with the browser, the parser and
    the cloud clients replaced by their inputs and outputs: the page is what
    the parser found, the store is a `JobTable`, and the notification is
    returned. */
module Handler {
  import opened Results
  import opened Text
  import opened Records
  import opened Extraction
  import opened Novelty
  import opened Notification

  /** What one invocation produces: the jobs it returns and the message it
      sends, if any. */
  datatype Invocation = Invocation(newJobs: seq<JobRecord>, sent: Option<Email>)

  /** One run: extract, keep the unseen jobs while recording them, notify.
      Without a table body the run fails before touching the store. */
  method LambdaHandler(page: Option<Table>, table: JobTable, sender: string, recipient: string, today: string)
    returns (r: Result<Invocation, ExtractError>)
    modifies table
    ensures BodyRows(page).None? ==> r == Failure(JobsUnbound) && table.items == old(table.items)
    ensures BodyRows(page).Some? ==>
      var outcome := Admit(old(table.items), Extracted(BodyRows(page).value, Keyword));
      && table.items == outcome.store
      && r.Success?
      && r.value.newJobs == outcome.newJobs
      && r.value.sent == (if outcome.newJobs == [] then None
                          else Some(Email(sender, recipient, Subject(today), Body(outcome.newJobs))))
  {
    var extracted := ExtractJobs(page);
    if extracted.Failure? {
      return Failure(JobsUnbound);
    }
    var newJobs := FilterNew(table, extracted.value);
    var sent := SendEmailNotification(newJobs, sender, recipient, today);
    return Success(Invocation(newJobs, sent));
  }

  /** Every job a run reports matches the keyword, is keyed by its own
      fields, was absent from the store before the run, and is stored
      under its key afterwards. */
  lemma ReportedJobsAreNewMatches(rows: seq<Row>, keyword: string, store: map<string, JobRecord>)
    ensures forall j :: j in Admit(store, Extracted(rows, keyword)).newJobs ==>
      && WellKeyed(j)
      && Contains(Lower(j.position), keyword)
      && j.jobId !in store
      && j.jobId in Admit(store, Extracted(rows, keyword)).store
  {
    var jobs := Extracted(rows, keyword);
    var o := Admit(store, jobs);
    ExtractedRecordsMatch(rows, keyword);
    AdmitSelectsFirstUnseen(store, jobs);
    AdmitStoresNewJobs(store, jobs);
    forall j | j in o.newJobs
      ensures WellKeyed(j) && Contains(Lower(j.position), keyword)
      ensures j.jobId !in store && j.jobId in o.store
    {
      var k :| 0 <= k < |o.newJobs| && o.newJobs[k] == j;
      assert j in jobs;
    }
  }
}
