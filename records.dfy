/** The job record: the dictionary the handler appends to `jobs`, writes to
    the store and lists in the notification. */
module Records {

  /** One posting. `jobId` is the store key; the other fields are the
      trimmed texts (and link) of the row it came from. */
  datatype JobRecord = JobRecord(
    jobId: string,
    company: string,
    position: string,
    location: string,
    link: string,
    date: string)

  /** The key derived from a posting: company, position and date joined
      with hyphens. */
  function JobId(company: string, position: string, date: string): string
  {
    company + "-" + position + "-" + date
  }

  /** A record whose key is the one derived from its own fields. */
  predicate WellKeyed(job: JobRecord)
  {
    job.jobId == JobId(job.company, job.position, job.date)
  }

  /** The keys of a batch of records. */
  function Ids(jobs: seq<JobRecord>): set<string>
  {
    if jobs == [] then {} else Ids(jobs[..|jobs| - 1]) + {jobs[|jobs| - 1].jobId}
  }

  /** A key is among the keys of a batch exactly when some record of the
      batch carries it. */
  lemma {:induction false} IdsMembership(jobs: seq<JobRecord>, x: string)
    ensures x in Ids(jobs) <==> exists k :: 0 <= k < |jobs| && jobs[k].jobId == x
  {
    if jobs != [] {
      var init := jobs[..|jobs| - 1];
      IdsMembership(init, x);
      if x in Ids(init) {
        var k :| 0 <= k < |init| && init[k].jobId == x;
        assert jobs[k].jobId == x;
      }
      if k :| 0 <= k < |jobs| && jobs[k].jobId == x {
        if k < |init| {
          assert init[k].jobId == x;
        }
      }
    }
  }

  lemma IdsSnoc(jobs: seq<JobRecord>, job: JobRecord)
    ensures Ids(jobs + [job]) == Ids(jobs) + {job.jobId}
  {
    assert (jobs + [job])[..|jobs|] == jobs;
  }

  /** The key is not injective: a hyphen inside a field lets two different
      postings share one key, and the later one is then taken for the
      earlier. */
  lemma JobIdCollides()
    ensures JobId("a-b", "c", "d") == JobId("a", "b-c", "d")
  {
  }
}
