/** Deciding which extracted jobs are new (main.py lines 79-87): each job is
    looked up in the `job_tracker` store by its key and, when absent,
    written there and reported. */
module Novelty {
  import opened Results
  import opened Records
  import opened Positions

  /** The store: records keyed by `job_id`. The network client is not
      modelled; the table is an in-memory map updated in place. */
  class JobTable {
    var items: map<string, JobRecord>

    constructor (initial: map<string, JobRecord>)
      ensures items == initial
    {
      items := initial;
    }

    /** `get_item`: the stored record under `key`, if there is one. */
    method GetItem(key: string) returns (item: Option<JobRecord>)
      ensures item.Some? <==> key in items
      ensures item.Some? ==> item.value == items[key]
    {
      if key in items {
        item := Some(items[key]);
      } else {
        item := None;
      }
    }

    /** `put_item`: stores the whole record under its key. */
    method PutItem(job: JobRecord)
      modifies this
      ensures items == old(items)[job.jobId := job]
    {
      items := items[job.jobId := job];
    }
  }

  /** The store after a batch, and the jobs reported as new. */
  datatype Admission = Admission(store: map<string, JobRecord>, newJobs: seq<JobRecord>)

  /** Processing `jobs` in order against `store`: a job whose key is absent
      at the moment of its lookup is written and reported. */
  function Admit(store: map<string, JobRecord>, jobs: seq<JobRecord>): Admission
  {
    if jobs == [] then Admission(store, [])
    else
      var before := Admit(store, jobs[..|jobs| - 1]);
      var job := jobs[|jobs| - 1];
      if job.jobId in before.store then before
      else Admission(before.store[job.jobId := job], before.newJobs + [job])
  }

  /** The loop of main.py lines 82-87. */
  method FilterNew(table: JobTable, jobs: seq<JobRecord>) returns (newJobs: seq<JobRecord>)
    modifies table
    ensures table.items == Admit(old(table.items), jobs).store
    ensures newJobs == Admit(old(table.items), jobs).newJobs
  {
    newJobs := [];
    for i := 0 to |jobs|
      invariant table.items == Admit(old(table.items), jobs[..i]).store
      invariant newJobs == Admit(old(table.items), jobs[..i]).newJobs
    {
      assert jobs[..i + 1][..i] == jobs[..i];
      var job := jobs[i];
      var response := table.GetItem(job.jobId);
      if response.None? {
        table.PutItem(job);
        newJobs := newJobs + [job];
      }
    }
    assert jobs[..|jobs|] == jobs;
  }

  /** Afterwards the store holds exactly the keys it held before plus the
      keys of the batch: every input job's key is present. */
  lemma {:induction false} AdmitKeys(store: map<string, JobRecord>, jobs: seq<JobRecord>)
    ensures Admit(store, jobs).store.Keys == store.Keys + Ids(jobs)
  {
    if jobs != [] {
      AdmitKeys(store, jobs[..|jobs| - 1]);
    }
  }

  /** No entry the store held before is overwritten. */
  lemma {:induction false} AdmitKeepsExisting(store: map<string, JobRecord>, jobs: seq<JobRecord>)
    ensures forall x :: x in store ==> x in Admit(store, jobs).store && Admit(store, jobs).store[x] == store[x]
  {
    if jobs != [] {
      AdmitKeepsExisting(store, jobs[..|jobs| - 1]);
    }
  }

  /** Each of `newJobs` has a key absent from `store` and is what `after`
      holds under that key. */
  ghost predicate StoredAsNew(store: map<string, JobRecord>, after: map<string, JobRecord>, newJobs: seq<JobRecord>)
  {
    forall k :: 0 <= k < |newJobs| ==>
      newJobs[k].jobId !in store && newJobs[k].jobId in after && after[newJobs[k].jobId] == newJobs[k]
  }

  /** Every reported job had a key the store did not hold and is stored
      under its key, and the keys added are exactly those of the reported
      jobs. */
  lemma {:induction false} AdmitStoresNewJobs(store: map<string, JobRecord>, jobs: seq<JobRecord>)
    ensures StoredAsNew(store, Admit(store, jobs).store, Admit(store, jobs).newJobs)
    ensures Admit(store, jobs).store.Keys == store.Keys + Ids(Admit(store, jobs).newJobs)
  {
    if jobs != [] {
      var init := jobs[..|jobs| - 1];
      var job := jobs[|jobs| - 1];
      var before := Admit(store, init);
      AdmitStoresNewJobs(store, init);
      AdmitKeepsExisting(store, init);
      if job.jobId !in before.store {
        StoredAsNewSnoc(store, before.store, before.newJobs, job);
        IdsSnoc(before.newJobs, job);
      }
    }
  }

  lemma StoredAsNewSnoc(store: map<string, JobRecord>, after: map<string, JobRecord>, newJobs: seq<JobRecord>, job: JobRecord)
    requires StoredAsNew(store, after, newJobs)
    requires store.Keys <= after.Keys && job.jobId !in after
    ensures StoredAsNew(store, after[job.jobId := job], newJobs + [job])
  {
  }

  /** No two of `newJobs` share a key. */
  ghost predicate DistinctIds(newJobs: seq<JobRecord>)
  {
    forall a, b :: 0 <= a < b < |newJobs| ==> newJobs[a].jobId != newJobs[b].jobId
  }

  /** The keys of the reported jobs are pairwise distinct. */
  lemma {:induction false} AdmitDistinct(store: map<string, JobRecord>, jobs: seq<JobRecord>)
    ensures DistinctIds(Admit(store, jobs).newJobs)
  {
    if jobs != [] {
      var init := jobs[..|jobs| - 1];
      var job := jobs[|jobs| - 1];
      var before := Admit(store, init);
      AdmitDistinct(store, init);
      AdmitStoresNewJobs(store, init);
      if job.jobId !in before.store {
        DistinctSnoc(store, before.store, before.newJobs, job);
      }
    }
  }

  lemma DistinctSnoc(store: map<string, JobRecord>, after: map<string, JobRecord>, newJobs: seq<JobRecord>, job: JobRecord)
    requires DistinctIds(newJobs) && StoredAsNew(store, after, newJobs)
    requires job.jobId !in after
    ensures DistinctIds(newJobs + [job])
  {
  }

  /** Job `i` is the first occurrence in the batch of a key the store did not
      hold. */
  ghost predicate FirstUnseen(store: map<string, JobRecord>, jobs: seq<JobRecord>, i: int)
    requires 0 <= i < |jobs|
  {
    jobs[i].jobId !in store && forall k :: 0 <= k < i ==> jobs[k].jobId != jobs[i].jobId
  }

  /** Whether a job is a first occurrence does not depend on later jobs. */
  lemma FirstUnseenPrefix(store: map<string, JobRecord>, jobs: seq<JobRecord>, n: nat)
    requires n <= |jobs|
    ensures forall i :: 0 <= i < n ==> (FirstUnseen(store, jobs, i) <==> FirstUnseen(store, jobs[..n], i))
  {
  }

  /** For each job, whether it is the first occurrence of an unseen key. */
  ghost function FirstUnseenFlags(store: map<string, JobRecord>, jobs: seq<JobRecord>): seq<bool>
  {
    seq(|jobs|, i requires 0 <= i < |jobs| => FirstUnseen(store, jobs, i))
  }

  /** The positions of the jobs that are first occurrences of unseen keys,
      in increasing order. */
  ghost function FirstUnseenIndices(store: map<string, JobRecord>, jobs: seq<JobRecord>): seq<nat>
  {
    TrueIndices(FirstUnseenFlags(store, jobs))
  }

  /** The positions are increasing, in range, and are exactly the first
      occurrences of unseen keys. */
  lemma FirstUnseenIndicesSpec(store: map<string, JobRecord>, jobs: seq<JobRecord>)
    ensures StrictlyIncreasing(FirstUnseenIndices(store, jobs))
    ensures forall k :: 0 <= k < |FirstUnseenIndices(store, jobs)| ==> FirstUnseenIndices(store, jobs)[k] < |jobs|
    ensures forall i :: 0 <= i < |jobs| ==> (i in FirstUnseenIndices(store, jobs) <==> FirstUnseen(store, jobs, i))
  {
    TrueIndicesSpec(FirstUnseenFlags(store, jobs));
  }

  /** The first-occurrence positions of a batch extend those of its prefix by
      at most the last job. */
  lemma FirstUnseenIndicesSnoc(store: map<string, JobRecord>, jobs: seq<JobRecord>)
    requires jobs != []
    ensures FirstUnseenIndices(store, jobs) ==
      FirstUnseenIndices(store, jobs[..|jobs| - 1]) +
      (if FirstUnseen(store, jobs, |jobs| - 1) then [|jobs| - 1] else [])
  {
    var n := |jobs|;
    FirstUnseenPrefix(store, jobs, n - 1);
    assert FirstUnseenFlags(store, jobs)[..n - 1] == FirstUnseenFlags(store, jobs[..n - 1]);
  }

  /** `out` lists the jobs at positions `idx`, in that order. */
  ghost predicate Selects(jobs: seq<JobRecord>, idx: seq<nat>, out: seq<JobRecord>)
  {
    && |out| == |idx|
    && forall k :: 0 <= k < |idx| ==> idx[k] < |jobs| && out[k] == jobs[idx[k]]
  }

  /** The reported jobs are the subsequence of the batch, in input order,
      made of the first occurrence of every key the store did not hold: a
      job is admitted exactly when its key is absent from the store when it
      is looked up. */
  lemma {:induction false} AdmitSelectsFirstUnseen(store: map<string, JobRecord>, jobs: seq<JobRecord>)
    ensures Selects(jobs, FirstUnseenIndices(store, jobs), Admit(store, jobs).newJobs)
  {
    if jobs != [] {
      var n := |jobs|;
      var init := jobs[..n - 1];
      var idx, out := FirstUnseenIndices(store, init), Admit(store, init).newJobs;
      AdmitSelectsFirstUnseen(store, init);
      FirstUnseenIndicesSnoc(store, jobs);
      LookupSeesEarlierJobs(store, jobs);
      SelectsGrow(init, jobs, idx, out);
      if FirstUnseen(store, jobs, n - 1) {
        SelectsSnoc(jobs, idx, out, n - 1);
      }
    }
  }

  lemma SelectsGrow(init: seq<JobRecord>, jobs: seq<JobRecord>, idx: seq<nat>, out: seq<JobRecord>)
    requires init <= jobs && Selects(init, idx, out)
    ensures Selects(jobs, idx, out)
  {
    forall k | 0 <= k < |idx|
      ensures jobs[idx[k]] == init[idx[k]]
    {
    }
  }

  lemma SelectsSnoc(jobs: seq<JobRecord>, idx: seq<nat>, out: seq<JobRecord>, i: nat)
    requires Selects(jobs, idx, out) && i < |jobs|
    ensures Selects(jobs, idx + [i], out + [jobs[i]])
  {
  }

  /** The last job of a batch finds its key in the store exactly when the
      key was there before or an earlier job of the batch carried it. */
  lemma LookupSeesEarlierJobs(store: map<string, JobRecord>, jobs: seq<JobRecord>)
    requires jobs != []
    ensures jobs[|jobs| - 1].jobId in Admit(store, jobs[..|jobs| - 1]).store <==>
      !FirstUnseen(store, jobs, |jobs| - 1)
  {
    var init := jobs[..|jobs| - 1];
    var x := jobs[|jobs| - 1].jobId;
    AdmitKeys(store, init);
    IdsMembership(init, x);
    if k :| 0 <= k < |init| && init[k].jobId == x {
      assert jobs[k].jobId == x;
    }
    if k :| 0 <= k < |jobs| - 1 && jobs[k].jobId == x {
      assert init[k].jobId == x;
    }
  }

  /** Exactly-once admission: a key the store did not hold that occurs in
      the batch is reported by exactly one job, and a key it held is never
      reported. */
  lemma AdmitExactlyOnce(store: map<string, JobRecord>, jobs: seq<JobRecord>, x: string)
    ensures x in store ==> forall k :: 0 <= k < |Admit(store, jobs).newJobs| ==>
      Admit(store, jobs).newJobs[k].jobId != x
    ensures x !in store && x in Ids(jobs) ==>
      exists k :: 0 <= k < |Admit(store, jobs).newJobs| && Admit(store, jobs).newJobs[k].jobId == x &&
        forall l :: 0 <= l < |Admit(store, jobs).newJobs| && l != k ==> Admit(store, jobs).newJobs[l].jobId != x
  {
    var o := Admit(store, jobs);
    AdmitKeys(store, jobs);
    AdmitStoresNewJobs(store, jobs);
    AdmitDistinct(store, jobs);
    IdsMembership(o.newJobs, x);
  }

  /** Running the same batch again against the resulting store reports
      nothing and writes nothing: a posting is reported once across runs. */
  lemma AdmitAgainReportsNothing(store: map<string, JobRecord>, jobs: seq<JobRecord>)
    ensures Admit(Admit(store, jobs).store, jobs) == Admission(Admit(store, jobs).store, [])
  {
    AdmitKeys(store, jobs);
    AllSeen(Admit(store, jobs).store, jobs);
  }

  /** A batch whose keys are all stored already changes nothing. */
  lemma {:induction false} AllSeen(store: map<string, JobRecord>, jobs: seq<JobRecord>)
    requires Ids(jobs) <= store.Keys
    ensures Admit(store, jobs) == Admission(store, [])
  {
    if jobs != [] {
      AllSeen(store, jobs[..|jobs| - 1]);
    }
  }
}
