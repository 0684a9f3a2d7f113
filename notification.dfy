/** Composing the notification e-mail (main.py lines 93-124). The mail
    service is not modelled: the message is returned instead of sent. */
module Notification {
  import opened Results
  import opened Text
  import opened Records

  /** One message for the mail service: sender, single recipient, subject
      and plain-text body. */
  datatype Email = Email(sender: string, recipient: string, subject: string, body: string)

  const SubjectPrefix: string := "New Data Engineer Jobs - "
  const Delimiter: string := "----------------------\n"
  const Closing: string := "\nRegards,\nYour Job Scraper"
  /** The greeting's text before and after the number of jobs. */
  const CountLead: string := "Hi,\n\nWe found "
  const CountTrail: string := " new Data Engineer job(s) today:\n\n"

  /** The subject line for the date `today` (formatted as YYYY-MM-DD by the
      caller). */
  function Subject(today: string): string
  {
    SubjectPrefix + today
  }

  /** The opening of the body, stating how many jobs follow. */
  function Greeting(count: nat): string
  {
    CountLead + NatToString(count) + CountTrail
  }

  /** The first line of a block: "Job #" and the job's number. */
  function NumberLine(index: nat): string
  {
    "Job #" + NatToString(index) + "\n"
  }

  /** The lines describing one job. */
  function Details(job: JobRecord): string
  {
    "Company: " + job.company + "\n" +
    "Position: " + job.position + "\n" +
    "Location: " + job.location + "\n" +
    "Date: " + job.date + "\n" +
    "Link: " + job.link + "\n"
  }

  /** The block listing the job numbered `index`, ending with the delimiter
      line. */
  function Block(index: nat, job: JobRecord): string
  {
    NumberLine(index) + Details(job) + Delimiter
  }

  /** The blocks of `jobs`, numbered from 1 in list order. */
  function BlockTexts(jobs: seq<JobRecord>): seq<string>
  {
    seq(|jobs|, k requires 0 <= k < |jobs| => Block(k + 1, jobs[k]))
  }

  /** The blocks of `jobs` one after the other. */
  function Blocks(jobs: seq<JobRecord>): string
  {
    Concat(BlockTexts(jobs))
  }

  /** The whole body for a non-empty list of new jobs. */
  function Body(jobs: seq<JobRecord>): string
  {
    Greeting(|jobs|) + Blocks(jobs) + Closing
  }

  /** `send_email_notification`: nothing is sent for an empty list;
      otherwise one message goes from `sender` to `recipient` with the dated
      subject and the numbered body. */
  method SendEmailNotification(newJobs: seq<JobRecord>, sender: string, recipient: string, today: string)
    returns (sent: Option<Email>)
    ensures sent.None? <==> newJobs == []
    ensures sent.Some? ==> sent.value == Email(sender, recipient, Subject(today), Body(newJobs))
  {
    if newJobs == [] {
      return None;
    }
    var subject := Subject(today);
    var bodyText := Greeting(|newJobs|);
    for i := 0 to |newJobs|
      invariant bodyText == Greeting(|newJobs|) + Blocks(newJobs[..i])
    {
      BlocksSnoc(newJobs, i);
      AppendAssociative(Greeting(|newJobs|), Blocks(newJobs[..i]), Block(i + 1, newJobs[i]));
      bodyText := bodyText + Block(i + 1, newJobs[i]);
    }
    assert newJobs[..|newJobs|] == newJobs;
    bodyText := bodyText + Closing;
    return Some(Email(sender, recipient, subject, bodyText));
  }

  /** Extending a prefix by one job appends that job's block. */
  lemma BlocksSnoc(jobs: seq<JobRecord>, i: nat)
    requires i < |jobs|
    ensures Blocks(jobs[..i + 1]) == Blocks(jobs[..i]) + Block(i + 1, jobs[i])
  {
    var texts := BlockTexts(jobs[..i + 1]);
    assert texts[..i] == BlockTexts(jobs[..i]);
  }

  /** The blocks of a prefix of the list are a prefix of the blocks of the
      list. */
  lemma BlocksPrefix(jobs: seq<JobRecord>, k: nat)
    requires k <= |jobs|
    ensures Blocks(jobs[..k]) <= Blocks(jobs)
  {
    assert BlockTexts(jobs[..k]) == BlockTexts(jobs)[..k];
    ConcatPrefix(BlockTexts(jobs), k);
  }

  /** Where the block of job `k` (counting from 0) starts in the body. */
  function BlockStart(jobs: seq<JobRecord>, k: nat): nat
    requires k <= |jobs|
  {
    |Greeting(|jobs|)| + |Blocks(jobs[..k])|
  }

  /** The body holds the block "Job #k+1" of the k-th new job at its place,
      and the blocks follow one another in list order. */
  lemma BodyListsJobsInOrder(jobs: seq<JobRecord>, k: nat)
    requires k < |jobs|
    ensures BlockStart(jobs, k) + |Block(k + 1, jobs[k])| == BlockStart(jobs, k + 1)
    ensures BlockStart(jobs, k + 1) <= |Body(jobs)|
    ensures Body(jobs)[BlockStart(jobs, k)..BlockStart(jobs, k + 1)] == Block(k + 1, jobs[k])
  {
    var g, b := Greeting(|jobs|), Blocks(jobs);
    var p, m := Blocks(jobs[..k]), Block(k + 1, jobs[k]);
    BlocksSnoc(jobs, k);
    BlocksPrefix(jobs, k + 1);
    assert Body(jobs) == g + b + Closing;
    assert BlockStart(jobs, k) == |g| + |p|;
    assert BlockStart(jobs, k + 1) == |g| + |p| + |m|;
    SliceBetween(g, b, Closing, p, m);
  }

  /** The body opens with the greeting, and the digits standing after the
      greeting's lead read back as the number of jobs listed. */
  lemma BodyStatesCount(jobs: seq<JobRecord>)
    ensures |Greeting(|jobs|)| <= |Body(jobs)|
    ensures Body(jobs)[..|Greeting(|jobs|)|] == Greeting(|jobs|)
    ensures ParseDigits(Body(jobs)[|CountLead|..|CountLead| + |NatToString(|jobs|)|]) == |jobs|
  {
    var g, d := Greeting(|jobs|), NatToString(|jobs|);
    AppendAssociative(g, Blocks(jobs), Closing);
    PrefixExtend(g, g, Blocks(jobs) + Closing);
    assert g[|CountLead|..|CountLead| + |d|] == d;
    assert Body(jobs)[|CountLead|..|CountLead| + |d|] == Body(jobs)[..|g|][|CountLead|..|CountLead| + |d|];
    ParseNatToString(|jobs|);
  }

  /** Every block starts with its number line and ends with the delimiter
      line, and blocks with different numbers differ. */
  lemma BlockNumbered(i: nat, j: nat, a: JobRecord, b: JobRecord)
    ensures StartsWith(Block(i, a), NumberLine(i))
    ensures Block(i, a)[|Block(i, a)| - |Delimiter|..] == Delimiter
    ensures i != j ==> Block(i, a) != Block(j, b)
  {
    AppendAssociative(NumberLine(i), Details(a), Delimiter);
    AppendAssociative(NumberLine(j), Details(b), Delimiter);
    PrefixExtend(NumberLine(i), NumberLine(i), Details(a) + Delimiter);
    SuffixOfAppend(NumberLine(i) + Details(a), Delimiter);
    if Block(i, a) == Block(j, b) {
      DigitsBeforeNewline("Job #", NatToString(i), NatToString(j), Details(a) + Delimiter, Details(b) + Delimiter);
      NatToStringInjective(i, j);
    }
  }

  lemma AppendAssociative(a: string, b: string, c: string)
    ensures (a + b) + c == a + (b + c)
  {
  }

  lemma PrefixExtend(a: string, b: string, c: string)
    requires a <= b
    ensures a <= b + c
  {
  }

  lemma SuffixOfAppend(a: string, b: string)
    ensures (a + b)[|a + b| - |b|..] == b
  {
  }

  lemma SliceBetween(g: string, b: string, c: string, p: string, m: string)
    requires p + m <= b
    ensures |g| + |p| + |m| <= |g + b + c|
    ensures (g + b + c)[|g| + |p|..|g| + |p| + |m|] == m
  {
    assert (g + b + c)[|g|..|g| + |b|] == b;
    assert b[|p|..|p| + |m|] == (p + m)[|p|..];
  }

  /** Digits followed by a newline are read back unambiguously: two texts
      that agree and have the same lead start with the same digits. */
  lemma DigitsBeforeNewline(lead: string, d1: string, d2: string, r1: string, r2: string)
    requires IsDigits(d1) && IsDigits(d2)
    requires lead + d1 + "\n" + r1 == lead + d2 + "\n" + r2
    ensures d1 == d2
  {
    var s := lead + d1 + "\n" + r1;
    assert s[|lead| + |d1|] == '\n';
    assert s == lead + d2 + "\n" + r2;
    assert s[|lead| + |d2|] == '\n';
    assert d1 == s[|lead|..|lead| + |d1|];
    assert d2 == s[|lead|..|lead| + |d2|];
  }
}
