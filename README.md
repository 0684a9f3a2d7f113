# Job-Pages-Scraper: a Dafny model of the handler's logic

The repository is a single scheduled function, `lambda_handler` in `main.py`.
It renders a job-postings page in a headless browser and parses the job table.
It keeps the rows whose position mentions "data engineer" and turns each into a
job record. It looks every record up in the `job_tracker` store, writes the
unseen ones and returns them. Finally it mails a numbered summary of them.

This project models the three pieces of sequential logic inside that glue:

- **Extraction** (`extraction.dfy`, main.py lines 48-77). A page is what the
  parser found: an optional table whose body, if present, is a sequence of
  rows. A row is a sequence of `td` cells. A cell is its stripped text and
  the anchors it contains, each with an optional `href`. `ExtractRows` is the
  `for row in rows` loop. It is proved equal to the specification function
  `Extracted`, and lemmas about `Extracted` state what the records are.
  Without a table or a body, `jobs` is never bound in the source, and the loop
  at line 83 raises. `ExtractJobs` returns an explicit failure in that case.
- **Novelty filter** (`novelty.dfy`, lines 79-87). The store is a class
  `JobTable` whose `items` map from key to record is updated in place by
  `PutItem`. `FilterNew` is the lookup-then-write loop. It is proved equal to
  the specification function `Admit`. Lemmas about `Admit` give the store's
  new key set, no overwrites, exactly-once admission, first-occurrence
  selection in input order, and that a second run reports nothing.
- **Notification** (`notification.dfy`, lines 93-124). `SendEmailNotification`
  builds the body with `+=` in a loop and returns the message that would be
  sent, or nothing for an empty list. The sender, the recipient and today's
  date are parameters.

`handler.dfy` chains the three as `lambda_handler` does. `text.dfy` holds the
string operations the code relies on: ASCII lower-casing, substring search,
decimal rendering of numbers and joining of parts. `positions.dfy` holds
increasing index sequences, used to state "an order-preserving selection".
`records.dfy` holds the job record and its key. `results.dfy` holds Option
and Result.

The keyword search is specified for an arbitrary keyword `keyword`. The code
always passes `Keyword` ("data engineer"), and so does the model's
`ExtractRows`.

Two behaviours of the code are worth stating outright:
- Without a table or a body, the code does not produce an empty list: `jobs`
  is never bound and the loop at main.py:83 raises. The model returns
  `Failure(JobsUnbound)` and leaves the store untouched.
- The subject carries only the date (main.py:101). The number of jobs appears
  only in the body (main.py:104).

## Model

| member | source | states |
|---|---|---|
| `Text.LowerSpec` | main.py:60 | lower-casing keeps the length, leaves no upper-case letter, and changes a character only by mapping A-Z to a-z |
| `Text.ContainsIffOccurs` | main.py:60 | `sub in s` holds exactly when `sub` occurs at some position of `s` |
| `Text.ParseNatToString` | main.py:104-107 | the decimal text of a count or job number reads back as that number |
| `Text.NatToStringInjective` | main.py:107 | different job numbers are rendered as different texts |
| `Text.ConcatPrefix` | main.py:105-114 | text built by repeated `+=` has each earlier state as a prefix |
| `Records.JobIdCollides` | main.py:69 | the hyphen-joined key is not injective: two postings can share a key when a field contains a hyphen |
| `Extraction.FirstHref` | main.py:65 | no href is found exactly when no anchor in the cell has one |
| `Extraction.FirstHrefIsFirst` | main.py:65-66 | a found href is that of the first anchor carrying one |
| `Extraction.ExtractRows` | main.py:54-77 | the row loop yields exactly `Extracted(rows, "data engineer")` |
| `Extraction.ExtractJobs` | main.py:48-77 | extraction fails exactly when the table or its body is missing (the source then raises at line 83); otherwise it yields the records of the body rows |
| `Extraction.ExtractedAppend` | main.py:55-77 | rows are processed independently: the records of `a + b` are those of `a` followed by those of `b` |
| `Extraction.ShortRowIgnored` | main.py:56-57 | a row with fewer than 5 cells contributes no record wherever it stands, and causes no error |
| `Extraction.EligibleIndicesSpec` | main.py:57-61 | the selected row positions are increasing and are exactly the rows with at least 5 cells whose lower-cased position contains the keyword |
| `Extraction.EligibleIffKeyword` | main.py:57-61 | a row with at least 5 cells is kept if and only if the keyword occurs in its lower-cased position |
| `Extraction.ExtractedIsMappedSubsequence` | main.py:54-77 | record k is the record of the k-th selected row, so the output keeps the rows' relative order |
| `Extraction.ExtractedFields` | main.py:58-76 | each record's key is cell 0, cell 1 and cell 4 joined with "-", and its company, position, location, link and date come from cells 0, 1, 2, 3 and 4 of its row |
| `Extraction.ExtractedRecordsMatch` | main.py:60-69 | every extracted record is keyed by its own company, position and date, and its position contains the keyword case-insensitively |
| `Novelty.JobTable.constructor` | main.py:79-80 | the store starts with the given contents |
| `Novelty.JobTable.GetItem` | main.py:84-85 | a lookup returns the stored record exactly when the key is present (a strongly consistent read) |
| `Novelty.JobTable.PutItem` | main.py:86 | a write stores the whole record under its key and changes nothing else |
| `Novelty.FilterNew` | main.py:82-87 | the lookup-then-write loop leaves the store as `Admit(old store, jobs).store` and returns `Admit(old store, jobs).newJobs` |
| `Novelty.AdmitKeys` | main.py:82-87 | afterwards the store's keys are the old keys plus the keys of all input jobs, so every input job's key is present |
| `Novelty.AdmitKeepsExisting` | main.py:84-86 | entries present before the batch keep their records: nothing is overwritten |
| `Novelty.AdmitStoresNewJobs` | main.py:84-87 | each reported job's key was absent before and now holds that job, and the keys added are exactly the reported ones |
| `Novelty.AdmitDistinct` | main.py:82-87 | the reported jobs have pairwise distinct keys |
| `Novelty.FirstUnseenIndicesSpec` | main.py:83-87 | the admitted positions are increasing and are exactly the first occurrences in the batch of keys the store did not hold |
| `Novelty.LookupSeesEarlierJobs` | main.py:84-85 | a job's lookup finds its key exactly when the key was stored before the batch or an earlier job of the batch carried it |
| `Novelty.AdmitSelectsFirstUnseen` | main.py:82-87 | the reported jobs are the jobs at the admitted positions, in input order |
| `Novelty.AdmitExactlyOnce` | main.py:82-87 | a key absent before and present in the batch is reported by exactly one job; a key present before is never reported |
| `Novelty.AllSeen` | main.py:84-85 | a batch whose keys are all stored reports nothing and leaves the store as it was |
| `Novelty.AdmitAgainReportsNothing` | main.py:84-86 | rerunning the same batch against the resulting store reports nothing and writes nothing |
| `Notification.SendEmailNotification` | main.py:93-124 | nothing is sent exactly when the list is empty; otherwise one message from sender to recipient with subject `"New Data Engineer Jobs - " + today` and the numbered body |
| `Notification.BlocksSnoc` | main.py:105-114 | each loop iteration appends the block of the next job, numbered one past the jobs before it |
| `Notification.BlocksPrefix` | main.py:104-115 | the blocks of the first k jobs are a prefix of the blocks of all jobs |
| `Notification.BodyListsJobsInOrder` | main.py:104-115 | the body holds the block "Job #k+1" of the k-th job at its place, and consecutive blocks follow one another in list order |
| `Notification.BodyStatesCount` | main.py:104 | the body opens with the greeting, and the digits after "We found " in it read back as the number of jobs |
| `Notification.BlockNumbered` | main.py:106-114 | every block starts with its "Job #n" line and ends with the delimiter line, and blocks with different numbers differ |
| `Handler.LambdaHandler` | main.py:13-91 | without a table body the run fails and the store is unchanged; otherwise the store and the returned jobs are those of `Admit` on the extracted records, and the message is that of the notifier |
| `Handler.ReportedJobsAreNewMatches` | main.py:54-87 | every reported job matches the keyword, is keyed by its own fields, was absent from the store before the run, and is stored afterwards |

## Left out

- Browser setup, navigation, the fixed 5-second wait and `driver.quit()` (main.py:14-44) are a browser process and a wall-clock delay. The page is an input.
- HTML parsing and DOM search (main.py:46-52, 56, 65) belong to a foreign library. A page is what the parser found: an optional table with an optional body of rows of cells. Which table carries `tabindex="0"` and which elements are `tr`/`td` is therefore not modelled.
- `get_text(strip=True)` is not modelled: a cell's text is given already stripped.
- Text.LowerSpec: lower-casing maps only the ASCII letters A-Z, whereas Python's `str.lower()` follows Unicode case rules.
- Novelty.JobTable.GetItem: lookups are modelled as strongly consistent reads. The code's `get_item` (main.py:84) does not ask for `ConsistentRead`, so it may not see a `put_item` made earlier in the same batch. It can then admit a key repeated within one batch twice. The within-batch parts of `AdmitDistinct`, `AdmitExactlyOnce`, `LookupSeesEarlierJobs` and `AdmitSelectsFirstUnseen` rely on read-your-writes.
- The store's network client (main.py:79-80) is replaced by the in-memory `JobTable`. Store failures, throttling and concurrent writers are not modelled.
- The mail client (main.py:96, 117-124) is not modelled. The message is returned instead of sent, and a failed send is not modelled.
- The `SES_SENDER` and `SES_RECIPIENT` environment lookups and the `KeyError` they raise when missing (main.py:97-98) are configuration I/O. The addresses are parameters.
- `date.today().strftime('%Y-%m-%d')` (main.py:100) reads the clock. The formatted date is a parameter.
- The commented-out `__main__` block (main.py:126-129) is dead code.
- Strings are sequences of characters. Encoding and serialisation of the returned list are not modelled.
