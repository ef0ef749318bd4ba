# Skycast analytics deletion task: retention sweep

This project models, in Dafny, the retention sweep of the Skycast analytics
deletion task runner and proves properties about it. The runner opens an Azure
storage account from the `StorageConnectionString` setting and lists the
container `skycast-ife-analytics-device-outputs` one segment at a time. For
each segment it computes a cutoff of "UTC now minus 90 days" and deletes every
block blob last modified strictly before that cutoff, in listing order. It
keeps two running counters: blobs listed and blobs deleted. When a segment
comes back without a continuation token it stops and prints a summary: the
deleted count, the start and end times, the count before deletion, the count
after deletion (`totalCount - deleteCount`) and the elapsed time.

Layout:

- `wrappers.dfy`, module `Wrappers`: `Option` (the continuation token) and
  `Result` (operations that can throw).
- `expiry.dfy`, module `Expiry`: timestamps as .NET ticks (`Ticks`, the range
  of `DateTime`), the blob descriptor, the cutoff `Cutoff` (the model of
  `DateTime.AddDays(-90)`, which throws when the result would fall before
  0001-01-01), and the expiry filter `Expired` with its complement `Kept`. The
  filter is pure, like the `Where` it models.
- `deletion_task.dfy`, module `DeletionTask`: the sweep. `Sweep` is imperative
  like the source: a do-while over listing calls, written as `while true` with
  a `break` on a null token, and an inner loop (`DeleteEach`) that issues one
  deletion per selected blob. `Sweep` is proved equal to the reference
  function `SweepSpec`. That function is built from page-wise specification
  functions (`Stop`, `RequestsOf`, `DeletionsOf`, `TotalOf`, `ReportsOf`,
  `SummaryOf`), and the lemmas state the sweep's properties about them.
  `Expiry.ExpiredCons` and `Expiry.ExpiredSingle` are proof helpers that unfold
  the filter at one blob, and `DeletionTask.PrefixExtends` is a helper about
  sequence prefixes.

The storage service and the clock are inputs:

- `listing[k]` is the segment the k-th listing call returns.
- `clock(k)` is the k-th reading of `DateTime.UtcNow`. Reading 0 is the start
  time. Reading i + 1 gives page i its cutoff. The reading after the last page
  is the end time.
- `connectionParses` says whether `CloudStorageAccount.Parse` accepts the
  configured connection string.
- The sweep returns the token passed to each listing call (`requests`), the
  blobs it deletes in order (`deletions`, which are also the deletion
  confirmation lines), the per-page "Total vs To Be Deleted" lines (`reports`)
  and its `Outcome`. The outcome is either the summary or the failure that
  ends the run.

Two choices follow the code closely:

- `SkycastAnalyticsDeletionTaskAsync` prints its summary and returns nothing
  else (Program.cs:133-139). The model returns the printed quantities.
- `AddDays(-90)` throws `ArgumentOutOfRangeException` when the result would
  fall before 0001-01-01 (Program.cs:104). The code does not guard against it,
  so the model aborts on that page, after listing it and before deleting
  anything from it.

## Model

| member | source | states |
|---|---|---|
| `Expiry.Cutoff` | SkycastAnalyticsDeletion/Program.cs:103-105 | the cutoff exists exactly when "now" is at least 90 days of .NET ticks (`RetentionDays * TicksPerDay`) after 0001-01-01; it then lies exactly 90 days before "now", so strictly earlier |
| `Expiry.CutoffMonotone` | SkycastAnalyticsDeletion/Program.cs:103-105 | a later clock reading gives a cutoff that still exists and is not earlier |
| `Expiry.IsExpired` | SkycastAnalyticsDeletion/Program.cs:118 | definition of the deletion criterion (last-modified ticks strictly below the cutoff); its properties are proved in `Expiry.ExpiredMembers` and `Expiry.BoundaryKept` |
| `Expiry.Expired` | SkycastAnalyticsDeletion/Program.cs:118 | the selection is no longer than the page and every selected blob is strictly older than the cutoff |
| `Expiry.Kept` | SkycastAnalyticsDeletion/Program.cs:118 | the survivors are no more than the page and none of them is older than the cutoff |
| `Expiry.ExpiredMembers` | SkycastAnalyticsDeletion/Program.cs:118 | a blob is selected if and only if it is on the page and its last-modified ticks are strictly below the cutoff |
| `Expiry.KeptMembers` | SkycastAnalyticsDeletion/Program.cs:118 | a blob survives if and only if it is on the page and is not older than the cutoff |
| `Expiry.ExpiredConcat` | SkycastAnalyticsDeletion/Program.cs:118-124 | selecting from two consecutive runs of blobs is selecting from each and concatenating, so each expired blob is taken once, in page order (same for the survivors) |
| `Expiry.PartitionPage` | SkycastAnalyticsDeletion/Program.cs:118-128 | the selected and the kept blobs together are the page as a multiset, and their counts add up to the page's count |
| `Expiry.BoundaryKept` | SkycastAnalyticsDeletion/Program.cs:105-118 | a blob modified exactly at the cutoff is not deleted and is kept |
| `Expiry.SweepIdempotent` | SkycastAnalyticsDeletion/Program.cs:118 | filtering the survivors again with the same cutoff selects nothing, and filtering the selection again returns it unchanged |
| `Expiry.LaterCutoffDeletesMore` | SkycastAnalyticsDeletion/Program.cs:103-118 | a later cutoff selects at least the blobs an earlier one does (cutoff drift only adds deletions) |
| `DeletionTask.FinalPage` | SkycastAnalyticsDeletion/Program.cs:101-129 | the index of the first segment without a continuation token: every earlier segment has a token |
| `DeletionTask.FirstHalt` | SkycastAnalyticsDeletion/Program.cs:98-129 | the first page at or after a given one whose token is null or whose cutoff throws |
| `DeletionTask.Stop` | SkycastAnalyticsDeletion/Program.cs:98-129 | the page where the loop ends: the sweep halts there, and on no earlier page; when some segment has a null token, it is at most the first such segment |
| `DeletionTask.PageCutoff` | SkycastAnalyticsDeletion/Program.cs:103-105 | definition: page i's cutoff is computed from the clock reading taken after listing it; its properties are proved in `DeletionTask.PageCutoffsAdvance` and `DeletionTask.StopAtFinalPage` |
| `DeletionTask.Halts` | SkycastAnalyticsDeletion/Program.cs:98-129 | definition of the loop's termination condition: some page has a null token or a cutoff that throws; `DeletionTask.EarlyClockAborts` shows it holds where no page has a null token |
| `DeletionTask.RequestsOf` | SkycastAnalyticsDeletion/Program.cs:100 | definition of the tokens passed to the first n listing calls; its properties are proved in `DeletionTask.RequestsCarryTokens` |
| `DeletionTask.TotalOf` | SkycastAnalyticsDeletion/Program.cs:127 | definition of `totalCount` after n pages; its properties are proved in `DeletionTask.DeletedWithinTotal` and `DeletionTask.AfterIsRetained` |
| `DeletionTask.PageDeletions` | SkycastAnalyticsDeletion/Program.cs:118-124 | definition of the blobs one page deletes; its properties are proved in `DeletionTask.DeletedExactly` |
| `DeletionTask.DeletionsOf` | SkycastAnalyticsDeletion/Program.cs:120-128 | definition of the deletion calls of the first n pages; its properties are proved in `DeletionTask.DeletedExactly`, `DeletionTask.DeletionsInPageOrder` and `DeletionTask.DeletedWithinTotal` |
| `DeletionTask.ReportsOf` | SkycastAnalyticsDeletion/Program.cs:119 | definition of the per-page "Total vs To Be Deleted" lines; `DeletionTask.Sweep` is proved to print exactly these |
| `DeletionTask.RetainedOf` | SkycastAnalyticsDeletion/Program.cs:138 | definition of the listed blobs that stay in the container; `DeletionTask.AfterIsRetained` proves the after-deletion count is its length |
| `DeletionTask.SummaryOf` | SkycastAnalyticsDeletion/Program.cs:132-139 | definition of the summary after n pages; its properties are proved in `DeletionTask.SweepSummary` |
| `DeletionTask.SweepSpec` | SkycastAnalyticsDeletion/Program.cs:78-140 | definition of the sweep page by page, the reference `DeletionTask.Sweep` is proved equal to; its properties are proved in `DeletionTask.SweepFailsFast`, `DeletionTask.SweepListsUntilNullToken`, `DeletionTask.SweepSummary` and the scenario lemmas |
| `DeletionTask.Sweep` | SkycastAnalyticsDeletion/Program.cs:78-140 | the listing calls, deletions, report lines and outcome of the imperative sweep are exactly those of the reference `SweepSpec` |
| `DeletionTask.DeleteEach` | SkycastAnalyticsDeletion/Program.cs:120-124 | one deletion call per selected blob, in selection order, after the calls already issued |
| `DeletionTask.AbortsAt` | SkycastAnalyticsDeletion/Program.cs:100-105 | when the cutoff of a listed page throws, the sweep stops at that page: it was listed, nothing on it is deleted, and no summary is produced |
| `DeletionTask.CompletesAt` | SkycastAnalyticsDeletion/Program.cs:127-139 | after sweeping a page whose token is null, the sweep completes with that page's counts in the summary |
| `DeletionTask.SweepFailsFast` | SkycastAnalyticsDeletion/Program.cs:80-100 | the run aborts with the configuration error if and only if the connection string does not parse, and then lists nothing and deletes nothing; otherwise the first listing call carries no token |
| `DeletionTask.SweepListsUntilNullToken` | SkycastAnalyticsDeletion/Program.cs:95-129 | at least one listing call is made; each call passes the previous segment's token; every segment listed before the last one had a token; a completed sweep's last segment had none |
| `DeletionTask.SweepSummary` | SkycastAnalyticsDeletion/Program.cs:132-139 | a completed sweep reports as deleted the number of deletion calls, which is between 0 and the count before deletion; the count after deletion is the number of listed blobs kept; the start time is the first clock reading; with a monotone clock the elapsed time is non-negative |
| `DeletionTask.DeletedWithinTotal` | SkycastAnalyticsDeletion/Program.cs:127-128 | after any number of pages, the deletions never outnumber the blobs listed |
| `DeletionTask.AfterIsRetained` | SkycastAnalyticsDeletion/Program.cs:127-138 | listed minus deleted equals the number of listed blobs that stay in the container |
| `DeletionTask.DeletedExactly` | SkycastAnalyticsDeletion/Program.cs:118-124 | a blob is deleted if and only if it was listed on a processed page and is strictly older than that page's cutoff |
| `DeletionTask.DeletedFromPage` | SkycastAnalyticsDeletion/Program.cs:118-124 | every deleted blob comes from a processed page on which it is expired |
| `DeletionTask.ExpiredOnPageDeleted` | SkycastAnalyticsDeletion/Program.cs:118-124 | every blob that is expired on a processed page is deleted |
| `DeletionTask.RequestsCarryTokens` | SkycastAnalyticsDeletion/Program.cs:95-101 | n listing calls were made; the first passes a null token and the k-th passes the token of segment k - 1 |
| `DeletionTask.StopAtFinalPage` | SkycastAnalyticsDeletion/Program.cs:98-129 | with a monotone clock whose first cutoff exists, no cutoff throws and the loop stops exactly at the first segment whose token is null |
| `DeletionTask.PageCutoffsAdvance` | SkycastAnalyticsDeletion/Program.cs:103-105 | with a monotone clock, a later page's cutoff exists and is not earlier, because the cutoff is recomputed for every page |
| `DeletionTask.DeletionsInPageOrder` | SkycastAnalyticsDeletion/Program.cs:98-128 | the deletions of the first m pages are a prefix of those of the first n pages, m <= n: pages are swept in listing order |
| `DeletionTask.EmptyContainer` | SkycastAnalyticsDeletion/Program.cs:95-138 | an empty container (one empty segment, no token) takes one listing call with a null token, deletes nothing and reports 0 before and 0 after |
| `DeletionTask.EarlyClockAborts` | SkycastAnalyticsDeletion/Program.cs:98-105 | a clock less than 90 days past 0001-01-01 ends the run on the first page even though that page carries a continuation token: one listing call, no deletion, no report line, and the cutoff failure as outcome |
| `DeletionTask.ThreeBlobs` | SkycastAnalyticsDeletion/Program.cs:103-138 | blobs 120, 91 and 10 days old on one final page: the first two are deleted in that order, and the summary reports 3 before, 2 deleted, 1 after |

## Left out

- Azure Storage SDK calls (`CloudStorageAccount.Parse`, `CreateCloudBlobClient`,
  `GetContainerReference`, `ListBlobsSegmentedAsync`, `DeleteAsync`): these are
  foreign network clients. The listing is the `listing` input, parsing is the
  `connectionParses` input, and a deletion is an entry in `deletions`.
- Failures of the listing and deletion calls (network, permissions, a blob
  already gone): the source does not catch them, so they would end the run.
  The model assumes every such call returns normally.
- Reading `StorageConnectionString` and the hard-coded container name: these
  are configuration lookups, fixed before the sweep starts.
- The operator message printed when the connection string does not parse, and
  all other console text: wording is not part of the behaviour. Only the
  reported quantities are modelled.
- `async`/`await` and `.Wait()`: nothing depends on concurrency, so the sweep
  is modelled as sequential.
- `ToLongTimeString` and `TimeSpan` formatting: the summary carries the raw
  tick values and their difference.
- The commented-out block that copies blobs to a test container: it is dead
  code.
- The cast to `CloudBlockBlob` and the `LastModified.Value` access: every
  listed item is taken to be a block blob with a last-modified time.
- Lazy re-evaluation of `toBeDeleted` when it is printed, deleted from and
  counted: the cutoff is fixed within a page, so it is one filtered sequence.
- Sweep: the counters are unbounded integers. The C# `int` counters would wrap
  after 2,147,483,647 blobs, and that wrap is not modelled.
- Sweep: requires the loop to halt (`Halts`): some listed page either has no
  continuation token or has a cutoff that throws. A service that keeps handing
  out tokens while every cutoff is representable keeps the source looping
  forever, and Dafny cannot state that loop without `decreases *`.
- Cutoff: `DateTime.AddDays` is modelled for a whole number of days only. Its
  rounding of fractional days to milliseconds is not needed for -90.
