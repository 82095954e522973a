# Honeypot Shelf: verified model

Honeypot Shelf manages a fleet of honeypots from one web application. This
project models, in Dafny, the algorithms of it that make promises over unbounded
inputs or whole runs, and proves those promises. `dafny verify dfyconfig.toml`
checks everything.

| file | what it models |
|---|---|
| `FullBackup.dfy`, `FullBackupProofs.dfy` | the encrypted backup container: writer, reader, and that exactly the files written are accepted |
| `TableRestore.dfy` | row encoding, re-encryption of secrets and batched inserts of a restore |
| `AuditChain.dfy` | the hash-chained audit log: one writer, the verifier, and exactly which tables it accepts |
| `AuditWriters.dfy` | many writers as interleaved transaction steps |
| `CanaryTail.dfy`, `Text.dfy`, `Utf8.dfy` | tailing a growing, rotating log by byte offset; Python's lines, stripping and decimal numbers, and UTF-8 |
| `EventSearch.dfy` | the LIKE pattern of a search text, the folding of repeats, pages |
| `DiskForecast.dfy` | the least-squares forecast of full filesystems |
| `MonitoringHistory.dfy` | custom windows, buckets, rates from counters, thinning of long windows |
| `ActivityHistory.dfy`, `ActivityChart.dfy` | event counts per bucket and type, in memory and in SQL, and the lines of the chart |
| `WatchedFiles.dfy`, `WatchedScript.dfy`, `Base64.dfy` | change detection on watched files, and the one-round-trip script that reads them |
| `AlertThrottle.dfy` | alert notifications held back per rule and honeypot |
| `Lockout.dfy` | the sign-in lockout of the password and second-factor steps |
| `RateLimit.dfy` | the fixed-window limiter over INCR and EXPIRE |
| `IgnoredSources.dfy` | the stored "ignored" flag kept in step with the ignore list |
| `HoneypotTags.dfy` | tag names, the tag and link tables, and runs of operations on them |
| `Wrappers.dfy`, `Octets.dfy`, `Sequences.dfy`, `Arithmetic.dfy` | what several of these share |

## Assumptions

- The backup cipher is the ideal AEAD of RFC 5116 (section 2): opening looks a
  ciphertext up among those issued, under the same key, nonce and associated
  data. Different passphrase and salt pairs give different keys, and no two runs
  under one passphrase draw the same salt and nonce prefix. That no nonce is used
  twice within or across files is proved from this (section 3.2 of RFC 5116).
- The audit hash has no collisions, its digests are non-empty and without
  newlines, and different payloads have different canonical JSON. The digest of
  watched contents has no collisions.
- Dates, ids and stored secrets read back what was written.
- Database transactions are atomic, row locks are exclusive, an uncommitted
  insert is invisible to a plain read and makes a second insert of its key wait.
- Clocks, random draws, decoders, address parsing and the verdict of a password
  or code check are parameters. Times are whole microseconds (seconds in the
  limiter), sums and quotients are exact.

## Where the code and its documentation differ

The model follows the code. Each point is a lemma.

- `verify_chain` is described as catching deleted entries. It answers ok on a
  table with no rows even when the tip says there were some, and it skips the tip
  check when the tip row is missing (`AuditChain.VerifierExact`,
  `AuditChain.TailRemoval`). Retention removes the oldest rows by design
  (app/db/models/audit_log.py:129-133), and any log it has shortened is reported
  as broken at its oldest row (`AuditChain.PurgedHead`).
- Log tailing is described as parsing every complete line. The code cuts lines
  where `splitlines` does, so one carriage return, form feed or line separator
  inside the log stops delivery for good (`CanaryTail.AllLinesConsumed`,
  `CanaryTail.StrayBlocks`).
- A rotated log is described as read again from byte 0. It is when it is shorter
  than the stored offset (`CanaryTail.ShrunkFileFromStart`). One that has grown to
  the offset before the next poll is taken for the old file, and what starts at
  the offset is delivered (`CanaryTail.PollOutcome`): everything below it is lost
  when the offset is the end of a line (`CanaryTail.GrownFileLosesHead`), a cut
  line is read as a line when it is not (`CanaryTail.GrownFileCutsLine`,
  `CanaryTail.CutLineDelivered`), and when it falls inside a character nothing is
  delivered until the log is rotated again (`CanaryTail.StuckInCharacter`).
- A connection that drops in the middle of a read is said to leave the stored offset
  alone. It does until the marker is complete (`CanaryTail.CutBeforeMarker`); when it
  drops among the digits after it, the offset stored is counted from the digits that
  came (`CanaryTail.CutAfterMarker`).
- The in-memory and the SQL bucketing are described as alike. They are for a
  positive bucket width, and only then but for events before an empty window
  (`ActivityHistory.BucketsAgree`).
- With more than eight types, one of the kept ones carrying the name of the
  folded line, that type's counts are overwritten (`ActivityChart.ChartConserves`).
- A lost EXPIRE is said to make one window "run a little long". A lifetime of the
  key ends if and only if its EXPIRE is run, a window after that
  (`RateLimit.LifetimeEnds`, `RateLimit.ExpiryRuns`); when it is lost, the key
  never expires, and once the limit is used up every later call is refused
  (`RateLimit.LostExpiry`). That it never loosens the limit holds
  (`RateLimit.LifetimeBound`, `RateLimit.WindowBound`).
- Tags are said to be deleted once no honeypot references them
  (app/db/models/honeypot_tag.py:9-11). Every tag operation keeps this, but
  deleting a honeypot leaves the tags that only it carried
  (`HoneypotTags.TagStore.DeleteHoneypot`).
- Adding tags is said never to be a duplicate-row error. It is one when a honeypot or
  a name is listed twice and the pair is not there yet
  (`HoneypotTags.TagStore.AddTags`). Both callers take the honeypots from a query
  and normalize the names (app/web/routes/api_v1.py:1281-1284 and 1371-1373,
  app/web/routes/honeypots_list.py:1102-1117), so this never shows.
- The read script numbers files without limit, the parser reads indices of up to
  three digits (`WatchedScript.OutputReadBack`). The application limits lists to
  20 files, so this never shows.
- A backup of more chunks than the 32-bit counter has values fails while it is
  written (`FullBackup.EncryptFile`).

## Model

| member | source | states |
|---|---|---|
| `FullBackup.EncryptFile` | app/services/full_backup.py:85-101 | Appends header and frames of this run, and nothing else, and issues exactly their ciphertexts; the whole file, unless the source has more chunks than the 32-bit counter has values, when it fails after the last counter value |
| `FullBackup.WriteFrames` | app/services/full_backup.py:90-101 | The chunk loop with one chunk of look-ahead: every chunk is framed once, in order, the last one flagged; an empty source is one empty flagged chunk |
| `FullBackup.WriteFrame` | app/services/full_backup.py:94-97 | One pass turns "counter chunks written" into "counter + 1 chunks written", in the stream and in what was issued |
| `FullBackup.DecryptFile` | app/services/full_backup.py:104-128 | Reading a stream gives the answer of the file format read as a function, error and partial output included |
| `FullBackup.ReadFrames` | app/services/full_backup.py:111-128 | The frame loop writes out and reports what the format read from the rest of the stream says |
| `FullBackup.ReadChunk` | app/services/full_backup.py:113-128 | One pass: a truncated frame, a used-up counter, a ciphertext that does not open, data after the end, or one more chunk |
| `FullBackup.UnpackPack` | app/services/full_backup.py:95 | The big-endian length and counter fields decode to the number they encode |
| `FullBackup.ConcatChunks` | app/services/full_backup.py:91-100 | The chunks of a source, put together, are the source |
| `FullBackupProofs.Authentic` | app/services/full_backup.py:14-19 | Whatever runs there were, finished or cut short: under a passphrase a byte string is accepted if and only if it is the whole file of a finished run with that passphrase, and then yields that file's own source: truncated, reordered, spliced or edited files are refused |
| `FullBackupProofs.SameHeaderAccepted` | app/services/full_backup.py:104-128 | With the header of a run, only the whole file of that run is accepted, and only when the run was finished |
| `FullBackupProofs.FramesAccepted` | app/services/full_backup.py:111-128 | From any chunk on, reading succeeds on exactly the frames written from there and returns exactly those chunks |
| `FullBackupProofs.HistoryKnows` | app/services/full_backup.py:85-97 | Of everything ever issued, by finished runs and by runs that were cut short or ran out of counter values, a run's key and nonces belong to exactly the chunks it encrypted: the nonces do not repeat |
| `FullBackupProofs.UnfinishedNeverAccepted` | app/services/full_backup.py:92-100 | A run that was cut short leaves nothing that opens: no bytes whatever with its header are accepted |
| `FullBackupProofs.IssueOrigin` | app/services/full_backup.py:94-96 | Key and nonce of a ciphertext determine the run and the chunk it came from |
| `FullBackupProofs.TruncationReported` | app/services/full_backup.py:106-119 | Every proper prefix of a file, and whatever an unfinished run leaves, is refused: as no backup when shorter than magic and salt and as truncated otherwise |
| `FullBackupProofs.EditedFrameReported` | app/services/full_backup.py:120-123 | A frame whose flag or ciphertext is not the one written at its place is reported as damage, whatever follows it, after exactly the chunks before it were written out |
| `FullBackupProofs.TrailingDataReported` | app/services/full_backup.py:124-127 | Anything appended to a file is reported as data after its end |
| `FullBackupProofs.WrongPassphraseReported` | app/services/full_backup.py:120-123 | A passphrase never used with this header is refused at the first frame, with nothing written out |
| `FullBackupProofs.UnknownHeader` | app/services/full_backup.py:105-123 | A header no run has used opens nothing |
| `FullBackupProofs.NotABackupIff` | app/services/full_backup.py:105-107 | Exactly a file that does not begin with the magic bytes, or ends before the salt does, is reported as no backup, with nothing written out |
| `FullBackupProofs.HistoryGrows` | app/services/full_backup.py:85-101 | One more run of the writer, finished or not, extends the history the other statements speak about |
| `TableRestore.ValueReadBack` | app/services/full_backup.py:134-165 | Encoding a column's value and decoding it gives the value back, moments in UTC |
| `TableRestore.DecodedFits` | app/services/full_backup.py:148-165 | Whatever JSON is loaded into a column, what comes of it is a value of the column; null and nothing else is null |
| `TableRestore.Rekey` | app/services/full_backup.py:311-316 | Every secret of a row ends up under the new key, each with a nonce of its own, other columns untouched, or the row fails as undecryptable |
| `TableRestore.LoadTable` | app/services/full_backup.py:295-322 | The inserts, concatenated, are all rows in order; batches are full but for a non-empty last one; the first bad row's error otherwise |
| `TableRestore.TableRestored` | app/services/full_backup.py:192-212 | Saving a table and loading it gives back its rows, secrets readable with the instance's key, if and only if every secret opens with the key in the backup |
| `TableRestore.RowRestored` | app/services/full_backup.py:307-316 | One row: the same values, the same secrets behind the new key, or exactly the undecryptable error |
| `TableRestore.SecretRestored` | app/services/full_backup.py:172-177 | Every bytes value in a binary column whose name is any text followed by "_encrypted" opens, after the load, with the instance's key to what it opened to with the backup's |
| `TableRestore.OthersRestored` | app/services/full_backup.py:307-316 | A value of any other name or type, and every value when the keys are the same, is restored as it was saved, moments in UTC |
| `TableRestore.LoadFails` | app/services/full_backup.py:311-316 | With two keys the load fails if and only if some value in such a column does not open with the backup's key |
| `TableRestore.InstanceReads` | app/services/full_backup.py:330-332 | An instance reads every secret of a backup that carries its key, be it the same key or another |
| `TableRestore.UnknownColumns` | app/services/full_backup.py:307-309 | Columns the table does not have are left out and change nothing else |
| `AuditChain.HashBinds` | app/audit.py:99-102 | Equal entry hashes mean equal content, sequence and previous link |
| `AuditChain.AuditTrail.LogEvent` | app/audit.py:179-220 | One writer alone extends the honest table by the honest next row and moves the tip |
| `AuditChain.AuditTrail.VerifyChain` | app/audit.py:257-344 | The answer, with position and kind of the first problem, is the one the chained rows and the tip determine |
| `AuditChain.AnswerUnique` | app/audit.py:257-344 | The tables determine the verifier's answer completely |
| `AuditChain.VerifierExact` | app/audit.py:257-344 | With the honest tip, the answer is ok if and only if there are no rows or the rows equal the honest log on every hashed field |
| `AuditChain.MatchesBackwards` | app/audit.py:284-325 | Working back from the tip, every accepted row is the honest one and none is missing |
| `AuditChain.HonestAccepted` | app/audit.py:257-344 | What honest writers leave is accepted |
| `AuditChain.TailRemoval` | app/audit.py:327-337 | Removing the newest rows is noticed if and only if the tip row is still there |
| `AuditChain.WithoutTip` | app/audit.py:279-328 | With the tip row missing, of all that deleting rows can leave, exactly the prefixes of the honest log are accepted |
| `AuditChain.PurgedHead` | app/audit.py:279-301 | Without its oldest rows the log is always reported broken at the oldest row left |
| `AuditChain.RemovedRow` | app/audit.py:284-291 | A row removed from the middle is reported as a gap at its place |
| `AuditChain.EditedRow` | app/audit.py:302-323 | A row whose hashed content was changed is reported at that row |
| `AuditChain.RowHolds` | app/audit.py:195-213 | Row i of the honest log has the content and the location of entry i, sequence i + 1 and a hash |
| `AuditWriters.EveryRunVerifies` | app/audit.py:12-18 | After any interleaving of writers, commits and rollbacks: sequences 1 to the entry count, every row linked to its predecessor, the tip at the newest row, and a verifier that answers ok |
| `AuditWriters.StepKeepsSerial` | app/audit.py:105-133 | Each step of each writer, the race to create the singleton row included, keeps the tables those of one writer at a time |
| `AuditWriters.OneHolder` | app/audit.py:105-133 | Two writers never hold the tip at once |
| `AuditWriters.AppendOnly` | app/audit.py:179-220 | Committed rows are never changed, only followed by new ones |
| `AuditWriters.CommitRecords` | app/audit.py:195-220 | In every run, a commit by the holder of the tip adds exactly one row, with content and location of the entry its writer began with, and every other action leaves the rows as they are |
| `AuditWriters.LogIsRecorded` | app/audit.py:195-220 | In every run, the log is the honest log of the entries of the writers that committed, in the order of their commits, read off the actions |
| `AuditWriters.UninterruptedRecords` | app/audit.py:179-220 | A writer that nobody interrupts records its entry, after any run that left the tip free |
| `AuditWriters.NoDeadlock` | app/audit.py:105-133 | As long as a writer is busy, some writer can take its next step |
| `CanaryTail.ParseReadOutput` | app/ssh/canary_activity.py:52-90 | The line loop computes the events and the next offset of the output; exactly output without a marker gives none |
| `CanaryTail.NoMarkerNothing` | app/ssh/canary_activity.py:58-63 | Output in which the marker stands nowhere gives no events and -1, and exactly such output gives no offset to store |
| `CanaryTail.CutBeforeMarker` | app/ssh/canary_activity.py:60-63 | Of a log without markers, whatever came before the connection dropped gives nothing, as long as the marker is not complete |
| `CanaryTail.CutAfterMarker` | app/ssh/canary_activity.py:65-67 | Dropped after the marker, it gives the events of the whole output, with its offset if and only if all digits of the start came or the start is 0 |
| `CanaryTail.EventsOfLog` | app/ssh/canary_activity.py:71-88 | The events of a log are those its lines decode to once stripped, in order, without blank lines and lines that are no event; the line still being written is left alone |
| `CanaryTail.ReadLines` | app/ssh/canary_activity.py:69-88 | Events and byte count of the leading lines that end in a newline, up to the first that does not |
| `CanaryTail.OutputIsDecoded` | app/ssh/canary_activity.py:38-44 | What is parsed is the UTF-8 text of the bytes printed: those of the file from the start on, the marker and the start; from inside a character on they are no text |
| `Utf8.DecodeFrom` | app/ssh/canary_activity.py:108-109 | Decoding the UTF-8 bytes of a text from any offset on gives what is left of the text there, and fails if and only if the offset lies inside a character |
| `Utf8.EncodeDecoded` | app/ssh/canary_activity.py:108-109 | Exactly the encodings of texts decode: no overlong form, no surrogate, no stray byte |
| `CanaryTail.ParseOfOutput` | app/ssh/canary_activity.py:32-44 | A complete read is parsed as what was read, even when the log itself contains markers |
| `CanaryTail.Poller.Poll` | app/ssh/canary_activity.py:93-110 | A poll moves the stored offset and the delivered events by one step of the protocol |
| `CanaryTail.ExactlyOnce` | app/ssh/canary_activity.py:6-16 | Over any interleaving of appends, polls, polls cut off before the marker and noticed rotations, the delivered events are those of the consumed part of each file, in order, each once |
| `CanaryTail.GrowingLog` | app/ssh/canary_activity.py:14-16 | On a log that only grows the offset is 0 or just after a newline of what was appended, and the delivered events are exactly those before it |
| `CanaryTail.PollTimesIrrelevant` | app/ssh/canary_activity.py:6-9 | After a poll, offset and events are those of all the text appended, whenever earlier polls happened and however many were cut off |
| `CanaryTail.PolledBeforeRotation` | app/ssh/canary_activity.py:9-16 | When the last thing before a rotation was a poll, all complete lines of the old file were delivered, after those of the files before it |
| `CanaryTail.FileIs` | app/ssh/canary_activity.py:6-9 | The file a run polls is what its last rotation put there with everything appended since |
| `CanaryTail.StepDelivers` | app/ssh/canary_activity.py:52-90 | Each append, poll, cut-off poll or noticed rotation keeps the delivery invariant |
| `CanaryTail.ShrunkFileFromStart` | app/ssh/canary_activity.py:9-12 | A file shorter than the stored offset is delivered from its first byte |
| `CanaryTail.PollOutcome` | app/ssh/canary_activity.py:38-43 | For any file and any stored offset: a poll delivers the complete lines of what starts at its start and moves the offset after them, or does nothing when the start lies inside a character |
| `CanaryTail.GrownFileLosesHead` | app/ssh/canary_activity.py:41 | A rotated file that has grown to the stored offset loses exactly the events below it when the offset is the end of one of its lines |
| `CanaryTail.GrownFileCutsLine` | app/ssh/canary_activity.py:41 | When it is inside a line, that line is lost as well and what is left of it is read as a line |
| `CanaryTail.CutLineDelivered` | app/ssh/canary_activity.py:41 | So an event can be delivered that the file does not hold: whenever the end of a line alone is an event and the line is none |
| `CanaryTail.CutLineInput` | app/ssh/canary_activity.py:41 | One such input: the file "ab" and a newline, read from the second byte |
| `CanaryTail.StuckInCharacter` | app/ssh/canary_activity.py:42 | When it is inside a character, nothing is delivered any more, however the file grows and however often it is polled |
| `CanaryTail.AllLinesConsumed` | app/ssh/canary_activity.py:71-77 | Every complete line is consumed if and only if no other line break stands before the last newline |
| `CanaryTail.StrayBlocks` | app/ssh/canary_activity.py:71-76 | Reading never gets past a line break that is neither "\n" nor "\r\n", whatever is appended |
| `CanaryTail.ConsumedConcat` | app/ssh/canary_activity.py:69-77 | Reading on where it stopped gives what reading in one go gives |
| `EventSearch.EscapedIsEscapeEach` | app/services/event_search.py:77-79 | The three chained replacements escape every character exactly once |
| `EventSearch.LikeIsContains` | app/services/event_search.py:77-79 | A string is LIKE the pattern of v if and only if it contains v |
| `EventSearch.GroupRepeats` | app/services/event_search.py:146-167 | The rows are the runs of a cut made exactly where an event does not repeat the one before it, each with its first event and its length |
| `EventSearch.RowsEndWhere` | app/services/event_search.py:155-163 | Neighbours within a row agree on everything but the time and are at most 60 seconds apart, and where a row ends they do not |
| `EventSearch.RunAgrees` | app/services/event_search.py:155-163 | All events of a row agree with its first on everything but the time, and lie at most a window further away for each event between |
| `EventSearch.CutUnique` | app/services/event_search.py:146-149 | There is one such cut, so the rows are determined by the events |
| `EventSearch.PagesTile` | app/services/event_search.py:110-122 | Page after page gives the whole list once, and another page is announced exactly while events are left |
| `DiskForecast.BestFit` | app/services/disk_forecast.py:29-37 | No line has a smaller sum of squared residuals than the one with the reported slope through the means |
| `DiskForecast.RecoversLine` | app/services/disk_forecast.py:29-37 | Points on one line, not all at one time, give back that line's slope |
| `DiskForecast.NormalEquation` | app/services/disk_forecast.py:32-37 | The slope solves the normal equation, also in the zero-denominator branch |
| `DiskForecast.SharedX` | app/services/disk_forecast.py:35-36 | Points that share one time have the slope 0 |
| `DiskForecast.SlopeIsDefined` | app/services/disk_forecast.py:58-62 | After the history check the denominator is positive: its zero branch is never taken |
| `DiskForecast.DaysMeaning` | app/services/disk_forecast.py:63-70 | The reported days lie in 0 to the horizon and, when positive, are when the last reading grows to the size; exactly when none or 0 is reported |
| `DiskForecast.ForecastFilesystems` | app/services/disk_forecast.py:40-77 | A forecast for exactly the mounts with enough usable readings, each describing all its readings: the newest one, and the rate of the line that fits them best |
| `DiskForecast.ForecastDescribes` | app/services/disk_forecast.py:57-77 | Readings in any order have a forecast if and only if there are six and two are six hours apart; its used bytes and size are those of the last of the newest readings, and no line misses the readings' used bytes, against their own times, by less in squares than one with its rate |
| `DiskForecast.ReadingsAre` | app/services/disk_forecast.py:48-53 | A mount's readings are exactly those of filesystems reported with that mount, used bytes and a size that is not 0 |
| `DiskForecast.GroupByMount` | app/services/disk_forecast.py:47-53 | Each mount gets exactly its usable readings, in the order of the samples |
| `DiskForecast.SortedStably` | app/services/disk_forecast.py:57 | The sort orders by time, loses nothing and keeps the order of readings of one moment |
| `DiskForecast.SoonestFullDays` | app/services/disk_forecast.py:80-88 | The least reported number of days, or none exactly when no mount reports one |
| `MonitoringHistory.CustomWindow` | app/services/monitoring_history.py:119-125 | A custom window always meets the limits and is the one asked for, ends in either order, exactly when that one meets them |
| `MonitoringHistory.NearestWindow` | app/services/monitoring_history.py:121-124 | Of all windows within the limits none ends nearer to the end asked for, and none with that end starts nearer to the start asked for |
| `MonitoringHistory.AtMostTarget` | app/services/monitoring_history.py:150-157 | Never more points than asked for |
| `MonitoringHistory.SmallestBuckets` | app/services/monitoring_history.py:153-156 | No smaller buckets give that few points: what fits is left alone |
| `MonitoringHistory.BucketAverage` | app/services/monitoring_history.py:147-160 | One point per bucket, each the mean of the known values of its bucket |
| `MonitoringHistory.BucketTimestamps` | app/services/monitoring_history.py:130-144 | As many labels as points, each the middle sample of the same bucket |
| `MonitoringHistory.AverageMissing` | app/services/monitoring_history.py:149-151 | A point is missing if and only if nothing in its bucket is known |
| `MonitoringHistory.AverageBetween` | app/services/monitoring_history.py:157-159 | A mean lies between any bounds of its bucket's known values |
| `MonitoringHistory.BucketsCover` | app/services/monitoring_history.py:157-158 | The buckets cut the samples without gap or overlap |
| `MonitoringHistory.ChartConserves` | app/services/monitoring_history.py:147-160 | The means, each times the number of values it stands for, add up to everything known |
| `MonitoringHistory.CombinedRateSeries` | app/services/monitoring_history.py:232-258 | One rate per reading, the first missing, the others the rate since the reading before |
| `MonitoringHistory.TotalKnown` | app/services/monitoring_history.py:245-250 | A total is known if and only if every named counter is there |
| `MonitoringHistory.TotalsAdd` | app/services/monitoring_history.py:246-247 | The total of two lists of counters is the sum of theirs, and that of one counter its value |
| `MonitoringHistory.ReadingKnown` | app/services/monitoring_history.py:239-251 | A reading is there if and only if its sample and all its counters are |
| `MonitoringHistory.RateAccounts` | app/services/monitoring_history.py:19-23 | A rate is present exactly when both totals are, time passed and nothing went backwards; it is never negative and accounts for the whole difference |
| `MonitoringHistory.ThinningShape` | app/services/monitoring_history.py:506-521 | At most one row more than the limit, the first and the last among them, no two kept neighbours further apart than the stride |
| `MonitoringHistory.AreaTelescopes` | app/services/monitoring_history.py:497-501 | Whatever rows are kept, the area under their rates is what was counted from first to last |
| `MonitoringHistory.ThinnedRateIsMean` | app/services/monitoring_history.py:500-501 | The rate between kept rows is the time-weighted mean of the dropped rates: the area under them divided by the time |
| `MonitoringHistory.ThinningKeepsArea` | app/services/monitoring_history.py:496-501 | A thinned window shows the same total as all of its rows |
| `ActivityHistory.BucketsAgree` | app/services/canary_activity_history.py:140-141 | The clamped quotient and the SQL CASE give an event the same bucket if and only if the bucket width is positive, or zero with the event before the window |
| `ActivityHistory.CountEvents` | app/services/canary_activity_history.py:134-143 | The dictionary holds exactly the bucket and type pairs that occur, each with how often |
| `ActivityHistory.LoadersAgree` | app/services/canary_activity_history.py:147-164 | For any positive width both loaders count the same, per bucket, per type, per any question asked of both |
| `ActivityHistory.SumsAreCounts` | app/services/canary_activity_history.py:83-90 | Summing the counted dictionary over any set of pairs counts the events of that set |
| `ActivityChart.Count` | app/services/canary_activity_history.py:83-90 | Totals per bucket, per label and per both, each equal to the sum over the counted pairs |
| `ActivityChart.Assemble` | app/services/canary_activity_history.py:75-114 | The lines are the largest labels plus one line of everything else; the sample count is the sum of the totals |
| `ActivityChart.TopIsLargest` | app/services/canary_activity_history.py:92-97 | At most eight types are kept, each at least as frequent as any that is not |
| `ActivityChart.TotalsCountEvents` | app/services/canary_activity_history.py:108-114 | The totals per bucket add up to the number of events |
| `ActivityChart.ChartConserves` | app/services/canary_activity_history.py:98-106 | The lines of every bucket add up to its total if and only if the folded line does not take the name of a kept type |
| `ActivityChart.LinesAddUp` | app/services/canary_activity_history.py:98-106 | Bucket by bucket, what an overwritten line is short of |
| `WatchedFiles.WatchedFile.ApplyReading` | app/services/watched_files.py:247-279 | The row and the reported change are those of one step of the reading history |
| `WatchedFiles.RowOfHistory` | app/services/watched_files.py:247-279 | After any readings: the last ok content and its digest, the version the last content change replaced, the last state, and when something was last checked and reported |
| `WatchedFiles.KeptContent` | app/services/watched_files.py:255-270 | What is kept is the content of the last reading in state ok that had any, and nothing while there was none |
| `WatchedFiles.ReportedIffChange` | app/services/watched_files.py:247-279 | A change is returned if and only if an ok file stops being ok, the content differs from the last ok one, or a missing file is there for the first time, and it says what changed since |
| `WatchedScript.ParseOutput` | app/services/watched_files.py:197-223 | The line loop finds what its lines, taken in order, find; the last word on a file wins |
| `WatchedScript.OutputReadBack` | app/services/watched_files.py:165-223 | Whatever the files contain, parsing the script's output finds each one's state and content without NULs, if and only if there are at most 1000 of them |
| `WatchedScript.FileReadBack` | app/services/watched_files.py:176-180 | For up to 1000 files: missing exactly when it is no file, too large exactly when readable with more than 64 KiB, ok exactly when readable, small enough and text, with that text |
| `WatchedScript.FindsAnswers` | app/services/watched_files.py:204-223 | Whatever the output is, only files that were asked for are found, in a state the script reports, and exactly the ok ones with a content |
| `WatchedScript.NulsGo` | app/services/watched_files.py:222 | Text without NULs is kept, and a NUL is dropped wherever it stands |
| `WatchedScript.ContentFindsNothing` | app/services/watched_files.py:180 | No file content can look like a marker |
| `WatchedScript.MarkerReadBack` | app/services/watched_files.py:74 | A marker is read back if and only if its index has at most three digits |
| `Base64.DecodeEncode` | app/services/watched_files.py:218 | Strict decoding gives back what was encoded |
| `Base64.DecodeAccepts` | app/services/watched_files.py:218 | Exactly whole groups of the alphabet with at most two padding characters at the end decode, to three bytes for every four characters less the padding |
| `Base64.EncodeAlphabet` | app/services/watched_files.py:180 | Only the alphabet and padding are written: no space, no line break |
| `AlertThrottle.Throttle.NotifyAlert` | app/services/notifications.py:464-533 | Every rule of the honeypot takes one step of its own throttle, and no other rule or honeypot is touched |
| `AlertThrottle.StateIs` | app/services/notifications.py:447-461 | The stored state is the time of the last attempt and the number held back since |
| `AlertThrottle.HeldBackIff` | app/services/notifications.py:503-511 | An alert is held back if and only if one was sent less than the throttle before |
| `AlertThrottle.AttemptedIff` | app/services/notifications.py:503-530 | An alert is attempted if and only if it can be delivered and is not held back; without a throttle none is held back or reported as such |
| `AlertThrottle.SendsApart` | app/services/notifications.py:508 | Two sends are at least the throttle apart |
| `AlertThrottle.ReportsHeldBack` | app/services/notifications.py:512-518 | A send reports exactly the alerts held back since the send before it |
| `AlertThrottle.Conservation` | app/services/notifications.py:497-533 | At every moment: alerts seen = sent + reported as held back + held back now + not attempted |
| `Lockout.Account.RegisterFailedAttempt` | app/auth/login.py:44-50 | One more failure, and a lock from the threshold on |
| `Lockout.Account.ResetFailedAttempts` | app/auth/login.py:53-57 | Counter and lock are cleared |
| `Lockout.Account.CheckPassword` | app/auth/login.py:69-98 | The reason and the counter in every case: inactive or external account, locked, unavailable provider, wrong, right |
| `Lockout.Account.ConsumeRecoveryCode` | app/auth/login.py:101-118 | A recovery code is accepted exactly when unused, and is used up |
| `Lockout.Account.VerifyTotpStep` | app/auth/login.py:121-139 | The second factor shares the lockout; a recovery code is used up only when no time-based code matched and the account is not locked |
| `Lockout.FailuresApart` | app/auth/login.py:44-50 | The counter equals the failures counted; from the threshold on, two of them are a lockout apart |
| `Lockout.FailureBound` | app/auth/login.py:44-57 | Without a success, failures number at most the threshold plus the span divided by the lockout duration |
| `Lockout.AnyRunBound` | app/auth/login.py:44-57 | In any run, failures number at most the threshold for each stretch between successes, plus the span divided by the lockout duration |
| `Lockout.SuccessesCount` | app/auth/login.py:53-57 | The successes cannot be left out of that bound: from a threshold of two on, rounds of a wrong and a right answer fit any number of failures into no time |
| `Lockout.LockedMeansUntouched` | app/auth/login.py:76-79 | All attempts checked before the lock runs out, however many, leave counter, lock and counts as they were |
| `Lockout.RunTells` | app/auth/login.py:44-98 | In any run the counter is the number of failures since the last success and the lock runs until a lockout after the last of them, from the threshold on: an attempt is refused exactly then, and otherwise evaluated and counted |
| `Lockout.LockEnds` | app/auth/login.py:76-98 | An attempt checked a lockout or more after the last counted failure, or before any, is evaluated: a right answer clears the counter and counts as a success, a wrong one is added to the failures |
| `RateLimit.CheckRateLimit` | app/auth/rate_limit.py:44-47 | One call: the counter goes up by one, the first of a lifetime sets the expiry, and the answer is whether it still fits the limit |
| `RateLimit.LifetimeBound` | app/auth/rate_limit.py:35-42 | However calls and expiries interleave or get lost, one lifetime of the key accepts at most the limit |
| `RateLimit.WindowBound` | app/auth/rate_limit.py:37-41 | Any half-open interval of the window's length accepts at most twice the limit |
| `RateLimit.LifetimeEnds` | app/auth/rate_limit.py:39-42 | Whatever actions follow the first call of a lifetime: it ends if and only if its expiry is set and a call comes a window after that |
| `RateLimit.ExpiryRuns` | app/auth/rate_limit.py:44-46 | When the expiry is set, calls within the window are counted in the same lifetime and the next one after it starts a new one with a fresh count |
| `RateLimit.LostExpiry` | app/auth/rate_limit.py:39-42 | When the expiry is lost the lifetime never ends: of all later calls exactly those that still fit the limit are accepted |
| `IgnoredSources.EventTable.Reapply` | app/services/ignored_sources.py:110-145 | Afterwards every event with an address carries the flag its honeypot's networks ask for, nothing else changes, and the number returned is exactly how many flags flipped |
| `IgnoredSources.EventTable.ReapplyHoneypot` | app/services/ignored_sources.py:119-143 | One honeypot's events are brought in line and no others |
| `IgnoredSources.EventTable.SetFlag` | app/services/ignored_sources.py:130-143 | Updating chunk by chunk sets the flag of exactly the listed addresses' events, for any chunk size |
| `IgnoredSources.EventTable.Stale` | app/services/ignored_sources.py:121-129 | Exactly the addresses whose flag is wrong in the given way |
| `IgnoredSources.InStepUnique` | app/services/ignored_sources.py:110-114 | What a run leaves is fixed by the table it found: the chunk size has no say |
| `IgnoredSources.SecondRunIsIdle` | app/services/ignored_sources.py:110-111 | A second run changes nothing and returns 0 |
| `IgnoredSources.FlagMeans` | app/services/ignored_sources.py:57-87 | Afterwards an event with an address is flagged if and only if the address can be read and lies in the range, of the same IP version, of an entry for everywhere or for a company of its honeypot |
| `IgnoredSources.FlipsAre` | app/services/ignored_sources.py:134-144 | The number returned counts each event whose flag differs once |
| `HoneypotTags.Normalize` | app/services/honeypot_tags.py:27-40 | The loop computes the names the list spells |
| `HoneypotTags.NamesAreThoseSpelled` | app/services/honeypot_tags.py:28-31 | Exactly the non-blank names of the entries |
| `HoneypotTags.NoNameTwice` | app/services/honeypot_tags.py:28-31 | No name occurs twice |
| `HoneypotTags.NamesGrow` | app/services/honeypot_tags.py:29 | The order is that of first use: further entries only add names at the end |
| `HoneypotTags.NormalizeTwice` | app/services/honeypot_tags.py:28-31 | Every result is lower case, trimmed and of at most 64 characters, and normalizing it again changes nothing |
| `HoneypotTags.NameIs` | app/services/honeypot_tags.py:36 | A raw name loses the white space around it, is cut to its first 64 characters less the white space they end in, and every character is folded |
| `HoneypotTags.TagStore.DeleteOrphaned` | app/services/honeypot_tags.py:50-62 | Drops exactly the listed tags that are on no honeypot |
| `HoneypotTags.TagStore.FindOrCreate` | app/services/honeypot_tags.py:86-97 | Every name has exactly one tag afterwards, listed name by name; existing ones are unchanged |
| `HoneypotTags.TagStore.SetTags` | app/services/honeypot_tags.py:65-118 | The honeypot carries exactly the given names, other honeypots what they did; names stay unique and no tag becomes an orphan |
| `HoneypotTags.TagStore.AddTags` | app/services/honeypot_tags.py:121-158 | Every listed honeypot carries the names as well, others are untouched, no orphan; fails exactly when a listed honeypot lacks a listed name and one of the two is listed twice, and then changes nothing |
| `HoneypotTags.TagStore.RemoveTags` | app/services/honeypot_tags.py:161-182 | The named tags are taken off exactly the listed honeypots, and no tag becomes an orphan |
| `HoneypotTags.TagStore.SyncModuleTags` | app/services/honeypot_tags.py:185-215 | The honeypot carries its old tags less the module names, plus the enabled modules; others untouched, no orphan |
| `HoneypotTags.TagStore.DeleteHoneypot` | app/web/routes/api_v1.py:817 | The honeypot's links go, the tags stay: exactly the tags that only it carried become orphans |
| `HoneypotTags.TagStore.Execute` | app/services/honeypot_tags.py:50-215 | After any sequence of set, add, remove and sync operations names are unique, every honeypot carries what the sequence leaves it, a store without orphans has none, manual tags fare as if no sync had happened, and a sequence of syncs leaves the module names of the last one |
| `HoneypotTags.TagStore.Perform` | app/services/honeypot_tags.py:65-215 | Each operation changes exactly the tags it asks for, and makes no orphan |
| `HoneypotTags.SyncsCompose` | app/services/honeypot_tags.py:185-200 | What a sequence of syncs leaves, as `Execute` gives it: every tag that is no module name, and the module names of the last sync |
| `HoneypotTags.SyncsLeaveManualTags` | app/services/honeypot_tags.py:195-200 | What any sequence leaves, as `Execute` gives it: a tag that is no module name fares as if no sync had happened |

## Left out

- Real cryptography, key derivation, JSON, ZIP, `difflib`, the decoding of watched contents and date formats: parameters with the assumptions above.
- SSH, HTTP, SMTP, syslog, GeoIP, LDAP, templates, translations and the web interface: calls into code that is not part of this model.
- FullBackup.DecryptFile: a read from the file object returns all bytes asked for or all that are left; short reads are not modelled.
- TableRestore.LoadTable: the manifest checks, emptying the database, sequence resets and the rollback around all tables are not part of this model; a secret is 'the nonce, then the ciphertext' only through its cipher parameter.
- TableRestore.ValueReadBack: enumerations without a Python class are plain columns, and Base64 decoding is strict, which is the same on what the encoder writes.
- AuditChain.VerifierExact: the verifier reads rows and tip from one snapshot; a writer committing between its two queries is not modelled, and neither are rows from before hash chaining, which both sides skip.
- CanaryTail.ExactlyOnce: the size and the contents come from one moment, the output is complete, absent or cut so that it holds no marker, and every rotation is noticed, which means the new file is shorter than the stored offset at the next poll; `CanaryTail.PollOutcome` and the lemmas after it say what happens otherwise.
- CanaryTail.CutBeforeMarker: a cut output of a log that itself holds markers is parsed at the last of them, which `CanaryTail.ParseReadOutput` gives.
- CanaryTail.ParseReadOutput: decimal digits are the ten ASCII ones, `str.isdigit` knows more; the step from events to stored rows, which drops internal log types, is not part of this model.
- EventSearch.LikeIsContains: ILIKE compares characters after a character-by-character folding; foldings that change the length are not modelled.
- EventSearch.PagesTile: the pages are cut from one fixed order; events stored between requests, or equal times without a tie-breaker, are not modelled.
- EventSearch: `source_summary`, `parse_time`, access scopes and the remaining filters are small expressions.
- DiskForecast.ForecastFilesystems: the rounding of the reported rate to whole bytes and of the days to one decimal is not modelled.
- MonitoringHistory.CombinedRateSeries: counters are whole numbers; a null or non-numeric counter is a missing one.
- MonitoringHistory.ThinningShape: rows with equal times are numbered in one fixed order.
- ActivityHistory.LoadersAgree: the counts agree; which of two equally frequent types is kept depends on the order of the counted pairs and may differ between the loaders.
- ActivityHistory: bucket midpoints, `summarize_recent_events` and the labels of types are display helpers.
- WatchedFiles.WatchedFile.ApplyReading: stored contents are the text itself instead of its encryption.
- WatchedScript.OutputReadBack: the files do not change while the script runs, and the output is that of one run; word and digit characters are the ASCII ones.
- WatchedFiles: `parse_paths`, `default_paths` and the saved list of paths are small checks over a list.
- AlertThrottle.Throttle.NotifyAlert: whether anything is attempted (target, channel, maintenance window, acknowledgement) is a parameter, and a caller without a database session, which is never throttled, is left out.
- Lockout.Account.CheckPassword: attempts on one account run one after the other; the rehash of an old password hash and the lookup of the user are left out.
- Lockout.Account.VerifyTotpStep: the code comes already stripped of white space.
- RateLimit.CheckRateLimit: one key; the keys of different addresses do not interact.
- IgnoredSources.EventTable.Reapply: `parse_network` and its minimum prefix lengths are left out; an entry that does not parse is one that is not in the list.
- HoneypotTags.Normalize: lower case is character by character, without the characters whose lower case is longer.
- HoneypotTags.TagStore.Execute: the operations list every honeypot and name once, as all callers do, so none fails; an addition that does changes nothing, and deleting honeypots is not among them.
- HoneypotTags.TagStore.SyncModuleTags: the names are set in no particular order, while the code sorts them, which decides only the order of creation.
- HoneypotTags.TagStore.SetTags: ids are counted up instead of drawn at random.
- Dashboards, saved views, maintenance windows, company scopes and permissions: easy members beside these.
