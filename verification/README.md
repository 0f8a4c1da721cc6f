# Access audit: a verified model

The service keeps an append-only log of accesses to personal data. It sanitizes
and seals each record, seals a checkpoint over every closed month, and purges
months past an accountability window unless a subject is under legal hold. This
project models the record store, the retention sweep, the seals and the handlers
that use them, and proves what they promise over every run.

How it is organised:

- `text`, `decimal`, `calendar`, `rfc3339`: string order as Go compares strings,
  decimal numerals, the proleptic Gregorian calendar with the month buckets, and
  timestamps as texts. An instant counts nanoseconds from Go's zero time.
- `json`, `jsonvalue`, `envelope`: JSON as `encoding/json` writes and reads it
  (RFC 8259), and the envelope with its stored form.
- `seal`: the canonical text, row seals, checkpoints.
- `request`: validation and sanitizing of a posted record.
- `store`, `query`: the contract of the record store, on values. `memory`: the
  in-memory store as a class, its loops proved against that contract.
- `retention`: the sweep as a program over the store. `system`, `history`: the
  store, a clock, the sweep's steps and requests as one transition system whose
  steps are the store's critical sections, so a sequence of actions is an
  interleaving; every statement about runs is about all of them.
- `example`: worked examples of the texts, letter by letter.
- `evidence`, `routes`, `guarantees`: what verification proves, the handlers, and
  the promises with the service's own calendar and sealer.

HMAC (section 2 of RFC 2104) is an arbitrary function: a soundness result says
that contents agree, or it names two different texts with one digest. Times, row
ids and the caller's identity are parameters. Results of the store that see an
instant only through its bucket are stated for any bucketing; `Guarantees` states
them for calendar months.

Where the code does not do what its documentation or its evident purpose says, the
model follows the code, and a lemma says exactly when the promise is met:

- The retention promise, that no purge removes a record within the window, fails for
  records whose UTC year has five digits, because buckets are compared as strings. Of
  the times a request can carry these are the ones in UTC year 10000, such as
  9999-12-31T23:00:00-01:00, which is accepted: `Guarantees.FutureRecordAccepted`,
  `Guarantees.FutureRecordDeleted`. A purge deletes a record within the window exactly
  if it is unheld and such a one, under a cutoff after year 1000:
  `Guarantees.YoungDeletedExactly`. What the string comparison computes for every
  instant is `Calendar.BucketBelow`.
- A checkpoint written for a period that is not closed is documented as a serious
  failure (SECURITY.md:59-61). The same comparison makes it happen: the month of that
  record, January 10000, is sealed before it begins, on an honest run of a new service
  in any of the years 1001 to 9999: `Guarantees.FutureMonthSealed`. A month with a
  checkpoint was over when it was sealed exactly if its year has at most four digits;
  of the times a request can carry, exactly outside UTC year 10000:
  `Guarantees.SealedMonthOverExactly`. No period parameter can name such a month:
  `Routes.NameablePeriods`.
- Content-bearing keys and long strings are documented not to reach a stored record
  (SECURITY.md:82-84). Sanitizing does not look inside nested values: an "email" key
  within an object is stored (`Requests.NestedKeySurvives`). A stored record is clean
  at every depth exactly if every value under an allowed key was clean inside to begin
  with: `Requests.SanitizedDeepClean`.
- A retry must not let one record displace another (SECURITY.md:95-96). None is
  displaced, but an answer of 200 does not say that the posted access is on record: it
  is exactly if the id was new or was used for the same access before:
  `Routes.RecordedExactly`.
- `POST /v1/purge` is documented as the same sweep as the scheduled one
  (README.md:155). The handler purges without sealing (routes/admin.go:98-100). It is
  the same exactly if no period waits for a checkpoint: `Retention.PurgeIsSweep`,
  `System.ManualPurgeIsSweep`. Otherwise a month can be lost without a trace:
  `Guarantees.HandPurgeLosesMonth`.
- A sweep is documented to seal before it purges (README.md:155). What it deletes from
  a month without a checkpoint is exactly the unheld rows that were appended below its
  cutoff, to a month neither sealed nor listed, after it listed the months to seal:
  `System.DeletedUnsealedExactly`. Left alone, it does delete such a row:
  `History.UntimelyRowDeletedUnsealed`. Rows dated within the window are never such,
  five-digit years aside: `Guarantees.RecentPostsTimely`.
- `Seq` is documented as index + 1 (store/memory.go:19). It is so in every state of a
  run exactly if every purge dropped only rows at the end of the list:
  `History.PurgeNumbers`, `History.RunNumbers`. When a number repeats is
  `History.NumberRepeatsAfterPurge`.
- A purged period is documented never to invalidate a retained one (README.md:265). A
  sealed period still verifies after a purge exactly if none of its rows was deleted,
  collisions aside, so a period that a legal hold keeps only in part no longer
  verifies: `Evidence.PurgeVerdict`.
- A period checkpoint is documented to prove that a retained period was not altered
  (README.md:152). It covers seals, not envelopes: an envelope altered under its old
  seal does not change the verdict, and only the check of the row's own seal sees it
  (`Evidence.AlteredEnvelopeUnseen`). The two checks together do prove it, for a store
  altered in any way but the checkpoint: `Evidence.AlteredStoreVerdict`.
- The limit of a subject query is documented as at most 10000
  (routes/records.go:79). The in-memory store has no upper cap:
  `Queries.AnswerLength`.

## Model

| member | source | states |
|---|---|---|
| `Calendar.YearOfBrackets` | store/store.go:100 | the year computed for a day is the one whose first day and next first day enclose it, for every day |
| `Calendar.DaysOfDateOf` | store/store.go:100 | counting the days of a computed date gives the day back |
| `Calendar.DateOfDaysOf` | store/store.go:100 | the calendar and the day count are inverse on every valid date |
| `Calendar.MonthsAreThatLong` | store/store.go:100-102 | day 0 is 0001-01-01, and from the first of a month to the first of the next are 30 days in April, June, September and November, 28 or 29 in February by the divisibility of the year, 31 otherwise |
| `Calendar.DaysOfMonth` | store/store.go:100-102 | a date is in a month exactly if its day lies within the days of that month |
| `Calendar.BucketOrder` | store/store.go:102 | first-of-month texts compare, as strings, as year and month compare |
| `Calendar.PeriodOrder` | store/store.go:99-103 | buckets compare as strings exactly as their months in time, and a later instant never has a smaller bucket, in four-digit years |
| `Calendar.PeriodIsMonth` | store/store.go:99-103 | two instants share a bucket exactly when they share a UTC month, in any year |
| `Calendar.PeriodSpans` | store/store.go:99-103 | exactly the instants of a month's days, from its first instant to its last, have the bucket of that month, in any year |
| `Calendar.PeriodReads` | store/store.go:102 | in a four-digit year a bucket reads as the year's four digits, a dash, the month's two digits and "-01" |
| `Calendar.CutoffBrackets` | tasks/retention.go:92 | for any instant: within the window it is below the cutoff exactly if its year has five or more digits and the first four show an earlier year; not below the cutoff it is younger than the window and 31 days |
| `Calendar.BucketBelow` | store/memory.go:204-206 | what the string comparison with a four-digit bound computes for every instant: months up to year 9999, the first four digits of the year beyond it |
| `Calendar.DateTextDetermines` | store/store.go:102 | date texts are equal only for equal dates, in any year |
| `Rfc3339.ParseDateText` | routes/verify.go:116 | reading the text of a date gives the date |
| `Rfc3339.ParseTimeText` | seal/seal.go:49-51 | a time survives being printed and read back, zone and nanoseconds included |
| `Rfc3339.LongFractionRead` | routes/records.go:36 | digits of a fraction past the ninth are dropped |
| `Rfc3339.UtcTextInjective` | seal/seal.go:88 | UTC timestamps are equal only for equal instants, in any year |
| `Rfc3339.FractionShape` | seal/seal.go:88 | a fraction of a second reads as its nanoseconds, has at most nine digits and does not end in 0; a whole second has none |
| `Rfc3339.ParsedIsPrintable` | routes/records.go:36 | every time that can be read has a four-digit local year and a zone below 24 hours |
| `Rfc3339.PrintableYears` | routes/records.go:36 | in UTC such a time is in a year from -1 to 10000 |
| `JsonText.ReadWritten` | seal/seal.go:103 | reading a written document, in any spacing and before any text, gives the document and that text |
| `JsonText.ParseWritten` | seal/seal.go:49-53 | a document survives being written and parsed, escapes included |
| `JsonText.WriteInjective` | seal/seal.go:103 | different documents have different texts |
| `JsonText.PlainText` | seal/seal.go:103 | printable ASCII other than quotes, backslashes and the HTML characters stands as it is between quotes |
| `JsonText.EscapesLook` | seal/seal.go:103 | quotes, backslashes, line ends, tabs, backspace and form feed are written as their short escapes |
| `JsonText.OthersLook` | seal/seal.go:103 | HTML characters, other controls and the two line separators are written as four hexadecimal digits, every other character as it is |
| `JsonText.OtherEscapesRead` | routes/records.go:36 | an escaped solidus and any four hexadecimal digits outside the surrogates are read |
| `JsonValue.ValueOfDocOf` | seal/seal.go:49-52 | writing a value with sorted keys and forgetting member order gives the value back |
| `JsonValue.KeysPrintSorted` | seal/seal.go:49-52 | the members of a printed map are in ascending order of their keys |
| `JsonValue.LastMemberWins` | routes/records.go:36 | of several members with one key the last one counts |
| `JsonValue.CompactInjective` | seal/seal.go:54-69 | a struct with omitted empty fields can still be told from every other, field by field |
| `JsonValue.CompactFields` | seal/seal.go:54-69 | each field of such a struct is found under its own name, or absent if omitted |
| `Envelopes.DecodeHeld` | routes/records.go:36 | decoding an object that holds an envelope's fields gives the envelope |
| `Envelopes.EnvelopeSurvivesStorage` | seal/seal.go:49-53 | an envelope printed as JSON, its object members in any order and spacing, is decoded unchanged |
| `Envelopes.DecodedIsPrintable` | routes/records.go:36 | every envelope that is decoded has a time that storage can print |
| `Envelopes.AbsentFieldsDecode` | routes/records.go:36 | fields that are missing or null decode as zero values |
| `Envelopes.NullsInLists` | routes/records.go:36 | in a list of strings a null reads as an empty one and any other value is refused |
| `Seals.HexInjective` | seal/seal.go:116 | hexadecimal texts are equal only for equal digests |
| `Seals.HexReads` | seal/seal.go:116 | each byte is written as its high digit and then its low one |
| `Seals.CanonicalIdentity` | seal/seal.go:72-104 | canonical texts are equal exactly for envelopes that record the same access: same instant and fields, subjects and categories as multisets |
| `Seals.CanonicalIsItsJson` | seal/seal.go:86-103 | the canonical text is the JSON form of the envelope with its time in UTC, its lists sorted and no chain fields |
| `Seals.CanonicalReads` | seal/seal.go:72-104 | read as JSON, the canonical text gives every field under its own name, the time in UTC, subjects and categories ascending and as often as they occur, and no chain fields |
| `Seals.WriteCanonical` | seal/seal.go:72-104 | the copying, sorting and projecting procedure gives the canonical text |
| `Seals.ReadCheckpointWritten` | seal/seal.go:134-144 | a checkpoint text is uniquely decodable, count and list, for newline-free seals |
| `Seals.NewlinesMakeTextsAmbiguous` | seal/seal.go:138-141 | with newlines in the seals of both lists one text stands for two lists |
| `Seals.CheckpointLooks` | seal/seal.go:134-141 | the text is "n=", the count, a newline, and each seal with a newline |
| `Seals.OwnCountDecides` | seal/seal.go:134-144 | counted by its length, a newline-free list shares its text with no other list, whatever that one holds |
| `Seals.WriteCheckpoint` | seal/seal.go:134-144 | writing line after line into the running MAC gives the checkpoint of the whole text |
| `Seals.Sealer.HexMac` | seal/seal.go:113-116 | two texts have one seal exactly if they are equal or collide |
| `Seals.Sealer.SealIdentity` | seal/seal.go:120-127 | a seal fits exactly the envelopes that record the same access, or an explicit collision |
| `Seals.Sealer.SealShape` | seal/seal.go:107-117 | every seal is 64 lower-case hexadecimal digits without a newline |
| `Seals.Sealer.SealSurvivesStorage` | seal/seal.go:49-53 | a seal still fits the envelope after a trip through storage |
| `Seals.Sealer.CheckpointIdentity` | seal/seal.go:148-152 | a checkpoint over newline-free seals fits exactly its own list and count, or an explicit collision; compared with any list under its own length, and with any count if that list is newline-free |
| `Seals.Sealer.DomainsSeparate` | seal/seal.go:134-144 | no checkpoint text is a row text, though both use one key |
| `Seals.KeysTellApart` | seal/seal.go:33-42 | no sealer comes from an empty key; a seal made under one key fits under another exactly if the MACs of the two keys agree on the text |
| `Examples.PeriodExample` | store/store.go:99-103 | the last instant of a day in May 2023 has the bucket "2023-05-01" |
| `Examples.TimeExamples` | seal/seal.go:88 | one instant as text in UTC, two hours east and half an hour west of it |
| `Examples.CanonicalExample` | seal/seal.go:54-103 | the sealed text of an envelope with all fields but attributes, member by member |
| `Requests.PersonalCodeForms` | routes/request/request.go:93-108 | flagged are exactly eleven digits, alone or with one dash anywhere among them |
| `Requests.PersonalCodesRefused` | routes/request/request.go:76-89 | neither form is ever accepted as a reference |
| `Requests.RefExactly` | routes/request/request.go:80-108 | a reference is accepted if and only if it is not empty, has at most 128 bytes, no "@" and no white space, and is not a personal code |
| `Requests.BytesCounted` | routes/request/request.go:81 | its length counts bytes of UTF-8: one to four per character by range |
| `Requests.FirstRefusal` | routes/request/request.go:33-64 | which refusal is reported: the first failure in the order id, time, type, outcome, category, subjects, reference, lawful basis |
| `Requests.ForbiddenExactly` | routes/request/request.go:115-136 | the keys that are stripped are those that hold one of the ten fragments |
| `Requests.MixedCaseForbidden` | routes/request/request.go:130-133 | fragments count in any case of letters and within any other text |
| `Requests.LowerLooks` | routes/request/request.go:130 | letters are lowered for the comparison: those of ASCII and the two others whose lower case is one |
| `Requests.LongStringsCut` | routes/request/request.go:139-146 | a string of more than 256 characters keeps its first 256, every other kept value is unchanged |
| `Requests.SanitizedIsClean` | routes/request/request.go:122-147 | sanitizing leaves no forbidden key and no long string at the top level of the attributes, changes nothing clean there, and never changes the verdict of validation |
| `Requests.SanitizedDeepClean` | routes/request/request.go:122-147 | the result is clean at every depth if and only if every value under an allowed key was clean inside to begin with |
| `Requests.NestedKeySurvives` | routes/request/request.go:129-136 | a forbidden key inside an object is kept with its value |
| `Requests.AccessRecord.CheckPersonalCode` | routes/request/request.go:93-108 | the counting loop decides: eleven digits, at most one dash, nothing else |
| `Requests.AccessRecord.CheckSubjectRef` | routes/request/request.go:80-89 | the checks in order decide whether a reference is acceptable |
| `Requests.AccessRecord.Validate` | routes/request/request.go:33-64 | the first failing check, in order, is the one reported |
| `Requests.AccessRecord.Sanitize` | routes/request/request.go:124-147 | the two in-place passes leave the sanitized envelope, whatever order the map is ranged in |
| `Requests.AccessRecord.HasFragment` | routes/request/request.go:130-136 | the loop finds a forbidden fragment exactly if the key has one |
| `Store.AppendValid` | store/memory.go:35-52 | appending keeps event ids unique and the index exact |
| `Store.AppendIdempotent` | store/memory.go:39-42 | a retry is answered with the first attempt's row id and changes nothing |
| `Store.PurgeMembers` | store/memory.go:203-218 | exactly the expired records without a held subject go |
| `Store.PurgeValid` | store/memory.go:196-223 | purging keeps event ids unique and the index exact |
| `Store.PurgedIdIsNew` | store/memory.go:217 | an id recorded again is new exactly if its record was purged |
| `Store.PurgeConserves` | store/memory.go:196-223 | what is left and what is reported as purged add up to what there was |
| `Store.RetainedAreExpiredSurvivors` | store/memory.go:210-214 | the retained count is the number of expired records still there |
| `Store.LastHoldDecides` | store/memory.go:182-193 | for a record no other hold protects, setting or clearing its hold decides whether a purge leaves it |
| `Store.FirstSaveIsLoaded` | store/memory.go:149-179 | what is loaded for a period is what was saved for it first, stamped if it had no time; other periods are untouched |
| `Store.PurgesCompose` | store/memory.go:196-223 | two purges leave the records, order and index of one with the later cutoff, and the counts add up |
| `Store.PurgeAgain` | store/memory.go:196-223 | a repeated purge deletes nothing and reports the same records as held |
| `Store.SealsIgnoreHistory` | store/memory.go:95-119 | the seals of a period are a function of its set of event ids with their seals, whatever the order, numbers and row ids of its rows |
| `Store.OrderOfAppendsIrrelevant` | store/memory.go:95-119 | appending two records in either order gives every period the same seals |
| `Store.PendingExact` | store/memory.go:122-146 | pending periods are sorted, without repeats, and exactly the occupied ones before the bound without a checkpoint |
| `Queries.StableSortCorrect` | store/memory.go:79-85 | the sort orders by time and number and keeps ties in place |
| `Queries.StablySortsUnique` | store/memory.go:79-85 | order and stability leave one arrangement, so any stable sort gives it |
| `Queries.AnswersMatch` | store/memory.go:63-77 | an answer holds only records of the subject within the bounds |
| `Queries.AnswersComplete` | store/memory.go:63-91 | an answer that is not truncated holds all that was asked for, as often as the store does |
| `Queries.ListedExactly` | store/memory.go:63-77 | an untruncated answer lists a record if and only if it touches the subject and lies within the bounds that are not zero, each of the four cases outright |
| `Queries.AnswersInOrder` | store/memory.go:79-85 | answers are in ascending order of time, and of sequence number at one instant |
| `Queries.TruncationKeepsEarliest` | store/memory.go:79-89 | what truncation leaves out comes no earlier than what it keeps |
| `Queries.AnswerLength` | store/memory.go:59-91 | an answer is as long as the smaller of limit, 1000 by default, and matches, with no upper cap on the limit |
| `Queries.SmallerLimitIsPrefix` | store/memory.go:87-89 | a smaller positive limit gives a prefix |
| `Queries.WindowsConcatenate` | store/memory.go:68-91 | the answers of two adjacent windows concatenate to that of the whole when it fits the limit |
| `MemoryStore.ArrangementIrrelevant` | store/memory.go:110 | any arrangement the unstable sort by event id may give lists the same seals, because ids are unique |
| `MemoryStore.SliceByEventId` | store/memory.go:110 | a permutation in ascending order of ids, all that the library sort promises |
| `MemoryStore.Memory.constructor` | store/memory.go:26-32 | a new store is empty and well-formed |
| `MemoryStore.Memory.Append` | store/memory.go:35-52 | one critical section does what the contract says, new state and answer |
| `MemoryStore.Memory.BySubject` | store/memory.go:55-92 | the selection loop, the stable sort and the truncation give the specified answer |
| `MemoryStore.Memory.SealsForPeriod` | store/memory.go:95-119 | the seals of the period's rows in event-id order, and their number |
| `MemoryStore.Memory.PendingCheckpointPeriods` | store/memory.go:122-146 | the loop over a set of seen periods lists the specified ones, whatever order the set is ranged in |
| `MemoryStore.Memory.SaveCheckpoint` | store/memory.go:149-164 | stores and stamps a checkpoint only for a period without one, and says whether it did |
| `MemoryStore.Memory.SetLegalHold` | store/memory.go:182-193 | changes the hold of one subject and nothing else |
| `MemoryStore.Memory.HeldLocked` | store/memory.go:231-239 | whether one of the subjects is held |
| `MemoryStore.Memory.PurgeExpired` | store/memory.go:196-223 | the whole state after a purge and both counts |
| `MemoryStore.Memory.PurgeRows` | store/memory.go:203-218 | the loop that keeps, counts and deletes from the index record by record |
| `MemoryStore.Memory.AppendVerifyEvent` | store/verify.go:99-108 | adds one event at the end and answers with its id |
| `MemoryStore.Memory.SweepVerifyExpired` | store/verify.go:111-129 | compacts within the same array: the events not before the cutoff, in order; the counts add up; the array beyond is untouched; what stays is what is not older than the days given |
| `Retention.SealAllAdds` | tasks/retention.go:79-88 | sealing adds one checkpoint per listed period over that period's rows and changes nothing else |
| `Retention.SweepLeavesNonePending` | tasks/retention.go:75-100 | after an undisturbed sweep no period waits for the same bound |
| `Retention.SweepSealsBeforeDeleting` | tasks/retention.go:75-100 | an undisturbed sweep leaves a checkpoint for every period it deletes from |
| `Retention.PurgeIsSweep` | routes/admin.go:98-100 | purging without sealing leaves what a whole sweep leaves exactly if no period waits for a checkpoint |
| `Retention.RetentionTask.SealOne` | tasks/retention.go:120-139 | reading the seals and saving a checkpoint over them seals the period |
| `Retention.RetentionTask.SealClosed` | tasks/retention.go:78-89 | the loop seals every pending period |
| `Retention.RetentionTask.RunOnce` | tasks/retention.go:75-118 | one sweep: seal, purge, then sweep the verify events if enabled; the purged count is what is missing, the retained count is what is left past the cutoff |
| `System.RunKeepsInvariant` | store/memory.go:16-23 | in every interleaving the store stays well-formed and the sweep's variables stay consistent |
| `System.RequestSteps` | store/memory.go:16-23 | the whole state after a reading of the clock, an append, a hold and a manual purge |
| `System.CheckpointsPermanent` | store/memory.go:149-155 | a stored checkpoint is the same in every later state |
| `System.HoldingWasRead` | tasks/retention.go:121-124 | what the sweep holds between reading and saving is what it read |
| `System.CheckpointIsSnapshot` | tasks/retention.go:120-139 | in every interleaving a stored checkpoint attests exactly the seals its period had when a sweep read them |
| `System.SealedBelowPresent` | tasks/retention.go:79-80 | under a clock that never goes back, a period is sealed only at an instant whose bucket it is below, in the order of buckets |
| `System.RunSparesPeriod` | seal/seal.go:10-12 | a run that does not touch a period leaves its rows, in order |
| `System.VerdictSurvives` | seal/seal.go:10-12 | the verdict on a period is unchanged by any run of holds, retries, appends elsewhere, sweeps and purges that do not pass it |
| `System.RemovalIsPurge` | store/store.go:83-85 | a record disappears exactly in a purge whose own reading of the clock, not after the present, puts it past the cutoff, and only unheld |
| `System.SurvivorsAreYoungOrHeld` | store/memory.go:203-214 | right after a purge every record is at or after the cutoff, or held |
| `System.YoungRecordsStay` | tasks/retention.go:91-93 | a record no cutoff of the run reaches is there at its end, unchanged |
| `System.HeldRecordsStay` | store/memory.go:210-214 | while a subject stays held, its records stay through every run of purges and other holds |
| `System.MissedCameLate` | tasks/retention.go:75-100 | in every interleaving the rows in expired periods that a sweep neither sealed nor listed are the ones untimely appends added |
| `System.DeletedUnsealedExactly` | tasks/retention.go:75-100 | in every interleaving, a sweep's purge deletes a row from a period without a checkpoint if and only if the row is unheld and an untimely append added it |
| `System.SweepDeletesOnlySealed` | tasks/retention.go:75-100 | so without an untimely append it deletes only rows of sealed periods |
| `System.ManualPurgeIsSweep` | routes/admin.go:98-100 | in every state the manual purge adds no checkpoint, and leaves the store a sweep would leave exactly if no period waits |
| `System.ManualPurgeLosesUnsealed` | routes/admin.go:98-100 | in a new service a first, expired record is purged by hand without a trace, where a sweep leaves the checkpoint of its period |
| `History.RunConserves` | store/memory.go:35-52 | over every run accepted appends are the rows still listed and the sum of the purged counts |
| `History.RecordsAreSurvivingJournal` | store/memory.go:19 | in every state the list is the accepted appends, in order, without those a later purge dropped |
| `History.PurgeNumbers` | store/memory.go:19 | a purge of a numbered list leaves it numbered if and only if it drops nothing that stands before a kept row |
| `History.RunNumbers` | store/memory.go:19 | over a run, index i has number i + 1 in every state if and only if every purge of the run dropped only what was at the end |
| `History.NumberRepeatsAfterPurge` | store/memory.go:46 | after a purge of any list the next number repeats one in use exactly if a kept row has the number after the count of kept rows; in a numbered list, if the row at that position was kept |
| `History.RunKeepsRows` | store/memory.go:44-49 | no step alters a row's envelope or seal: what holds of everything posted holds of everything stored |
| `History.ScriptIsSweep` | tasks/retention.go:75-118 | the sweep's steps with nothing in between do what the sweep as one operation does |
| `History.UntimelyRowDeletedUnsealed` | tasks/retention.go:82-93 | at whatever point of the sealing an untimely, unheld row is appended, the sweep, left alone from there, deletes it from a period without a checkpoint |
| `Evidence.SealsOfContents` | store/memory.go:110-118 | the listed seals are the seals of the period's envelopes in event-id order |
| `Evidence.CheckpointFitsContents` | seal/seal.go:129-133 | a checkpoint fits other contents only if they are the same accesses, or an explicit collision |
| `Evidence.AlteredStoreVerdict` | seal/seal.go:1-8 | for a store altered in any way but the checkpoint, after any run: the period verifies exactly if it lists the seals the sweep read, or an explicit collision; if besides every row passes its own check, its contents are those the sweep read, or an explicit collision |
| `Evidence.AlteredEnvelopeUnseen` | seal/seal.go:129-144 | an envelope altered under its old seal, id and month kept, changes no period's verdict; the row's own check fails unless nothing recorded changed or the texts collide |
| `Evidence.VerdictComparesContents` | routes/verify.go:70-108 | in every run a sealed period verifies while its rows are the same accesses as the sweep read, and otherwise only by an explicit collision |
| `Evidence.TornReadIsAtomic` | routes/verify.go:78-95 | whatever runs between loading the checkpoint and listing the seals, the verdict is that of the later state |
| `Evidence.LateRowDetected` | seal/seal.go:131-133 | a row added to a sealed period, under any seal, makes its verification fail, except exactly by a collision of the two checkpoint texts |
| `Evidence.PurgeVerdict` | seal/seal.go:10-12 | a sealed period verifies after a purge if and only if none of its rows was deleted or the two checkpoint texts collide |
| `Routes.DateNormalizes` | routes/verify.go:110-123 | a valid date, or its year and month, is sent to the bucket of that month |
| `Routes.PeriodNormalizes` | routes/verify.go:110-123 | every bucket is a fixed point and its seven-character prefix maps back to it |
| `Routes.NormalizeAccepts` | routes/verify.go:112-123 | exactly dates and months in four-digit years are accepted |
| `Routes.NameablePeriods` | routes/verify.go:112-123 | the buckets a parameter can name are exactly those of four-digit years |
| `Routes.SubjectReportMeans` | routes/verify.go:48-68 | the report is positive exactly if every checked row passes, and lists the ids of those that do not, and no others |
| `Routes.AlteredRowListed` | routes/verify.go:56-61 | a row altered under its old seal is listed, or the alteration changes nothing recorded, or collides |
| `Routes.SealCoversVerdict` | routes/request/request.go:33-64 | validation looks at nothing the seal does not cover: a row that passes its seal check gets the verdict of the original, or an explicit collision |
| `Routes.Router.RecordAccess` | routes/records.go:30-68 | a refused record changes nothing; an accepted one is sanitized, sealed and appended |
| `Routes.RecordedExactly` | routes/records.go:50-67 | after a success the answer names the row listed under the id, 201 for a new row with the body sanitized, its seal, caller and system, 200 for a duplicate; the posted access is on record if and only if that row records it, which is if and only if the id was new or was used for the same access; a 200 changes nothing |
| `Routes.Router.VerifySubject` | routes/verify.go:48-68 | the loop gives the specified report |
| `Routes.Router.VerifyPeriod` | routes/verify.go:70-108 | a bad parameter, a missing checkpoint or the comparison, in this order |
| `Routes.VerifyAnswersSubject` | routes/verify.go:34-68 | for a given subject, whatever period is given besides: a report on that subject over its first 10000 rows, positive exactly if each passes, listing exactly the ids of those that do not |
| `Routes.VerifyAnswersPeriod` | routes/verify.go:39-108 | without a subject: refused unless the period names a month, not found unless it has a checkpoint, else a report on that month's bucket over its seals, positive exactly if they fit the checkpoint; with neither, refused |
| `Routes.Router.SubjectAccessRecords` | routes/records.go:86-132 | every row of the answer, in order, with the verdict on its own seal |
| `Routes.DsarMeans` | routes/records.go:120-131 | the answer names the subject and counts its rows; each has the envelope of the store's row and reads "ok" if and only if that row passes its seal check, "failed" otherwise |
| `Routes.AlteredRowFails` | routes/records.go:121-129 | a row altered under its old seal reads "failed" if and only if something recorded changed and the texts do not collide |
| `Routes.Router.TriggerPurge` | routes/admin.go:93-109 | the purge at the cutoff of the window, nothing else |
| `Guarantees.SealedBelowOwnInstant` | store/memory.go:129-132 | every checkpoint was stored at an instant of the run whose bucket its period is below, as strings |
| `Guarantees.SealedMonthOverExactly` | tasks/retention.go:78-80 | a month with a checkpoint was over when sealed if and only if its year has at most four digits, and had not begun otherwise; for times a request can carry: if and only if not in UTC year 10000 |
| `Guarantees.FutureMonthSealed` | store/memory.go:129-136 | posted to a new service in any of the years 1001 to 9999, the envelope dated 9999-12-31T23:00:00-01:00 gets the checkpoint of January 10000 at the next sweep, before that month starts |
| `Guarantees.EveryPastMonthSealed` | tasks/retention.go:78-89 | a sweep leaves a checkpoint for every month before its own that has rows, in years of up to four digits |
| `Guarantees.KeptWithinWindow` | tasks/retention.go:91-93 | over every run a record within the window is still there, unchanged, unless its year of five or more digits sorts before the cutoff |
| `Guarantees.YoungDeletedExactly` | tasks/retention.go:91-93 | a purge deletes a record within the window if and only if it is unheld and such a one; for times a request can carry: in UTC year 10000, under a cutoff after year 1000 |
| `Guarantees.FutureRecordAccepted` | routes/records.go:36 | an envelope dated 9999-12-31T23:00:00-01:00 decodes from its JSON form, validates and is clean |
| `Guarantees.FutureRecordDeleted` | store/memory.go:203-218 | posted to a new service and purged at once, it is gone, under any cutoff in years 1001 to 9999 |
| `Guarantees.GonePastWindow` | tasks/retention.go:91-93 | right after a purge every record, whatever its year, is held or younger than the window and 31 days |
| `Guarantees.SealedBeforeDeleted` | tasks/retention.go:75-100 | with calendar months and a non-negative window: a row is deleted from an unsealed month if and only if it is unheld and an untimely append added it |
| `Guarantees.HandPurgeLosesMonth` | routes/admin.go:98-100 | a record older than the window and a month, first in a new service, is purged by hand without a trace, where a sweep seals its month |
| `Guarantees.RecentPostsTimely` | tasks/retention.go:91-92 | an append dated within the window is untimely only if its year of five or more digits sorts before the cutoff |
| `Guarantees.HonestRowsProper` | routes/records.go:30-57 | in every state of a run of posted requests each row is sanitized at the top level of its attributes, valid and under its own seal |
| `Guarantees.NoPersonalCodeStored` | routes/request/request.go:76-79 | there no row names a personal code, plain or dashed, as a data subject |
| `Guarantees.HonestRunsVerify` | routes/verify.go:48-68 | there a subject's verification is positive and checks the smaller of 10000 and all its records |
| `Guarantees.HonestRunsAnswer` | routes/records.go:121-129 | there every row of a subject's answer reads "ok" |
| `Guarantees.PeriodAnswerMeans` | routes/verify.go:70-108 | there the endpoint answers "no checkpoint", or counts the month's rows and is positive while they are the accesses a sweep read, and otherwise only by an explicit collision |

## Left out

- The Postgres store (store/postgres.go and its half of store/verify.go): the procedures that decide its behaviour are not in the repository.
- HTTP routing, status codes other than the two of a recorded access, scopes, authentication, configuration, secret files, health endpoints, security events and logging.
- The definition of the producer library's envelope, which is not part of this model: it is taken to have the fields the seal projects and the two chain fields the seal excludes, and a JSON form that keeps each under the same name and omits the same empty ones.
- SHA-256 and the constant-time comparison: HMAC is an arbitrary function and comparison is equality.
- Printing of floating-point numbers: a number is the token `encoding/json` prints for it, assumed to be read back as the same number.
- JSON input that the service's own output never contains: surrogate escapes, invalid UTF-8, and field names matched without regard to case. Texts are sequences of code points.
- `Envelopes.EnvelopeSurvivesStorage`: requires a time that `MarshalJSON` accepts, because others cannot be stored as JSON.
- `Calendar.PeriodOrder`: requires four-digit years, because the order is wrong beyond them; what it is there is `Calendar.BucketBelow`.
- The clock is taken to show cutoffs in four-digit years.
- `Evidence.AlteredStoreVerdict`: the altered store keeps its event ids unique, because with a repeated id the unstable sort leaves the order of the seals open.
- `Queries.WindowsConcatenate`: requires non-zero bounds, because a zero bound stands for no bound.
- Generation of row ids: an id is an argument of the append.
- Errors of the store: the in-memory store has none, so the error branches of the sweep are not modelled.
- Start and Stop of the background sweep, its ticker and the initial sweep: one sweep at a time is assumed, as the single goroutine provides.
- The sweep of the verify events is not a step of the transition system, since it shares no data with the records; its cutoff is kept as an instant, not as a text.
- `Retention.RetentionTask.RunOnce`: stamps checkpoints and cuts off verify events at the sweep's instant instead of later readings of the clock; the transition system stamps checkpoints with the clock at saving.
- Parsing of the `from`, `to` and `limit` query parameters: the handlers take instants and a number.
- The legal-hold handlers: they validate the length of two strings and call the store.
- Records in the store are values: the source's pointers to private copies are not modelled as aliases.
- Unicode lower-casing is modelled as far as the forbidden fragments, which are ASCII, can tell.
