# Birthday message scheduler (hbd-api), modelled in Dafny

hbd-api sends every user a "happy birthday" email at 9 in the morning of their
birthday, in their own time zone. An hourly pass (`processBirthdayMessages`)
walks over all users. When it is a user's birthday in their zone, it finds or
creates a delivery record (`messageLog`) for that occurrence. It then decides
from the record's status, attempt count, last attempt and the local hour
whether to call the email service. The email service records the attempt,
posts the message to an HTTP API and marks the record SENT or FAILED. A
start-up pass (`recoverUnsentMessages`) queries the PENDING records and the
FAILED records that are due for the current year, and sends those whose
birthday is now at 9 local time. The user service adds a second birthday
filter (`findBirthdayUsers`) and maps Prisma's "record not found" error to a
NotFound error.

The model is split by source file:

- `message_logs.dfy`: the `messageLog` table. It is a class `MessageLogTable`
  over a sequence of records; a record's id is its position. It has the
  three store operations the services call: find the first record with a
  key, create a record, update one record.
- `email.dfy`: `EmailService`, a class that holds the table and the list of
  HTTP posts it has made, plus the message text and the record transition
  of one send.
- `users.dfy`: `findBirthdayUsers` (a loop, as in the source),
  `getZonedDate`, and the error mapping of `update` / `remove`.
- `birthday.dfy`: `BirthdayService`. Each pass is specified by a function
  over the table (`Tick`, `Recover`). The class's methods are the source's
  loops, proved to leave the table and the list of posts as those functions
  say.
- `birthday_properties.dfy`: what the passes guarantee. There is one record
  per occurrence, and a record invariant both passes keep, which includes
  the retry cap. SENT is final. Recovery attempts each record at most once.
  The hourly decision agrees with an independent decision table.
- `time_zones.dfy`, `wrappers.dfy`: the time-zone oracles and `Option` /
  `Result`.

Time zones are parameters (`Zones`). `luxon` gives the calendar fields of an
instant in a zone, or nothing when Luxon rejects the zone. `toZonedTime` is
date-fns-tz's shift, or nothing when it throws. `host` gives the `Date`
getters in the server's own zone. The email API's answer is an input
(`Reply`). In a batch pass, `replies(i)` is the answer to the call made at
loop position `i`. The clock is one input `now` per pass (see "## Left out").

Points where the code does something its own comments, log messages or
neighbouring code suggest otherwise; the model follows the code:

- Invalid zone. `getZonedDate` (`user.service.ts:91-100`) and
  `TimezoneUtil.getDateTimeInTimezone` (`timezone.util.ts:12-18`) catch a
  conversion error and return the instant unshifted; their messages call
  this falling back to UTC. The hourly and recovery passes have no such
  fallback (`birthday.service.ts:26-36`, `:174-182`): Luxon yields an
  invalid date, the month/day comparison fails, and the user is skipped
  (`BirthdayProperties.UnsupportedZoneIsSkipped`).
- Record year. The comments at `birthday.service.ts:37` and `:47` speak of
  the record for "this specific birthday and year" and "this year's
  birthday". The find and the create (`:43`, `:54`) key the record by the
  year of the stored birthday instead, so later years find the same record
  (`Birthday.StoredKey`). Once a message is delivered, every later hourly
  or recovery pass keeps that record SENT and first under the key
  (`BirthdayProperties.TickKeepsDelivered`, `RecoverKeepsDelivered`), and
  the user's turns send nothing (`DeliveredUserIsSkipped`,
  `OneMessagePerUserAcrossPasses`).
- Recovery year. Recovery selects records whose year is the current year
  in the server's zone (`birthday.service.ts:127`, `:136`). It sends only
  when that year is also the user's local year and the local hour is 9,
  for FAILED records too (`birthday.service.ts:177-182`).
- Updates. The record updates carry no version or condition.

## Model

| member | source | states |
|---|---|---|
| MessageLogs.Apply | src/email/email.service.ts:34-40 | the attempt update stamps lastAttemptAt and adds one attempt; the SENT update sets status, sentAt and clears the error (email.service.ts:56-63); the FAILED update sets status and the error (email.service.ts:70-76); every other column, the id and the key stay as they were |
| MessageLogs.FirstWithKey | src/birthday/birthday.service.ts:38-45 | the record found exists exactly when some record has the key; it is stored at its id, has the key, and no earlier record has it |
| MessageLogs.FindOrCreate | src/birthday/birthday.service.ts:38-57 | with a record for the key, the table is unchanged and the first such record is used; without one, a PENDING record with the schema defaults is appended and used |
| MessageLogs.FindOrCreateLeavesOneRecord | src/birthday/birthday.service.ts:37-57 | on a table with unique keys, find-or-create keeps the keys unique, and the record it settled on is the only one with the key |
| MessageLogs.MessageLogTable.FindFirst | src/birthday/birthday.service.ts:38-45 | the scan returns the first record with the key, or nothing |
| MessageLogs.MessageLogTable.Create | src/birthday/birthday.service.ts:49-57 | appends the PENDING record with attempt count 0 and null timestamps and error, and returns it |
| MessageLogs.MessageLogTable.Update | src/email/email.service.ts:34-40 | changes only the record with that id, as the update's data says; a missing id fails and changes nothing |
| Email.BaseUrl | src/email/email.service.ts:15-17 | the configured EMAIL_API_BASE_URL when set, the fixed default otherwise |
| Email.BirthdayMessage | src/email/email.service.ts:25 | the text is "Hey, ", then exactly the full name, then " it's your birthday." |
| Email.MessageNamesRecipient | src/email/email.service.ts:25 | the message text names its recipient: the full name is recovered from it |
| Email.OnlyBirthdayMessagesName | src/email/email.service.ts:25 | conversely, any text a name is read out of is exactly "Hey, " + name + " it's your birthday." |
| Email.ErrorText | src/email/email.service.ts:74 | the error's message when it has one, else "Unknown error"; never empty |
| Email.BirthdayPost | src/email/email.service.ts:25-51 | the post goes to the recipient's address with a message naming the recipient |
| Email.AfterSend | src/email/email.service.ts:33-77 | attemptCount is incremented by one and lastAttemptAt is now, whatever the outcome; on success SENT with sentAt now and no error; on failure FAILED with the error text and sentAt unchanged; id and key never change |
| Email.SendExamples | src/email/email.service.spec.ts:46-66 | the unit-test request: with only EMAIL_SERVICE_BASE_URL configured the default base URL is used, giving the exact URL and payload for John Doe |
| Email.OutcomeExamples | src/email/email.service.spec.ts:68-115 | the unit-test outcomes: a "Network error" rejection leaves the record FAILED with that error and one more attempt; a success leaves it SENT at now with the error cleared |
| Email.EmailService.constructor | src/email/email.service.ts:11-18 | the base URL is taken from the configuration once, and nothing has been posted yet |
| Email.EmailService.SendBirthdayEmail | src/email/email.service.ts:20-80 | returns true exactly when the post succeeded; only record messageLogId changes, to AfterSend of it; exactly one post, of BirthdayPost; an unknown id fails with nothing posted or changed |
| Users.GetZonedDate | src/user/user.service.ts:91-100 | the shifted instant, or the input instant itself when the conversion throws |
| Users.IsBirthdayAt | src/user/user.service.ts:79-84 | month, date and hour compared in the user's zone; when the zone is invalid, the unshifted instants are compared instead |
| Users.BirthdayUsersMembers | src/user/user.service.ts:68-89 | a user is in the result exactly when they are in the table and match month, date and hour in their zone |
| Users.BirthdayUsersIsSubsequence | src/user/user.service.ts:69-88 | the result is a subsequence of the table, in table order |
| Users.FindBirthdayUsers | src/user/user.service.ts:68-89 | the loop returns the filtered sequence, and its members are exactly the matching users |
| Users.WriteError | src/user/user.service.ts:47-52 | P2025 becomes NotFound for the requested id; every other error is rethrown unchanged |
| Users.Update | src/user/user.service.ts:33-53 | a successful update returns the updated user; a failure is mapped by WriteError |
| Users.Remove | src/user/user.service.ts:55-66 | a successful delete succeeds; a failure is mapped by WriteError |
| Birthday.IsBirthdayToday | src/birthday/birthday.service.ts:26-36 | month and day of the stored birthday and of now agree in the user's zone; never holds when Luxon rejects the zone |
| Birthday.StoredKey | src/birthday/birthday.service.ts:41-43 | the record key is the user's id with the month, day and year of the stored birthday in the user's zone, the same in every year |
| Birthday.ShouldAttemptNow | src/birthday/birthday.service.ts:64-76 | never for SENT or at 5 attempts; PENDING exactly at local hour 9 (under the cap); FAILED exactly when under the cap with a last attempt at least an hour ago, at any hour |
| Birthday.ProcessUser | src/birthday/birthday.service.ts:26-118 | no birthday today: nothing changes and no call; birthday: find-or-create, then a call exactly when ShouldAttemptNow, with the full name, the email and the record id, the record becoming AfterSend of it |
| Birthday.Tick | src/birthday/birthday.service.ts:17-121 | at most one call per user, made only for a user whose birthday it is, with that user's full name and email; record ids stay positions and old records keep their keys |
| Birthday.CurrentYear | src/birthday/birthday.service.ts:127 | the year of now in the server's own zone, not in the user's |
| Birthday.IsOutstanding | src/birthday/birthday.service.ts:133-150 | a selected record is of the year asked for and not SENT; every PENDING record of that year is selected, whatever its attempt count |
| Birthday.Outstanding | src/birthday/birthday.service.ts:132-156 | a record is selected exactly when it is of the current year and PENDING, or FAILED below the cap with a last attempt at least an hour ago; no selected record is SENT or of another year; in table order |
| Birthday.UserOf | src/birthday/birthday.service.ts:157 | the joined user is a user whose id is the record's userId |
| Birthday.Join | src/birthday/birthday.service.ts:157 | one row per selected record, in order, each carrying that record and the user it belongs to |
| Birthday.RecoveryQuery | src/birthday/birthday.service.ts:132-158 | every row carries the table's record at its id, outstanding for the year asked, with its own user; every outstanding record has a row; rows are in increasing id order |
| Birthday.RecoveryDue | src/birthday/birthday.service.ts:177-182 | recovery sends exactly when the hourly pass's birthday test holds, the local hour is 9 and the record's year is the local year |
| Birthday.RecoverStep | src/birthday/birthday.service.ts:170-212 | for one joined row: a call exactly when month and day match in the user's zone, the record's year is the local year and the local hour is 9, with the user's full name, email and the record's id; the record becomes AfterSend of it; otherwise nothing changes |
| Birthday.RecoverEach | src/birthday/birthday.service.ts:169-213 | one entry per joined row, in order; a call for a row exactly when RecoverStep's test holds for it, with its user's name and email and its record's id; ids and keys never change |
| Birthday.Recover | src/birthday/birthday.service.ts:124-215 | the table keeps its size, ids and keys; one entry per selected record |
| Birthday.BirthdayService.constructor | src/birthday/birthday.service.ts:12-15 | the service holds the table and the email service it was given |
| Birthday.BirthdayService.ProcessBirthdayMessages | src/birthday/birthday.service.ts:17-121 | the loop leaves the table as Tick says and posts exactly the messages of Tick's calls, in order |
| Birthday.BirthdayService.ProcessUserTurn | src/birthday/birthday.service.ts:26-118 | one iteration leaves the table and the posts as ProcessUser says |
| Birthday.BirthdayService.SelectOutstanding | src/birthday/birthday.service.ts:132-158 | the query returns exactly Outstanding of the table |
| Birthday.BirthdayService.RecoverUnsentMessages | src/birthday/birthday.service.ts:124-215 | the query, the join and the loop leave the table as Recover says and post exactly the messages of its calls, in order |
| Birthday.BirthdayService.RecoverSelected | src/birthday/birthday.service.ts:169-213 | the loop over the joined rows leaves the table and the posts as RecoverEach says |
| Birthday.BirthdayService.RecoverLog | src/birthday/birthday.service.ts:170-212 | one iteration, on one joined row, leaves the table and the posts as RecoverStep says |
| BirthdayProperties.ProcessUserKeepsKeysUnique | src/birthday/birthday.service.ts:37-57 | one user's turn keeps the keys unique, and a user whose birthday it is then has a record under their key |
| BirthdayProperties.TickLeavesOneRecordPerBirthday | src/birthday/birthday.service.ts:24-62 | after the hourly pass the keys are unique and every user whose birthday it is has exactly one record under their key |
| BirthdayProperties.AfterSendWellFormed | src/email/email.service.ts:33-77 | a send on a well-formed PENDING or FAILED record below the cap leaves it well-formed |
| BirthdayProperties.TickKeepsRecordsWellFormed | src/birthday/birthday.service.ts:64-88 | the hourly pass keeps every record well-formed, and so keeps every attempt count at or below 5 |
| BirthdayProperties.ShouldAttemptFollowsTable | src/birthday/birthday.service.ts:64-117 | on a well-formed record the pass sends exactly when the decision table says SEND or RETRY |
| BirthdayProperties.RetryExamples | src/birthday/birthday.service.ts:73-76 | a FAILED record with 3 attempts waits 30 minutes after its last attempt and is retried after 90; one with 5 attempts is never retried |
| BirthdayProperties.TickKeepsSentRecords | src/birthday/birthday.service.ts:64-117 | the hourly pass never changes a SENT record |
| BirthdayProperties.FinishedRecordBlocksUser | src/birthday/birthday.service.ts:64-68 | when the user's record is SENT or has 5 attempts, their turn changes nothing and makes no call, at any time |
| BirthdayProperties.OneMessagePerUser | src/birthday/birthday.service.ts:38-57 | after a delivered message the table records the delivery (the first record under the user's key is SENT), and the user's next turn, at any later time or year, makes no call |
| BirthdayProperties.TickKeepsDelivered | src/birthday/birthday.service.ts:17-121 | an hourly pass over any users keeps the user's first record under their key SENT |
| BirthdayProperties.RecoverKeepsSentRecords | src/birthday/birthday.service.ts:124-215 | a record recovery changes was not SENT |
| BirthdayProperties.RecoverKeepsDelivered | src/birthday/birthday.service.ts:124-215 | a recovery pass keeps the user's first record under their key SENT |
| BirthdayProperties.DeliveredUserIsSkipped | src/birthday/birthday.service.ts:38-68 | while the first record under the user's key is SENT, their turn changes nothing and makes no call |
| BirthdayProperties.OneMessagePerUserAcrossPasses | src/birthday/birthday.service.ts:17-215 | after a delivery, then an hourly pass over any users, then a recovery pass, a turn of the user makes no call after either pass |
| BirthdayProperties.UnsupportedZoneIsSkipped | src/birthday/birthday.service.ts:26-36 | for a user whose zone Luxon rejects, neither pass creates or changes a record or makes a call |
| BirthdayProperties.RecoverEachTouchesEachRecordOnce | src/birthday/birthday.service.ts:169-213 | each record is either unchanged or the result of exactly one send made for it in the loop |
| BirthdayProperties.RecoveredRow | src/birthday/birthday.service.ts:169-190 | in a loop over rows carrying outstanding records of the table, a changed record was outstanding, has exactly one more attempt, and is well-formed if it was before |
| BirthdayProperties.RecoveredRecord | src/birthday/birthday.service.ts:132-190 | a record the recovery pass changed was selected by the query, has exactly one more attempt, and is well-formed if it was before |
| BirthdayProperties.RecoveryKeepsRecordsWellFormed | src/birthday/birthday.service.ts:124-215 | recovery keeps every record well-formed, changes only selected records, each by one attempt, and never a SENT one |
| BirthdayProperties.RecoveryKeepsKeysUnique | src/birthday/birthday.service.ts:124-215 | recovery keeps the keys unique, so the hourly pass's one-record-per-occurrence lemma applies after it |
| BirthdayProperties.RecoveryQueryMatchesRetryRule | src/birthday/birthday.service.ts:139-147 | for a FAILED record the recovery filter and the hourly retry rule agree |
| BirthdayProperties.RecoveryCallsEachRecordOnce | src/birthday/birthday.service.ts:169-190 | the calls of one recovery pass name records in strictly increasing id order, so no record gets two calls |
| BirthdayProperties.FirstBirthdayAtNine | src/birthday/birthday.service.spec.ts:37-84 | a user with a birthday at 9 and no record gets record 0 and one call with "Test User", their email and record 0 |

## Left out

- Time zones: Luxon and date-fns-tz are foreign libraries with IANA data. Their results are the parameters `Zones.luxon`, `Zones.toZonedTime` and `Zones.host`, so the Feb-29 and daylight-saving behaviour follow whatever those functions return.
- Prisma: the tables are in-memory sequences. Record ids are positions rather than generated strings. The order `findMany` returns is taken to be table order.
- Prisma: the join `include: { user: true }` assumes every record's user exists (`LogsHaveUsers`), which the foreign key guarantees.
- axios: the HTTP call, its headers and its 5-second timeout are not modelled. Its outcome is the `Reply` input.
- Email.EmailService.SendBirthdayEmail: the SENT or FAILED update cannot fail in the model, because the first update already found the record. So the source's case where the SENT update throws, the record is marked FAILED and the call still returns true is not modelled (it needs the second update to fail).
- Clock: one `now` per pass stands for every clock read of that pass. These are `new Date()` at the start of the pass (`birthday.service.ts:21`, `:126`), `DateTime.now()` once per user or record (`:26`, `:175`), and the two stamps `sendBirthdayEmail` writes (`lastAttemptAt` at `email.service.ts:37`, `sentAt` at `:60`). In the source those reads come after the awaits of the queries and of every earlier send, each of which can take up to the 5-second timeout. So the model stamps `lastAttemptAt` with the pass's own time. A FAILED record is then always due again at exactly the next hourly pass. In the source the stamp is later than the next pass's `new Date()` minus one hour, so the retry normally waits one more hour.
- Concurrency: the hourly pass and recovery run one at a time.
- Asynchrony: a rejected promise is not modelled. An unknown record id is a `Failure` result instead of a thrown error.
- Logging: all log, debug and warn calls are left out, including the max-retries warning. That warning (`birthday.service.ts:96-102`) sits inside the `attemptCount < 5` guard and can never fire.
- `TimezoneUtil` (`timezone.util.ts`) is not part of this model. No service of the core calls it; its `getDateTimeInTimezone` has the same fallback as `Users.GetZonedDate`.
- User service: `create`, `findAll` and `findOne` are pass-throughs to Prisma and are not modelled. `update` and `remove` take the Prisma outcome as an input.
- Wiring: NestJS modules, dependency injection, the cron scheduler, `onModuleInit`, the throttler, DTO validation, the uniqueness validator, the controller and `AppService` have no logic of their own here.
- Birthday.Recover: its own contract states only sizes, ids and keys. Which records are attempted, and how, is stated by `Birthday.RecoverEach` and the recovery lemmas of `BirthdayProperties`.
