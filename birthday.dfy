/** The birthday scheduler: the hourly pass over all users and the
    start-up recovery pass over outstanding delivery records.

    Each pass is specified by a function over the table's contents
    (`Tick`, `Recover`); the methods of `BirthdayService` are proved to
    leave the table and the email service exactly as those functions say. */
module Birthday {
  import opened Wrappers
  import opened TimeZones
  import opened MessageLogs
  import opened Email
  import opened Users

  /** Attempts allowed per occurrence. */
  const MaxRetries := 5
  /** Least time between two attempts of a FAILED occurrence: one hour. */
  const RetryIntervalMs := 60 * 60 * 1000
  /** Local hour at which a PENDING occurrence is sent. */
  const DeliveryHour := 9

  /** The name passed to the email service. */
  function FullName(u: User): string {
    u.firstName + " " + u.lastName
  }

  /** The stored birthday and "now" fall on the same month and day in the
      user's zone. When Luxon rejects the zone both dates are invalid, their
      fields are NaN and the comparison fails. */
  predicate IsBirthdayToday(z: Zones, u: User, now: Instant)
    ensures z.luxon(now, u.location).None? ==> !IsBirthdayToday(z, u, now)
    ensures z.luxon(u.birthday, u.location).None? ==> !IsBirthdayToday(z, u, now)
  {
    var nowLocal := z.luxon(now, u.location);
    var stored := z.luxon(u.birthday, u.location);
    && nowLocal.Some? && stored.Some?
    && stored.value.month == nowLocal.value.month
    && stored.value.day == nowLocal.value.day
  }

  /** The key the hourly pass looks the record up by: month, day and YEAR
      of the stored birthday in the user's zone. */
  function StoredKey(z: Zones, u: User): (k: LogKey)
    requires z.luxon(u.birthday, u.location).Some?
    ensures k.userId == u.id
    ensures var stored := z.luxon(u.birthday, u.location).value;
            k.month == stored.month && k.day == stored.day && k.year == stored.year
  {
    var stored := z.luxon(u.birthday, u.location).value;
    LogKey(u.id, stored.month, stored.day, stored.year)
  }

  /** The hour of `now` in the user's zone. */
  function LocalHour(z: Zones, u: User, now: Instant): int
    requires z.luxon(now, u.location).Some?
  {
    z.luxon(now, u.location).value.hour
  }

  /** The hourly pass's decision to send for a record it found or created. */
  function ShouldAttemptNow(l: MessageLog, localHour: int, now: Instant): (r: bool)
    ensures r ==> l.status != Sent && l.attemptCount < MaxRetries
    ensures l.status == Pending ==> (r <==> localHour == DeliveryHour && l.attemptCount < MaxRetries)
    ensures l.status == Failed ==>
              (r <==> && l.attemptCount < MaxRetries
                      && l.lastAttemptAt.Some?
                      && now - l.lastAttemptAt.value >= RetryIntervalMs)
  {
    && (l.status == Pending || l.status == Failed)
    && l.attemptCount < MaxRetries
    && ((localHour == DeliveryHour && l.status == Pending)
        || (l.status == Failed && l.lastAttemptAt.Some?
            && now - l.lastAttemptAt.value >= RetryIntervalMs))
  }

  /** The table after one user's turn, and the email call made, if any. */
  datatype Step = Step(logs: seq<MessageLog>, send: Option<Dispatch>)

  /** The table after a pass, and per user (or per record) the email call
      made for it, if any. */
  datatype Pass = Pass(logs: seq<MessageLog>, sends: seq<Option<Dispatch>>)

  /** One iteration of the hourly pass for user `u`; `reply` is what the
      email API answers if a message is posted. */
  function ProcessUser(logs: seq<MessageLog>, u: User, z: Zones, now: Instant, reply: Reply): (r: Step)
    requires IdsMatch(logs)
    ensures IdsMatch(r.logs) && |logs| <= |r.logs| <= |logs| + 1
    ensures forall i :: 0 <= i < |logs| ==> r.logs[i].key == logs[i].key
    ensures !IsBirthdayToday(z, u, now) ==> r == Step(logs, None)
    ensures IsBirthdayToday(z, u, now) ==>
              var found := FindOrCreate(logs, StoredKey(z, u));
              && (r.send.Some? <==> ShouldAttemptNow(found.log, LocalHour(z, u, now), now))
              && (r.send.Some? ==> r.send.value == Dispatch(FullName(u), u.email, found.log.id)
                                   && r.logs == found.logs[found.log.id := AfterSend(found.log, now, reply)])
              && (r.send.None? ==> r.logs == found.logs)
  {
    if !IsBirthdayToday(z, u, now) then Step(logs, None)
    else
      var found := FindOrCreate(logs, StoredKey(z, u));
      var log := found.log;
      if ShouldAttemptNow(log, LocalHour(z, u, now), now) then
        Step(found.logs[log.id := AfterSend(log, now, reply)], Some(Dispatch(FullName(u), u.email, log.id)))
      else
        Step(found.logs, None)
  }

  /** The hourly pass over `users`, in order; the email API's answer to the
      call made for `users[i]` is `replies(i)`. */
  function Tick(logs: seq<MessageLog>, users: seq<User>, z: Zones, now: Instant, replies: nat -> Reply): (r: Pass)
    requires IdsMatch(logs)
    decreases |users|
    ensures IdsMatch(r.logs) && |logs| <= |r.logs| && |r.sends| == |users|
    ensures forall i :: 0 <= i < |logs| ==> r.logs[i].key == logs[i].key
    ensures forall i :: 0 <= i < |users| && r.sends[i].Some? ==>
              && IsBirthdayToday(z, users[i], now)
              && r.sends[i].value.fullName == FullName(users[i])
              && r.sends[i].value.userEmail == users[i].email
  {
    if users == [] then Pass(logs, [])
    else
      var n := |users| - 1;
      var before := Tick(logs, users[..n], z, now, replies);
      var step := ProcessUser(before.logs, users[n], z, now, replies(n));
      Pass(step.logs, before.sends + [step.send])
  }

  /** The post made for one entry of a pass: none when no call was made. */
  function PostsOfCall(baseUrl: string, send: Option<Dispatch>): seq<Post> {
    match send
    case Some(d) => [PostOf(baseUrl, d)]
    case None => []
  }

  /** The posts the email service makes for the calls `sends`, in order. */
  function PostsOf(baseUrl: string, sends: seq<Option<Dispatch>>): seq<Post> {
    if sends == [] then []
    else PostsOf(baseUrl, sends[..|sends| - 1]) + PostsOfCall(baseUrl, sends[|sends| - 1])
  }

  lemma PostsOfSnoc(baseUrl: string, sends: seq<Option<Dispatch>>, send: Option<Dispatch>)
    ensures PostsOf(baseUrl, sends + [send]) == PostsOf(baseUrl, sends) + PostsOfCall(baseUrl, send)
  {
    assert (sends + [send])[..|sends|] == sends;
  }

  /** Unfolds `Tick` by one user, with the posts its calls make. */
  lemma TickSnoc(baseUrl: string, posted: seq<Post>, logs: seq<MessageLog>, users: seq<User>, i: nat, z: Zones, now: Instant,
                 replies: nat -> Reply)
    requires IdsMatch(logs) && i < |users|
    ensures var before := Tick(logs, users[..i], z, now, replies);
            var step := ProcessUser(before.logs, users[i], z, now, replies(i));
            var after := Tick(logs, users[..i + 1], z, now, replies);
            && after.logs == step.logs
            && posted + PostsOf(baseUrl, after.sends) == posted + PostsOf(baseUrl, before.sends) + PostsOfCall(baseUrl, step.send)
  {
    assert users[..i + 1][..i] == users[..i];
    var before := Tick(logs, users[..i], z, now, replies);
    var step := ProcessUser(before.logs, users[i], z, now, replies(i));
    PostsOfSnoc(baseUrl, before.sends, step.send);
  }

  /** `now.getFullYear()`: the year in the process's own zone. */
  function CurrentYear(z: Zones, now: Instant): int {
    z.host(now).year
  }

  /** The `where` clause of the recovery query. */
  predicate IsOutstanding(l: MessageLog, currentYear: int, now: Instant)
    ensures IsOutstanding(l, currentYear, now) ==> l.key.year == currentYear && l.status != Sent
    ensures l.key.year == currentYear && l.status == Pending ==> IsOutstanding(l, currentYear, now)
  {
    && l.key.year == currentYear
    && (|| l.status == Pending
        || (&& l.status == Failed
            && l.attemptCount < MaxRetries
            && l.lastAttemptAt.Some?
            && l.lastAttemptAt.value <= now - RetryIntervalMs))
  }

  /** The records the recovery query returns, in table order. */
  function Outstanding(logs: seq<MessageLog>, currentYear: int, now: Instant): (r: seq<MessageLog>)
    requires IdsMatch(logs)
    ensures forall l :: l in r <==> l in logs && IsOutstanding(l, currentYear, now)
    ensures forall k :: 0 <= k < |r| ==> r[k].status != Sent && r[k].key.year == currentYear
    ensures forall k :: 0 <= k < |r| ==> r[k].id < |logs| && logs[r[k].id] == r[k]
    ensures forall a, b :: 0 <= a < b < |r| ==> r[a].id < r[b].id
  {
    if logs == [] then []
    else
      var n := |logs| - 1;
      assert forall l :: l in logs <==> l in logs[..n] || l == logs[n];
      Outstanding(logs[..n], currentYear, now)
        + (if IsOutstanding(logs[n], currentYear, now) then [logs[n]] else [])
  }

  /** Some user has id `id`. */
  predicate HasUser(users: seq<User>, id: string) {
    exists u :: u in users && u.id == id
  }

  /** The user `include: { user: true }` joins to a record. */
  function UserOf(users: seq<User>, id: string): (u: User)
    requires HasUser(users, id)
    ensures u in users && u.id == id
  {
    if users[0].id == id then users[0]
    else
      assert forall v :: v in users && v != users[0] ==> v in users[1..];
      UserOf(users[1..], id)
  }

  /** A row of the recovery query's result: a record and the user
      `include: { user: true }` joins to it. */
  datatype Joined = Joined(log: MessageLog, user: User)

  /** The records `selected`, each with its user joined. */
  function Join(selected: seq<MessageLog>, users: seq<User>): (r: seq<Joined>)
    requires forall k :: 0 <= k < |selected| ==> HasUser(users, selected[k].key.userId)
    ensures |r| == |selected|
    ensures forall k :: 0 <= k < |r| ==> r[k].log == selected[k] && r[k].user == UserOf(users, selected[k].key.userId)
  {
    if selected == [] then []
    else
      var n := |selected| - 1;
      Join(selected[..n], users) + [Joined(selected[n], UserOf(users, selected[n].key.userId))]
  }

  /** The recovery pass's decision to send for a selected record `l` of
      user `u`: the birthday is today in the user's zone, the record's year
      is the local year, and the local hour is the delivery hour. */
  predicate RecoveryDue(z: Zones, l: MessageLog, u: User, now: Instant)
    ensures RecoveryDue(z, l, u, now) <==>
              && IsBirthdayToday(z, u, now)
              && LocalHour(z, u, now) == DeliveryHour
              && l.key.year == z.luxon(now, u.location).value.year
  {
    var stored := z.luxon(u.birthday, u.location);
    var nowLocal := z.luxon(now, u.location);
    && stored.Some? && nowLocal.Some?
    && stored.value.month == nowLocal.value.month
    && stored.value.day == nowLocal.value.day
    && l.key.year == nowLocal.value.year
    && nowLocal.value.hour == DeliveryHour
  }

  /** One iteration of the recovery loop, for the selected row `j`. */
  function RecoverStep(logs: seq<MessageLog>, j: Joined, z: Zones, now: Instant, reply: Reply): (r: Step)
    requires j.log.id < |logs|
    ensures |r.logs| == |logs|
    ensures forall i :: 0 <= i < |logs| ==> r.logs[i].id == logs[i].id && r.logs[i].key == logs[i].key
    ensures r.send.Some? <==> RecoveryDue(z, j.log, j.user, now)
    ensures r.send.Some? ==> && r.send.value == Dispatch(FullName(j.user), j.user.email, j.log.id)
                             && r.logs == logs[j.log.id := AfterSend(logs[j.log.id], now, reply)]
    ensures r.send.None? ==> r.logs == logs
  {
    if RecoveryDue(z, j.log, j.user, now) then
      Step(logs[j.log.id := AfterSend(logs[j.log.id], now, reply)],
           Some(Dispatch(FullName(j.user), j.user.email, j.log.id)))
    else
      Step(logs, None)
  }

  /** The recovery loop over the first `n` selected rows, in order; the
      email API's answer to the call made for `selected[k]` is `replies(k)`. */
  function RecoverEach(logs: seq<MessageLog>, selected: seq<Joined>, n: int,
                       z: Zones, now: Instant, replies: nat -> Reply): (r: Pass)
    requires 0 <= n <= |selected|
    requires forall k :: 0 <= k < |selected| ==> selected[k].log.id < |logs|
    decreases n
    ensures |r.logs| == |logs| && |r.sends| == n
    ensures forall i :: 0 <= i < |logs| ==> r.logs[i].id == logs[i].id && r.logs[i].key == logs[i].key
    ensures forall k :: 0 <= k < n ==>
              && (r.sends[k].Some? <==> RecoveryDue(z, selected[k].log, selected[k].user, now))
              && (r.sends[k].Some? ==>
                    r.sends[k].value == Dispatch(FullName(selected[k].user), selected[k].user.email, selected[k].log.id))
  {
    if n == 0 then Pass(logs, [])
    else
      var before := RecoverEach(logs, selected, n - 1, z, now, replies);
      var step := RecoverStep(before.logs, selected[n - 1], z, now, replies(n - 1));
      Pass(step.logs, before.sends + [step.send])
  }

  /** Unfolds `RecoverEach` by one row, with the posts its calls make. */
  lemma RecoverEachSnoc(baseUrl: string, posted: seq<Post>, logs: seq<MessageLog>, selected: seq<Joined>, k: nat,
                        z: Zones, now: Instant, replies: nat -> Reply)
    requires forall j :: 0 <= j < |selected| ==> selected[j].log.id < |logs|
    requires k < |selected|
    ensures var before := RecoverEach(logs, selected, k, z, now, replies);
            var step := RecoverStep(before.logs, selected[k], z, now, replies(k));
            var after := RecoverEach(logs, selected, k + 1, z, now, replies);
            && after.logs == step.logs
            && posted + PostsOf(baseUrl, after.sends) == posted + PostsOf(baseUrl, before.sends) + PostsOfCall(baseUrl, step.send)
  {
    var before := RecoverEach(logs, selected, k, z, now, replies);
    var step := RecoverStep(before.logs, selected[k], z, now, replies(k));
    PostsOfSnoc(baseUrl, before.sends, step.send);
  }

  /** Every record belongs to one of `users` (the table's foreign key). */
  predicate LogsHaveUsers(logs: seq<MessageLog>, users: seq<User>) {
    forall l :: l in logs ==> HasUser(users, l.key.userId)
  }

  /** The rows the recovery query returns: the outstanding records of the
      current year, each with its user. */
  function RecoveryQuery(logs: seq<MessageLog>, users: seq<User>, currentYear: int, now: Instant): (r: seq<Joined>)
    requires IdsMatch(logs) && LogsHaveUsers(logs, users)
    ensures forall k :: 0 <= k < |r| ==> r[k].log.id < |logs| && logs[r[k].log.id] == r[k].log
    ensures forall k :: 0 <= k < |r| ==> r[k].user in users && r[k].user.id == r[k].log.key.userId
    ensures forall k :: 0 <= k < |r| ==> IsOutstanding(r[k].log, currentYear, now)
    ensures forall l :: l in logs && IsOutstanding(l, currentYear, now) ==> exists k :: 0 <= k < |r| && r[k].log == l
    ensures forall a, b :: 0 <= a < b < |r| ==> r[a].log.id < r[b].log.id
  {
    var selected := Outstanding(logs, currentYear, now);
    assert forall k :: 0 <= k < |selected| ==> selected[k] in selected && selected[k] in logs;
    var r := Join(selected, users);
    assert forall l :: l in selected ==> exists k :: 0 <= k < |selected| && selected[k] == l;
    r
  }

  /** The recovery pass: the query, then the loop over its rows. */
  function Recover(logs: seq<MessageLog>, users: seq<User>, z: Zones, now: Instant, replies: nat -> Reply): (r: Pass)
    requires IdsMatch(logs) && LogsHaveUsers(logs, users)
    ensures IdsMatch(r.logs) && |r.logs| == |logs|
    ensures forall i :: 0 <= i < |logs| ==> r.logs[i].key == logs[i].key
    ensures |r.sends| == |RecoveryQuery(logs, users, CurrentYear(z, now), now)|
  {
    var selected := RecoveryQuery(logs, users, CurrentYear(z, now), now);
    RecoverEach(logs, selected, |selected|, z, now, replies)
  }

  class BirthdayService {
    const prisma: MessageLogTable
    const emailService: EmailService

    constructor (prisma: MessageLogTable, emailService: EmailService)
      ensures this.prisma == prisma && this.emailService == emailService
    {
      this.prisma := prisma;
      this.emailService := emailService;
    }

    /** `processBirthdayMessages()` over the user rows `users` at `now`. */
    method ProcessBirthdayMessages(users: seq<User>, z: Zones, now: Instant, replies: nat -> Reply)
      requires prisma.Valid() && emailService.prisma == prisma
      modifies prisma, emailService
      ensures prisma.Valid()
      ensures prisma.logs == Tick(old(prisma.logs), users, z, now, replies).logs
      ensures emailService.posted
              == old(emailService.posted) + PostsOf(emailService.baseUrl, Tick(old(prisma.logs), users, z, now, replies).sends)
    {
      ghost var logs0, posted0 := prisma.logs, emailService.posted;
      for i := 0 to |users|
        invariant prisma.Valid()
        invariant prisma.logs == Tick(logs0, users[..i], z, now, replies).logs
        invariant emailService.posted == posted0 + PostsOf(emailService.baseUrl, Tick(logs0, users[..i], z, now, replies).sends)
      {
        TickSnoc(emailService.baseUrl, posted0, logs0, users, i, z, now, replies);
        ProcessUserTurn(users[i], z, now, replies(i));
      }
      assert users[..|users|] == users;
    }

    /** One iteration of the hourly loop, for `user`. */
    method ProcessUserTurn(user: User, z: Zones, now: Instant, reply: Reply)
      requires prisma.Valid() && emailService.prisma == prisma
      modifies prisma, emailService
      ensures prisma.Valid()
      ensures prisma.logs == ProcessUser(old(prisma.logs), user, z, now, reply).logs
      ensures emailService.posted
              == old(emailService.posted) + PostsOfCall(emailService.baseUrl, ProcessUser(old(prisma.logs), user, z, now, reply).send)
    {
      var nowInUserTimezone := z.luxon(now, user.location);
      var storedBirthdayInUserTimezone := z.luxon(user.birthday, user.location);
      var userEmail := user.email;
      if && nowInUserTimezone.Some? && storedBirthdayInUserTimezone.Some?
         && storedBirthdayInUserTimezone.value.month == nowInUserTimezone.value.month
         && storedBirthdayInUserTimezone.value.day == nowInUserTimezone.value.day
      {
        var stored := storedBirthdayInUserTimezone.value;
        var key := LogKey(user.id, stored.month, stored.day, stored.year);
        var messageLog := prisma.FindFirst(key);
        if messageLog.None? {
          var created := prisma.Create(key);
          messageLog := Some(created);
        }
        var log := messageLog.value;
        if ShouldAttemptNow(log, nowInUserTimezone.value.hour, now) {
          var fullName := user.firstName + " " + user.lastName;
          var _ := emailService.SendBirthdayEmail(fullName, userEmail, log.id, now, reply);
        }
      }
    }

    /** The recovery query: the outstanding records of `currentYear`. */
    method SelectOutstanding(currentYear: int, now: Instant) returns (r: seq<MessageLog>)
      requires prisma.Valid()
      ensures r == Outstanding(prisma.logs, currentYear, now)
    {
      r := [];
      for i := 0 to |prisma.logs|
        invariant r == Outstanding(prisma.logs[..i], currentYear, now)
      {
        assert prisma.logs[..i + 1][..i] == prisma.logs[..i];
        if IsOutstanding(prisma.logs[i], currentYear, now) {
          r := r + [prisma.logs[i]];
        }
      }
      assert prisma.logs[..|prisma.logs|] == prisma.logs;
    }

    /** `recoverUnsentMessages()` at `now`; `users` are the user rows the
        query joins the records to. */
    method RecoverUnsentMessages(users: seq<User>, z: Zones, now: Instant, replies: nat -> Reply)
      requires prisma.Valid() && emailService.prisma == prisma && LogsHaveUsers(prisma.logs, users)
      modifies prisma, emailService
      ensures prisma.Valid()
      ensures prisma.logs == Recover(old(prisma.logs), users, z, now, replies).logs
      ensures emailService.posted
              == old(emailService.posted) + PostsOf(emailService.baseUrl, Recover(old(prisma.logs), users, z, now, replies).sends)
    {
      var currentYear := CurrentYear(z, now);
      var outstanding := SelectOutstanding(currentYear, now);
      assert forall k :: 0 <= k < |outstanding| ==> outstanding[k] in prisma.logs;
      var messagesToRecover := Join(outstanding, users);
      RecoverSelected(messagesToRecover, z, now, replies);
    }

    /** The loop of `recoverUnsentMessages` over the query's rows `selected`. */
    method RecoverSelected(selected: seq<Joined>, z: Zones, now: Instant, replies: nat -> Reply)
      requires prisma.Valid() && emailService.prisma == prisma
      requires forall k :: 0 <= k < |selected| ==> selected[k].log.id < |prisma.logs|
      modifies prisma, emailService
      ensures prisma.Valid()
      ensures prisma.logs == RecoverEach(old(prisma.logs), selected, |selected|, z, now, replies).logs
      ensures emailService.posted
              == old(emailService.posted) + PostsOf(emailService.baseUrl, RecoverEach(old(prisma.logs), selected, |selected|, z, now, replies).sends)
    {
      ghost var logs0, posted0 := prisma.logs, emailService.posted;
      for k := 0 to |selected|
        invariant prisma.Valid() && |prisma.logs| == |logs0|
        invariant prisma.logs == RecoverEach(logs0, selected, k, z, now, replies).logs
        invariant emailService.posted
                  == posted0 + PostsOf(emailService.baseUrl, RecoverEach(logs0, selected, k, z, now, replies).sends)
      {
        RecoverEachSnoc(emailService.baseUrl, posted0, logs0, selected, k, z, now, replies);
        RecoverLog(selected[k], z, now, replies(k));
      }
    }

    /** One iteration of the recovery loop, for the row `messageLog` (a
        record with its user). */
    method RecoverLog(messageLog: Joined, z: Zones, now: Instant, reply: Reply)
      requires prisma.Valid() && emailService.prisma == prisma
      requires messageLog.log.id < |prisma.logs|
      modifies prisma, emailService
      ensures prisma.Valid()
      ensures prisma.logs == RecoverStep(old(prisma.logs), messageLog, z, now, reply).logs
      ensures emailService.posted
              == old(emailService.posted) + PostsOfCall(emailService.baseUrl, RecoverStep(old(prisma.logs), messageLog, z, now, reply).send)
    {
      var user := messageLog.user;
      var storedBirthdayInUserTimezone := z.luxon(user.birthday, user.location);
      var nowInUserTimezone := z.luxon(now, user.location);
      var isCurrentBirthday :=
        && storedBirthdayInUserTimezone.Some? && nowInUserTimezone.Some?
        && storedBirthdayInUserTimezone.value.month == nowInUserTimezone.value.month
        && storedBirthdayInUserTimezone.value.day == nowInUserTimezone.value.day
        && messageLog.log.key.year == nowInUserTimezone.value.year;
      if isCurrentBirthday && nowInUserTimezone.value.hour == DeliveryHour {
        var _ := emailService.SendBirthdayEmail(user.firstName + " " + user.lastName, user.email,
                                                messageLog.log.id, now, reply);
      }
    }
  }
}
