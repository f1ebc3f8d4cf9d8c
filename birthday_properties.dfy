/** Properties of the two scheduler passes: one record per occurrence, the
    record invariant both passes keep, SENT as a final state, at most one
    attempt per record per recovery pass, and the decision table the
    hourly pass follows. */
module BirthdayProperties {
  import opened Wrappers
  import opened TimeZones
  import opened MessageLogs
  import opened Email
  import opened Users
  import opened Birthday

  // ---------------------------------------------------------------------
  // One record per occurrence

  /** One user's turn keeps the keys unique, and afterwards a user whose
      birthday it is has a record under their key (exactly one, the keys
      being unique). */
  lemma ProcessUserKeepsKeysUnique(logs: seq<MessageLog>, u: User, z: Zones, now: Instant, reply: Reply)
    requires IdsMatch(logs) && UniqueKeys(logs)
    ensures UniqueKeys(ProcessUser(logs, u, z, now, reply).logs)
    ensures IsBirthdayToday(z, u, now) ==> HasKey(ProcessUser(logs, u, z, now, reply).logs, StoredKey(z, u))
  {
    if IsBirthdayToday(z, u, now) {
      var k := StoredKey(z, u);
      var found := FindOrCreate(logs, k);
      FindOrCreateLeavesOneRecord(logs, k);
      var r := ProcessUser(logs, u, z, now, reply);
      assert |r.logs| == |found.logs|;
      assert forall i :: 0 <= i < |r.logs| ==> r.logs[i].key == found.logs[i].key;
      assert r.logs[found.log.id].key == k;
    }
  }

  /** A record with key `k` is still there after the table grew and kept
      the keys of its old rows. */
  lemma HasKeyKept(logs: seq<MessageLog>, logs': seq<MessageLog>, k: LogKey)
    requires HasKey(logs, k)
    requires |logs| <= |logs'| && forall i :: 0 <= i < |logs| ==> logs'[i].key == logs[i].key
    ensures HasKey(logs', k)
  {
    var i :| 0 <= i < |logs| && logs[i].key == k;
    assert logs'[i].key == k;
  }

  /** After an hourly pass the keys are still unique, and every user whose
      birthday it is has exactly one record under their key. */
  lemma {:induction false} TickLeavesOneRecordPerBirthday(logs: seq<MessageLog>, users: seq<User>, z: Zones,
                                                           now: Instant, replies: nat -> Reply)
    requires IdsMatch(logs) && UniqueKeys(logs)
    ensures UniqueKeys(Tick(logs, users, z, now, replies).logs)
    ensures forall i :: 0 <= i < |users| && IsBirthdayToday(z, users[i], now) ==>
              HasKey(Tick(logs, users, z, now, replies).logs, StoredKey(z, users[i]))
  {
    if users != [] {
      var n := |users| - 1;
      TickLeavesOneRecordPerBirthday(logs, users[..n], z, now, replies);
      var before := Tick(logs, users[..n], z, now, replies);
      var step := ProcessUser(before.logs, users[n], z, now, replies(n));
      ProcessUserKeepsKeysUnique(before.logs, users[n], z, now, replies(n));
      forall i | 0 <= i < n && IsBirthdayToday(z, users[i], now)
        ensures HasKey(step.logs, StoredKey(z, users[i]))
      {
        assert users[..n][i] == users[i];
        HasKeyKept(before.logs, step.logs, StoredKey(z, users[i]));
      }
    }
  }

  // ---------------------------------------------------------------------
  // The record invariant

  /** What holds of every record either pass leaves behind: a PENDING record
      has never been attempted; a FAILED or SENT one has, at `lastAttemptAt`;
      a SENT one has `sentAt` and no error, a FAILED one an error and no
      `sentAt`; and no record has more than `MaxRetries` attempts. */
  predicate WellFormed(l: MessageLog) {
    && l.attemptCount <= MaxRetries
    && (l.status == Pending ==>
          l.attemptCount == 0 && l.lastAttemptAt.None? && l.sentAt.None? && l.errorMessage.None?)
    && (l.status == Failed ==>
          l.attemptCount >= 1 && l.lastAttemptAt.Some? && l.sentAt.None? && l.errorMessage.Some?)
    && (l.status == Sent ==>
          l.attemptCount >= 1 && l.lastAttemptAt.Some? && l.sentAt.Some? && l.errorMessage.None?)
  }

  predicate AllWellFormed(logs: seq<MessageLog>) {
    forall i :: 0 <= i < |logs| ==> WellFormed(logs[i])
  }

  /** A send on a well-formed PENDING or FAILED record below the cap gives a
      well-formed record. */
  lemma AfterSendWellFormed(l: MessageLog, now: Instant, reply: Reply)
    requires WellFormed(l) && l.status != Sent && l.attemptCount < MaxRetries
    ensures WellFormed(AfterSend(l, now, reply))
  {
  }

  lemma {:induction false} TickKeepsRecordsWellFormed(logs: seq<MessageLog>, users: seq<User>, z: Zones,
                                                       now: Instant, replies: nat -> Reply)
    requires IdsMatch(logs) && AllWellFormed(logs)
    ensures AllWellFormed(Tick(logs, users, z, now, replies).logs)
  {
    if users != [] {
      var n := |users| - 1;
      TickKeepsRecordsWellFormed(logs, users[..n], z, now, replies);
      var before := Tick(logs, users[..n], z, now, replies);
      if IsBirthdayToday(z, users[n], now) {
        var found := FindOrCreate(before.logs, StoredKey(z, users[n]));
        assert AllWellFormed(found.logs);
        if ShouldAttemptNow(found.log, LocalHour(z, users[n], now), now) {
          AfterSendWellFormed(found.log, now, replies(n));
        }
      }
    }
  }

  // ---------------------------------------------------------------------
  // The decision table

  /** The decisions of the delivery state machine. */
  datatype Decision = Send | Wait | Retry | GiveUp | Skip

  /** The delivery state machine as a table, an independent statement of when
      an attempt is due: PENDING sends at the delivery hour and waits
      otherwise; FAILED gives up at the cap, retries once the interval has
      passed since the last attempt, and waits before that; SENT is skipped. */
  function DecisionTable(l: MessageLog, localHour: int, now: Instant): Decision {
    match l.status
    case Pending => if localHour == DeliveryHour then Send else Wait
    case Failed =>
      if l.attemptCount >= MaxRetries then GiveUp
      else if l.lastAttemptAt.Some? && now - l.lastAttemptAt.value >= RetryIntervalMs then Retry
      else Wait
    case Sent => Skip
  }

  /** On a well-formed record the hourly pass attempts a send exactly when
      the table says SEND or RETRY. */
  lemma ShouldAttemptFollowsTable(l: MessageLog, localHour: int, now: Instant)
    requires WellFormed(l)
    ensures ShouldAttemptNow(l, localHour, now) <==> DecisionTable(l, localHour, now) in {Send, Retry}
  {
  }

  /** The retry examples: three attempts, the last 30 minutes ago, waits;
      90 minutes ago, retries; five attempts never retry. */
  lemma RetryExamples(l: MessageLog, hour: int, now: Instant)
    requires l.status == Failed
    ensures l.attemptCount == 3 && l.lastAttemptAt == Some(now - 30 * 60 * 1000) ==> !ShouldAttemptNow(l, hour, now)
    ensures l.attemptCount == 3 && l.lastAttemptAt == Some(now - 90 * 60 * 1000) ==> ShouldAttemptNow(l, hour, now)
    ensures l.attemptCount == MaxRetries ==> !ShouldAttemptNow(l, hour, now)
  {
  }

  // ---------------------------------------------------------------------
  // SENT is final, and the stored-year key makes it final for the user

  /** The hourly pass never changes a SENT record. */
  lemma {:induction false} TickKeepsSentRecords(logs: seq<MessageLog>, users: seq<User>, z: Zones,
                                                 now: Instant, replies: nat -> Reply)
    requires IdsMatch(logs)
    ensures forall i :: 0 <= i < |logs| && logs[i].status == Sent ==> Tick(logs, users, z, now, replies).logs[i] == logs[i]
  {
    if users != [] {
      var n := |users| - 1;
      TickKeepsSentRecords(logs, users[..n], z, now, replies);
    }
  }

  /** When the record under a user's key is SENT, or FAILED at the cap,
      the user's turn changes nothing and sends nothing, at any time. */
  lemma FinishedRecordBlocksUser(logs: seq<MessageLog>, u: User, z: Zones, now: Instant, reply: Reply)
    requires IdsMatch(logs) && z.luxon(u.birthday, u.location).Some?
    requires FirstWithKey(logs, StoredKey(z, u)).Some?
    requires var l := FirstWithKey(logs, StoredKey(z, u)).value;
             l.status == Sent || l.attemptCount >= MaxRetries
    ensures ProcessUser(logs, u, z, now, reply) == Step(logs, None)
  {
  }

  /** The user's message has been delivered: the record a turn of theirs
      finds, the first under their key, is SENT. */
  predicate MessageDelivered(logs: seq<MessageLog>, z: Zones, u: User) {
    && IdsMatch(logs) && z.luxon(u.birthday, u.location).Some?
    && FirstWithKey(logs, StoredKey(z, u)).Some?
    && FirstWithKey(logs, StoredKey(z, u)).value.status == Sent
  }

  /** The record key carries the stored birthday's year, not the current
      one, so a later turn for the same user, at any later time and in any
      later year, finds the same record again: once a message has been
      delivered, the user's next turn sends nothing, and the table records
      the delivery. */
  lemma OneMessagePerUser(logs: seq<MessageLog>, u: User, z: Zones, now: Instant, later: Instant, reply: Reply)
    requires IdsMatch(logs) && UniqueKeys(logs)
    requires ProcessUser(logs, u, z, now, Delivered).send.Some?
    ensures MessageDelivered(ProcessUser(logs, u, z, now, Delivered).logs, z, u)
    ensures var after := ProcessUser(logs, u, z, now, Delivered).logs;
            ProcessUser(after, u, z, later, reply) == Step(after, None)
  {
    var k := StoredKey(z, u);
    var found := FindOrCreate(logs, k);
    var after := ProcessUser(logs, u, z, now, Delivered).logs;
    ProcessUserKeepsKeysUnique(logs, u, z, now, Delivered);
    assert after[found.log.id].key == k && after[found.log.id].status == Sent;
    assert FirstWithKey(after, k).value.id == found.log.id;
    FinishedRecordBlocksUser(after, u, z, later, reply);
  }

  /** A table that kept the keys of its old rows, and the first record with
      key `k` itself, still has that record first under `k`. */
  lemma FirstWithKeyKept(logs: seq<MessageLog>, logs': seq<MessageLog>, k: LogKey)
    requires IdsMatch(logs) && IdsMatch(logs') && FirstWithKey(logs, k).Some?
    requires |logs| <= |logs'| && forall i :: 0 <= i < |logs| ==> logs'[i].key == logs[i].key
    requires logs'[FirstWithKey(logs, k).value.id] == logs[FirstWithKey(logs, k).value.id]
    ensures FirstWithKey(logs', k) == FirstWithKey(logs, k)
  {
    var i := FirstWithKey(logs, k).value.id;
    assert logs'[i].key == k;
    forall j | 0 <= j < i
      ensures logs'[j].key != k
    {
      assert logs'[j].key == logs[j].key;
    }
  }

  /** The hourly pass keeps a delivery recorded. */
  lemma TickKeepsDelivered(logs: seq<MessageLog>, users: seq<User>, z: Zones, now: Instant,
                           replies: nat -> Reply, u: User)
    requires MessageDelivered(logs, z, u)
    ensures MessageDelivered(Tick(logs, users, z, now, replies).logs, z, u)
  {
    TickKeepsSentRecords(logs, users, z, now, replies);
    FirstWithKeyKept(logs, Tick(logs, users, z, now, replies).logs, StoredKey(z, u));
  }

  /** The recovery pass changes only outstanding records, so it never
      changes a SENT one. */
  lemma RecoverKeepsSentRecords(logs: seq<MessageLog>, users: seq<User>, z: Zones, now: Instant,
                                replies: nat -> Reply)
    requires IdsMatch(logs) && LogsHaveUsers(logs, users)
    ensures forall i :: 0 <= i < |logs| && Recover(logs, users, z, now, replies).logs[i] != logs[i] ==>
              logs[i].status != Sent
  {
    forall i | 0 <= i < |logs| && Recover(logs, users, z, now, replies).logs[i] != logs[i]
      ensures logs[i].status != Sent
    {
      RecoveredRecord(logs, users, z, now, replies, i);
    }
  }

  /** The recovery pass keeps a delivery recorded. */
  lemma RecoverKeepsDelivered(logs: seq<MessageLog>, users: seq<User>, z: Zones, now: Instant,
                              replies: nat -> Reply, u: User)
    requires MessageDelivered(logs, z, u) && LogsHaveUsers(logs, users)
    ensures MessageDelivered(Recover(logs, users, z, now, replies).logs, z, u)
  {
    RecoverKeepsSentRecords(logs, users, z, now, replies);
    FirstWithKeyKept(logs, Recover(logs, users, z, now, replies).logs, StoredKey(z, u));
  }

  /** Once delivered, the user's turn sends nothing and changes nothing, at
      any time. */
  lemma DeliveredUserIsSkipped(logs: seq<MessageLog>, u: User, z: Zones, later: Instant, reply: Reply)
    requires MessageDelivered(logs, z, u)
    ensures ProcessUser(logs, u, z, later, reply) == Step(logs, None)
  {
    FinishedRecordBlocksUser(logs, u, z, later, reply);
  }

  /** After a delivery, an hourly pass over any users and then a recovery
      pass, the user's next turn still sends nothing. */
  lemma OneMessagePerUserAcrossPasses(logs: seq<MessageLog>, u: User, z: Zones, now: Instant,
                                      others: seq<User>, t: Instant, replies: nat -> Reply,
                                      users: seq<User>, t': Instant, replies': nat -> Reply,
                                      later: Instant, reply: Reply)
    requires IdsMatch(logs) && UniqueKeys(logs)
    requires ProcessUser(logs, u, z, now, Delivered).send.Some?
    requires LogsHaveUsers(Tick(ProcessUser(logs, u, z, now, Delivered).logs, others, z, t, replies).logs, users)
    ensures var ticked := Tick(ProcessUser(logs, u, z, now, Delivered).logs, others, z, t, replies).logs;
            var recovered := Recover(ticked, users, z, t', replies').logs;
            && ProcessUser(ticked, u, z, later, reply) == Step(ticked, None)
            && ProcessUser(recovered, u, z, later, reply) == Step(recovered, None)
  {
    var after := ProcessUser(logs, u, z, now, Delivered).logs;
    OneMessagePerUser(logs, u, z, now, later, reply);
    TickKeepsDelivered(after, others, z, t, replies, u);
    var ticked := Tick(after, others, z, t, replies).logs;
    RecoverKeepsDelivered(ticked, users, z, t', replies', u);
    DeliveredUserIsSkipped(ticked, u, z, later, reply);
    DeliveredUserIsSkipped(Recover(ticked, users, z, t', replies').logs, u, z, later, reply);
  }

  /** A user whose zone Luxon rejects is skipped by both passes: the pass
      goes on with the next user or record. */
  lemma UnsupportedZoneIsSkipped(logs: seq<MessageLog>, l: MessageLog, u: User, z: Zones, now: Instant, reply: Reply)
    requires IdsMatch(logs) && l.id < |logs|
    requires z.luxon(now, u.location).None? || z.luxon(u.birthday, u.location).None?
    ensures ProcessUser(logs, u, z, now, reply) == Step(logs, None)
    ensures RecoverStep(logs, Joined(l, u), z, now, reply) == Step(logs, None)
  {
  }

  // ---------------------------------------------------------------------
  // Recovery

  /** The inductive step of `RecoverEachTouchesEachRecordOnce` for record
      `i`: the pass over the first `n` selected rows, `before`, and the
      step for `selected[n]`, `step`, give `r`. */
  lemma TouchedOnceStep(logs: seq<MessageLog>, selected: seq<Joined>, n: int, before: Pass, step: Step, r: Pass,
                        now: Instant, replies: nat -> Reply, i: int)
    requires 0 <= n < |selected| && 0 <= i < |logs|
    requires && |before.sends| == n && |before.logs| == |logs| && |step.logs| == |logs|
             && selected[n].log.id < |logs|
             && (forall k :: 0 <= k < n ==> selected[k].log.id != selected[n].log.id)
    requires r.logs == step.logs && r.sends == before.sends + [step.send]
    requires step.send.Some? ==>
               step.logs == before.logs[selected[n].log.id := AfterSend(before.logs[selected[n].log.id], now, replies(n))]
    requires step.send.None? ==> step.logs == before.logs
    requires forall j :: 0 <= j < |logs| ==>
               || before.logs[j] == logs[j]
               || exists k :: 0 <= k < n && selected[k].log.id == j && before.sends[k].Some?
                              && before.logs[j] == AfterSend(logs[j], now, replies(k))
    ensures || r.logs[i] == logs[i]
            || exists k :: 0 <= k < n + 1 && selected[k].log.id == i && r.sends[k].Some?
                           && r.logs[i] == AfterSend(logs[i], now, replies(k))
  {
    if !(i == selected[n].log.id && step.send.Some?) && before.logs[i] != logs[i] {
      var k :| 0 <= k < n && selected[k].log.id == i && before.sends[k].Some?
               && before.logs[i] == AfterSend(logs[i], now, replies(k));
      assert r.sends[k] == before.sends[k];
    }
  }

  /** The records the loop over the first `n` rows changed, each holding
      the result of the one send made for its row. */
  ghost predicate TouchedOnce(logs: seq<MessageLog>, selected: seq<Joined>, n: int, r: Pass,
                              now: Instant, replies: nat -> Reply)
    requires 0 <= n <= |selected| && |r.logs| == |logs| && |r.sends| == n
  {
    forall i :: 0 <= i < |logs| ==>
      || r.logs[i] == logs[i]
      || exists k :: 0 <= k < n && selected[k].log.id == i && r.sends[k].Some?
                     && r.logs[i] == AfterSend(logs[i], now, replies(k))
  }

  /** From the loop over the first `m` rows to the loop over `m + 1`. */
  lemma TouchedOnceNext(logs: seq<MessageLog>, selected: seq<Joined>, m: int,
                        z: Zones, now: Instant, replies: nat -> Reply)
    requires 0 <= m < |selected|
    requires forall k :: 0 <= k < |selected| ==> selected[k].log.id < |logs|
    requires forall a, b :: 0 <= a < b < |selected| ==> selected[a].log.id < selected[b].log.id
    requires TouchedOnce(logs, selected, m, RecoverEach(logs, selected, m, z, now, replies), now, replies)
    ensures TouchedOnce(logs, selected, m + 1, RecoverEach(logs, selected, m + 1, z, now, replies), now, replies)
  {
    var before := RecoverEach(logs, selected, m, z, now, replies);
    var step := RecoverStep(before.logs, selected[m], z, now, replies(m));
    var r := RecoverEach(logs, selected, m + 1, z, now, replies);
    forall k | 0 <= k < m
      ensures selected[k].log.id != selected[m].log.id
    {
      assert selected[k].log.id < selected[m].log.id;
    }
    forall i | 0 <= i < |logs|
      ensures || r.logs[i] == logs[i]
              || exists k :: 0 <= k < m + 1 && selected[k].log.id == i && r.sends[k].Some?
                             && r.logs[i] == AfterSend(logs[i], now, replies(k))
    {
      TouchedOnceStep(logs, selected, m, before, step, r, now, replies, i);
    }
  }

  /** The recovery loop changes only the selected records, each at most
      once: a record is either unchanged, or it is the record of some
      `selected[k]` for which a call was made, and it holds the result of
      that one send. */
  lemma {:induction false} RecoverEachTouchesEachRecordOnce(logs: seq<MessageLog>, selected: seq<Joined>, n: int,
                                                             z: Zones, now: Instant, replies: nat -> Reply)
    requires 0 <= n <= |selected|
    requires forall k :: 0 <= k < |selected| ==> selected[k].log.id < |logs|
    requires forall a, b :: 0 <= a < b < |selected| ==> selected[a].log.id < selected[b].log.id
    ensures var r := RecoverEach(logs, selected, n, z, now, replies);
            forall i :: 0 <= i < |logs| ==>
              || r.logs[i] == logs[i]
              || exists k :: 0 <= k < n && selected[k].log.id == i && r.sends[k].Some?
                             && r.logs[i] == AfterSend(logs[i], now, replies(k))
  {
    if n > 0 {
      RecoverEachTouchesEachRecordOnce(logs, selected, n - 1, z, now, replies);
      TouchedOnceNext(logs, selected, n - 1, z, now, replies);
    }
  }

  /** A record changed by the loop over rows that each carry the
      table's current version of an outstanding record received exactly
      one more attempt, and was outstanding. */
  lemma RecoveredRow(logs: seq<MessageLog>, selected: seq<Joined>, currentYear: int, z: Zones, now: Instant,
                     replies: nat -> Reply, i: int)
    requires forall k :: 0 <= k < |selected| ==> selected[k].log.id < |logs| && logs[selected[k].log.id] == selected[k].log
    requires forall k :: 0 <= k < |selected| ==> IsOutstanding(selected[k].log, currentYear, now)
    requires forall a, b :: 0 <= a < b < |selected| ==> selected[a].log.id < selected[b].log.id
    requires 0 <= i < |logs| && RecoverEach(logs, selected, |selected|, z, now, replies).logs[i] != logs[i]
    ensures IsOutstanding(logs[i], currentYear, now)
    ensures var l := RecoverEach(logs, selected, |selected|, z, now, replies).logs[i];
            l.attemptCount == logs[i].attemptCount + 1 && (WellFormed(logs[i]) ==> WellFormed(l))
  {
    RecoverEachTouchesEachRecordOnce(logs, selected, |selected|, z, now, replies);
    var r := RecoverEach(logs, selected, |selected|, z, now, replies);
    var k :| 0 <= k < |selected| && selected[k].log.id == i && r.sends[k].Some?
             && r.logs[i] == AfterSend(logs[i], now, replies(k));
    if WellFormed(logs[i]) {
      AfterSendWellFormed(logs[i], now, replies(k));
    }
  }

  /** A record the recovery pass changed was selected by the query and
      received exactly one more attempt. */
  lemma RecoveredRecord(logs: seq<MessageLog>, users: seq<User>, z: Zones, now: Instant,
                        replies: nat -> Reply, i: int)
    requires IdsMatch(logs) && LogsHaveUsers(logs, users)
    requires 0 <= i < |logs| && Recover(logs, users, z, now, replies).logs[i] != logs[i]
    ensures IsOutstanding(logs[i], CurrentYear(z, now), now)
    ensures var l := Recover(logs, users, z, now, replies).logs[i];
            l.attemptCount == logs[i].attemptCount + 1 && (WellFormed(logs[i]) ==> WellFormed(l))
  {
    var selected := RecoveryQuery(logs, users, CurrentYear(z, now), now);
    RecoveredRow(logs, selected, CurrentYear(z, now), z, now, replies, i);
  }

  /** A recovery pass attempts each record at most once, only records the
      query selected, and never a SENT one; records stay well-formed, so the
      cap on attempts holds. */
  lemma RecoveryKeepsRecordsWellFormed(logs: seq<MessageLog>, users: seq<User>, z: Zones, now: Instant,
                                       replies: nat -> Reply)
    requires IdsMatch(logs) && LogsHaveUsers(logs, users) && AllWellFormed(logs)
    ensures AllWellFormed(Recover(logs, users, z, now, replies).logs)
    ensures forall i :: 0 <= i < |logs| ==>
              var l := Recover(logs, users, z, now, replies).logs[i];
              || l == logs[i]
              || (IsOutstanding(logs[i], CurrentYear(z, now), now) && l.attemptCount == logs[i].attemptCount + 1)
    ensures forall i :: 0 <= i < |logs| && logs[i].status == Sent ==> Recover(logs, users, z, now, replies).logs[i] == logs[i]
  {
    var r := Recover(logs, users, z, now, replies);
    forall i | 0 <= i < |logs| && r.logs[i] != logs[i]
      ensures IsOutstanding(logs[i], CurrentYear(z, now), now)
      ensures r.logs[i].attemptCount == logs[i].attemptCount + 1 && WellFormed(r.logs[i])
    {
      RecoveredRecord(logs, users, z, now, replies, i);
    }
  }

  /** Recovery creates no record and changes no key, so one record per
      occurrence survives it. */
  lemma RecoveryKeepsKeysUnique(logs: seq<MessageLog>, users: seq<User>, z: Zones, now: Instant,
                                replies: nat -> Reply)
    requires IdsMatch(logs) && LogsHaveUsers(logs, users) && UniqueKeys(logs)
    ensures UniqueKeys(Recover(logs, users, z, now, replies).logs)
  {
  }

  /** For a FAILED record of the year asked for, the recovery query's
      filter and the hourly pass's retry rule agree: the two write the
      interval test differently (`lastAttemptAt <= now - interval` against
      `now - lastAttemptAt >= interval`). */
  lemma RecoveryQueryMatchesRetryRule(l: MessageLog, localHour: int, now: Instant)
    requires l.status == Failed
    ensures IsOutstanding(l, l.key.year, now) <==> ShouldAttemptNow(l, localHour, now)
  {
  }

  /** Within one recovery pass no record receives two email calls. */
  lemma RecoveryCallsEachRecordOnce(logs: seq<MessageLog>, users: seq<User>, z: Zones, now: Instant,
                                    replies: nat -> Reply)
    requires IdsMatch(logs) && LogsHaveUsers(logs, users)
    ensures var r := Recover(logs, users, z, now, replies);
            forall a, b :: 0 <= a < b < |r.sends| && r.sends[a].Some? && r.sends[b].Some? ==>
              r.sends[a].value.messageLogId < r.sends[b].value.messageLogId
  {
  }

  // ---------------------------------------------------------------------
  // The unit test of the hourly pass

  /** A user whose birthday it is, at 9 in their zone, with no record yet:
      the pass creates record 0 as PENDING, calls the email service once
      with "Test User", the user's email and record 0, and leaves the record
      as the send's outcome says. */
  lemma FirstBirthdayAtNine(u: User, z: Zones, now: Instant, replies: nat -> Reply)
    requires u.firstName == "Test" && u.lastName == "User"
    requires z.luxon(now, u.location).Some? && z.luxon(u.birthday, u.location).Some?
    requires var n := z.luxon(now, u.location).value;
             var b := z.luxon(u.birthday, u.location).value;
             n.month == b.month && n.day == b.day && n.hour == DeliveryHour
    ensures var r := Tick([], [u], z, now, replies);
            && r.sends == [Some(Dispatch("Test User", u.email, 0))]
            && r.logs == [AfterSend(NewLog(0, StoredKey(z, u)), now, replies(0))]
  {
    assert [u][..0] == [];
    var k := StoredKey(z, u);
    assert !HasKey([], k);
    var found := FindOrCreate([], k);
    assert found.log == NewLog(0, k);
    assert ShouldAttemptNow(found.log, LocalHour(z, u, now), now);
    assert Tick([], [], z, now, replies) == Pass([], []);
    assert FullName(u) == "Test User";
  }
}
