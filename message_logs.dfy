/** The `messageLog` table: one delivery record per birthday occurrence,
    and the three store operations the services use on it (find the first
    record with a key, create a record, update a record by id). */
module MessageLogs {
  import opened Wrappers
  import opened TimeZones

  /** Delivery status of one occurrence. */
  datatype Status = Pending | Sent | Failed

  /** The columns `(userId, birthdayMonth, birthdayDay, birthdayYear)` that
      name the occurrence a record is for. */
  datatype LogKey = LogKey(userId: string, month: int, day: int, year: int)

  /** One row of the table. `None` stands for a `null` column. */
  datatype MessageLog = MessageLog(
    id: nat,
    key: LogKey,
    status: Status,
    lastAttemptAt: Option<Instant>,
    attemptCount: nat,
    sentAt: Option<Instant>,
    errorMessage: Option<string>)

  /** The row `create` inserts: the schema's defaults, status PENDING. */
  function NewLog(id: nat, key: LogKey): MessageLog {
    MessageLog(id, key, Pending, None, 0, None, None)
  }

  /** The `data` of one `messageLog.update` call. */
  datatype LogUpdate =
    | RecordAttempt(at: Instant)  // lastAttemptAt := at, attemptCount incremented
    | MarkSent(at: Instant)       // SENT, sentAt := at, errorMessage := null
    | MarkFailed(error: string)   // FAILED, errorMessage := error

  /** The row after `update`: only the columns named by the update change. */
  function Apply(l: MessageLog, u: LogUpdate): (r: MessageLog)
    ensures r.id == l.id && r.key == l.key
    ensures u.RecordAttempt? ==> r == l.(lastAttemptAt := Some(u.at), attemptCount := l.attemptCount + 1)
    ensures u.RecordAttempt? ==> r.status == l.status && r.sentAt == l.sentAt && r.errorMessage == l.errorMessage
    ensures u.MarkSent? ==> r.status == Sent && r.sentAt == Some(u.at) && r.errorMessage == None
    ensures u.MarkSent? ==> r.lastAttemptAt == l.lastAttemptAt && r.attemptCount == l.attemptCount
    ensures u.MarkFailed? ==> r.status == Failed && r.errorMessage == Some(u.error)
    ensures u.MarkFailed? ==> r.lastAttemptAt == l.lastAttemptAt && r.attemptCount == l.attemptCount && r.sentAt == l.sentAt
  {
    match u
    case RecordAttempt(at) => l.(lastAttemptAt := Some(at), attemptCount := l.attemptCount + 1)
    case MarkSent(at) => l.(status := Sent, sentAt := Some(at), errorMessage := None)
    case MarkFailed(e) => l.(status := Failed, errorMessage := Some(e))
  }

  /** Record ids are their positions in the table. */
  predicate IdsMatch(logs: seq<MessageLog>) {
    forall i :: 0 <= i < |logs| ==> logs[i].id == i
  }

  /** Some record of the table has key `k`. */
  predicate HasKey(logs: seq<MessageLog>, k: LogKey) {
    exists i :: 0 <= i < |logs| && logs[i].key == k
  }

  /** No two records share a key: the occurrence tuple identifies a record. */
  predicate UniqueKeys(logs: seq<MessageLog>) {
    forall i, j :: 0 <= i < |logs| && 0 <= j < |logs| && logs[i].key == logs[j].key ==> i == j
  }

  /** Position of the first record at or after `from` with key `k`. */
  function FirstFrom(logs: seq<MessageLog>, k: LogKey, from: nat): (r: Option<nat>)
    requires from <= |logs|
    decreases |logs| - from
    ensures r.Some? ==> from <= r.value < |logs| && logs[r.value].key == k
    ensures r.Some? ==> forall j :: from <= j < r.value ==> logs[j].key != k
    ensures r.None? <==> forall j :: from <= j < |logs| ==> logs[j].key != k
  {
    if from == |logs| then None
    else if logs[from].key == k then Some(from)
    else FirstFrom(logs, k, from + 1)
  }

  /** What `findFirst({ where: key })` returns: the first record with key
      `k`, or nothing when there is none. */
  function FirstWithKey(logs: seq<MessageLog>, k: LogKey): (r: Option<MessageLog>)
    requires IdsMatch(logs)
    ensures r.Some? <==> HasKey(logs, k)
    ensures r.Some? ==> r.value.id < |logs| && logs[r.value.id] == r.value && r.value.key == k
    ensures r.Some? ==> forall j :: 0 <= j < r.value.id ==> logs[j].key != k
  {
    match FirstFrom(logs, k, 0)
    case Some(i) => Some(logs[i])
    case None => None
  }

  /** A table together with the record a find-or-create step settled on. */
  datatype Found = Found(logs: seq<MessageLog>, log: MessageLog)

  /** Find the record with key `k`, creating a PENDING one when none exists. */
  function FindOrCreate(logs: seq<MessageLog>, k: LogKey): (r: Found)
    requires IdsMatch(logs)
    ensures IdsMatch(r.logs)
    ensures r.log.id < |r.logs| && r.logs[r.log.id] == r.log && r.log.key == k
    ensures HasKey(logs, k) ==> r.logs == logs && r.log == FirstWithKey(logs, k).value
    ensures !HasKey(logs, k) ==> r.logs == logs + [r.log] && r.log == NewLog(|logs|, k)
  {
    match FirstWithKey(logs, k)
    case Some(l) => Found(logs, l)
    case None => Found(logs + [NewLog(|logs|, k)], NewLog(|logs|, k))
  }

  /** After find-or-create on a table with unique keys, the keys are still
      unique and exactly one record (the one settled on) has key `k`. */
  lemma FindOrCreateLeavesOneRecord(logs: seq<MessageLog>, k: LogKey)
    requires IdsMatch(logs) && UniqueKeys(logs)
    ensures UniqueKeys(FindOrCreate(logs, k).logs)
    ensures forall i :: 0 <= i < |FindOrCreate(logs, k).logs| && FindOrCreate(logs, k).logs[i].key == k
              ==> i == FindOrCreate(logs, k).log.id
  {
    var r := FindOrCreate(logs, k);
    if !HasKey(logs, k) {
      forall i, j | 0 <= i < |r.logs| && 0 <= j < |r.logs| && r.logs[i].key == r.logs[j].key
        ensures i == j
      {
        if i < |logs| && j < |logs| {
          assert logs[i].key == logs[j].key;
        }
      }
    }
  }

  /** The record store behind `prisma.messageLog`. */
  class MessageLogTable {
    var logs: seq<MessageLog>

    ghost predicate Valid()
      reads this
    {
      IdsMatch(logs)
    }

    constructor ()
      ensures Valid() && logs == []
    {
      logs := [];
    }

    /** `findFirst({ where: { userId, birthdayMonth, birthdayDay, birthdayYear } })`. */
    method FindFirst(k: LogKey) returns (r: Option<MessageLog>)
      requires Valid()
      ensures r == FirstWithKey(logs, k)
    {
      var i := 0;
      while i < |logs|
        invariant 0 <= i <= |logs|
        invariant FirstFrom(logs, k, i) == FirstFrom(logs, k, 0)
      {
        if logs[i].key == k {
          return Some(logs[i]);
        }
        i := i + 1;
      }
      return None;
    }

    /** `create({ data: { ...key, status: "PENDING" } })`: appends a fresh row. */
    method Create(k: LogKey) returns (l: MessageLog)
      requires Valid()
      modifies this
      ensures Valid()
      ensures l == NewLog(|old(logs)|, k) && logs == old(logs) + [l]
    {
      l := NewLog(|logs|, k);
      logs := logs + [l];
    }

    /** `update({ where: { id }, data })`: changes that one row and returns
        it, or fails (Prisma's P2025) when no row has that id. */
    method Update(id: nat, data: LogUpdate) returns (r: Result<MessageLog, nat>)
      requires Valid()
      modifies this
      ensures Valid()
      ensures id < |old(logs)| ==> r == Success(Apply(old(logs)[id], data)) && logs == old(logs)[id := r.value]
      ensures id >= |old(logs)| ==> r == Failure(id) && logs == old(logs)
    {
      if id < |logs| {
        var l := Apply(logs[id], data);
        logs := logs[id := l];
        r := Success(l);
      } else {
        r := Failure(id);
      }
    }
  }
}
