/** The user service: the people the scheduler knows, the birthday filter
    over them, and how update and delete failures are reported. */
module Users {
  import opened Wrappers
  import opened TimeZones

  /** One row of the `user` table. */
  datatype User = User(
    id: string,
    firstName: string,
    lastName: string,
    email: string,
    birthday: Instant,
    location: string)

  /** `getZonedDate`: the instant shifted into `timezone`, or the instant
      itself when the conversion throws; the error never escapes. */
  function GetZonedDate(z: Zones, date: Instant, timezone: string): (r: Instant)
    ensures z.toZonedTime(date, timezone).None? ==> r == date
    ensures z.toZonedTime(date, timezone).Some? ==> r == z.toZonedTime(date, timezone).value
  {
    match z.toZonedTime(date, timezone)
    case Some(shifted) => shifted
    case None => date
  }

  /** The test `findBirthdayUsers` applies to one user: month, date and hour
      of `checkDate` in the user's zone against the month and date of the
      stored birthday in the same zone. */
  predicate IsBirthdayAt(z: Zones, u: User, checkDate: Instant, hour: int)
    ensures z.toZonedTime(checkDate, u.location).None? && z.toZonedTime(u.birthday, u.location).None? ==>
              (IsBirthdayAt(z, u, checkDate, hour) <==>
                 && z.host(checkDate).month == z.host(u.birthday).month
                 && z.host(checkDate).day == z.host(u.birthday).day
                 && z.host(checkDate).hour == hour)
  {
    var zoneNow := z.host(GetZonedDate(z, checkDate, u.location));
    var zoneBirthday := z.host(GetZonedDate(z, u.birthday, u.location));
    zoneNow.month == zoneBirthday.month && zoneNow.day == zoneBirthday.day && zoneNow.hour == hour
  }

  /** The users that pass the test, in table order. */
  function BirthdayUsers(z: Zones, users: seq<User>, checkDate: Instant, hour: int): seq<User> {
    if users == [] then []
    else
      var last := users[|users| - 1];
      BirthdayUsers(z, users[..|users| - 1], checkDate, hour)
        + (if IsBirthdayAt(z, last, checkDate, hour) then [last] else [])
  }

  /** A user is returned exactly when they are in the table and pass the test. */
  lemma {:induction false} BirthdayUsersMembers(z: Zones, users: seq<User>, checkDate: Instant, hour: int)
    ensures forall u :: u in BirthdayUsers(z, users, checkDate, hour) <==> u in users && IsBirthdayAt(z, u, checkDate, hour)
  {
    if users != [] {
      var init := users[..|users| - 1];
      BirthdayUsersMembers(z, init, checkDate, hour);
      assert users == init + [users[|users| - 1]];
    }
  }

  /** `s` is obtained from `t` by deleting elements: `idx` picks, in
      increasing order, the positions of `t` that are kept. */
  ghost predicate Picks<T>(s: seq<T>, t: seq<T>, idx: seq<nat>) {
    && |idx| == |s|
    && (forall k :: 0 <= k < |idx| ==> idx[k] < |t| && s[k] == t[idx[k]])
    && (forall k, m :: 0 <= k < m < |idx| ==> idx[k] < idx[m])
  }

  /** The result is a subsequence of the table: order is preserved. */
  lemma {:induction false} BirthdayUsersIsSubsequence(z: Zones, users: seq<User>, checkDate: Instant, hour: int)
    returns (idx: seq<nat>)
    ensures Picks(BirthdayUsers(z, users, checkDate, hour), users, idx)
  {
    if users == [] {
      idx := [];
    } else {
      var n := |users| - 1;
      idx := BirthdayUsersIsSubsequence(z, users[..n], checkDate, hour);
      if IsBirthdayAt(z, users[n], checkDate, hour) {
        idx := idx + [n];
      }
    }
  }

  /** `findBirthdayUsers(checkDate, hour)` over the rows `users`. */
  method FindBirthdayUsers(z: Zones, users: seq<User>, checkDate: Instant, hour: int)
    returns (birthdayUsers: seq<User>)
    ensures birthdayUsers == BirthdayUsers(z, users, checkDate, hour)
    ensures forall u :: u in birthdayUsers <==> u in users && IsBirthdayAt(z, u, checkDate, hour)
  {
    birthdayUsers := [];
    for i := 0 to |users|
      invariant birthdayUsers == BirthdayUsers(z, users[..i], checkDate, hour)
    {
      var user := users[i];
      var zoneNow := z.host(GetZonedDate(z, checkDate, user.location));
      var zoneBirthday := z.host(GetZonedDate(z, user.birthday, user.location));
      assert users[..i + 1][..i] == users[..i];
      if zoneNow.month == zoneBirthday.month && zoneNow.day == zoneBirthday.day && zoneNow.hour == hour {
        birthdayUsers := birthdayUsers + [user];
      }
    }
    assert users[..|users|] == users;
    BirthdayUsersMembers(z, users, checkDate, hour);
  }

  /** A failure thrown by Prisma, with its error `code`. */
  datatype PrismaError = PrismaError(code: string, message: string)

  /** What `update` and `remove` throw. */
  datatype UserError = NotFound(id: string) | Rethrown(cause: PrismaError)

  /** Prisma's code for "the record to update or delete does not exist". */
  const RecordNotFound := "P2025"

  /** The `catch` of `update` and `remove`: P2025 becomes NotFound for the
      requested id; any other error is rethrown unchanged. */
  function WriteError(id: string, e: PrismaError): (r: UserError)
    ensures r.NotFound? <==> e.code == RecordNotFound
    ensures r.NotFound? ==> r.id == id
    ensures r.Rethrown? ==> r.cause == e
  {
    if e.code == RecordNotFound then NotFound(id) else Rethrown(e)
  }

  /** `update(id, dto)`, given how the Prisma call ended. */
  function Update(id: string, outcome: Result<User, PrismaError>): (r: Result<User, UserError>)
    ensures outcome.Success? ==> r == Success(outcome.value)
    ensures outcome.Failure? ==> r.Failure? && r.error == WriteError(id, outcome.error)
  {
    match outcome
    case Success(u) => Success(u)
    case Failure(e) => Failure(WriteError(id, e))
  }

  /** `remove(id)`, given how the Prisma call ended. */
  function Remove(id: string, outcome: Result<(), PrismaError>): (r: Result<(), UserError>)
    ensures outcome.Success? ==> r.Success?
    ensures outcome.Failure? ==> r.Failure? && r.error == WriteError(id, outcome.error)
  {
    match outcome
    case Success(_) => Success(())
    case Failure(e) => Failure(WriteError(id, e))
  }
}
