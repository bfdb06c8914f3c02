/**
 * The tables the analytics read, as rows, and the MySQL date arithmetic they
 * use. A timestamp is a number of seconds (UTC); a date is the day number of
 * a timestamp, which orders exactly as DATE_FORMAT(t, '%Y-%m-%d') text does.
 */
module Schema {
  import opened Base

  const SecondsPerDay := 86400

  /** The calendar day of a timestamp (DATE(t)). */
  function Day(t: int): int
  {
    t / SecondsPerDay
  }

  /** DATE_SUB(now, INTERVAL days DAY). */
  function DaysBefore(now: int, days: int): int
  {
    now - days * SecondsPerDay
  }

  /** DATEDIFF(a, b): whole calendar days from b to a. */
  function DateDiff(a: int, b: int): int
  {
    Day(a) - Day(b)
  }

  /**
   * A `radacct` accounting row. `stop` is None while the session is open.
   * Input octets are what the client sent (upload), output octets what it
   * received (download). NULL text columns are represented by ""; the start
   * time is always present.
   */
  datatype Session = Session(
    username: string,
    start: int,
    stop: Option<int>,
    inputOctets: nat,
    outputOctets: nat,
    framedIp: string,
    callingStationId: string,
    nasIp: string)

  /** An `rm_dailyacct` row: one user's bytes for one day; `date` is its acctstarttime column. */
  datatype DailyAcct = DailyAcct(username: string, date: int, dlBytes: nat, ulBytes: nat)

  /** An `rm_users` identity row; `srvid` references `rm_services`. */
  datatype RmUser = RmUser(
    username: string,
    firstname: Option<string>,
    lastname: Option<string>,
    company: Option<string>,
    srvid: int,
    createdOn: Option<int>)

  /** An `rm_services` plan row. */
  datatype RmService = RmService(srvid: int, srvname: Option<string>)

  /** `username` is the key of `rm_users`. */
  predicate KeyedByUsername(users: seq<RmUser>)
  {
    forall i, j :: 0 <= i < j < |users| ==> users[i].username != users[j].username
  }

  /** The first rm_users row with this username, if any (a lookup or LEFT JOIN on the key). */
  function FindUser(users: seq<RmUser>, name: string): (r: Option<RmUser>)
    ensures r.None? <==> forall u :: u in users ==> u.username != name
    ensures r.Some? ==> r.value in users && r.value.username == name
  {
    FindFirst(users, (u: RmUser) => u.username == name)
  }

  /** There are never more distinct usernames than rows. */
  lemma {:induction false} UsernameCount(users: seq<RmUser>)
    ensures |set u | u in users :: u.username| <= |users|
  {
    if users != [] {
      UsernameCount(users[1..]);
      var tail := set u | u in users[1..] :: u.username;
      var all := set u | u in users :: u.username;
      assert all == tail + {users[0].username} by {
        forall n | n in all ensures n in tail + {users[0].username} {
          var u :| u in users && u.username == n;
          if u != users[0] {
            assert u in users[1..];
          }
        }
        forall n | n in tail ensures n in all {
          var u :| u in users[1..] && u.username == n;
          assert u in users;
        }
      }
      if users[0].username in tail {
        assert all == tail;
      } else {
        assert |all| == |tail| + 1;
      }
    }
  }

  /** MAX(acctstarttime) over one user's sessions; None (NULL) when there are none. */
  function LastStart(sessions: seq<Session>, username: string): (r: Option<int>)
    ensures r.None? <==> forall s :: s in sessions ==> s.username != username
    ensures r.Some? ==> exists s :: s in sessions && s.username == username && s.start == r.value
    ensures r.Some? ==> forall s :: s in sessions && s.username == username ==> s.start <= r.value
  {
    if sessions == [] then None
    else
      var rest := LastStart(sessions[1..], username);
      assert sessions == [sessions[0]] + sessions[1..];
      if sessions[0].username != username then rest
      else if rest.Some? && rest.value > sessions[0].start then rest
      else Some(sessions[0].start)
  }

  /**
   * A last login strictly before `threshold` days ago is at least `threshold`
   * whole calendar days old: DATEDIFF(NOW(), t) >= threshold.
   */
  lemma StaleLoginDays(now: int, t: int, threshold: int)
    requires t < DaysBefore(now, threshold)
    ensures DateDiff(now, t) >= threshold
  {
    var shifted := t + threshold * SecondsPerDay;
    assert shifted < now;
    assert Day(shifted) == Day(t) + threshold by {
      assert shifted == (t / SecondsPerDay + threshold) * SecondsPerDay + t % SecondsPerDay;
    }
    assert Day(shifted) <= Day(now);
  }
}
