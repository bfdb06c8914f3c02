/**
 * The dashboard queries of src/lib/dashboard-data.ts, each one SQL aggregate
 * over the tables of module Schema with NOW() passed in as `now`.
 */
module DashboardData {
  import opened Base
  import opened Schema
  import Text

  /** The fixed window of the summary's "active" count. */
  const ActiveWindowDays := 90

  // ---------------------------------------------------------------------
  // getDashboardSummary
  // ---------------------------------------------------------------------

  datatype DashboardSummary = DashboardSummary(
    activeUsers: int,
    inactiveUsers: int,
    totalUsers: int,
    activePercentage: string)

  /**
   * SELECT DISTINCT r.username FROM rm_users u JOIN radacct r ON u.username = r.username
   * WHERE r.acctstarttime >= DATE_SUB(NOW(), INTERVAL 90 DAY)
   */
  function ActiveUsernames(users: seq<RmUser>, sessions: seq<Session>, now: int): set<string>
  {
    set s | s in sessions && s.start >= DaysBefore(now, ActiveWindowDays)
                          && (exists u :: u in users && u.username == s.username) :: s.username
  }

  /**
   * active/total*100 in hundredths, rounded half up: the value `toFixed(2)`
   * prints, computed exactly.
   */
  function PercentHundredths(active: nat, total: nat): (h: nat)
    requires 0 < total
    ensures (2 * total) * h <= 20000 * active + total < (2 * total) * h + 2 * total
    ensures active <= total ==> h <= 10000
    ensures active == total ==> h == 10000
  {
    var n := 20000 * active + total;
    var q := 2 * total;
    DivBounds(n, q);
    var h := n / q;
    assert active <= total ==> h <= 10000 by {
      if active <= total && h > 10000 {
        MulMonotone(q, 10001, h);
        assert false;
      }
    }
    assert active == total ==> h >= 10000 by {
      if active == total && h < 10000 {
        MulMonotone(q, h, 9999);
        assert false;
      }
    }
    h
  }

  lemma DivBounds(n: int, q: int)
    requires q > 0
    ensures q * (n / q) <= n < q * (n / q) + q
  {
  }

  lemma MulMonotone(q: int, a: int, b: int)
    requires q >= 0 && a <= b
    ensures q * a <= q * b
  {
    assert q * b - q * a == q * (b - a);
  }

  /**
   * Hundredths as text with two decimals: 1234 is "12.34", 0 is "0.00". The
   * part before the '.' is the whole number without leading zeros, the two
   * digits after it the remainder.
   */
  function FormatHundredths(h: nat): (r: string)
    ensures |r| >= 4 && r[|r| - 3] == '.'
    ensures Text.IsDigits(r[..|r| - 3]) && Text.NoLeadingZero(r[..|r| - 3]) && Text.IsDigits(r[|r| - 2..])
    ensures 100 * Text.DigitsValue(r[..|r| - 3]) + Text.DigitsValue(r[|r| - 2..]) == h
  {
    var whole := Text.NatToString(h / 100);
    var frac := [Text.DigitChar(h % 100 / 10), Text.DigitChar(h % 100 % 10)];
    var r := whole + "." + frac;
    assert r[..|r| - 3] == whole && r[|r| - 2..] == frac;
    TwoDigitsValue(h % 100 / 10, h % 100 % 10);
    HundredthsSplit(h);
    r
  }

  lemma TwoDigitsValue(tens: nat, ones: nat)
    requires tens < 10 && ones < 10
    ensures var s := [Text.DigitChar(tens), Text.DigitChar(ones)];
      Text.IsDigits(s) && Text.DigitsValue(s) == 10 * tens + ones
  {
    var s := [Text.DigitChar(tens), Text.DigitChar(ones)];
    var first := s[..1];
    assert first == [s[0]] && first[..0] == [];
    assert Text.DigitsValue(first) == tens;
    assert Text.DigitsValue(s) == 10 * Text.DigitsValue(first) + ones;
  }

  lemma HundredthsSplit(h: nat)
    ensures 100 * (h / 100) + 10 * (h % 100 / 10) + h % 100 % 10 == h
  {
    var m := h % 100;
    assert h == 100 * (h / 100) + m;
    assert m == 10 * (m / 10) + m % 10;
  }

  function GetDashboardSummary(users: seq<RmUser>, sessions: seq<Session>, now: int): (r: DashboardSummary)
    ensures r.totalUsers == |users|
    ensures r.activeUsers == |ActiveUsernames(users, sessions, now)|
    ensures r.activeUsers + r.inactiveUsers == r.totalUsers
    ensures 0 <= r.activeUsers <= r.totalUsers && 0 <= r.inactiveUsers
    ensures r.totalUsers == 0 ==> r.activePercentage == "0.00"
    ensures r.totalUsers > 0 ==>
      r.activePercentage == FormatHundredths(PercentHundredths(r.activeUsers, r.totalUsers))
  {
    var total := |users|;
    var active := |ActiveUsernames(users, sessions, now)|;
    ActiveAtMostTotal(users, sessions, now);
    DashboardSummary(
      active,
      total - active,
      total,
      if total > 0 then FormatHundredths(PercentHundredths(active, total)) else "0.00")
  }

  /** Every active username is the username of some rm_users row. */
  lemma ActiveAtMostTotal(users: seq<RmUser>, sessions: seq<Session>, now: int)
    ensures |ActiveUsernames(users, sessions, now)| <= |users|
  {
    var names := set u | u in users :: u.username;
    var active := ActiveUsernames(users, sessions, now);
    assert active <= names by {
      forall n | n in active ensures n in names {
        var u :| u in users && u.username == n;
      }
    }
    UsernameCount(users);
    SubsetCardinality(active, names);
  }

  lemma NoUsersZeroPercent(sessions: seq<Session>, now: int)
    ensures GetDashboardSummary([], sessions, now).activePercentage == "0.00"
    ensures GetDashboardSummary([], sessions, now).activeUsers == 0
  {
  }

  // ---------------------------------------------------------------------
  // getLoginTrends
  // ---------------------------------------------------------------------

  datatype LoginTrend = LoginTrend(date: int, count: nat)

  /** WHERE acctstarttime >= DATE_SUB(NOW(), INTERVAL days DAY) */
  predicate StartsWithin(s: Session, now: int, days: int)
  {
    s.start >= DaysBefore(now, days)
  }

  function SessionsWithin(sessions: seq<Session>, now: int, days: int): (r: seq<Session>)
    ensures forall s :: s in r <==> s in sessions && StartsWithin(s, now, days)
  {
    Filter(sessions, (s: Session) => StartsWithin(s, now, days))
  }

  function StartDay(s: Session): int
  {
    Day(s.start)
  }

  /** The distinct usernames that started a session of the window on `date`. */
  function UsersStartingOn(window: seq<Session>, date: int): set<string>
  {
    set s | s in window && Day(s.start) == date :: s.username
  }

  function Trend(window: seq<Session>, date: int): LoginTrend
  {
    LoginTrend(date, |UsersStartingOn(window, date)|)
  }

  /**
   * GROUP BY date ORDER BY date ASC: one row per date on which some session
   * of the window started, ascending, counting distinct usernames.
   */
  function GetLoginTrends(sessions: seq<Session>, now: int, days: int): (r: seq<LoginTrend>)
    ensures forall i, j :: 0 <= i < j < |r| ==> r[i].date < r[j].date
    ensures forall i :: 0 <= i < |r| ==> r[i] == Trend(SessionsWithin(sessions, now, days), r[i].date)
  {
    var window := SessionsWithin(sessions, now, days);
    var dates := DistinctKeys(window, StartDay);
    seq(|dates|, i requires 0 <= i < |dates| => Trend(window, dates[i]))
  }

  /** Every reported date had a session start in the window, so its count is at least one. */
  lemma LoginTrendDatesSound(sessions: seq<Session>, now: int, days: int, i: int)
    requires 0 <= i < |GetLoginTrends(sessions, now, days)|
    ensures exists s :: s in sessions && StartsWithin(s, now, days) && Day(s.start) == GetLoginTrends(sessions, now, days)[i].date
    ensures GetLoginTrends(sessions, now, days)[i].count >= 1
  {
    var window := SessionsWithin(sessions, now, days);
    var dates := DistinctKeys(window, StartDay);
    var t := GetLoginTrends(sessions, now, days)[i];
    assert t == Trend(window, dates[i]);
    assert dates[i] in dates;
    var s :| s in window && StartDay(s) == dates[i];
    assert s.username in UsersStartingOn(window, dates[i]);
  }

  /** No date with a session start in the window is missing from the trend. */
  lemma LoginTrendDatesComplete(sessions: seq<Session>, now: int, days: int, s: Session)
    requires s in sessions && StartsWithin(s, now, days)
    ensures exists i :: 0 <= i < |GetLoginTrends(sessions, now, days)| && GetLoginTrends(sessions, now, days)[i].date == Day(s.start)
  {
    var window := SessionsWithin(sessions, now, days);
    var dates := DistinctKeys(window, StartDay);
    var r := GetLoginTrends(sessions, now, days);
    assert s in window && StartDay(s) == Day(s.start);
    assert Day(s.start) in dates;
    var i :| 0 <= i < |dates| && dates[i] == Day(s.start);
    assert r[i] == Trend(window, dates[i]);
  }

  // ---------------------------------------------------------------------
  // getDailyNetworkUsage
  // ---------------------------------------------------------------------

  /** One date's traffic; the GB conversion of the source is left out. */
  datatype DailyNetworkUsage = DailyNetworkUsage(date: int, downloadBytes: int, uploadBytes: int)

  function SumDownload(rows: seq<DailyAcct>): int
  {
    if rows == [] then 0 else rows[0].dlBytes + SumDownload(rows[1..])
  }

  function SumUpload(rows: seq<DailyAcct>): int
  {
    if rows == [] then 0 else rows[0].ulBytes + SumUpload(rows[1..])
  }

  /** SUM(dlbytes + ulbytes). */
  function SumTraffic(rows: seq<DailyAcct>): int
  {
    if rows == [] then 0 else rows[0].dlBytes + rows[0].ulBytes + SumTraffic(rows[1..])
  }

  /** The sum of per-row totals is the sum of downloads plus the sum of uploads. */
  lemma {:induction false} SumTrafficSplits(rows: seq<DailyAcct>)
    ensures SumTraffic(rows) == SumDownload(rows) + SumUpload(rows)
  {
    if rows != [] {
      SumTrafficSplits(rows[1..]);
    }
  }

  predicate DatedWithin(a: DailyAcct, now: int, days: int)
  {
    a.date >= DaysBefore(now, days)
  }

  function DailyWithin(daily: seq<DailyAcct>, now: int, days: int): (r: seq<DailyAcct>)
    ensures forall a :: a in r <==> a in daily && DatedWithin(a, now, days)
  {
    Filter(daily, (a: DailyAcct) => DatedWithin(a, now, days))
  }

  function AcctDay(a: DailyAcct): int
  {
    Day(a.date)
  }

  /** The rows of one date, in table order. */
  function RowsOn(window: seq<DailyAcct>, date: int): (r: seq<DailyAcct>)
    ensures forall a :: a in r <==> a in window && Day(a.date) == date
  {
    Filter(window, (a: DailyAcct) => Day(a.date) == date)
  }

  function Usage(window: seq<DailyAcct>, date: int): DailyNetworkUsage
  {
    var rows := RowsOn(window, date);
    DailyNetworkUsage(date, SumDownload(rows), SumUpload(rows))
  }

  /**
   * GROUP BY date ORDER BY date ASC over rm_dailyacct within the window:
   * per-date sums of downloaded and uploaded bytes.
   */
  function GetDailyNetworkUsage(daily: seq<DailyAcct>, now: int, days: int): (r: seq<DailyNetworkUsage>)
    ensures forall i, j :: 0 <= i < j < |r| ==> r[i].date < r[j].date
    ensures forall i :: 0 <= i < |r| ==> r[i] == Usage(DailyWithin(daily, now, days), r[i].date)
  {
    var window := DailyWithin(daily, now, days);
    var dates := DistinctKeys(window, AcctDay);
    seq(|dates|, i requires 0 <= i < |dates| => Usage(window, dates[i]))
  }

  /**
   * Sparse series: every entry sums at least one row of its date, and every
   * row of the window is summed into the entry of its date.
   */
  lemma DailyUsageDates(daily: seq<DailyAcct>, now: int, days: int)
    ensures forall i :: 0 <= i < |GetDailyNetworkUsage(daily, now, days)| ==>
      |RowsOn(DailyWithin(daily, now, days), GetDailyNetworkUsage(daily, now, days)[i].date)| >= 1
    ensures forall a :: a in daily && DatedWithin(a, now, days) ==>
      exists i :: 0 <= i < |GetDailyNetworkUsage(daily, now, days)| &&
        a in RowsOn(DailyWithin(daily, now, days), GetDailyNetworkUsage(daily, now, days)[i].date)
  {
    var window := DailyWithin(daily, now, days);
    var dates := DistinctKeys(window, AcctDay);
    var r := GetDailyNetworkUsage(daily, now, days);
    assert |r| == |dates| && forall i :: 0 <= i < |r| ==> r[i].date == dates[i];
    forall i | 0 <= i < |r|
      ensures |RowsOn(window, r[i].date)| >= 1
    {
      assert dates[i] in dates;
      var a :| a in window && AcctDay(a) == dates[i];
      assert a in RowsOn(window, dates[i]);
    }
    forall a | a in daily && DatedWithin(a, now, days)
      ensures exists i :: 0 <= i < |r| && a in RowsOn(window, r[i].date)
    {
      assert a in window && AcctDay(a) == Day(a.date);
      assert Day(a.date) in dates;
      var i :| 0 <= i < |dates| && dates[i] == Day(a.date);
      assert a in RowsOn(window, r[i].date);
    }
  }

  // ---------------------------------------------------------------------
  // getTopDataUsers
  // ---------------------------------------------------------------------

  /** One ranked user; byte totals over the whole rm_dailyacct history. */
  datatype TopDataUser = TopDataUser(
    username: string,
    firstname: Option<string>,
    lastname: Option<string>,
    totalDownload: int,
    totalUpload: int,
    totalUsage: int)

  function Usernames(daily: seq<DailyAcct>): (r: seq<string>)
    ensures forall n :: n in r <==> exists a :: a in daily && a.username == n
  {
    var r := seq(|daily|, i requires 0 <= i < |daily| => daily[i].username);
    assert forall a :: a in daily ==> a.username in r by {
      forall a | a in daily ensures a.username in r {
        var i :| 0 <= i < |daily| && daily[i] == a;
        assert r[i] == a.username;
      }
    }
    r
  }

  /** One user's rows of the whole history. */
  function RowsOf(daily: seq<DailyAcct>, name: string): (r: seq<DailyAcct>)
    ensures forall a :: a in r <==> a in daily && a.username == name
  {
    Filter(daily, (a: DailyAcct) => a.username == name)
  }

  function UsageOf(daily: seq<DailyAcct>, users: seq<RmUser>, name: string): (t: TopDataUser)
    ensures t.username == name
  {
    var p := FindUser(users, name);  // LEFT JOIN rm_users u ON d.username = u.username
    var rows := RowsOf(daily, name);
    TopDataUser(
      name,
      if p.Some? then p.value.firstname else None,
      if p.Some? then p.value.lastname else None,
      SumDownload(rows),
      SumUpload(rows),
      SumTraffic(rows))
  }

  function UsageKey(t: TopDataUser): int
  {
    t.totalUsage
  }

  function UsernameOf(t: TopDataUser): string
  {
    t.username
  }

  /** One usage row per distinct username, and one for each. */
  lemma UsagesCover(daily: seq<DailyAcct>, users: seq<RmUser>, names: seq<string>, g: seq<TopDataUser>)
    requires names == Distinct(Usernames(daily))
    requires |g| == |names| && forall i :: 0 <= i < |g| ==> g[i] == UsageOf(daily, users, names[i])
    ensures DistinctBy(g, UsernameOf)
    ensures forall t :: t in g ==> t.username in Usernames(daily) && t == UsageOf(daily, users, t.username)
    ensures forall n :: n in Usernames(daily) ==> UsageOf(daily, users, n) in g
  {
    assert forall i :: 0 <= i < |g| ==> g[i].username == names[i];
    forall n | n in Usernames(daily) ensures UsageOf(daily, users, n) in g {
      assert n in names;
      var i :| 0 <= i < |names| && names[i] == n;
      assert g[i] == UsageOf(daily, users, n);
    }
    forall t | t in g ensures t.username in Usernames(daily) {
      var i :| 0 <= i < |g| && g[i] == t;
      assert names[i] in names;
    }
  }

  /** GROUP BY d.username: one row per distinct username of rm_dailyacct. */
  function Grouped(daily: seq<DailyAcct>, users: seq<RmUser>): (g: seq<TopDataUser>)
    ensures |g| == |Distinct(Usernames(daily))|
    ensures DistinctBy(g, UsernameOf)
    ensures forall t :: t in g ==> t.username in Usernames(daily) && t == UsageOf(daily, users, t.username)
    ensures forall n :: n in Usernames(daily) ==> UsageOf(daily, users, n) in g
  {
    var names := Distinct(Usernames(daily));
    var g := seq(|names|, i requires 0 <= i < |names| => UsageOf(daily, users, names[i]));
    UsagesCover(daily, users, names, g);
    g
  }

  /** ORDER BY totalUsage DESC, before the LIMIT. */
  function Ranking(daily: seq<DailyAcct>, users: seq<RmUser>): (k: seq<TopDataUser>)
    ensures |k| == |Distinct(Usernames(daily))|
    ensures SortedDesc(k, UsageKey)
    ensures multiset(k) == multiset(Grouped(daily, users))
  {
    SortDesc(Grouped(daily, users), UsageKey)
  }

  /** ... LIMIT limit */
  function GetTopDataUsers(daily: seq<DailyAcct>, users: seq<RmUser>, limit: nat): (r: seq<TopDataUser>)
    ensures |r| <= limit
    ensures |r| == if limit < |Distinct(Usernames(daily))| then limit else |Distinct(Usernames(daily))|
    ensures SortedDesc(r, UsageKey)
    ensures forall i :: 0 <= i < |r| ==> r[i] == Ranking(daily, users)[i]
  {
    var k := Ranking(daily, users);
    if limit < |k| then k[..limit] else k
  }

  /**
   * Every row is the group of one username of rm_dailyacct, no username is
   * listed twice, and the usage is download plus upload over that user's
   * whole history.
   */
  lemma TopUserRows(daily: seq<DailyAcct>, users: seq<RmUser>, limit: nat)
    ensures DistinctBy(GetTopDataUsers(daily, users, limit), UsernameOf)
    ensures forall t :: t in GetTopDataUsers(daily, users, limit) ==>
      t.username in Usernames(daily) && t == UsageOf(daily, users, t.username) &&
      t.totalDownload == SumDownload(RowsOf(daily, t.username)) &&
      t.totalUpload == SumUpload(RowsOf(daily, t.username)) &&
      t.totalUsage == t.totalDownload + t.totalUpload
  {
    var g := Grouped(daily, users);
    var k := Ranking(daily, users);
    var r := GetTopDataUsers(daily, users, limit);
    DistinctBySubMultiset(g, k, UsernameOf);
    forall t | t in r
      ensures t in g
      ensures t.totalUsage == t.totalDownload + t.totalUpload
    {
      var i :| 0 <= i < |r| && r[i] == t;
      assert k[i] == t;
      assert t in multiset(k);
      SumTrafficSplits(RowsOf(daily, t.username));
    }
  }

  /**
   * The LEFT JOIN keeps usage rows without an identity row: such a user is
   * ranked like any other, with no first or last name.
   */
  lemma TopUserWithoutProfile(daily: seq<DailyAcct>, users: seq<RmUser>, limit: nat, t: TopDataUser)
    requires t in GetTopDataUsers(daily, users, limit)
    requires forall u :: u in users ==> u.username != t.username
    ensures t.firstname.None? && t.lastname.None?
  {
    TopUserRows(daily, users, limit);
  }

  /**
   * LIMIT keeps the heaviest users: a user who has usage rows but is not in
   * the result used no more than anyone in it.
   */
  lemma TopUsersAreTheHeaviest(daily: seq<DailyAcct>, users: seq<RmUser>, limit: nat, name: string)
    requires name in Usernames(daily)
    requires forall t :: t in GetTopDataUsers(daily, users, limit) ==> t.username != name
    ensures forall t :: t in GetTopDataUsers(daily, users, limit) ==>
      SumTraffic(RowsOf(daily, name)) <= t.totalUsage
  {
    var k := Ranking(daily, users);
    var r := GetTopDataUsers(daily, users, limit);
    var mine := UsageOf(daily, users, name);
    assert mine.totalUsage == SumTraffic(RowsOf(daily, name));
    assert mine in multiset(Grouped(daily, users));
    assert mine in multiset(k);
    var p :| 0 <= p < |k| && k[p] == mine;
    assert forall i :: 0 <= i < |r| ==> r[i] in r;
    assert |r| <= p;
    forall t | t in r ensures mine.totalUsage <= t.totalUsage {
      var i :| 0 <= i < |r| && r[i] == t;
      assert k[i] == t && i < p;
      assert UsageKey(k[i]) >= UsageKey(k[p]);
    }
  }

  /** With a large enough limit every user with usage rows is ranked. */
  lemma TopUsersComplete(daily: seq<DailyAcct>, users: seq<RmUser>, limit: nat, name: string)
    requires name in Usernames(daily)
    requires limit >= |Distinct(Usernames(daily))|
    ensures UsageOf(daily, users, name) in GetTopDataUsers(daily, users, limit)
  {
    var k := Ranking(daily, users);
    var mine := UsageOf(daily, users, name);
    assert mine in multiset(Grouped(daily, users));
    assert mine in multiset(k);
    assert GetTopDataUsers(daily, users, limit) == k;
  }

  // ---------------------------------------------------------------------
  // getInactiveUsers
  // ---------------------------------------------------------------------

  datatype InactiveUser = InactiveUser(
    username: string,
    firstname: Option<string>,
    lastname: Option<string>,
    company: Option<string>,
    lastLogin: Option<int>,
    daysInactive: Option<int>)

  /** One group of `rm_users LEFT JOIN radacct`: MAX(acctstarttime) and DATEDIFF(NOW(), ...). */
  function ActivityOf(sessions: seq<Session>, now: int, u: RmUser): (row: InactiveUser)
    ensures row.username == u.username
    ensures row.lastLogin == LastStart(sessions, u.username)
    ensures row.daysInactive.Some? <==> row.lastLogin.Some?
  {
    var last := LastStart(sessions, u.username);
    InactiveUser(u.username, u.firstname, u.lastname, u.company, last,
      if last.Some? then Some(DateDiff(now, last.value)) else None)
  }

  /** HAVING lastLogin < DATE_SUB(NOW(), INTERVAL threshold DAY) OR lastLogin IS NULL */
  predicate IsInactive(row: InactiveUser, now: int, threshold: int)
  {
    row.lastLogin.None? || row.lastLogin.value < DaysBefore(now, threshold)
  }

  function Activity(users: seq<RmUser>, sessions: seq<Session>, now: int): (r: seq<InactiveUser>)
    ensures |r| == |users|
    ensures forall i :: 0 <= i < |users| ==> r[i] == ActivityOf(sessions, now, users[i])
  {
    seq(|users|, i requires 0 <= i < |users| => ActivityOf(sessions, now, users[i]))
  }

  function Candidates(users: seq<RmUser>, sessions: seq<Session>, now: int, threshold: int): (c: seq<InactiveUser>)
    ensures forall x :: multiset(c)[x] == if IsInactive(x, now, threshold) then multiset(Activity(users, sessions, now))[x] else 0
  {
    var p := (row: InactiveUser) => IsInactive(row, now, threshold);
    FilterMultiset(Activity(users, sessions, now), p);
    Filter(Activity(users, sessions, now), p)
  }

  function DaysKey(row: InactiveUser): int
  {
    if row.daysInactive.Some? then row.daysInactive.value else 0
  }

  function Dated(rows: seq<InactiveUser>): (r: seq<InactiveUser>)
    ensures forall x :: multiset(r)[x] == if x.lastLogin.Some? then multiset(rows)[x] else 0
    ensures forall x :: x in r ==> x.lastLogin.Some?
  {
    var p := (row: InactiveUser) => row.lastLogin.Some?;
    FilterMultiset(rows, p);
    Filter(rows, p)
  }

  function NeverConnected(rows: seq<InactiveUser>): (r: seq<InactiveUser>)
    ensures forall x :: multiset(r)[x] == if x.lastLogin.None? then multiset(rows)[x] else 0
    ensures forall x :: x in r ==> x.lastLogin.None?
  {
    var p := (row: InactiveUser) => row.lastLogin.None?;
    FilterMultiset(rows, p);
    Filter(rows, p)
  }

  /**
   * ORDER BY daysInactive DESC: the rows with a last login, most days first,
   * then (NULL sorting lowest in MySQL) the accounts that never connected.
   */
  function GetInactiveUsers(users: seq<RmUser>, sessions: seq<Session>, now: int, threshold: int): (r: seq<InactiveUser>)
    ensures multiset(r) == multiset(Candidates(users, sessions, now, threshold))
    ensures forall i, j :: 0 <= i < j < |r| && r[j].lastLogin.Some? ==>
      r[i].lastLogin.Some? && DaysKey(r[i]) >= DaysKey(r[j])
  {
    var c := Candidates(users, sessions, now, threshold);
    var dated := SortDesc(Dated(c), DaysKey);
    var never := NeverConnected(c);
    OrderedByLastLogin(Dated(c), dated, never);
    PartitionMultiset(c, dated, never);
    dated + never
  }

  lemma OrderedByLastLogin(d: seq<InactiveUser>, dated: seq<InactiveUser>, never: seq<InactiveUser>)
    requires forall x :: x in d ==> x.lastLogin.Some?
    requires multiset(dated) == multiset(d) && SortedDesc(dated, DaysKey)
    requires forall x :: x in never ==> x.lastLogin.None?
    ensures forall i, j :: 0 <= i < j < |dated + never| && (dated + never)[j].lastLogin.Some? ==>
      (dated + never)[i].lastLogin.Some? && DaysKey((dated + never)[i]) >= DaysKey((dated + never)[j])
  {
    var r := dated + never;
    forall j | 0 <= j < |dated| ensures dated[j].lastLogin.Some? {
      assert dated[j] in multiset(d);
    }
    forall j | |dated| <= j < |r| ensures r[j].lastLogin.None? {
      assert r[j] == never[j - |dated|];
    }
  }

  lemma PartitionMultiset(c: seq<InactiveUser>, dated: seq<InactiveUser>, never: seq<InactiveUser>)
    requires multiset(dated) == multiset(Dated(c))
    requires never == NeverConnected(c)
    ensures multiset(dated + never) == multiset(c)
  {
    forall x ensures multiset(dated + never)[x] == multiset(c)[x] {
      assert multiset(dated + never)[x] == multiset(Dated(c))[x] + multiset(never)[x];
    }
  }

  lemma InCandidates(users: seq<RmUser>, sessions: seq<Session>, now: int, threshold: int, row: InactiveUser)
    ensures row in GetInactiveUsers(users, sessions, now, threshold) <==>
      IsInactive(row, now, threshold) && exists i :: 0 <= i < |users| && row == ActivityOf(sessions, now, users[i])
  {
    var r := GetInactiveUsers(users, sessions, now, threshold);
    var act := Activity(users, sessions, now);
    assert row in r <==> row in multiset(r);
    assert row in act <==> row in multiset(act);
  }

  /**
   * Exactly the inactive accounts are reported: an rm_users row appears iff
   * it has no session or all its sessions started before the cutoff.
   */
  lemma InactiveUsersExact(users: seq<RmUser>, sessions: seq<Session>, now: int, threshold: int)
    ensures forall u :: u in users ==>
      (ActivityOf(sessions, now, u) in GetInactiveUsers(users, sessions, now, threshold) <==>
        (forall s :: s in sessions ==> s.username != u.username) ||
        (forall s :: s in sessions && s.username == u.username ==> s.start < DaysBefore(now, threshold)))
  {
    forall u | u in users
      ensures ActivityOf(sessions, now, u) in GetInactiveUsers(users, sessions, now, threshold) <==>
        (forall s :: s in sessions ==> s.username != u.username) ||
        (forall s :: s in sessions && s.username == u.username ==> s.start < DaysBefore(now, threshold))
    {
      AccountReportedIffInactive(users, sessions, now, threshold, u);
      InactiveIffNoRecentSession(sessions, now, threshold, u);
    }
  }

  /** Every reported row is the activity row of some account, and that account is inactive. */
  lemma InactiveUsersSound(users: seq<RmUser>, sessions: seq<Session>, now: int, threshold: int)
    ensures forall row :: row in GetInactiveUsers(users, sessions, now, threshold) ==>
      exists u :: u in users && row == ActivityOf(sessions, now, u) && IsInactive(row, now, threshold)
  {
    forall row | row in GetInactiveUsers(users, sessions, now, threshold)
      ensures exists u :: u in users && row == ActivityOf(sessions, now, u) && IsInactive(row, now, threshold)
    {
      InCandidates(users, sessions, now, threshold, row);
      var i :| 0 <= i < |users| && row == ActivityOf(sessions, now, users[i]);
      assert users[i] in users;
    }
  }

  /** An account's row is reported exactly when the HAVING test holds for it. */
  lemma AccountReportedIffInactive(users: seq<RmUser>, sessions: seq<Session>, now: int, threshold: int, u: RmUser)
    requires u in users
    ensures ActivityOf(sessions, now, u) in GetInactiveUsers(users, sessions, now, threshold) <==>
      IsInactive(ActivityOf(sessions, now, u), now, threshold)
  {
    var i :| 0 <= i < |users| && users[i] == u;
    InCandidates(users, sessions, now, threshold, ActivityOf(sessions, now, u));
  }

  /** The HAVING test on MAX(acctstarttime), restated over the account's sessions. */
  lemma InactiveIffNoRecentSession(sessions: seq<Session>, now: int, threshold: int, u: RmUser)
    ensures IsInactive(ActivityOf(sessions, now, u), now, threshold) <==>
      (forall s :: s in sessions ==> s.username != u.username) ||
      (forall s :: s in sessions && s.username == u.username ==> s.start < DaysBefore(now, threshold))
  {
    var last := LastStart(sessions, u.username);
    if last.Some? {
      var w :| w in sessions && w.username == u.username && w.start == last.value;
    }
  }

  function InactiveName(row: InactiveUser): string
  {
    row.username
  }

  /** Each account is reported once, since usernames key rm_users. */
  lemma InactiveUsersOnce(users: seq<RmUser>, sessions: seq<Session>, now: int, threshold: int)
    requires KeyedByUsername(users)
    ensures DistinctBy(GetInactiveUsers(users, sessions, now, threshold), InactiveName)
  {
    var act := Activity(users, sessions, now);
    var c := Candidates(users, sessions, now, threshold);
    assert DistinctBy(act, InactiveName);
    assert multiset(c) <= multiset(act) by {
      forall x ensures multiset(c)[x] <= multiset(act)[x] {
      }
    }
    DistinctBySubMultiset(act, c, InactiveName);
    DistinctBySubMultiset(c, GetInactiveUsers(users, sessions, now, threshold), InactiveName);
  }

  /** A reported last login is at least `threshold` whole days old. */
  lemma InactiveDaysAtLeastThreshold(users: seq<RmUser>, sessions: seq<Session>, now: int, threshold: int)
    ensures forall row :: row in GetInactiveUsers(users, sessions, now, threshold) && row.daysInactive.Some? ==>
      row.daysInactive.value >= threshold
  {
    forall row | row in GetInactiveUsers(users, sessions, now, threshold) && row.daysInactive.Some?
      ensures row.daysInactive.value >= threshold
    {
      InCandidates(users, sessions, now, threshold, row);
      var i :| 0 <= i < |users| && row == ActivityOf(sessions, now, users[i]);
      StaleLoginDays(now, row.lastLogin.value, threshold);
    }
  }
}
