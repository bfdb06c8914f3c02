/**
 * getOnlineUsersDetails (src/app/actions/get-online-users.ts): the radacct
 * rows whose stop time is NULL, latest start first, each mapped to one
 * detail record. NOW() is the parameter `now`.
 */
module OnlineUsers {
  import opened Base
  import opened Schema

  /**
   * One online session. Byte counts stay integers (the MB conversion is left
   * out); `sessionTime` is TIMEDIFF(NOW(), acctstarttime) in seconds, which
   * MySQL clamps to its TIME range.
   */
  datatype OnlineUserDetail = OnlineUserDetail(
    username: string,
    framedIp: string,
    macAddress: string,
    nasIp: string,
    startedAt: int,
    downloadBytes: nat,
    uploadBytes: nat,
    sessionTime: int)

  /** WHERE acctstoptime IS NULL */
  predicate IsOpen(s: Session)
  {
    s.stop.None?
  }

  function StartKey(s: Session): int
  {
    s.start
  }

  /** The open rows of radacct, in table order. */
  function OpenSessions(sessions: seq<Session>): (r: seq<Session>)
    ensures forall s :: s in r <==> s in sessions && IsOpen(s)
  {
    Filter(sessions, IsOpen)
  }

  /** ... ORDER BY acctstarttime DESC */
  function OrderedOpen(sessions: seq<Session>): (r: seq<Session>)
    ensures SortedDesc(r, StartKey)
    ensures forall s :: multiset(r)[s] == if IsOpen(s) then multiset(sessions)[s] else 0
  {
    FilterMultiset(sessions, IsOpen);
    SortDesc(OpenSessions(sessions), StartKey)
  }

  /** 838:59:59, the largest magnitude of a MySQL TIME value, in seconds. */
  const MaxTimeDiff := 838 * 3600 + 59 * 60 + 59

  /**
   * TIMEDIFF(now, start) in seconds: the difference, clamped to the TIME
   * range -838:59:59 .. 838:59:59.
   */
  function TimeDiff(now: int, start: int): (r: int)
    ensures -MaxTimeDiff <= r <= MaxTimeDiff
    ensures -MaxTimeDiff <= now - start <= MaxTimeDiff ==> r == now - start
    ensures now - start > MaxTimeDiff ==> r == MaxTimeDiff
    ensures now - start < -MaxTimeDiff ==> r == -MaxTimeDiff
  {
    if now - start > MaxTimeDiff then MaxTimeDiff
    else if now - start < -MaxTimeDiff then -MaxTimeDiff
    else now - start
  }

  /** A later start never gives a longer session time. */
  lemma TimeDiffAntitone(now: int, a: int, b: int)
    requires a <= b
    ensures TimeDiff(now, b) <= TimeDiff(now, a)
  {
  }

  /**
   * The `rows.map` record: download is what the client received
   * (acctoutputoctets), upload what it sent (acctinputoctets).
   */
  function Detail(s: Session, now: int): (d: OnlineUserDetail)
    ensures d.username == s.username && d.framedIp == s.framedIp
    ensures d.macAddress == s.callingStationId && d.nasIp == s.nasIp && d.startedAt == s.start
    ensures d.downloadBytes == s.outputOctets && d.uploadBytes == s.inputOctets
    ensures d.sessionTime == TimeDiff(now, s.start)
  {
    OnlineUserDetail(s.username, s.framedIp, s.callingStationId, s.nasIp, s.start,
      s.outputOctets, s.inputOctets, TimeDiff(now, s.start))
  }

  /** The query followed by the one-to-one, order-preserving map. */
  function GetOnlineUsersDetails(sessions: seq<Session>, now: int): (r: seq<OnlineUserDetail>)
    ensures |r| == |OrderedOpen(sessions)|
    ensures forall i :: 0 <= i < |r| ==> r[i] == Detail(OrderedOpen(sessions)[i], now)
    ensures forall i, j :: 0 <= i < j < |r| ==> r[i].startedAt >= r[j].startedAt
  {
    var o := OrderedOpen(sessions);
    seq(|o|, i requires 0 <= i < |o| => Detail(o[i], now))
  }

  /** Latest start first means the shortest session time first. */
  lemma SessionTimesAscend(sessions: seq<Session>, now: int, i: int, j: int)
    requires 0 <= i < j < |GetOnlineUsersDetails(sessions, now)|
    ensures GetOnlineUsersDetails(sessions, now)[i].sessionTime <= GetOnlineUsersDetails(sessions, now)[j].sessionTime
  {
    var r := GetOnlineUsersDetails(sessions, now);
    TimeDiffAntitone(now, r[j].startedAt, r[i].startedAt);
  }

  /** Every reported row is the detail of an open radacct row. */
  lemma OnlineRowsAreOpen(sessions: seq<Session>, now: int, d: OnlineUserDetail)
    requires d in GetOnlineUsersDetails(sessions, now)
    ensures exists s :: s in sessions && IsOpen(s) && d == Detail(s, now)
  {
    var o := OrderedOpen(sessions);
    var i :| 0 <= i < |o| && GetOnlineUsersDetails(sessions, now)[i] == d;
    assert o[i] in multiset(o);
  }

  /** Every open radacct row is reported. */
  lemma OpenRowsAreOnline(sessions: seq<Session>, now: int, s: Session)
    requires s in sessions && IsOpen(s)
    ensures Detail(s, now) in GetOnlineUsersDetails(sessions, now)
  {
    var o := OrderedOpen(sessions);
    assert s in multiset(o);
    var i :| 0 <= i < |o| && o[i] == s;
    assert GetOnlineUsersDetails(sessions, now)[i] == Detail(s, now);
  }

  /** The number of rows with a NULL stop time, counted row by row. */
  function OpenCount(sessions: seq<Session>): nat
  {
    if sessions == [] then 0
    else (if IsOpen(sessions[0]) then 1 else 0) + OpenCount(sessions[1..])
  }

  lemma {:induction false} OpenSessionsLength(sessions: seq<Session>)
    ensures |OpenSessions(sessions)| == OpenCount(sessions)
  {
    if sessions != [] {
      OpenSessionsLength(sessions[1..]);
      assert sessions == [sessions[0]] + sessions[1..];
    }
  }

  /**
   * No de-duplication: a user with two open sessions is listed twice, and the
   * result has exactly one row per open radacct row.
   */
  lemma OnlineCountIsOpenCount(sessions: seq<Session>, now: int)
    ensures |GetOnlineUsersDetails(sessions, now)| == OpenCount(sessions)
  {
    OpenSessionsLength(sessions);
  }

  /** Setting acctstoptime on an open row takes exactly that row out of the result. */
  lemma ClosingRemovesSession(sessions: seq<Session>, k: int, stop: int)
    requires 0 <= k < |sessions| && IsOpen(sessions[k])
    ensures multiset(OrderedOpen(sessions[k := sessions[k].(stop := Some(stop))])) ==
      multiset(OrderedOpen(sessions)) - multiset{sessions[k]}
  {
    var closed := sessions[k := sessions[k].(stop := Some(stop))];
    var c := sessions[k].(stop := Some(stop));
    assert multiset(closed) == multiset(sessions) - multiset{sessions[k]} + multiset{c};
    var before := OrderedOpen(sessions);
    var after := OrderedOpen(closed);
    OpenPart(multiset(sessions), multiset(closed), sessions[k], c,
      multiset(OrderedOpen(sessions)), multiset(OrderedOpen(closed)));
  }

  /** Replacing an open row by a closed one removes it from the open part of a table. */
  lemma OpenPart(all: multiset<Session>, allClosed: multiset<Session>, open: Session, closed: Session,
                 before: multiset<Session>, after: multiset<Session>)
    requires IsOpen(open) && !IsOpen(closed)
    requires allClosed == all - multiset{open} + multiset{closed}
    requires forall x :: before[x] == if IsOpen(x) then all[x] else 0
    requires forall x :: after[x] == if IsOpen(x) then allClosed[x] else 0
    ensures after == before - multiset{open}
  {
    forall x ensures after[x] == (before - multiset{open})[x] {
      if IsOpen(x) {
        assert x != closed;
      }
    }
  }

  /** Closing an open session lowers the number of online rows by one. */
  lemma ClosingLowersCount(sessions: seq<Session>, k: int, stop: int)
    requires 0 <= k < |sessions| && IsOpen(sessions[k])
    ensures OpenCount(sessions[k := sessions[k].(stop := Some(stop))]) + 1 == OpenCount(sessions)
  {
    var closed := sessions[k := sessions[k].(stop := Some(stop))];
    ClosingRemovesSession(sessions, k, stop);
    OpenSessionsLength(closed);
    OpenSessionsLength(sessions);
    var before := OrderedOpen(sessions);
    var after := OrderedOpen(closed);
    assert sessions[k] in multiset(before) by {
      assert multiset(before)[sessions[k]] == multiset(sessions)[sessions[k]];
    }
    assert |multiset(after)| + 1 == |multiset(before)|;
  }
}
