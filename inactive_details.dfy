/**
 * getInactiveUserDetails (src/app/actions/get-inactive-user-details.ts): one
 * user's profile and plan, their lifetime traffic and their latest session,
 * with the `||` defaults of the result record. `iso` stands for
 * `new Date(t).toISOString()`; `fault` stands for any query throwing.
 */
module InactiveDetails {
  import opened Base
  import opened Schema

  datatype InactiveUserDetails = InactiveUserDetails(
    username: string,
    firstname: string,
    lastname: string,
    company: string,
    srvname: string,
    created: string,
    totalDownload: nat,
    totalUpload: nat,
    lastLogin: Option<string>,
    lastMac: Option<string>,
    lastIp: Option<string>)

  /** `services[i]` is the first plan row with this srvid. */
  predicate FirstPlan(services: seq<RmService>, srvid: int, i: int)
  {
    0 <= i < |services| && services[i].srvid == srvid && forall j :: 0 <= j < i ==> services[j].srvid != srvid
  }

  /**
   * LEFT JOIN rm_services s ON u.srvid = s.srvid: the plan name of the first
   * matching plan row; None both for no plan row and for a NULL name.
   */
  function ServiceName(services: seq<RmService>, srvid: int): (r: Option<string>)
    ensures r.Some? ==> exists s :: s in services && s.srvid == srvid && s.srvname == r
    ensures (forall s :: s in services ==> s.srvid != srvid) ==> r.None?
    ensures (exists s :: s in services && s.srvid == srvid) ==> exists i :: FirstPlan(services, srvid, i)
    ensures forall i :: FirstPlan(services, srvid, i) ==> r == services[i].srvname
  {
    if services == [] then None
    else if services[0].srvid == srvid then
      assert FirstPlan(services, srvid, 0);
      services[0].srvname
    else
      var r := ServiceName(services[1..], srvid);
      assert forall s :: s in services && s.srvid == srvid ==> s in services[1..];
      assert forall i :: FirstPlan(services, srvid, i) ==> FirstPlan(services[1..], srvid, i - 1);
      assert forall i :: FirstPlan(services[1..], srvid, i) ==> FirstPlan(services, srvid, i + 1);
      r
  }

  /** WHERE username = ? over radacct. */
  function SessionsOf(sessions: seq<Session>, name: string): (r: seq<Session>)
    ensures forall s :: s in r <==> s in sessions && s.username == name
  {
    Filter(sessions, (s: Session) => s.username == name)
  }

  /** SUM(acctoutputoctets) over the rows; 0 for none. */
  function SumOutput(rows: seq<Session>): nat
  {
    if rows == [] then 0 else rows[0].outputOctets + SumOutput(rows[1..])
  }

  /** SUM(acctinputoctets) over the rows; 0 for none. */
  function SumInput(rows: seq<Session>): nat
  {
    if rows == [] then 0 else rows[0].inputOctets + SumInput(rows[1..])
  }

  /** SQL SUM: NULL over no rows. */
  function SqlSum(rows: seq<Session>, total: nat): Option<nat>
  {
    if rows == [] then None else Some(total)
  }

  /** `Number(x || 0)` */
  function OrZero(x: Option<nat>): nat
  {
    if x.Some? then x.value else 0
  }

  /** `x || ''` */
  function OrEmpty(x: Option<string>): (r: string)
    ensures x.None? ==> r == ""
    ensures x.Some? ==> r == x.value
  {
    if x.Some? && x.value != "" then x.value else ""
  }

  /** `x || null` on a text column: the empty string becomes null. */
  function NonEmpty(x: string): (r: Option<string>)
    ensures r.None? <==> x == ""
    ensures r.Some? ==> r.value == x
  {
    if x == "" then None else Some(x)
  }

  function StartKey(s: Session): int
  {
    s.start
  }

  /** ... ORDER BY acctstarttime DESC LIMIT 1: the user's latest session. */
  function LastSession(sessions: seq<Session>, name: string): (r: Option<Session>)
    ensures r.None? <==> forall s :: s in sessions ==> s.username != name
    ensures r.Some? ==> r.value in sessions && r.value.username == name
    ensures r.Some? ==> forall s :: s in sessions && s.username == name ==> s.start <= r.value.start
  {
    var mine := SessionsOf(sessions, name);
    var ordered := SortDesc(mine, StartKey);
    if ordered == [] then
      assert |mine| == 0;
      None
    else
      assert ordered[0] in multiset(mine);
      assert forall s :: s in mine ==> s.start <= ordered[0].start by {
        forall s | s in mine ensures s.start <= ordered[0].start {
          assert s in multiset(ordered);
          var j :| 0 <= j < |ordered| && ordered[j] == s;
        }
      }
      Some(ordered[0])
  }

  /** The result record once the profile row has been found. */
  function Details(u: RmUser, services: seq<RmService>, sessions: seq<Session>, iso: int -> string): InactiveUserDetails
  {
    var mine := SessionsOf(sessions, u.username);
    var last := LastSession(sessions, u.username);
    var srvname := ServiceName(services, u.srvid);
    InactiveUserDetails(
      u.username,
      OrEmpty(u.firstname),
      OrEmpty(u.lastname),
      OrEmpty(u.company),
      if srvname.Some? && srvname.value != "" then srvname.value else "Unknown",
      if u.createdOn.Some? then iso(u.createdOn.value) else "",
      OrZero(SqlSum(mine, SumOutput(mine))),
      OrZero(SqlSum(mine, SumInput(mine))),
      if last.Some? then Some(iso(last.value.start)) else None,
      if last.Some? then NonEmpty(last.value.callingStationId) else None,
      if last.Some? then NonEmpty(last.value.framedIp) else None)
  }

  function GetInactiveUserDetails(users: seq<RmUser>, services: seq<RmService>, sessions: seq<Session>,
                                  username: string, iso: int -> string, fault: bool): (r: Option<InactiveUserDetails>)
    ensures r.None? <==> fault || forall u :: u in users ==> u.username != username
    ensures r.Some? ==> r.value.username == username
    ensures r.Some? ==> r.value.totalDownload == SumOutput(SessionsOf(sessions, username))
    ensures r.Some? ==> r.value.totalUpload == SumInput(SessionsOf(sessions, username))
  {
    if fault then None
    else
      var u := FindUser(users, username);
      if u.None? then None else Some(Details(u.value, services, sessions, iso))
  }

  /**
   * The record's defaults: missing names and company become '', a missing or
   * empty plan name 'Unknown', a missing creation date ''.
   */
  lemma DetailsDefaults(users: seq<RmUser>, services: seq<RmService>, sessions: seq<Session>,
                        username: string, iso: int -> string, u: RmUser)
    requires FindUser(users, username) == Some(u)
    ensures var d := GetInactiveUserDetails(users, services, sessions, username, iso, false).value;
      (u.firstname.None? ==> d.firstname == "") &&
      (u.firstname.Some? ==> d.firstname == u.firstname.value) &&
      (u.lastname.None? ==> d.lastname == "") &&
      (u.lastname.Some? ==> d.lastname == u.lastname.value) &&
      (u.company.None? ==> d.company == "") &&
      (u.company.Some? ==> d.company == u.company.value) &&
      (ServiceName(services, u.srvid).None? ==> d.srvname == "Unknown") &&
      (ServiceName(services, u.srvid) == Some("") ==> d.srvname == "Unknown") &&
      (ServiceName(services, u.srvid).Some? && ServiceName(services, u.srvid) != Some("") ==>
        d.srvname == ServiceName(services, u.srvid).value) &&
      (u.createdOn.None? ==> d.created == "") &&
      (u.createdOn.Some? ==> d.created == iso(u.createdOn.value))
  {
  }

  /**
   * A user without sessions: zero totals and no last login, MAC or IP.
   */
  lemma NoSessionsDetails(users: seq<RmUser>, services: seq<RmService>, sessions: seq<Session>,
                          username: string, iso: int -> string)
    requires exists u :: u in users && u.username == username
    requires forall s :: s in sessions ==> s.username != username
    ensures var r := GetInactiveUserDetails(users, services, sessions, username, iso, false);
      r.Some? && r.value.totalDownload == 0 && r.value.totalUpload == 0 &&
      r.value.lastLogin.None? && r.value.lastMac.None? && r.value.lastIp.None?
  {
    var mine := SessionsOf(sessions, username);
  }

  /**
   * lastLogin, lastMac and lastIp all come from one session of the user, the
   * one with the latest start.
   */
  lemma LastFieldsFromLatestSession(users: seq<RmUser>, services: seq<RmService>, sessions: seq<Session>,
                                    username: string, iso: int -> string)
    requires exists u :: u in users && u.username == username
    requires exists s :: s in sessions && s.username == username
    ensures var d := GetInactiveUserDetails(users, services, sessions, username, iso, false).value;
      exists s :: s in sessions && s.username == username &&
        (forall t :: t in sessions && t.username == username ==> t.start <= s.start) &&
        d.lastLogin == Some(iso(s.start)) &&
        d.lastMac == NonEmpty(s.callingStationId) &&
        d.lastIp == NonEmpty(s.framedIp)
  {
    var u := FindUser(users, username).value;
    var last := LastSession(sessions, username);
    var s := last.value;
    var d := Details(u, services, sessions, iso);
    assert GetInactiveUserDetails(users, services, sessions, username, iso, false) == Some(d);
    assert d.lastLogin == Some(iso(s.start)) && d.lastMac == NonEmpty(s.callingStationId) && d.lastIp == NonEmpty(s.framedIp);
  }

  /** Sessions of other users never change a user's details. */
  lemma OtherUsersIgnored(users: seq<RmUser>, services: seq<RmService>, sessions: seq<Session>,
                          username: string, iso: int -> string, fault: bool, other: Session)
    requires other.username != username
    ensures GetInactiveUserDetails(users, services, sessions + [other], username, iso, fault) ==
      GetInactiveUserDetails(users, services, sessions, username, iso, fault)
  {
    var p := (s: Session) => s.username == username;
    FilterAppend(sessions, [other], p);
    assert Filter([other], p) == [];
    assert SessionsOf(sessions + [other], username) == SessionsOf(sessions, username);
    assert LastSession(sessions + [other], username) == LastSession(sessions, username);
  }
}
