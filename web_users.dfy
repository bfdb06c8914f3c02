/**
 * The operator accounts of the web_users table and the server actions of
 * src/app/actions/web-users.ts that list, insert, update and delete them.
 * Password hashing (bcrypt) is the opaque function `hash`; `fault` stands for
 * a failing statement other than the unique-key violation.
 */
module WebUsers {
  import opened Base
  import Text

  /** A web_users row; `createdAt` is the CURRENT_TIMESTAMP default. */
  datatype WebUser = WebUser(
    id: int,
    username: string,
    passwordHash: string,
    fullname: string,
    role: string,
    status: string,
    createdAt: int)

  /** A row as getWebUsers selects it: every column but the password hash. */
  datatype ListedUser = ListedUser(
    id: int,
    username: string,
    fullname: string,
    role: string,
    status: string,
    createdAt: int)

  function Public(u: WebUser): (v: ListedUser)
    ensures v.id == u.id && v.username == u.username && v.fullname == u.fullname
    ensures v.role == u.role && v.status == u.status && v.createdAt == u.createdAt
  {
    ListedUser(u.id, u.username, u.fullname, u.role, u.status, u.createdAt)
  }

  /** The `user` object of a session token. */
  datatype SessionUser = SessionUser(id: int, username: string, role: string, fullname: string)

  /** `{ success: true }` or `{ error: message }`. */
  datatype Outcome = Success | Failure(message: string)

  /** A truthy form value: present and not the empty string. */
  predicate Truthy(f: Option<string>)
  {
    f.Some? && f.value != ""
  }

  /** `f || fallback` */
  function OrDefault(f: Option<string>, fallback: string): (r: string)
    ensures Truthy(f) ==> r == f.value
    ensures !Truthy(f) ==> r == fallback
  {
    if Truthy(f) then f.value else fallback
  }

  /** `id` is the primary key: every row is stored under its own id. */
  predicate KeysMatch(rows: map<int, WebUser>)
  {
    forall id :: id in rows ==> rows[id].id == id
  }

  /** `username` carries a UNIQUE constraint. */
  predicate UniqueUsernames(rows: map<int, WebUser>)
  {
    forall a, b :: a in rows && b in rows && a != b ==> rows[a].username != rows[b].username
  }

  const RoleMembers := ["admin", "user"]
  const StatusMembers := ["active", "disabled"]

  /**
   * The ENUM member a value is stored as. The columns use the server's
   * case-insensitive default collation, so a value names the member it
   * equals up to letter case, and the row holds the member's own text.
   */
  function EnumMember(x: string, members: seq<string>): (r: Option<string>)
    ensures r.None? <==> forall m :: m in members ==> Text.Lower(m) != Text.Lower(x)
    ensures r.Some? ==> r.value in members && Text.Lower(r.value) == Text.Lower(x)
  {
    FindFirst(members, (m: string) => Text.Lower(m) == Text.Lower(x))
  }

  /** A text without capital letters is its own lower-case form. */
  lemma {:induction false} LowerOfLower(s: string)
    requires forall i :: 0 <= i < |s| ==> !('A' <= s[i] <= 'Z')
    ensures Text.Lower(s) == s
  {
    assert forall i :: 0 <= i < |s| ==> Text.Lower(s)[i] == s[i];
  }

  /** A member in lower case names itself. */
  lemma {:induction false} MemberNamesItself(x: string, members: seq<string>)
    requires x in members
    requires forall m :: m in members ==> Text.Lower(m) == m
    ensures EnumMember(x, members) == Some(x)
  {
  }

  /** The members of both ENUM columns are in lower case. */
  lemma MembersAreLower()
    ensures forall m :: m in RoleMembers ==> Text.Lower(m) == m
    ensures forall m :: m in StatusMembers ==> Text.Lower(m) == m
  {
    LowerOfLower("admin");
    LowerOfLower("user");
    LowerOfLower("active");
    LowerOfLower("disabled");
  }

  /** 'Admin' is stored as the member 'admin', and 'Disabled' as 'disabled'. */
  lemma CaseFoldedMembers()
    ensures EnumMember("Admin", RoleMembers) == Some("admin")
    ensures EnumMember("Disabled", StatusMembers) == Some("disabled")
  {
    LowerOfLower("admin");
    LowerOfLower("user");
    LowerOfLower("active");
    LowerOfLower("disabled");
    assert Text.Lower("Admin") == "admin";
    assert Text.Lower("Disabled") == "disabled";
  }

  /** A value that is no member in any letter case is refused. */
  lemma UnknownRoleRefused()
    ensures EnumMember("root", RoleMembers).None?
  {
    LowerOfLower("admin");
    LowerOfLower("user");
    LowerOfLower("root");
  }

  /** The ENUM columns hold only their members. */
  predicate EnumColumns(rows: map<int, WebUser>)
  {
    forall id :: id in rows ==> rows[id].role in RoleMembers && rows[id].status in StatusMembers
  }

  /**
   * What the column types accept in strict SQL mode: `username VARCHAR(50)`,
   * `fullname VARCHAR(100)`, `role ENUM('admin', 'user')` and
   * `status ENUM('active', 'disabled')`. A value outside them fails the
   * statement before any row is written.
   */
  predicate FitsColumns(username: string, fullname: string, role: string, status: string)
  {
    |username| <= 50 && FitsAccount(fullname, role, status)
  }

  /** The columns an UPDATE of an account writes. */
  predicate FitsAccount(fullname: string, role: string, status: string)
  {
    |fullname| <= 100 && EnumMember(role, RoleMembers).Some? && EnumMember(status, StatusMembers).Some?
  }

  /** The INSERT of createWebUser gets past validation and the column types. */
  predicate InsertFits(username: Option<string>, password: Option<string>, fullname: Option<string>,
                       role: Option<string>, status: Option<string>)
  {
    Truthy(username) && Truthy(password) &&
    FitsColumns(username.value, OrDefault(fullname, ""), OrDefault(role, "user"), OrDefault(status, "active"))
  }

  predicate UsernameTaken(rows: map<int, WebUser>, username: string)
  {
    exists id :: id in rows && rows[id].username == username
  }

  /** A new row with a fresh id, a free username and ENUM members keeps the table's constraints. */
  lemma InsertKeepsColumns(rows: map<int, WebUser>, row: WebUser)
    requires KeysMatch(rows) && UniqueUsernames(rows) && EnumColumns(rows)
    requires row.id !in rows && !UsernameTaken(rows, row.username)
    requires row.role in RoleMembers && row.status in StatusMembers
    ensures KeysMatch(rows[row.id := row]) && UniqueUsernames(rows[row.id := row]) && EnumColumns(rows[row.id := row])
  {
  }

  lemma NonEmptyHasElement(s: set<int>)
    requires s != {}
    ensures exists x :: x in s
  {
    assert (forall x :: x !in s) ==> s == {};
  }

  lemma {:induction false} MinExists(s: set<int>)
    requires s != {}
    ensures exists m :: m in s && forall y :: y in s ==> m <= y
    decreases |s|
  {
    NonEmptyHasElement(s);
    var x :| x in s;
    if s - {x} == {} {
      LeastOfSplit(s, x, x);
    } else {
      MinExists(s - {x});
      var m :| m in s - {x} && forall y :: y in s - {x} ==> m <= y;
      LeastOfSplit(s, x, m);
    }
  }

  /** The smaller of one element and the least of the others is the least of all. */
  lemma LeastOfSplit(s: set<int>, x: int, m: int)
    requires x in s
    requires m == x || m in s - {x}
    requires forall y :: y in s - {x} ==> m <= y
    ensures var least := if x < m then x else m;
      least in s && forall y :: y in s ==> least <= y
  {
    var least := if x < m then x else m;
    forall y | y in s ensures least <= y {
      if y != x {
        assert y in s - {x};
      }
    }
  }

  function MinOf(s: set<int>): (m: int)
    requires s != {}
    ensures m in s && forall y :: y in s ==> m <= y
  {
    MinExists(s);
    var m :| m in s && forall y :: y in s ==> m <= y;
    m
  }

  /** The ids in ascending order. */
  function SortedIds(s: set<int>): (r: seq<int>)
    ensures StrictlyAscending(r)
    ensures forall x :: x in r <==> x in s
    ensures |r| == |s|
    decreases |s|
  {
    if s == {} then []
    else
      var m := MinOf(s);
      var rest := SortedIds(s - {m});
      LeastFirst(s, m, rest);
      [m] + rest
  }

  /** The least id followed by the others in ascending order is ascending and holds them all. */
  lemma {:induction false} LeastFirst(s: set<int>, m: int, rest: seq<int>)
    requires m in s && forall y :: y in s ==> m <= y
    requires StrictlyAscending(rest) && |rest| == |s - {m}|
    requires forall x :: x in rest <==> x in s - {m}
    ensures StrictlyAscending([m] + rest)
    ensures forall x :: x in [m] + rest <==> x in s
    ensures |[m] + rest| == |s|
  {
    var r := [m] + rest;
    forall i, j | 0 <= i < j < |r| ensures r[i] < r[j] {
      assert r[j] == rest[j - 1] && rest[j - 1] in rest;
      if i > 0 {
        assert r[i] == rest[i - 1];
      }
    }
    assert s == (s - {m}) + {m};
  }

  /** Ordered by strictly increasing id. */
  predicate IdAscending(r: seq<WebUser>)
  {
    forall i, j :: 0 <= i < j < |r| ==> r[i].id < r[j].id
  }

  /** Two id-ordered sequences holding the same rows are equal. */
  lemma {:induction false} IdAscendingUnique(a: seq<WebUser>, b: seq<WebUser>)
    requires IdAscending(a) && IdAscending(b)
    requires forall x :: x in a <==> x in b
    ensures a == b
  {
    assert a != [] ==> a[0] in a;
    assert b != [] ==> b[0] in b;
    if a != [] && b != [] {
      SameFirst(a, b);
      SameRest(a, b);
      SameRest(b, a);
      IdAscendingUnique(a[1..], b[1..]);
      assert a == [a[0]] + a[1..] && b == [b[0]] + b[1..];
    }
  }

  /** The first rows of two id-ordered sequences holding the same rows agree. */
  lemma {:induction false} SameFirst(a: seq<WebUser>, b: seq<WebUser>)
    requires a != [] && b != [] && IdAscending(a) && IdAscending(b)
    requires forall x :: x in a <==> x in b
    ensures a[0] == b[0]
  {
    assert a[0] in a && b[0] in b;
    var i :| 0 <= i < |b| && b[i] == a[0];
    var j :| 0 <= j < |a| && a[j] == b[0];
    assert b[0].id <= b[i].id && a[0].id <= a[j].id;
  }

  /** Past a common first row, every later row of `a` is a later row of `b`. */
  lemma {:induction false} SameRest(a: seq<WebUser>, b: seq<WebUser>)
    requires a != [] && b != [] && a[0] == b[0] && IdAscending(a) && IdAscending(b)
    requires forall x :: x in a <==> x in b
    ensures forall x :: x in a[1..] ==> x in b[1..]
  {
    forall x | x in a[1..] ensures x in b[1..] {
      var k :| 0 <= k < |a[1..]| && a[1..][k] == x;
      assert a[k + 1] == x && a[0].id < x.id;
      assert x in a && x in b;
      var j :| 0 <= j < |b| && b[j] == x;
      assert j != 0 && b[1..][j - 1] == x;
    }
  }

  /** SELECT ... FROM web_users ORDER BY id ASC */
  function Listing(rows: map<int, WebUser>): (r: seq<WebUser>)
    requires KeysMatch(rows)
    ensures |r| == |rows|
    ensures IdAscending(r)
    ensures forall x :: x in r ==> x.id in rows && rows[x.id] == x
    ensures forall id :: id in rows ==> rows[id] in r
  {
    var ids := SortedIds(rows.Keys);
    assert forall i :: 0 <= i < |ids| ==> ids[i] in ids && ids[i] in rows;
    var r := RowsAt(rows, ids);
    RowsInIdOrder(rows, ids, r);
    r
  }

  /** The rows stored under the given ids, in the order of the ids. */
  function RowsAt(rows: map<int, WebUser>, ids: seq<int>): (r: seq<WebUser>)
    requires forall i :: 0 <= i < |ids| ==> ids[i] in rows
    ensures |r| == |ids| && forall i :: 0 <= i < |r| ==> ids[i] in rows && r[i] == rows[ids[i]]
  {
    seq(|ids|, i requires 0 <= i < |ids| => rows[ids[i]])
  }

  lemma RowsInIdOrder(rows: map<int, WebUser>, ids: seq<int>, r: seq<WebUser>)
    requires KeysMatch(rows)
    requires StrictlyAscending(ids) && |ids| == |rows|
    requires forall x :: x in ids <==> x in rows
    requires |r| == |ids| && forall i :: 0 <= i < |r| ==> ids[i] in rows && r[i] == rows[ids[i]]
    ensures IdAscending(r)
    ensures forall x :: x in r ==> x.id in rows && rows[x.id] == x
    ensures forall id :: id in rows ==> rows[id] in r
  {
    assert forall i :: 0 <= i < |r| ==> r[i].id == ids[i];
    forall id | id in rows ensures rows[id] in r {
      var i :| 0 <= i < |ids| && ids[i] == id;
      assert r[i] == rows[id];
    }
  }

  /**
   * A row inserted with an id above every existing id (AUTO_INCREMENT) is
   * listed last, after the old rows in their old order.
   */
  lemma ListingAfterInsert(rows: map<int, WebUser>, u: WebUser)
    requires KeysMatch(rows)
    requires forall id :: id in rows ==> id < u.id
    ensures KeysMatch(rows[u.id := u])
    ensures Listing(rows[u.id := u]) == Listing(rows) + [u]
  {
    var after := rows[u.id := u];
    InsertedLast(rows, after, u, Listing(after), Listing(rows));
  }

  lemma InsertedLast(rows: map<int, WebUser>, after: map<int, WebUser>, u: WebUser,
                     l: seq<WebUser>, before: seq<WebUser>)
    requires after == rows[u.id := u]
    requires forall id :: id in rows ==> id < u.id
    requires IdAscending(l) && IdAscending(before)
    requires forall x :: x in l ==> x.id in after && after[x.id] == x
    requires forall id :: id in after ==> after[id] in l
    requires forall x :: x in before ==> x.id in rows && rows[x.id] == x
    requires forall id :: id in rows ==> rows[id] in before
    ensures l == before + [u]
  {
    var e := before + [u];
    forall i, j | 0 <= i < j < |e| ensures e[i].id < e[j].id {
      if j == |before| {
        assert e[i] == before[i] && before[i] in before;
      } else {
        assert e[i] == before[i] && e[j] == before[j];
      }
    }
    forall x ensures x in l <==> x in e {
      if x in l && x.id != u.id {
        assert x == rows[x.id];
      }
      if x in before {
        assert x.id in rows && x.id != u.id && after[x.id] == x;
      }
      if x == u {
        assert after[u.id] == u;
      }
    }
    IdAscendingUnique(l, e);
  }

  /** Each row of `l` without its password hash, in the same order. */
  function Publics(l: seq<WebUser>): (r: seq<ListedUser>)
    ensures |r| == |l| && forall i :: 0 <= i < |l| ==> r[i] == Public(l[i])
  {
    seq(|l|, i requires 0 <= i < |l| => Public(l[i]))
  }

  lemma PublicsCover(rows: map<int, WebUser>, l: seq<WebUser>)
    requires forall id :: id in rows ==> rows[id] in l
    ensures forall id :: id in rows ==> Public(rows[id]) in Publics(l)
  {
    var r := Publics(l);
    forall id | id in rows ensures Public(rows[id]) in r {
      var i :| 0 <= i < |l| && l[i] == rows[id];
      assert r[i] == Public(rows[id]);
    }
  }

  lemma PublicsSound(rows: map<int, WebUser>, l: seq<WebUser>)
    requires forall x :: x in l ==> x.id in rows && rows[x.id] == x
    ensures forall v :: v in Publics(l) ==> v.id in rows && Public(rows[v.id]) == v
  {
    var r := Publics(l);
    forall v | v in r ensures v.id in rows && Public(rows[v.id]) == v {
      var i :| 0 <= i < |r| && r[i] == v;
      assert l[i] in l;
    }
  }

  /** The listing with each row's password hash left out. */
  function PublicListing(rows: map<int, WebUser>): (r: seq<ListedUser>)
    requires KeysMatch(rows)
    ensures |r| == |rows|
    ensures forall i, j :: 0 <= i < j < |r| ==> r[i].id < r[j].id
    ensures forall id :: id in rows ==> Public(rows[id]) in r
    ensures forall v :: v in r ==> v.id in rows && Public(rows[v.id]) == v
  {
    var l := Listing(rows);
    PublicsCover(rows, l);
    PublicsSound(rows, l);
    Publics(l)
  }

  /** The table as the server actions see it. */
  class WebUserStore {
    var rows: map<int, WebUser>
    /** The AUTO_INCREMENT counter: the id the next insert receives. */
    var nextId: int
    const hash: string -> string

    ghost predicate Valid()
      reads this
    {
      KeysMatch(rows) && UniqueUsernames(rows) && EnumColumns(rows) && (forall id :: id in rows ==> id < nextId)
    }

    constructor (hash: string -> string)
      ensures Valid() && rows == map[] && nextId == 1 && this.hash == hash
    {
      rows := map[];
      nextId := 1;
      this.hash := hash;
    }

    /** getWebUsers: every account without its password hash, ordered by id. */
    function GetWebUsers(): (r: seq<ListedUser>)
      reads this
      requires Valid()
      ensures |r| == |rows|
      ensures forall i, j :: 0 <= i < j < |r| ==> r[i].id < r[j].id
      ensures forall id :: id in rows ==> Public(rows[id]) in r
      ensures forall v :: v in r ==> v.id in rows && Public(rows[v.id]) == v
    {
      PublicListing(rows)
    }

    /**
     * createWebUser: both username and password are required; fullname, role
     * and status default to '', 'user' and 'active'. Values the columns do not
     * accept fail the INSERT before the key checks. A taken username is
     * reported apart from other failures and still uses up the AUTO_INCREMENT
     * value InnoDB allocated for the row; no row changes on failure.
     */
    method CreateWebUser(username: Option<string>, password: Option<string>, fullname: Option<string>,
                         role: Option<string>, status: Option<string>, now: int, fault: bool)
      returns (out: Outcome)
      requires Valid()
      modifies this
      ensures Valid()
      ensures !Truthy(username) || !Truthy(password) ==>
        out == Failure("Username and password required") && rows == old(rows) && nextId == old(nextId)
      ensures Truthy(username) && Truthy(password) && (fault || !InsertFits(username, password, fullname, role, status)) ==>
        out == Failure("Failed to create user") && rows == old(rows) && nextId == old(nextId)
      ensures !fault && InsertFits(username, password, fullname, role, status) && UsernameTaken(old(rows), username.value) ==>
        out == Failure("Username already exists") && rows == old(rows) && nextId == old(nextId) + 1
      ensures !fault && InsertFits(username, password, fullname, role, status) && !UsernameTaken(old(rows), username.value) ==>
        out == Success && nextId == old(nextId) + 1 &&
        rows == old(rows)[old(nextId) := WebUser(old(nextId), username.value, hash(password.value),
          OrDefault(fullname, ""), EnumMember(OrDefault(role, "user"), RoleMembers).value,
          EnumMember(OrDefault(status, "active"), StatusMembers).value, now)]
    {
      if !Truthy(username) || !Truthy(password) {
        return Failure("Username and password required");
      }
      var name, level, state := OrDefault(fullname, ""), OrDefault(role, "user"), OrDefault(status, "active");
      if fault || !FitsColumns(username.value, name, level, state) {
        return Failure("Failed to create user");
      }
      if UsernameTaken(rows, username.value) {
        nextId := nextId + 1;
        return Failure("Username already exists");
      }
      var row := WebUser(nextId, username.value, hash(password.value), name,
        EnumMember(level, RoleMembers).value, EnumMember(state, StatusMembers).value, now);
      InsertKeepsColumns(rows, row);
      rows := rows[nextId := row];
      nextId := nextId + 1;
      out := Success;
    }

    /**
     * updateWebUser: sets fullname, role and status of row `id`, and the
     * password hash only when a password is given; values the columns do not
     * accept fail the UPDATE. No other row changes; an unknown id changes
     * nothing.
     */
    method UpdateWebUser(id: int, fullname: string, role: string, password: Option<string>,
                         status: string, fault: bool)
      returns (out: Outcome)
      requires Valid()
      modifies this
      ensures Valid() && nextId == old(nextId)
      ensures fault ==> out == Failure("Failed to update user") && rows == old(rows)
      ensures !fault && id !in old(rows) ==> out == Success && rows == old(rows)
      ensures !fault && id in old(rows) && !FitsAccount(fullname, role, status) ==>
        out == Failure("Failed to update user") && rows == old(rows)
      ensures !fault && id in old(rows) && FitsAccount(fullname, role, status) ==>
        out == Success &&
        rows == old(rows)[id := old(rows)[id].(fullname := fullname,
          role := EnumMember(role, RoleMembers).value, status := EnumMember(status, StatusMembers).value,
          passwordHash := if Truthy(password) then hash(password.value) else old(rows)[id].passwordHash)]
    {
      if fault {
        return Failure("Failed to update user");
      }
      if id in rows {
        var row := rows[id];
        if !FitsAccount(fullname, role, status) {
          return Failure("Failed to update user");
        }
        var level, state := EnumMember(role, RoleMembers).value, EnumMember(status, StatusMembers).value;
        if Truthy(password) {
          row := row.(fullname := fullname, role := level, status := state, passwordHash := hash(password.value));
        } else {
          row := row.(fullname := fullname, role := level, status := state);
        }
        rows := rows[id := row];
      }
      out := Success;
    }

    /** deleteWebUser: removes exactly row `id`. */
    method DeleteWebUser(id: int, fault: bool) returns (out: Outcome)
      requires Valid()
      modifies this
      ensures Valid() && nextId == old(nextId)
      ensures fault ==> out == Failure("Failed to delete user") && rows == old(rows)
      ensures !fault ==> out == Success && rows == old(rows) - {id}
    {
      if fault {
        return Failure("Failed to delete user");
      }
      rows := rows - {id};
      out := Success;
    }

    /**
     * updateProfile: without a session nothing is read or written. Otherwise
     * only the session user's own row changes (fullname, and the hash when a
     * password is given), and the new session carries the new fullname. A
     * fullname too long for its column fails the UPDATE of that row.
     */
    method UpdateProfile(session: Option<SessionUser>, fullname: string, password: Option<string>, fault: bool)
      returns (out: Outcome, newSession: Option<SessionUser>)
      requires Valid()
      modifies this
      ensures Valid() && nextId == old(nextId)
      ensures session.None? ==> out == Failure("Unauthorized") && newSession.None? && rows == old(rows)
      ensures session.Some? && fault ==>
        out == Failure("Failed to update profile") && newSession.None? && rows == old(rows)
      ensures session.Some? && !fault && (session.value.id in old(rows) ==> |fullname| <= 100) ==>
        out == Success && newSession == Some(session.value.(fullname := fullname))
      ensures session.Some? && !fault && session.value.id in old(rows) && |fullname| > 100 ==>
        out == Failure("Failed to update profile") && newSession.None? && rows == old(rows)
      ensures session.Some? && !fault && session.value.id !in old(rows) ==> rows == old(rows)
      ensures session.Some? && !fault && session.value.id in old(rows) && |fullname| <= 100 ==>
        var id := session.value.id;
        rows == old(rows)[id := old(rows)[id].(fullname := fullname,
          passwordHash := if Truthy(password) then hash(password.value) else old(rows)[id].passwordHash)]
    {
      if session.None? {
        return Failure("Unauthorized"), None;
      }
      if fault {
        return Failure("Failed to update profile"), None;
      }
      var id := session.value.id;
      if id in rows {
        if |fullname| > 100 {
          return Failure("Failed to update profile"), None;
        }
        var row := rows[id].(fullname := fullname);
        if Truthy(password) {
          row := row.(passwordHash := hash(password.value));
        }
        rows := rows[id := row];
      }
      out, newSession := Success, Some(session.value.(fullname := fullname));
    }
  }
}
