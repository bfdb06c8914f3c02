/**
 * The client-side rules of src/components/users/UserManagementTable.tsx: the
 * `filteredUsers` predicate (a case-insensitive search over four text
 * columns and a service filter) and the service badge label.
 */
module UserTable {
  import opened Base
  import Text

  /** A hotspot account as listed: the name columns and the plan it is on. */
  datatype ManagedUser = ManagedUser(
    username: string,
    firstname: string,
    lastname: string,
    company: Option<string>,
    srvid: Option<int>,
    srvname: Option<string>)

  const DefaultService := "Default service"

  /**
   * The search test: the lower-cased search text occurs in the lower-cased
   * username, first name, last name or company (`company?.` skips a missing one).
   */
  predicate MatchesSearch(u: ManagedUser, search: string)
  {
    var q := Text.Lower(search);
    Text.Contains(Text.Lower(u.username), q) ||
    Text.Contains(Text.Lower(u.firstname), q) ||
    Text.Contains(Text.Lower(u.lastname), q) ||
    (u.company.Some? && Text.Contains(Text.Lower(u.company.value), q))
  }

  /** `!u.srvname`: no plan name, or an empty one. */
  predicate NoServiceName(u: ManagedUser)
  {
    u.srvname.None? || u.srvname == Some("")
  }

  /**
   * The service test: 'all' keeps everyone, 'default' keeps the default plan
   * and users without a plan name, any other value compares `srvid` with
   * `Number(filter)` (`parse`), which a NaN never equals.
   */
  predicate MatchesService(u: ManagedUser, filter: string, parse: string -> Num)
  {
    if filter == "all" then true
    else if filter == "default" then u.srvname == Some(DefaultService) || NoServiceName(u)
    else u.srvid.Some? && parse(filter) == Finite(u.srvid.value)
  }

  predicate Keep(u: ManagedUser, search: string, filter: string, parse: string -> Num)
  {
    MatchesSearch(u, search) && MatchesService(u, filter, parse)
  }

  /** `users.filter(...)`. */
  function FilteredUsers(users: seq<ManagedUser>, search: string, filter: string, parse: string -> Num): (r: seq<ManagedUser>)
    ensures forall u :: u in r <==> u in users && MatchesSearch(u, search) && MatchesService(u, filter, parse)
  {
    Filter(users, u => Keep(u, search, filter, parse))
  }

  /** The filtered list keeps the relative order of the table. */
  lemma FilteredIsSubsequence(users: seq<ManagedUser>, search: string, filter: string, parse: string -> Num)
    ensures IsSubsequence(FilteredUsers(users, search, filter, parse), users)
  {
    FilterIsSubsequence(users, u => Keep(u, search, filter, parse));
  }

  /** The empty string occurs in every string, so an empty search matches everyone. */
  lemma EmptySearchMatches(u: ManagedUser)
    ensures MatchesSearch(u, "")
  {
    assert Text.OccursAt(Text.Lower(u.username), "", 0);
  }

  /** With no search text and the 'all' filter the whole table is shown. */
  lemma NoFilterShowsAll(users: seq<ManagedUser>, parse: string -> Num)
    ensures FilteredUsers(users, "", "all", parse) == users
  {
    forall u | u in users ensures Keep(u, "", "all", parse) {
      EmptySearchMatches(u);
    }
    FilterAll(users, u => Keep(u, "", "all", parse));
  }

  lemma LowerIdempotent(s: string)
    ensures Text.Lower(Text.Lower(s)) == Text.Lower(s)
  {
  }

  /**
   * Case does not matter on either side: upper-casing letters of the search
   * text or of the user's columns gives the same answer. Stated as: the
   * answer depends only on the lower-cased texts.
   */
  lemma SearchIsCaseInsensitive(u: ManagedUser, v: ManagedUser, search: string, search': string)
    requires Text.Lower(search) == Text.Lower(search')
    requires Text.Lower(u.username) == Text.Lower(v.username)
    requires Text.Lower(u.firstname) == Text.Lower(v.firstname)
    requires Text.Lower(u.lastname) == Text.Lower(v.lastname)
    requires u.company.Some? <==> v.company.Some?
    requires u.company.Some? ==> Text.Lower(u.company.value) == Text.Lower(v.company.value)
    ensures MatchesSearch(u, search) <==> MatchesSearch(v, search')
  {
  }

  /** Typing the search in lower case changes nothing. */
  lemma LowerCaseSearch(u: ManagedUser, search: string)
    ensures MatchesSearch(u, search) <==> MatchesSearch(u, Text.Lower(search))
  {
    LowerIdempotent(search);
  }

  /** A search that occurs in the username matches, whatever the other columns hold. */
  lemma UsernameHitMatches(u: ManagedUser, search: string, i: int)
    requires Text.OccursAt(Text.Lower(u.username), Text.Lower(search), i)
    ensures MatchesSearch(u, search)
  {
  }

  /**
   * The badge text: 'Default' for the default plan, 'Unknown' for a missing
   * or empty plan name, the plan name otherwise.
   */
  function ServiceLabel(srvname: Option<string>): (r: string)
    ensures srvname == Some(DefaultService) ==> r == "Default"
    ensures srvname.None? || srvname == Some("") ==> r == "Unknown"
    ensures srvname.Some? && srvname.value !in {DefaultService, ""} ==> r == srvname.value
  {
    if srvname == Some(DefaultService) then "Default"
    else if srvname.Some? && srvname.value != "" then srvname.value
    else "Unknown"
  }

  /**
   * The 'default' filter and the badge agree: every user it keeps shows
   * 'Default' or 'Unknown', and every user shown with the default-plan
   * name or no name is kept (unless its name is literally 'Default' or
   * 'Unknown', which the badge cannot tell apart).
   */
  lemma DefaultFilterMatchesLabel(u: ManagedUser, parse: string -> Num)
    ensures MatchesService(u, "default", parse) ==> ServiceLabel(u.srvname) in {"Default", "Unknown"}
    ensures ServiceLabel(u.srvname) in {"Default", "Unknown"} && u.srvname !in {Some("Default"), Some("Unknown")} ==>
      MatchesService(u, "default", parse)
  {
  }

  /** The 'all' filter imposes nothing; a NaN filter keeps nobody. */
  lemma ServiceFilterCases(u: ManagedUser, filter: string, parse: string -> Num)
    ensures MatchesService(u, "all", parse)
    ensures filter !in {"all", "default"} && parse(filter) == NaN ==> !MatchesService(u, filter, parse)
    ensures filter !in {"all", "default"} && u.srvid.None? ==> !MatchesService(u, filter, parse)
  {
  }
}
