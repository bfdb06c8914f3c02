/**
 * The two CSV report routes: src/app/api/reports/inactive-users/route.ts and
 * src/app/api/reports/top-usage/route.ts. Each writes a fixed header line
 * and one line per row, every field enclosed in double quotes, lines joined
 * by '\n'. `iso` stands for `new Date(t).toISOString()` and `valid` for
 * whether `new Date(t)` is a valid date (toISOString throws otherwise), `gb`
 * for the gigabyte figure of a byte total as JavaScript prints it; `fault`
 * for the query throwing. The response headers are left out.
 */
module Reports {
  import opened Base
  import Text
  import Csv
  import opened Schema
  import DashboardData

  const InactiveThresholdDays := 90
  const TopUsageLimit := 50
  const InactiveColumns := ["Username", "First Name", "Last Name", "Company", "Last Login", "Days Inactive"]
  const TopUsageColumns := ["Username", "First Name", "Last Name", "Total Download (GB)", "Total Upload (GB)", "Total Usage (GB)"]
  /** The header line: the column names joined by commas, then a line feed. */
  const InactiveHeader := Text.Join(InactiveColumns, ",") + "\n"
  const TopUsageHeader := Text.Join(TopUsageColumns, ",") + "\n"
  const ReportFailed := "Failed to generate report"

  /** The route's answer: the CSV text, or a JSON error with its status. */
  datatype ReportResponse = CsvBody(text: string) | JsonError(status: nat, error: string)

  /** `"${x}"`: the text between double quotes, nothing escaped. */
  function Wrap(x: string): (r: string)
    ensures |r| == |x| + 2 && r[0] == '"' && r[|r| - 1] == '"' && r[1..|r| - 1] == x
  {
    "\"" + x + "\""
  }

  /** `x || ''` */
  function OrEmpty(x: Option<string>): (r: string)
    ensures x.Some? ==> r == x.value
    ensures x.None? ==> r == ""
  {
    if x.Some? then x.value else ""
  }

  /** The date part of the ISO timestamp, or 'Never' for a user who never connected. */
  function LastLoginText(lastLogin: Option<int>, iso: int -> string): (r: string)
    ensures lastLogin.None? ==> r == "Never"
    ensures lastLogin.Some? ==> 'T' !in r && Text.StartsWith(iso(lastLogin.value), r)
    ensures lastLogin.Some? ==> r == iso(lastLogin.value) || iso(lastLogin.value)[|r|] == 'T'
  {
    if lastLogin.Some? then Text.Before(iso(lastLogin.value), 'T') else "Never"
  }

  /** `daysInactive || ''`: null and 0 give an empty field. */
  function DaysText(days: Option<int>): (r: string)
    ensures r == "" <==> days.None? || days == Some(0)
  {
    if days.Some? && days.value != 0 then Text.IntToString(days.value) else ""
  }

  /** The six values of one inactive-user line, unquoted. */
  function InactiveFields(u: DashboardData.InactiveUser, iso: int -> string): (f: seq<string>)
    ensures |f| == 6 && f[0] == u.username
    ensures f[1] == OrEmpty(u.firstname) && f[2] == OrEmpty(u.lastname) && f[3] == OrEmpty(u.company)
    ensures f[4] == LastLoginText(u.lastLogin, iso) && f[5] == DaysText(u.daysInactive)
  {
    [u.username, OrEmpty(u.firstname), OrEmpty(u.lastname), OrEmpty(u.company),
     LastLoginText(u.lastLogin, iso), DaysText(u.daysInactive)]
  }

  /** The six values of one top-usage line, unquoted. */
  function TopFields(u: DashboardData.TopDataUser, gb: int -> string): (f: seq<string>)
    ensures |f| == 6 && f[0] == u.username
    ensures f[1] == OrEmpty(u.firstname) && f[2] == OrEmpty(u.lastname)
    ensures f[3] == gb(u.totalDownload) && f[4] == gb(u.totalUpload) && f[5] == gb(u.totalUsage)
  {
    [u.username, OrEmpty(u.firstname), OrEmpty(u.lastname),
     gb(u.totalDownload), gb(u.totalUpload), gb(u.totalUsage)]
  }

  /** A line: each value wrapped in quotes, joined by commas. */
  function QuotedLine(fields: seq<string>): string
  {
    Text.Join(seq(|fields|, j requires 0 <= j < |fields| => Wrap(fields[j])), ",")
  }

  /** The header line followed by the given lines joined by '\n', no trailing line feed. */
  function Report(header: string, lines: seq<string>): string
  {
    header + Text.Join(lines, "\n")
  }

  function InactiveReport(rows: seq<DashboardData.InactiveUser>, iso: int -> string): string
  {
    Report(InactiveHeader, seq(|rows|, i requires 0 <= i < |rows| => QuotedLine(InactiveFields(rows[i], iso))))
  }

  function TopUsageReport(rows: seq<DashboardData.TopDataUser>, gb: int -> string): string
  {
    Report(TopUsageHeader, seq(|rows|, i requires 0 <= i < |rows| => QuotedLine(TopFields(rows[i], gb))))
  }

  /** Every last login among the rows is a valid date, so no `toISOString` throws. */
  predicate DatesValid(rows: seq<DashboardData.InactiveUser>, valid: int -> bool)
  {
    forall i :: 0 <= i < |rows| && rows[i].lastLogin.Some? ==> valid(rows[i].lastLogin.value)
  }

  /**
   * GET of the inactive-users report: getInactiveUsers(90), or a 500 when the
   * query throws or a last login is an invalid date.
   */
  function GetInactiveReport(users: seq<RmUser>, sessions: seq<Session>, now: int,
                             iso: int -> string, valid: int -> bool, fault: bool): (r: ReportResponse)
    ensures fault ==> r == JsonError(500, ReportFailed)
    ensures var rows := DashboardData.GetInactiveUsers(users, sessions, now, InactiveThresholdDays);
      !fault && !DatesValid(rows, valid) ==> r == JsonError(500, ReportFailed)
    ensures var rows := DashboardData.GetInactiveUsers(users, sessions, now, InactiveThresholdDays);
      !fault && DatesValid(rows, valid) ==> r == CsvBody(InactiveReport(rows, iso))
  {
    var rows := DashboardData.GetInactiveUsers(users, sessions, now, InactiveThresholdDays);
    if fault || !DatesValid(rows, valid) then JsonError(500, ReportFailed)
    else CsvBody(InactiveReport(rows, iso))
  }

  /** GET of the top-usage report: getTopDataUsers(50), or a 500. */
  function GetTopUsageReport(daily: seq<DailyAcct>, users: seq<RmUser>, gb: int -> string, fault: bool): (r: ReportResponse)
    ensures fault ==> r == JsonError(500, ReportFailed)
    ensures !fault ==> r == CsvBody(TopUsageReport(DashboardData.GetTopDataUsers(daily, users, TopUsageLimit), gb))
  {
    if fault then JsonError(500, ReportFailed)
    else CsvBody(TopUsageReport(DashboardData.GetTopDataUsers(daily, users, TopUsageLimit), gb))
  }

  /** A value without double quotes, wrapped, is a conforming quoted field. */
  lemma WrapIsQuote(x: string)
    requires '"' !in x
    ensures Csv.Written(Wrap(x), x)
  {
    assert Csv.DoubleQuotes(x) == x;
  }

  /** A quoted line of values without double quotes reads back as those values. */
  lemma QuotedLineReads(fields: seq<string>)
    requires fields != []
    requires forall j :: 0 <= j < |fields| ==> '"' !in fields[j]
    ensures Csv.LineReads(QuotedLine(fields), fields)
  {
    var cells := seq(|fields|, j requires 0 <= j < |fields| => Wrap(fields[j]));
    forall j | 0 <= j < |fields| ensures Csv.Written(cells[j], fields[j]) {
      WrapIsQuote(fields[j]);
    }
    Csv.JoinedLineReads(cells, fields);
  }

  /** Column names without separators, quotes or line feeds form a line that reads back as them. */
  lemma PlainColumnsRead(columns: seq<string>)
    requires columns != []
    requires forall j :: 0 <= j < |columns| ==> !Csv.NeedsQuotes(columns[j])
    ensures Csv.LineReads(Text.Join(columns, ","), columns)
  {
    Csv.JoinedLineReads(columns, columns);
  }

  /** No column name of either report holds a comma, a double quote or a line feed. */
  lemma InactiveColumnsArePlain()
    ensures forall j :: 0 <= j < |InactiveColumns| ==> !Csv.NeedsQuotes(InactiveColumns[j])
  {
    forall j | 0 <= j < |InactiveColumns| ensures !Csv.NeedsQuotes(InactiveColumns[j]) {
      if j == 0 {
        assert !Csv.NeedsQuotes("Username");
      } else if j == 1 {
        assert !Csv.NeedsQuotes("First Name");
      } else if j == 2 {
        assert !Csv.NeedsQuotes("Last Name");
      } else if j == 3 {
        assert !Csv.NeedsQuotes("Company");
      } else if j == 4 {
        assert !Csv.NeedsQuotes("Last Login");
      } else {
        assert !Csv.NeedsQuotes("Days Inactive");
      }
    }
  }

  lemma TopUsageColumnsArePlain()
    ensures forall j :: 0 <= j < |TopUsageColumns| ==> !Csv.NeedsQuotes(TopUsageColumns[j])
  {
    forall j | 0 <= j < |TopUsageColumns| ensures !Csv.NeedsQuotes(TopUsageColumns[j]) {
      if j < 3 {
        InactiveColumnsArePlain();
        assert TopUsageColumns[j] == InactiveColumns[j];
      } else if j == 3 {
        assert !Csv.NeedsQuotes("Total Download (GB)");
      } else if j == 4 {
        assert !Csv.NeedsQuotes("Total Upload (GB)");
      } else {
        assert !Csv.NeedsQuotes("Total Usage (GB)");
      }
    }
  }

  /** The header line, read back, gives the column names. */
  lemma HeaderLine(columns: seq<string>, header: string)
    requires (columns == InactiveColumns && header == InactiveHeader) ||
             (columns == TopUsageColumns && header == TopUsageHeader)
    ensures header == Text.Join(columns, ",") + "\n"
    ensures Csv.LineReads(Text.Join(columns, ","), columns)
  {
    InactiveColumnsArePlain();
    TopUsageColumnsArePlain();
    PlainColumnsRead(columns);
  }

  /**
   * A report with at least one row reads back as the column names followed
   * by one record per row, in order, provided no value holds a double quote
   * (values are wrapped without escaping).
   */
  lemma ReportReadsBack(columns: seq<string>, header: string, lines: seq<string>, records: seq<seq<string>>)
    requires (columns == InactiveColumns && header == InactiveHeader) ||
             (columns == TopUsageColumns && header == TopUsageHeader)
    requires |lines| == |records| >= 1
    requires forall i :: 0 <= i < |lines| ==> Csv.LineReads(lines[i], records[i])
    ensures Csv.ReadFile(Report(header, lines)) == [columns] + records
  {
    HeaderLine(columns, header);
    var first := Text.Join(columns, ",");
    Csv.ReadJoinedFile(lines, records);
    Csv.ReadFileStep(first, columns, Text.Join(lines, "\n"));
  }


  /** The inactive-users report reads back as its columns and each row's six values. */
  lemma InactiveReportReadsBack(rows: seq<DashboardData.InactiveUser>, iso: int -> string)
    requires rows != []
    requires forall i, j :: 0 <= i < |rows| && 0 <= j < 6 ==> '"' !in InactiveFields(rows[i], iso)[j]
    ensures Csv.ReadFile(InactiveReport(rows, iso)) ==
      [InactiveColumns] + seq(|rows|, i requires 0 <= i < |rows| => InactiveFields(rows[i], iso))
  {
    var lines := seq(|rows|, i requires 0 <= i < |rows| => QuotedLine(InactiveFields(rows[i], iso)));
    var records := seq(|rows|, i requires 0 <= i < |rows| => InactiveFields(rows[i], iso));
    forall i | 0 <= i < |rows| ensures Csv.LineReads(lines[i], records[i]) {
      QuotedLineReads(records[i]);
    }
    ReportReadsBack(InactiveColumns, InactiveHeader, lines, records);
  }

  /** The top-usage report reads back as its columns and each row's six values. */
  lemma TopUsageReportReadsBack(rows: seq<DashboardData.TopDataUser>, gb: int -> string)
    requires rows != []
    requires forall i, j :: 0 <= i < |rows| && 0 <= j < 6 ==> '"' !in TopFields(rows[i], gb)[j]
    ensures Csv.ReadFile(TopUsageReport(rows, gb)) ==
      [TopUsageColumns] + seq(|rows|, i requires 0 <= i < |rows| => TopFields(rows[i], gb))
  {
    var lines := seq(|rows|, i requires 0 <= i < |rows| => QuotedLine(TopFields(rows[i], gb)));
    var records := seq(|rows|, i requires 0 <= i < |rows| => TopFields(rows[i], gb));
    forall i | 0 <= i < |rows| ensures Csv.LineReads(lines[i], records[i]) {
      QuotedLineReads(records[i]);
    }
    ReportReadsBack(TopUsageColumns, TopUsageHeader, lines, records);
  }

  /** With no rows the report is the header line alone, its line feed included. */
  lemma EmptyReport(iso: int -> string, gb: int -> string)
    ensures InactiveReport([], iso) == InactiveHeader
    ensures TopUsageReport([], gb) == TopUsageHeader
  {
    assert InactiveHeader + "" == InactiveHeader;
    assert TopUsageHeader + "" == TopUsageHeader;
  }

  lemma DatedDaysAtLeastThreshold(users: seq<RmUser>, sessions: seq<Session>, now: int, row: DashboardData.InactiveUser)
    requires row in DashboardData.GetInactiveUsers(users, sessions, now, InactiveThresholdDays)
    ensures row.daysInactive.Some? ==> row.daysInactive.value >= InactiveThresholdDays
  {
    DashboardData.InactiveDaysAtLeastThreshold(users, sessions, now, InactiveThresholdDays);
  }

  lemma NeverConnectedHasNoDays(users: seq<RmUser>, sessions: seq<Session>, now: int, row: DashboardData.InactiveUser)
    requires row in DashboardData.GetInactiveUsers(users, sessions, now, InactiveThresholdDays)
    ensures row.lastLogin.None? ==> row.daysInactive.None?
  {
    DashboardData.InCandidates(users, sessions, now, InactiveThresholdDays, row);
  }

  /**
   * In the inactive report every Days Inactive figure is that of a user idle
   * for at least 90 days, and a user who never connected has an empty field.
   */
  lemma InactiveReportDays(users: seq<RmUser>, sessions: seq<Session>, now: int, row: DashboardData.InactiveUser)
    requires row in DashboardData.GetInactiveUsers(users, sessions, now, InactiveThresholdDays)
    ensures row.daysInactive.Some? ==>
      row.daysInactive.value >= InactiveThresholdDays && DaysText(row.daysInactive) == Text.IntToString(row.daysInactive.value)
    ensures row.lastLogin.None? ==> DaysText(row.daysInactive) == ""
  {
    DatedDaysAtLeastThreshold(users, sessions, now, row);
    NeverConnectedHasNoDays(users, sessions, now, row);
    DaysTextOfPositive(row.daysInactive);
  }

  lemma DaysTextOfPositive(days: Option<int>)
    ensures days.Some? && days.value > 0 ==> DaysText(days) == Text.IntToString(days.value)
  {
  }

  /** The top-usage report has at most 50 lines. */
  lemma TopUsageAtMostFifty(daily: seq<DailyAcct>, users: seq<RmUser>)
    ensures |DashboardData.GetTopDataUsers(daily, users, TopUsageLimit)| <= 50
  {
  }
}
