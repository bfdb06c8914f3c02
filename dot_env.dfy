/**
 * The hand-written `.env` reader at the top of scripts/inspect-all-schema.js:
 * the file is split into lines, each line is split on '=', and a line whose
 * first two pieces are both non-empty sets the trimmed key to the trimmed
 * value in the process environment. The environment refuses the empty
 * name (setenv fails and the failure is ignored), so a key that trims to
 * nothing sets nothing. A file that cannot be read changes nothing. Reading the file is the parameter `file` (None when it throws).
 */
module DotEnv {
  import opened Base
  import Text

  /**
   * `const [key, value] = line.split('=')` and `if (key && value)`: the
   * trimmed key and value, or None when the line assigns nothing. The test
   * is made before trimming.
   */
  function ParseLine(line: string): (r: Option<(string, string)>)
    ensures '=' !in line ==> r.None?
    ensures r.Some? ==> '=' !in r.value.0 && '=' !in r.value.1
  {
    var parts := Text.Split(line, '=');
    if |parts| >= 2 && parts[0] != "" && parts[1] != "" then
      assert '=' !in parts[0] && '=' !in parts[1];
      Some((Text.Trim(parts[0]), Text.Trim(parts[1])))
    else None
  }

  /** The environment after one line: the empty name is never set. */
  function ApplyLine(env: map<string, string>, line: string): (r: map<string, string>)
    ensures ParseLine(line).None? ==> r == env
    ensures ParseLine(line).Some? && ParseLine(line).value.0 == "" ==> r == env
    ensures ParseLine(line).Some? && ParseLine(line).value.0 != "" ==>
      r == env[ParseLine(line).value.0 := ParseLine(line).value.1]
  {
    match ParseLine(line)
    case None => env
    case Some((k, v)) => if k == "" then env else env[k := v]
  }

  /** The environment after the lines, applied first to last. */
  function ApplyLines(env: map<string, string>, lines: seq<string>): map<string, string>
  {
    if lines == [] then env
    else ApplyLine(ApplyLines(env, lines[..|lines| - 1]), lines[|lines| - 1])
  }

  /** Applying one more line of a file. */
  lemma ApplyLinesStep(env: map<string, string>, lines: seq<string>, i: int)
    requires 0 <= i < |lines|
    ensures ApplyLines(env, lines[..i + 1]) == ApplyLine(ApplyLines(env, lines[..i]), lines[i])
  {
    assert lines[..i + 1][..i] == lines[..i];
  }

  /** Whether a line sets key `k` (never the empty name). */
  predicate Assigns(line: string, k: string)
  {
    ParseLine(line).Some? && ParseLine(line).value.0 == k && k != ""
  }

  /** The process environment the script runs with. */
  class Environment {
    var vars: map<string, string>

    constructor(initial: map<string, string>)
      ensures vars == initial
    {
      vars := initial;
    }

    /** The `try` block: every line of the file, in order; nothing when it is missing. */
    method LoadDotEnv(file: Option<string>)
      modifies this
      ensures file.None? ==> vars == old(vars)
      ensures file.Some? ==> vars == ApplyLines(old(vars), Text.Split(file.value, '\n'))
    {
      if file.None? {
        return;
      }
      var lines := Text.Split(file.value, '\n');
      var i := 0;
      while i < |lines|
        invariant 0 <= i <= |lines|
        invariant vars == ApplyLines(old(vars), lines[..i])
      {
        var parsed := ParseLine(lines[i]);
        if parsed.Some? && parsed.value.0 != "" {
          vars := vars[parsed.value.0 := parsed.value.1];
        }
        ApplyLinesStep(old(vars), lines, i);
        i := i + 1;
      }
      assert lines[..|lines|] == lines;
    }
  }

  /** A line that does not assign `k` leaves it as it was. */
  lemma OtherLineKeeps(env: map<string, string>, line: string, k: string)
    requires !Assigns(line, k)
    ensures k in ApplyLine(env, line) <==> k in env
    ensures k in env ==> ApplyLine(env, line)[k] == env[k]
  {
  }

  /** A line that assigns a non-empty `k` sets it to the line's value. */
  lemma AssigningLineSets(env: map<string, string>, line: string, k: string, v: string)
    requires ParseLine(line) == Some((k, v)) && k != ""
    ensures k in ApplyLine(env, line) && ApplyLine(env, line)[k] == v
  {
  }

  /** A last line that does not assign `k` keeps the value the other lines gave it. */
  lemma KeptByLastLine(env: map<string, string>, lines: seq<string>, k: string, v: string)
    requires lines != [] && !Assigns(lines[|lines| - 1], k)
    requires var before := ApplyLines(env, lines[..|lines| - 1]); k in before && before[k] == v
    ensures k in ApplyLines(env, lines) && ApplyLines(env, lines)[k] == v
  {
    OtherLineKeeps(ApplyLines(env, lines[..|lines| - 1]), lines[|lines| - 1], k);
  }

  /** A last line assigning `k` decides its value. */
  lemma SetByLastLine(env: map<string, string>, lines: seq<string>, k: string, v: string)
    requires lines != [] && ParseLine(lines[|lines| - 1]) == Some((k, v)) && k != ""
    ensures k in ApplyLines(env, lines) && ApplyLines(env, lines)[k] == v
  {
    AssigningLineSets(ApplyLines(env, lines[..|lines| - 1]), lines[|lines| - 1], k, v);
  }

  /** Lines after the first `n` that do not assign `k` keep the value those `n` gave it. */
  lemma {:induction false} KeptBySuffix(env: map<string, string>, lines: seq<string>, n: int, k: string, v: string)
    requires 0 <= n <= |lines|
    requires k in ApplyLines(env, lines[..n]) && ApplyLines(env, lines[..n])[k] == v
    requires forall j :: n <= j < |lines| ==> !Assigns(lines[j], k)
    ensures k in ApplyLines(env, lines) && ApplyLines(env, lines)[k] == v
  {
    if n == |lines| {
      assert lines[..n] == lines;
    } else {
      var prefix := lines[..|lines| - 1];
      assert prefix[..n] == lines[..n];
      assert forall j :: n <= j < |prefix| ==> prefix[j] == lines[j];
      KeptBySuffix(env, prefix, n, k, v);
      KeptByLastLine(env, lines, k, v);
    }
  }

  /** The last line that assigns a key decides its value. */
  lemma LastAssignmentWins(env: map<string, string>, lines: seq<string>, i: int, k: string, v: string)
    requires 0 <= i < |lines| && ParseLine(lines[i]) == Some((k, v)) && k != ""
    requires forall j :: i < j < |lines| ==> !Assigns(lines[j], k)
    ensures k in ApplyLines(env, lines) && ApplyLines(env, lines)[k] == v
  {
    var upTo := lines[..i + 1];
    assert upTo[..i] == lines[..i] && upTo[i] == lines[i];
    SetByLastLine(env, upTo, k, v);
    KeptBySuffix(env, lines, i + 1, k, v);
  }

  /** A key no line assigns keeps whatever it had, or stays absent. */
  lemma {:induction false} UnassignedKeyUnchanged(env: map<string, string>, lines: seq<string>, k: string)
    requires forall j :: 0 <= j < |lines| ==> !Assigns(lines[j], k)
    ensures k in ApplyLines(env, lines) <==> k in env
    ensures k in env ==> ApplyLines(env, lines)[k] == env[k]
  {
    if lines != [] {
      var prefix := lines[..|lines| - 1];
      var before := ApplyLines(env, prefix);
      assert ApplyLines(env, lines) == ApplyLine(before, lines[|lines| - 1]);
      assert forall j :: 0 <= j < |prefix| ==> prefix[j] == lines[j];
      UnassignedKeyUnchanged(env, prefix, k);
      OtherLineKeeps(before, lines[|lines| - 1], k);
    }
  }

  /** No line sets the empty name: it is in the result only if it was before. */
  lemma EmptyNameNeverSet(env: map<string, string>, lines: seq<string>)
    ensures "" in ApplyLines(env, lines) <==> "" in env
    ensures "" in env ==> ApplyLines(env, lines)[""] == env[""]
  {
    UnassignedKeyUnchanged(env, lines, "");
  }

  /** A line is split at its first '=': the key is what precedes it, the value the next piece. */
  lemma ParseLeading(key: string, tail: string, value: string, more: seq<string>)
    requires '=' !in key
    requires Text.Split(tail, '=') == [value] + more
    ensures ParseLine(key + "=" + tail) ==
      if key != "" && value != "" then Some((Text.Trim(key), Text.Trim(value))) else None
  {
    Text.SplitAfterPiece(key, '=', tail);
    assert [key] + ([value] + more) == [key, value] + more;
  }

  /** Only the pieces before the first and second '=' are used: a value is cut at its own '='. */
  lemma ValueTruncatedAtEquals(key: string, value: string, rest: string)
    requires '=' !in key && '=' !in value && key != "" && value != ""
    ensures ParseLine(key + "=" + value + "=" + rest) == Some((Text.Trim(key), Text.Trim(value)))
  {
    var tail := value + "=" + rest;
    Text.SplitAfterPiece(value, '=', rest);
    ParseLeading(key, tail, value, Text.Split(rest, '='));
    calc {
      key + "=" + value + "=" + rest;
      { Text.AppendAssoc(key + "=", value, "="); }
      (key + "=") + (value + "=") + rest;
      { Text.AppendAssoc(key + "=", value + "=", rest); }
      (key + "=") + tail;
    }
  }

  /** A line `key=value` with neither side holding '=' assigns exactly the trimmed pair. */
  lemma SingleAssignment(key: string, value: string)
    requires '=' !in key && '=' !in value && key != "" && value != ""
    ensures ParseLine(key + "=" + value) == Some((Text.Trim(key), Text.Trim(value)))
  {
    assert Text.Split(value, '=') == [value] + [];
    ParseLeading(key, value, value, []);
  }

  /** An empty key or an empty value (before trimming) assigns nothing. */
  lemma EmptySideAssignsNothing(key: string, tail: string)
    requires '=' !in key
    requires key == "" || tail == "" || tail[0] == '='
    ensures ParseLine(key + "=" + tail).None?
  {
    var pieces := Text.Split(tail, '=');
    if tail != [] && tail[0] == '=' {
      Text.SplitAfterPiece([], '=', tail[1..]);
      assert [] + ['='] + tail[1..] == tail;
      assert pieces[0] == [];
    } else if tail == [] {
      assert pieces[0] == [];
    }
    assert pieces == [pieces[0]] + pieces[1..];
    ParseLeading(key, tail, pieces[0], pieces[1..]);
  }

  /** A key of blanks is trimmed to the empty name. */
  lemma TrimBlank()
    ensures Text.Trim(" ") == ""
  {
    assert Text.TrimStart(" ") == Text.TrimStart("");
  }

  /**
   * The test is made before trimming: a key of blanks passes it, and the
   * line then asks for the empty name, which the environment refuses.
   */
  lemma BlankKeyAssignsNothing(env: map<string, string>, value: string)
    requires '=' !in value && value != ""
    ensures ParseLine(" =" + value) == Some(("", Text.Trim(value)))
    ensures ApplyLine(env, " =" + value) == env
  {
    var blank := " ";
    var line := blank + "=" + value;
    assert line == " =" + value;
    SingleAssignment(blank, value);
    var key := Text.Trim(blank);
    TrimBlank();
    assert key == "";
    assert ParseLine(line) == Some((key, Text.Trim(value)));
  }
}
