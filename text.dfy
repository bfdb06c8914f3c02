/**
 * The JavaScript string operations the core relies on, over `seq<char>`:
 * `toLowerCase` (ASCII letters), `includes`, `startsWith`, `join`, `split`
 * on one character, `trim`, and number-to-text conversion, with the value
 * the digits denote as its reference.
 */
module Text {

  function LowerChar(c: char): char
  {
    if 'A' <= c <= 'Z' then (c as int - 'A' as int + 'a' as int) as char else c
  }

  /** `s.toLowerCase()` for ASCII letters; every other character is kept. */
  function Lower(s: string): (r: string)
    ensures |r| == |s|
    ensures forall i :: 0 <= i < |s| ==> r[i] == LowerChar(s[i])
  {
    seq(|s|, i requires 0 <= i < |s| => LowerChar(s[i]))
  }

  predicate OccursAt(s: string, sub: string, i: int)
  {
    0 <= i && i + |sub| <= |s| && s[i..i + |sub|] == sub
  }

  /** `s.includes(sub)`; the empty string occurs in every string. */
  predicate Contains(s: string, sub: string)
  {
    exists i :: 0 <= i <= |s| && OccursAt(s, sub, i)
  }

  /** `s.startsWith(prefix)`. */
  predicate StartsWith(s: string, prefix: string)
  {
    |prefix| <= |s| && s[..|prefix|] == prefix
  }

  lemma PrefixChar(s: string, prefix: string, i: int)
    requires StartsWith(s, prefix) && 0 <= i < |prefix|
    ensures s[i] == prefix[i]
  {
    assert s[..|prefix|][i] == s[i];
  }

  /** `parts.join(sep)`. */
  function Join(parts: seq<string>, sep: string): string
  {
    if |parts| == 0 then ""
    else if |parts| == 1 then parts[0]
    else parts[0] + sep + Join(parts[1..], sep)
  }

  /** Concatenation is associative. */
  lemma AppendAssoc(a: string, b: string, c: string)
    ensures (a + b) + c == a + (b + c)
  {
  }

  function IndexOf(s: string, c: char): (i: nat)
    requires c in s
    ensures i < |s| && s[i] == c && c !in s[..i]
  {
    if s[0] == c then 0
    else
      assert c in s[1..];
      var k := IndexOf(s[1..], c);
      assert s[..k + 1] == [s[0]] + s[1..][..k];
      k + 1
  }

  /** `s.split(c)`: the pieces between the occurrences of `c`. */
  function Split(s: string, c: char): (r: seq<string>)
    ensures |r| >= 1
    ensures forall i :: 0 <= i < |r| ==> c !in r[i]
    decreases |s|
  {
    if c !in s then [s]
    else
      var i := IndexOf(s, c);
      [s[..i]] + Split(s[i + 1..], c)
  }

  /** Joining the pieces with the separator gives the text back. */
  lemma {:induction false} SplitJoin(s: string, c: char)
    ensures Join(Split(s, c), [c]) == s
    decreases |s|
  {
    if c in s {
      var i := IndexOf(s, c);
      var piece, tail := s[..i], s[i + 1..];
      var rest := Split(tail, c);
      assert Split(s, c) == [piece] + rest;
      JoinCons(piece, rest, [c]);
      SplitJoin(tail, c);
      assert s == piece + [c] + tail;
    }
  }

  /** Joining a first part onto a non-empty rest puts one separator between them. */
  lemma JoinCons(first: string, rest: seq<string>, sep: string)
    requires rest != []
    ensures Join([first] + rest, sep) == first + sep + Join(rest, sep)
  {
    assert ([first] + rest)[1..] == rest;
  }


  lemma {:induction false} SplitAfterPiece(piece: string, c: char, tail: string)
    requires c !in piece
    ensures Split(piece + [c] + tail, c) == [piece] + Split(tail, c)
  {
    var s := piece + [c] + tail;
    assert s[|piece|] == c;
    assert c in s;
    var i := IndexOf(s, c);
    assert s[..i] == piece;
    assert s[i + 1..] == tail;
  }

  predicate IsSpace(c: char)
  {
    c == ' ' || c == '\t' || c == '\n' || c == '\r' || c == '\U{000B}' || c == '\U{000C}'
  }

  predicate AllSpace(s: string)
  {
    forall i :: 0 <= i < |s| ==> IsSpace(s[i])
  }

  /** `s` is `r` with white space before it (up to `i`) and after it. */
  predicate Padded(s: string, r: string, i: int)
  {
    0 <= i && i + |r| <= |s| && s[i..i + |r|] == r && AllSpace(s[..i]) && AllSpace(s[i + |r|..])
  }

  function TrimStart(s: string): (r: string)
    ensures r == [] || !IsSpace(r[0])
    ensures |r| <= |s| && r == s[|s| - |r|..] && AllSpace(s[..|s| - |r|])
  {
    if s != [] && IsSpace(s[0]) then
      var r := TrimStart(s[1..]);
      assert s[..|s| - |r|] == [s[0]] + s[1..][..|s| - 1 - |r|];
      r
    else s
  }

  function TrimEnd(s: string): (r: string)
    ensures r == [] || !IsSpace(r[|r| - 1])
    ensures |r| <= |s| && r == s[..|r|] && AllSpace(s[|r|..])
  {
    if s != [] && IsSpace(s[|s| - 1]) then
      var r := TrimEnd(s[..|s| - 1]);
      assert s[|r|..] == s[..|s| - 1][|r|..] + [s[|s| - 1]];
      r
    else s
  }

  /**
   * `s.trim()` with the ASCII white-space characters: `s` is the result with
   * white space before and after it, and the result neither starts nor ends
   * with white space.
   */
  function Trim(s: string): (r: string)
    ensures r == [] || (!IsSpace(r[0]) && !IsSpace(r[|r| - 1]))
    ensures exists i :: Padded(s, r, i)
  {
    Trimmed(s);
    TrimEnd(TrimStart(s))
  }

  lemma {:induction false} Trimmed(s: string)
    ensures var r := TrimEnd(TrimStart(s));
      (r == [] || (!IsSpace(r[0]) && !IsSpace(r[|r| - 1]))) && exists i :: Padded(s, r, i)
  {
    var a := TrimStart(s);
    var r := TrimEnd(a);
    TrimPadded(s, a, r);
    if r != [] {
      assert r[0] == a[0];
    }
  }

  lemma {:induction false} TrimPadded(s: string, a: string, r: string)
    requires |a| <= |s| && a == s[|s| - |a|..] && AllSpace(s[..|s| - |a|])
    requires |r| <= |a| && r == a[..|r|] && AllSpace(a[|r|..])
    ensures Padded(s, r, |s| - |a|)
  {
    var i := |s| - |a|;
    assert s[i..i + |r|] == a[..|r|];
    assert s[i + |r|..] == a[|r|..];
  }

  function DigitChar(d: nat): (c: char)
    requires d < 10
    ensures '0' <= c <= '9'
  {
    ('0' as int + d) as char
  }

  predicate IsDigits(s: string)
  {
    forall i :: 0 <= i < |s| ==> '0' <= s[i] <= '9'
  }

  /** At least one digit, and no '0' in front of another digit. */
  predicate NoLeadingZero(s: string)
  {
    |s| >= 1 && (s[0] != '0' || |s| == 1)
  }

  /** The number a string of decimal digits denotes, read from the left. */
  function DigitsValue(s: string): int
  {
    if s == [] then 0 else 10 * DigitsValue(s[..|s| - 1]) + (s[|s| - 1] as int - '0' as int)
  }

  /** Decimal text of a natural number, without leading zeros. */
  function NatToString(n: nat): (r: string)
    ensures IsDigits(r) && NoLeadingZero(r)
    ensures DigitsValue(r) == n
  {
    if n < 10 then [DigitChar(n)]
    else
      var p := NatToString(n / 10);
      var r := p + [DigitChar(n % 10)];
      assert r[..|r| - 1] == p;
      r
  }

  /** Digits without leading zeros are the text of the number they denote. */
  lemma {:induction false} NatToStringOfDigits(s: string)
    requires IsDigits(s) && NoLeadingZero(s)
    ensures DigitsValue(s) >= 0 && NatToString(DigitsValue(s)) == s
    decreases |s|
  {
    if |s| > 1 {
      var p := s[..|s| - 1];
      DigitsPrefix(s);
      NatToStringOfDigits(p);
      LeadingDigitPositive(p);
      AppendDigit(s);
    } else {
      SingleDigit(s);
    }
  }

  lemma {:induction false} SingleDigit(s: string)
    requires |s| == 1 && '0' <= s[0] <= '9'
    ensures DigitsValue(s) == s[0] as int - '0' as int && NatToString(DigitsValue(s)) == s
  {
    assert s[..0] == [];
    var d := s[0] as int - '0' as int;
    assert DigitChar(d) == s[0];
  }

  /** Dropping the last of several digits keeps the leading digit and divides the value by ten. */
  lemma {:induction false} DigitsPrefix(s: string)
    requires IsDigits(s) && NoLeadingZero(s) && |s| > 1
    ensures var p := s[..|s| - 1];
      IsDigits(p) && |p| >= 1 && p[0] == s[0] && p[0] != '0' && NoLeadingZero(p) &&
      DigitsValue(s) == 10 * DigitsValue(p) + (s[|s| - 1] as int - '0' as int) && '0' <= s[|s| - 1] <= '9'
  {
  }

  lemma {:induction false} AppendDigit(s: string)
    requires IsDigits(s) && NoLeadingZero(s) && |s| > 1
    requires DigitsValue(s[..|s| - 1]) >= 1 && NatToString(DigitsValue(s[..|s| - 1])) == s[..|s| - 1]
    ensures DigitsValue(s) >= 0 && NatToString(DigitsValue(s)) == s
  {
    var p, c := s[..|s| - 1], s[|s| - 1];
    DigitsPrefix(s);
    var n := DigitsValue(s);
    LastDigit(p, c, DigitsValue(p), n);
    assert s == p + [c];
    assert NatToString(n) == s;
  }

  /** Appending a digit to the text of a positive number gives the text of ten times it plus the digit. */
  lemma {:induction false} LastDigit(p: string, c: char, q: nat, n: nat)
    requires '0' <= c <= '9' && q >= 1 && NatToString(q) == p
    requires n == 10 * q + (c as int - '0' as int)
    ensures NatToString(n) == p + [c]
  {
    var d := c as int - '0' as int;
    DivTen(q, d);
    assert DigitChar(d) == c;
  }

  lemma DivTen(q: nat, d: int)
    requires 0 <= d < 10
    ensures (10 * q + d) / 10 == q && (10 * q + d) % 10 == d
  {
  }

  lemma {:induction false} LeadingDigitPositive(s: string)
    requires IsDigits(s) && |s| >= 1 && s[0] != '0'
    ensures DigitsValue(s) >= 1
    decreases |s|
  {
    if |s| > 1 {
      var p := s[..|s| - 1];
      assert p[0] == s[0];
      LeadingDigitPositive(p);
    }
  }

  /** The text of a number holds only digits and the minus sign. */
  lemma IntToStringPlain(n: int)
    ensures ',' !in IntToString(n) && '"' !in IntToString(n) && '\n' !in IntToString(n)
  {
    var r := IntToString(n);
    var d := if n < 0 then r[1..] else r;
    forall i | 0 <= i < |r| ensures r[i] == '-' || '0' <= r[i] <= '9' {
      if n < 0 && i > 0 {
        assert r[i] == d[i - 1];
      }
    }
  }

  /** `String(n)` for an integer: a minus sign before negative values. */
  function IntToString(n: int): (r: string)
    ensures n >= 0 ==> IsDigits(r) && NoLeadingZero(r) && DigitsValue(r) == n
    ensures n < 0 ==> |r| >= 2 && r[0] == '-' && IsDigits(r[1..]) && NoLeadingZero(r[1..]) && DigitsValue(r[1..]) == -n
  {
    if n < 0 then
      var d := NatToString(-n);
      assert ("-" + d)[1..] == d;
      "-" + d
    else NatToString(n)
  }

  /** `s.split(c)[0]`: the text before the first `c`, or all of `s`. */
  function Before(s: string, c: char): (r: string)
    ensures c !in r && StartsWith(s, r)
    ensures r == s || (|r| < |s| && s[|r|] == c)
  {
    if c in s then s[..IndexOf(s, c)] else s
  }
}
