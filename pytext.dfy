/**
 * The handful of Python string operations the zone maintainer relies on, as functions on
 * `seq<char>`: whitespace splitting (`str.split()`), reading a file line by line with the
 * newline stripped, `str.find`, the slice `s[:k]` with Python's negative indices, and
 * tab joining and splitting (`'\t'.join`, `str.split('\t')`).
 */
module PyText {

  /** The characters Python 2's `str.split()` treats as separators. */
  predicate IsSpace(c: char) {
    c == ' ' || c == '\t' || c == '\n' || c == '\r' || c == '\U{000B}' || c == '\U{000C}'
  }

  /** A non-empty string with no whitespace: what `str.split()` can hand back. */
  predicate IsToken(t: string) {
    t != [] && forall i :: 0 <= i < |t| ==> !IsSpace(t[i])
  }

  /** `suf` is a suffix of `s`. */
  predicate IsSuffix(suf: string, s: string) {
    |suf| <= |s| && s[|s| - |suf|..] == suf
  }

  // ---------------------------------------------------------------- str.split()

  /** The first whitespace position at or after `i`, or `|s|`. */
  function TokenEnd(s: string, i: nat): (k: nat)
    requires i <= |s|
    ensures i <= k <= |s|
    ensures forall j :: i <= j < k ==> !IsSpace(s[j])
    ensures k < |s| ==> IsSpace(s[k])
    decreases |s| - i
  {
    if i == |s| || IsSpace(s[i]) then i else TokenEnd(s, i + 1)
  }

  /** Python's `s.split()`: the maximal runs of non-whitespace characters, in order. */
  function Tokens(s: string): (ts: seq<string>)
    ensures forall k :: 0 <= k < |ts| ==> IsToken(ts[k])
    decreases |s|
  {
    if s == [] then []
    else if IsSpace(s[0]) then Tokens(s[1..])
    else
      var k := TokenEnd(s, 0);
      [s[..k]] + Tokens(s[k..])
  }

  lemma TokenEndOfToken(t: string, rest: string)
    requires IsToken(t)
    requires rest == [] || IsSpace(rest[0])
    ensures TokenEnd(t + rest, 0) == |t|
  {
    var s := t + rest;
    assert forall j :: 0 <= j < |t| ==> s[j] == t[j];
    assert rest != [] ==> s[|t|] == rest[0];
  }

  /** A token followed by a separator and more text splits off as the first token. */
  lemma TokensOfTokenThen(t: string, sep: char, rest: string)
    requires IsToken(t) && IsSpace(sep)
    ensures Tokens(t + [sep] + rest) == [t] + Tokens(rest)
  {
    var s := t + [sep] + rest;
    assert s == t + ([sep] + rest);
    TokenEndOfToken(t, [sep] + rest);
    assert s[0] == t[0];
    assert s[..|t|] == t;
    assert s[|t|..] == [sep] + rest;
    assert ([sep] + rest)[1..] == rest;
  }

  /** A single token splits into itself. */
  lemma TokensOfToken(t: string)
    requires IsToken(t)
    ensures Tokens(t) == [t]
  {
    TokenEndOfToken(t, []);
    assert t + [] == t;
    assert t[0] == t[0];
    assert t[|t|..] == [];
  }

  // ---------------------------------------------------------------- tab-separated columns

  /** The columns joined with one tab between neighbours: Python's `'\t'.join(cols)`. */
  function JoinTab(cols: seq<string>): string
    requires |cols| > 0
  {
    if |cols| == 1 then cols[0] else cols[0] + "\t" + JoinTab(cols[1..])
  }

  /** Python's `s.split('\t')`: the pieces between tabs, always at least one. */
  function SplitTab(s: string): (parts: seq<string>)
    ensures |parts| >= 1
    ensures forall k :: 0 <= k < |parts| ==> '\t' !in parts[k]
    decreases |s|
  {
    if '\t' !in s then [s]
    else
      var k := IndexOf(s, '\t');
      [s[..k]] + SplitTab(s[k + 1..])
  }

  /** The first position of `c` in `s`. */
  function IndexOf(s: string, c: char): (k: nat)
    requires c in s
    ensures k < |s| && s[k] == c && c !in s[..k]
  {
    if s[0] == c then 0
    else
      assert c in s[1..] by { var j :| 0 <= j < |s| && s[j] == c; assert s[1..][j - 1] == c; }
      var k := 1 + IndexOf(s[1..], c);
      assert s[..k] == [s[0]] + s[1..][..k - 1];
      k
  }

  lemma IndexOfFirst(a: string, c: char, rest: string)
    requires c !in a
    ensures IndexOf(a + [c] + rest, c) == |a|
  {
    var s := a + [c] + rest;
    assert s[|a|] == c;
    assert forall j :: 0 <= j < |a| ==> s[j] == a[j];
  }

  /** Splitting tab-joined columns on tabs gives the columns back, when none holds a tab. */
  lemma {:induction false} SplitTabJoinTab(cols: seq<string>)
    requires |cols| > 0
    requires forall k :: 0 <= k < |cols| ==> '\t' !in cols[k]
    ensures SplitTab(JoinTab(cols)) == cols
  {
    if |cols| > 1 {
      var rest := JoinTab(cols[1..]);
      assert JoinTab(cols) == cols[0] + ['\t'] + rest;
      IndexOfFirst(cols[0], '\t', rest);
      var s := cols[0] + ['\t'] + rest;
      assert s[..|cols[0]|] == cols[0];
      assert s[|cols[0]| + 1..] == rest;
      SplitTabJoinTab(cols[1..]);
      assert cols == [cols[0]] + cols[1..];
    }
  }

  /** Splitting tab-joined tokens on whitespace gives the tokens back. */
  lemma {:induction false} TokensOfJoinTab(cols: seq<string>)
    requires |cols| > 0
    requires forall k :: 0 <= k < |cols| ==> IsToken(cols[k])
    ensures Tokens(JoinTab(cols)) == cols
  {
    if |cols| == 1 {
      TokensOfToken(cols[0]);
    } else {
      TokensOfTokenThen(cols[0], '\t', JoinTab(cols[1..]));
      TokensOfJoinTab(cols[1..]);
      assert cols == [cols[0]] + cols[1..];
    }
  }

  /** A newline occurs in the joined text only where one occurs in a column. */
  lemma {:induction false} JoinTabNoNewline(cols: seq<string>)
    requires |cols| > 0
    requires forall k :: 0 <= k < |cols| ==> '\n' !in cols[k]
    ensures '\n' !in JoinTab(cols)
  {
    if |cols| > 1 {
      JoinTabNoNewline(cols[1..]);
      assert JoinTab(cols) == cols[0] + "\t" + JoinTab(cols[1..]);
    }
  }

  // ---------------------------------------------------------------- reading lines

  /** The first newline position at or after `i`, or `|s|`. */
  function LineEnd(s: string, i: nat): (k: nat)
    requires i <= |s|
    ensures i <= k <= |s|
    ensures forall j :: i <= j < k ==> s[j] != '\n'
    ensures k < |s| ==> s[k] == '\n'
    decreases |s| - i
  {
    if i == |s| || s[i] == '\n' then i else LineEnd(s, i + 1)
  }

  /**
   * The lines Python yields when iterating over a file holding `s`, each with its newline
   * removed (`line.rstrip('\n')`); a final newline does not start another line.
   */
  function Lines(s: string): (ls: seq<string>)
    ensures forall k :: 0 <= k < |ls| ==> '\n' !in ls[k]
    decreases |s|
  {
    if s == [] then []
    else
      var k := LineEnd(s, 0);
      if k == |s| then [s] else [s[..k]] + Lines(s[k + 1..])
  }

  /** A newline-terminated line comes off the front of the text as one line. */
  lemma LinesOfLineThen(a: string, rest: string)
    requires '\n' !in a
    ensures Lines(a + "\n" + rest) == [a] + Lines(rest)
  {
    var s := a + "\n" + rest;
    var k := LineEnd(s, 0);
    assert s[|a|] == '\n';
    assert forall j :: 0 <= j < |a| ==> s[j] == a[j];
    assert k == |a|;
    assert s[..k] == a;
    assert s[k + 1..] == rest;
  }

  // ---------------------------------------------------------------- str.find and s[:k]

  /** `sub` occurs in `s` starting at position `i`. */
  predicate OccursAt(s: string, sub: string, i: nat) {
    i + |sub| <= |s| && s[i..i + |sub|] == sub
  }

  function FindFrom(s: string, sub: string, i: nat): (k: int)
    ensures k == -1 || (i <= k && OccursAt(s, sub, k))
    ensures k != -1 ==> forall j :: i <= j < k ==> !OccursAt(s, sub, j)
    ensures k == -1 ==> forall j: nat :: i <= j ==> !OccursAt(s, sub, j)
    decreases |s| - i
  {
    if i + |sub| > |s| then -1
    else if s[i..i + |sub|] == sub then i
    else FindFrom(s, sub, i + 1)
  }

  /** Python's `s.find(sub)`: the lowest position where `sub` occurs in `s`, or -1. */
  function Find(s: string, sub: string): (k: int)
    ensures k >= -1
    ensures k >= 0 ==> OccursAt(s, sub, k)
    ensures k >= 0 ==> forall j :: 0 <= j < k ==> !OccursAt(s, sub, j)
    ensures k == -1 <==> forall j: nat :: !OccursAt(s, sub, j)
  {
    FindFrom(s, sub, 0)
  }

  /** Python's `s[:stop]`: a negative `stop` counts from the end, and both ends are clamped. */
  function Prefix(s: string, stop: int): (p: string)
    ensures p <= s
    ensures 0 <= stop <= |s| ==> |p| == stop
    ensures stop > |s| ==> p == s
    ensures stop < 0 ==> |p| == if |s| + stop < 0 then 0 else |s| + stop
  {
    if stop >= 0 then (if stop <= |s| then s[..stop] else s)
    else if |s| + stop >= 0 then s[..|s| + stop]
    else []
  }
}
