/**
 * The few Python `str` builtins the CV generator relies on, written out as
 * total functions over `seq<char>`: prefix/suffix tests, substring search,
 * `replace`, `join`, `split`, `splitlines`, `strip`, `lower` and integer
 * formatting.
 */
module Strings {

  datatype Option<+T> = None | Some(value: T)

  /** `s.startswith(p)` */
  predicate StartsWith(s: string, p: string) {
    |p| <= |s| && s[..|p|] == p
  }

  /** `s.endswith(p)` */
  predicate EndsWith(s: string, p: string) {
    |p| <= |s| && s[|s| - |p|..] == p
  }

  /** `p` occurs in `s` starting at index `i`. */
  predicate OccursAt(s: string, p: string, i: int) {
    0 <= i && i + |p| <= |s| && s[i..i + |p|] == p
  }

  /**
   * The first index `k >= i` at which `p` occurs in `s`, if any
   * (`s.find(p, i)`).
   */
  function FindFrom(s: string, p: string, i: nat): (r: Option<nat>)
    ensures r.Some? ==> i <= r.value && OccursAt(s, p, r.value)
    ensures r.Some? ==> forall k :: i <= k < r.value ==> !OccursAt(s, p, k)
    ensures r.None? ==> forall k :: i <= k ==> !OccursAt(s, p, k)
    decreases |s| - i
  {
    if i + |p| > |s| then None
    else if s[i..i + |p|] == p then Some(i)
    else FindFrom(s, p, i + 1)
  }

  /** `find` stops at the first occurrence. */
  lemma {:induction false} FindFromAt(s: string, p: string, i: nat, k: nat)
    requires i <= k && OccursAt(s, p, k)
    requires forall j :: i <= j < k ==> !OccursAt(s, p, j)
    ensures FindFrom(s, p, i) == Some(k)
    decreases k - i
  {
    if i < k {
      assert !OccursAt(s, p, i);
      FindFromAt(s, p, i + 1, k);
    }
  }

  /** `p in s` */
  predicate Contains(s: string, p: string) {
    FindFrom(s, p, 0).Some?
  }

  lemma ContainsIff(s: string, p: string)
    ensures Contains(s, p) <==> exists k :: OccursAt(s, p, k)
  {
    if Contains(s, p) {
      assert OccursAt(s, p, FindFrom(s, p, 0).value);
    }
  }

  lemma ContainsAt(s: string, p: string, k: int)
    requires OccursAt(s, p, k)
    ensures Contains(s, p)
  {
    ContainsIff(s, p);
  }

  lemma Assoc(a: string, b: string, c: string)
    ensures (a + b) + c == a + (b + c)
  {
  }

  /** A pattern with a character the text lacks does not occur in it. */
  lemma MissingChar(s: string, p: string, m: nat)
    requires m < |p| && p[m] !in s
    ensures !Contains(s, p)
  {
    forall k ensures !OccursAt(s, p, k) {
      if 0 <= k && k + |p| <= |s| {
        assert s[k..k + |p|][m] == s[k + m];
      }
    }
    ContainsIff(s, p);
  }

  /** A one-character pattern occurs exactly where that character stands. */
  lemma OccursAtChar(s: string, c: char, k: int)
    ensures OccursAt(s, [c], k) <==> 0 <= k < |s| && s[k] == c
  {
    if 0 <= k < |s| {
      assert s[k..k + 1][0] == s[k];
    }
  }

  /** The first `c` at or after `from` is found there. */
  lemma FindFromChar(s: string, c: char, from: nat, k: nat)
    requires from <= k < |s| && s[k] == c
    requires forall i :: from <= i < k ==> s[i] != c
    ensures FindFrom(s, [c], from) == Some(k)
  {
    forall i | from <= i < k ensures !OccursAt(s, [c], i) {
      OccursAtChar(s, c, i);
    }
    OccursAtChar(s, c, k);
    FindFromAt(s, [c], from, k);
  }

  /** One differing character rules out an occurrence. */
  lemma Mismatch(s: string, p: string, k: nat, i: nat)
    requires i < |p| && k + i < |s| && s[k + i] != p[i]
    ensures !OccursAt(s, p, k)
  {
    if k + |p| <= |s| {
      assert s[k..k + |p|][i] == s[k + i];
    }
  }

  /** A pattern with two adjacent characters that never stand side by side in the text does not occur in it. */
  lemma MissingPair(s: string, p: string, m: nat)
    requires m + 1 < |p|
    requires forall k :: 0 <= k < |s| - 1 ==> !(s[k] == p[m] && s[k + 1] == p[m + 1])
    ensures !Contains(s, p)
  {
    forall k ensures !OccursAt(s, p, k) {
      if 0 <= k && k + |p| <= |s| {
        assert s[k..k + |p|][m] == s[k + m];
        assert s[k..k + |p|][m + 1] == s[k + m + 1];
      }
    }
    ContainsIff(s, p);
  }

  /** `s.replace(p, r)`: every non-overlapping occurrence, scanned left to right. */
  function ReplaceAll(s: string, p: string, r: string): string
    requires |p| > 0
    decreases |s|
  {
    if |s| < |p| then s
    else if s[..|p|] == p then r + ReplaceAll(s[|p|..], p, r)
    else [s[0]] + ReplaceAll(s[1..], p, r)
  }

  lemma {:induction false} ReplaceAllAbsent(s: string, p: string, r: string)
    requires |p| > 0
    requires !Contains(s, p)
    ensures ReplaceAll(s, p, r) == s
    decreases |s|
  {
    if |s| >= |p| {
      assert !OccursAt(s, p, 0);
      forall k | 0 <= k ensures !OccursAt(s[1..], p, k) {
        if OccursAt(s[1..], p, k) {
          assert s[1..][k..k + |p|] == s[k + 1..k + 1 + |p|];
          assert OccursAt(s, p, k + 1);
          ContainsAt(s, p, k + 1);
        }
      }
      assert !Contains(s[1..], p);
      ReplaceAllAbsent(s[1..], p, r);
    }
  }

  /** Where the pattern occurs, the replacement occurs in the result. */
  lemma {:induction false} ReplaceAllIntroduces(s: string, p: string, r: string)
    requires |p| > 0
    ensures Contains(s, p) ==> Contains(ReplaceAll(s, p, r), r)
    decreases |s|
  {
    if Contains(s, p) {
      var k := FindFrom(s, p, 0).value;
      var t := ReplaceAll(s, p, r);
      if s[..|p|] == p {
        assert OccursAt(t, r, 0) by { assert t[..|r|] == r; }
        ContainsAt(t, r, 0);
      } else {
        assert k > 0;
        assert OccursAt(s[1..], p, k - 1) by { assert s[1..][k - 1..k - 1 + |p|] == s[k..k + |p|]; }
        ContainsAt(s[1..], p, k - 1);
        ReplaceAllIntroduces(s[1..], p, r);
        var u := ReplaceAll(s[1..], p, r);
        var j := FindFrom(u, r, 0).value;
        assert t == [s[0]] + u;
        assert OccursAt(t, r, j + 1) by { assert t[j + 1..j + 1 + |r|] == u[j..j + |r|]; }
        ContainsAt(t, r, j + 1);
      }
    }
  }

  /** Without an occurrence the text is left as it is. */
  lemma ReplaceAllUnchanged(s: string, p: string, r: string)
    requires |p| > 0
    ensures !Contains(s, p) ==> ReplaceAll(s, p, r) == s
  {
    if !Contains(s, p) {
      ReplaceAllAbsent(s, p, r);
    }
  }

  /**
   * Text before the first character of the pattern passes through, the first
   * occurrence is replaced, and the scan resumes after it.
   */
  lemma {:induction false} ReplaceAllSplit(a: string, p: string, r: string, b: string)
    requires |p| > 0
    requires forall i :: 0 <= i < |a| ==> a[i] != p[0]
    ensures ReplaceAll(a + p + b, p, r) == a + r + ReplaceAll(b, p, r)
    decreases |a|
  {
    var s := a + p + b;
    if a == [] {
      assert s == p + b;
      assert s[..|p|] == p;
      assert s[|p|..] == b;
    } else {
      assert s[0] == a[0];
      assert s[..|p|] != p by { assert s[..|p|][0] == a[0]; }
      assert s[1..] == a[1..] + p + b;
      calc {
        ReplaceAll(s, p, r);
        [s[0]] + ReplaceAll(s[1..], p, r);
        { ReplaceAllSplit(a[1..], p, r, b); }
        [a[0]] + (a[1..] + r + ReplaceAll(b, p, r));
        { assert [a[0]] + a[1..] == a; }
        a + r + ReplaceAll(b, p, r);
      }
    }
  }

  /** No occurrence before the end of `a`: `a` passes through and the occurrence right after it is replaced. */
  lemma {:induction false} ReplaceAllFirst(a: string, p: string, r: string, b: string)
    requires |p| > 0
    requires forall k :: 0 <= k < |a| ==> !OccursAt(a + p + b, p, k)
    ensures ReplaceAll(a + p + b, p, r) == a + r + ReplaceAll(b, p, r)
    decreases |a|
  {
    var s := a + p + b;
    if a == [] {
      assert s == p + b;
      assert s[..|p|] == p;
      assert s[|p|..] == b;
    } else {
      assert !OccursAt(s, p, 0);
      assert s[1..] == a[1..] + p + b;
      forall k | 0 <= k < |a[1..]| ensures !OccursAt(a[1..] + p + b, p, k) {
        assert !OccursAt(s, p, k + 1);
        assert s[k + 1..k + 1 + |p|] == s[1..][k..k + |p|];
      }
      ReplaceAllFirst(a[1..], p, r, b);
      assert [s[0]] + (a[1..] + r + ReplaceAll(b, p, r)) == a + r + ReplaceAll(b, p, r) by {
        assert [s[0]] + a[1..] == a;
      }
    }
  }

  /** A text with a single occurrence of the pattern: that occurrence alone is replaced. */
  lemma ReplaceOnce(s: string, p: string, r: string, k: nat)
    requires |p| > 0 && OccursAt(s, p, k)
    requires forall j :: 0 <= j < k ==> !OccursAt(s, p, j)
    requires !Contains(s[k + |p|..], p)
    ensures ReplaceAll(s, p, r) == s[..k] + r + s[k + |p|..]
  {
    assert s == s[..k] + p + s[k + |p|..];
    ReplaceAllFirst(s[..k], p, r, s[k + |p|..]);
    ReplaceAllAbsent(s[k + |p|..], p, r);
  }

  /** An occurrence inside a slice is an occurrence in the whole text. */
  lemma NoOccurrenceSlice(s: string, i: nat, j: nat, p: string)
    requires i <= j <= |s| && !Contains(s, p)
    ensures !Contains(s[i..j], p)
  {
    var t := s[i..j];
    forall k | OccursAt(t, p, k) ensures OccursAt(s, p, i + k) {
      assert i + k + |p| <= j;
      var u, v := s[i + k..i + k + |p|], t[k..k + |p|];
      assert forall m :: 0 <= m < |p| ==> u[m] == s[i + k + m] == v[m];
      assert u == v;
    }
    ContainsIff(s, p);
    ContainsIff(t, p);
  }

  /**
   * Before the end of `a` nothing of `a + b` matches when `a` has no match
   * and `b` starts with a character that occurs in the pattern only at its
   * head, if at all.
   */
  lemma NoOccurrenceBefore(a: string, b: string, p: string)
    requires |p| > 0 && !Contains(a, p) && (b == [] || b[0] !in p[1..])
    ensures forall j :: 0 <= j < |a| ==> !OccursAt(a + b, p, j)
  {
    ContainsIff(a, p);
    forall j | 0 <= j < |a| ensures !OccursAt(a + b, p, j) {
      if j + |p| <= |a| {
        assert (a + b)[j..j + |p|] == a[j..j + |p|];
        assert !OccursAt(a, p, j);
      } else if b != [] && j + |p| <= |a + b| {
        var t := |a| - j;
        assert (a + b)[|a|] == b[0];
        assert p[t] == p[1..][t - 1];
        Mismatch(a + b, p, j, t);
      }
    }
  }

  /** Two texts without a match, joined where no match can straddle, have none. */
  lemma NoOccurrenceConcat(a: string, b: string, p: string)
    requires |p| > 0 && !Contains(a, p) && !Contains(b, p) && (b == [] || b[0] !in p[1..])
    ensures !Contains(a + b, p)
  {
    NoOccurrenceBefore(a, b, p);
    ContainsIff(b, p);
    forall j | |a| <= j ensures !OccursAt(a + b, p, j) {
      if j + |p| <= |a + b| {
        assert (a + b)[j..j + |p|] == b[j - |a|..j - |a| + |p|];
        assert !OccursAt(b, p, j - |a|);
      }
    }
    ContainsIff(a + b, p);
  }

  /** With a single-character pattern, `replace` acts character by character. */
  lemma {:induction false} ReplaceCharConcat(x: string, y: string, c: char, r: string)
    ensures ReplaceAll(x + y, [c], r) == ReplaceAll(x, [c], r) + ReplaceAll(y, [c], r)
    decreases |x|
  {
    if x == [] {
      assert x + y == y;
    } else {
      assert (x + y)[1..] == x[1..] + y;
      assert (x + y)[..1] == [x[0]];
      assert x[..1] == [x[0]];
      ReplaceCharConcat(x[1..], y, c, r);
    }
  }

  /** `sep.join(parts)` */
  function Join(parts: seq<string>, sep: string): string {
    if |parts| == 0 then ""
    else if |parts| == 1 then parts[0]
    else parts[0] + sep + Join(parts[1..], sep)
  }

  lemma {:induction false} JoinSnoc(parts: seq<string>, x: string, sep: string)
    requires |parts| > 0
    ensures Join(parts + [x], sep) == Join(parts, sep) + sep + x
    decreases |parts|
  {
    if |parts| == 1 {
      assert (parts + [x])[1..] == [x];
    } else {
      assert (parts + [x])[1..] == parts[1..] + [x];
      JoinSnoc(parts[1..], x, sep);
    }
  }

  /** The line boundaries of Python's `str.splitlines` (`"\r\n"` counts as one). */
  predicate IsLineBreak(c: char) {
    c == '\n' || c == '\r' || c == '\U{0b}' || c == '\U{0c}' || ('\U{1c}' <= c <= '\U{1e}')
    || c == '\U{85}' || c == '\U{2028}' || c == '\U{2029}'
  }

  /** The first index at or after `i` holding a line boundary, or `|s|`. */
  function LineEnd(s: string, i: nat): (k: nat)
    requires i <= |s|
    ensures i <= k <= |s|
    ensures k < |s| ==> IsLineBreak(s[k])
    ensures forall j :: i <= j < k ==> !IsLineBreak(s[j])
    decreases |s| - i
  {
    if i == |s| || IsLineBreak(s[i]) then i else LineEnd(s, i + 1)
  }

  /**
   * `s.splitlines()`: no lines for the empty string, and a final boundary
   * does not start an extra empty line.
   */
  function SplitLines(s: string): (r: seq<string>)
    ensures forall i :: 0 <= i < |r| ==> forall j :: 0 <= j < |r[i]| ==> !IsLineBreak(r[i][j])
    decreases |s|
  {
    if s == "" then []
    else
      var k := LineEnd(s, 0);
      if k == |s| then [s]
      else
        var w := if s[k] == '\r' && k + 1 < |s| && s[k + 1] == '\n' then 2 else 1;
        [s[..k]] + SplitLines(s[k + w..])
  }

  /** What `print` writes for each of `lines`, one after the other. */
  function Printed(lines: seq<string>): string {
    if lines == [] then "" else lines[0] + "\n" + Printed(lines[1..])
  }

  /** Printing lines free of boundaries and reading them back with `splitlines()` gives the lines. */
  lemma {:induction false} PrintedLines(lines: seq<string>)
    requires forall i :: 0 <= i < |lines| ==> forall j :: 0 <= j < |lines[i]| ==> !IsLineBreak(lines[i][j])
    ensures SplitLines(Printed(lines)) == lines
    decreases |lines|
  {
    if lines != [] {
      var l := lines[0];
      var s := Printed(lines);
      assert s == l + "\n" + Printed(lines[1..]);
      assert s[|l|] == '\n';
      assert LineEnd(s, 0) == |l| by {
        LineEndAt(s, 0, |l|);
      }
      assert s[..|l|] == l;
      assert s[|l| + 1..] == Printed(lines[1..]);
      PrintedLines(lines[1..]);
    }
  }

  /** Printing one more line appends it and its newline. */
  lemma {:induction false} PrintedSnoc(ls: seq<string>, l: string)
    ensures Printed(ls + [l]) == Printed(ls) + l + "\n"
    decreases |ls|
  {
    if ls == [] {
      assert [l][1..] == [];
    } else {
      assert (ls + [l])[1..] == ls[1..] + [l];
      PrintedSnoc(ls[1..], l);
    }
  }

  lemma LineEndAt(s: string, i: nat, k: nat)
    requires i <= k < |s| && IsLineBreak(s[k])
    requires forall j :: i <= j < k ==> !IsLineBreak(s[j])
    ensures LineEnd(s, i) == k
    decreases k - i
  {
    if i < k {
      LineEndAt(s, i + 1, k);
    }
  }

  /** `s.rfind(c)` for one character: the last index holding `c`, or -1. */
  function LastIndex(s: string, c: char): (k: int)
    ensures -1 <= k < |s|
    ensures k >= 0 ==> s[k] == c
    ensures forall j :: k < j < |s| ==> s[j] != c
    decreases |s|
  {
    if s == [] then -1
    else if s[|s| - 1] == c then |s| - 1
    else LastIndex(s[..|s| - 1], c)
  }

  /** The last index is determined by the character there and none after it. */
  lemma {:induction false} LastIndexAt(s: string, c: char, k: nat)
    requires k < |s| && s[k] == c && forall j :: k < j < |s| ==> s[j] != c
    ensures LastIndex(s, c) == k
    decreases |s|
  {
    if k < |s| - 1 {
      var t := s[..|s| - 1];
      assert forall j :: k < j < |t| ==> t[j] != c;
      LastIndexAt(t, c, k);
    }
  }

  /** Text that starts with `c` and has no other `c` puts the last `c` right where it is appended. */
  lemma LastIndexOfTail(s: string, t: string, c: char)
    requires t != [] && t[0] == c && c !in t[1..]
    ensures LastIndex(s + t, c) == |s|
  {
    var u := s + t;
    forall j | |s| < j < |u| ensures u[j] != c {
      assert u[j] == t[1..][j - |s| - 1];
    }
    LastIndexAt(u, c, |s|);
  }

  /** Appending text without `c` leaves the last index of `c` where it was. */
  lemma LastIndexAppend(s: string, t: string, c: char)
    requires c !in t
    ensures LastIndex(s + t, c) == LastIndex(s, c)
  {
    var k := LastIndex(s, c);
    assert forall j :: k < j < |s + t| ==> (s + t)[j] != c by {
      forall j | k < j < |s + t| ensures (s + t)[j] != c {
        if j >= |s| {
          assert (s + t)[j] == t[j - |s|];
        }
      }
    }
    if k >= 0 {
      LastIndexAt(s + t, c, k);
    }
  }

  /** The characters Python's `str.isspace` accepts. */
  predicate IsSpace(c: char) {
    c == ' ' || ('\t' <= c <= '\r') || ('\U{1c}' <= c <= '\U{1f}') || c == '\U{85}' || c == '\U{a0}'
    || c == '\U{1680}' || ('\U{2000}' <= c <= '\U{200a}') || c == '\U{2028}' || c == '\U{2029}'
    || c == '\U{202f}' || c == '\U{205f}' || c == '\U{3000}'
  }

  /** `s.lstrip(chars)` */
  function LStripChars(s: string, chars: set<char>): (r: string)
    ensures |r| <= |s| && r == s[|s| - |r|..]
    ensures r == [] || r[0] !in chars
    ensures forall i :: 0 <= i < |s| - |r| ==> s[i] in chars
  {
    if s != [] && s[0] in chars then
      var t := LStripChars(s[1..], chars);
      assert forall i :: 1 <= i < |s| - |t| ==> s[i] == s[1..][i - 1];
      t
    else s
  }

  /** `s.rstrip(chars)` */
  function RStripChars(s: string, chars: set<char>): (r: string)
    ensures |r| <= |s| && r == s[..|r|]
    ensures r == [] || r[|r| - 1] !in chars
    ensures forall i :: |r| <= i < |s| ==> s[i] in chars
  {
    if s != [] && s[|s| - 1] in chars then
      var t := RStripChars(s[..|s| - 1], chars);
      assert forall i :: |t| <= i < |s| - 1 ==> s[i] == s[..|s| - 1][i];
      t
    else s
  }

  /** `s.strip(chars)` */
  function StripChars(s: string, chars: set<char>): string {
    RStripChars(LStripChars(s, chars), chars)
  }

  /** Stripping characters the text lacks changes nothing. */
  lemma StripCharsAbsent(s: string, chars: set<char>)
    requires forall i :: 0 <= i < |s| ==> s[i] !in chars
    ensures LStripChars(s, chars) == s
    ensures StripChars(s, chars) == s
  {
  }

  /** `lstrip` removes a leading run of stripped characters up to the first other one. */
  lemma LStripCharsPrefix(x: string, u: string, chars: set<char>)
    requires forall i :: 0 <= i < |x| ==> x[i] in chars
    requires u == [] || u[0] !in chars
    ensures LStripChars(x + u, chars) == u
  {
    var s := x + u;
    var r := LStripChars(s, chars);
    forall i | 0 <= i < |x| ensures s[i] in chars {
      assert s[i] == x[i];
    }
    if u != [] {
      assert s[|x|] == u[0];
    }
    if r != [] {
      assert r[0] == s[|s| - |r|];
    }
    assert |r| == |u|;
    assert r == s[|x|..];
  }

  /** `s.lstrip()` */
  function LStrip(s: string): string {
    if s != [] && IsSpace(s[0]) then LStrip(s[1..]) else s
  }

  /** `s.rstrip()` */
  function RStrip(s: string): string {
    if s != [] && IsSpace(s[|s| - 1]) then RStrip(s[..|s| - 1]) else s
  }

  /** `s.strip()` */
  function Strip(s: string): string {
    RStrip(LStrip(s))
  }

  /** `lstrip()` removes exactly a leading run of whitespace. */
  lemma {:induction false} LStripSpec(s: string)
    ensures |LStrip(s)| <= |s| && LStrip(s) == s[|s| - |LStrip(s)|..]
    ensures LStrip(s) == [] || !IsSpace(LStrip(s)[0])
    ensures forall i :: 0 <= i < |s| - |LStrip(s)| ==> IsSpace(s[i])
    decreases |s|
  {
    if s != [] && IsSpace(s[0]) {
      LStripSpec(s[1..]);
    }
  }

  /** `rstrip()` removes exactly a trailing run of whitespace. */
  lemma {:induction false} RStripSpec(s: string)
    ensures |RStrip(s)| <= |s| && RStrip(s) == s[..|RStrip(s)|]
    ensures RStrip(s) == [] || !IsSpace(RStrip(s)[|RStrip(s)| - 1])
    ensures forall i :: |RStrip(s)| <= i < |s| ==> IsSpace(s[i])
    decreases |s|
  {
    if s != [] && IsSpace(s[|s| - 1]) {
      RStripSpec(s[..|s| - 1]);
    }
  }

  /** ASCII part of `str.lower`. */
  function LowerChar(c: char): char {
    if 'A' <= c <= 'Z' then (c as int + 32) as char else c
  }

  /** `s.lower()`, for ASCII letters. */
  function Lower(s: string): (r: string)
    ensures |r| == |s|
    ensures forall i :: 0 <= i < |s| ==> r[i] == LowerChar(s[i])
  {
    seq(|s|, i requires 0 <= i < |s| => LowerChar(s[i]))
  }

  lemma LowerIdempotent(s: string)
    ensures Lower(Lower(s)) == Lower(s)
  {
  }

  /**
   * `s.split()`: the maximal runs of non-whitespace characters, in order.
   */
  function Words(s: string): (r: seq<string>)
    ensures forall i :: 0 <= i < |r| ==> |r[i]| > 0
    decreases |s|
  {
    if s == [] then []
    else if IsSpace(s[0]) then Words(s[1..])
    else
      var n := WordLength(s);
      [s[..n]] + Words(s[n..])
  }

  /** Length of the leading run of non-whitespace characters of `t`. */
  function WordLength(t: string): (n: nat)
    requires t != [] && !IsSpace(t[0])
    ensures 0 < n <= |t|
    ensures forall i :: 0 <= i < n ==> !IsSpace(t[i])
    ensures n < |t| ==> IsSpace(t[n])
  {
    if |t| == 1 || IsSpace(t[1]) then 1 else 1 + WordLength(t[1..])
  }

  /**
   * `s.split(p)[-1]`: what follows the last of the non-overlapping
   * occurrences of `p` found scanning left to right (all of `s` when there
   * is none).
   */
  function LastPiece(s: string, p: string): (r: string)
    requires |p| > 0
    ensures EndsWith(s, r)
    ensures !Contains(r, p)
    decreases |s|
  {
    match FindFrom(s, p, 0)
    case None => s
    case Some(k) =>
      var r := LastPiece(s[k + |p|..], p);
      assert s[k + |p|..][|s[k + |p|..]| - |r|..] == s[|s| - |r|..];
      r
  }

  /** Position of the first `c` in `s`. */
  function IndexOf(s: string, c: char): (k: nat)
    requires c in s
    ensures k < |s| && s[k] == c
    ensures forall j :: 0 <= j < k ==> s[j] != c
  {
    if s[0] == c then 0 else 1 + IndexOf(s[1..], c)
  }

  /** A non-empty word with no whitespace in it splits into itself. */
  lemma WordsOfWord(w: string)
    requires w != [] && forall i :: 0 <= i < |w| ==> !IsSpace(w[i])
    ensures Words(w) == [w]
  {
    assert WordLength(w) == |w|;
    assert w[|w|..] == [];
    assert w[..|w|] == w;
  }

  /** Words separated by single spaces come back out of `split()`. */
  lemma {:induction false} WordsOfJoin(ws: seq<string>)
    requires forall i :: 0 <= i < |ws| ==> ws[i] != [] && forall j :: 0 <= j < |ws[i]| ==> !IsSpace(ws[i][j])
    ensures Words(Join(ws, " ")) == ws
    decreases |ws|
  {
    if |ws| == 0 {
    } else if |ws| == 1 {
      WordsOfWord(ws[0]);
    } else {
      var w := ws[0];
      var s := w + " " + Join(ws[1..], " ");
      assert WordLength(s) == |w| by {
        WordLengthOf(s, |w|);
      }
      assert s[..|w|] == w;
      assert s[|w|..] == " " + Join(ws[1..], " ");
      assert s[|w|..][1..] == Join(ws[1..], " ");
      WordsOfJoin(ws[1..]);
    }
  }

  lemma {:induction false} WordLengthOf(t: string, n: nat)
    requires 0 < n < |t| && IsSpace(t[n])
    requires forall i :: 0 <= i < n ==> !IsSpace(t[i])
    ensures WordLength(t) == n
    decreases n
  {
    if n > 1 {
      WordLengthOf(t[1..], n - 1);
    }
  }

  /** `strip()` leaves a string that neither starts nor ends with whitespace as it is. */
  lemma StripTrimmed(s: string)
    requires s == [] || (!IsSpace(s[0]) && !IsSpace(s[|s| - 1]))
    ensures Strip(s) == s
  {
  }

  /** Decimal digits of a natural number. */
  function NatToString(n: nat): (r: string)
    ensures |r| > 0
    ensures forall i :: 0 <= i < |r| ==> '0' <= r[i] <= '9'
  {
    if n < 10 then [DigitChar(n)] else NatToString(n / 10) + [DigitChar(n % 10)]
  }

  function DigitChar(d: nat): (c: char)
    requires d < 10
    ensures '0' <= c <= '9'
  {
    ('0' as int + d) as char
  }

  /** `str(n)` for a Python integer. */
  function IntToString(n: int): string {
    if n < 0 then "-" + NatToString(-n) else NatToString(n)
  }

  /** A text made of two parts gives back both from their places. */
  lemma SplitTwo(d: string, a: string, b: string)
    requires d == a + b
    ensures |a| <= |d| && d[..|a|] == a && d[|a|..] == b
  {
    assert d[..|a|] == a;
  }

  /** A text made of three parts gives back the first and the last from their places. */
  lemma SplitThree(d: string, a: string, b: string, c: string)
    requires d == a + b + c
    ensures |a| + |b| <= |d| && d[..|a|] == a && d[|a| + |b|..] == c
  {
    assert d[..|a|] == a;
    assert d[|a| + |b|..] == c;
  }
}
