/**
 * The regular-expression machinery the CV generator uses, written as
 * deterministic scanners.
 *
 * A pattern is a `Matcher`: given the text and a start position it returns
 * the end of the match the regex engine would take there and the text that
 * replaces it. `re.sub` tries the pattern at every position from left to
 * right; a match is replaced and the scan resumes at its end, any other
 * position copies one character. Every pattern in this model consumes at
 * least one character, so the empty-match rules of `re.sub` never apply.
 */
module Substitution {
  import opened Strings

  type Matcher = (string, nat) -> Option<(nat, string)>

  /** `m` matches at `p`, consuming at least one character of `s`. */
  predicate Fires(m: Matcher, s: string, p: nat) {
    m(s, p).Some? && p < m(s, p).value.0 <= |s|
  }

  /** `re.sub` from position `p` on. */
  function SubFrom(m: Matcher, s: string, p: nat): string
    decreases |s| - p
  {
    if p >= |s| then ""
    else if Fires(m, s, p) then m(s, p).value.1 + SubFrom(m, s, m(s, p).value.0)
    else [s[p]] + SubFrom(m, s, p + 1)
  }

  /** `re.sub(pattern, replacement, s)` */
  function Sub(m: Matcher, s: string): string {
    SubFrom(m, s, 0)
  }

  /** `re.findall` from position `p` on: the text each non-overlapping match yields. */
  function FindAllFrom(m: Matcher, s: string, p: nat): seq<string>
    decreases |s| - p
  {
    if p >= |s| then []
    else if Fires(m, s, p) then [m(s, p).value.1] + FindAllFrom(m, s, m(s, p).value.0)
    else FindAllFrom(m, s, p + 1)
  }

  /** `re.findall(pattern, s)` */
  function FindAll(m: Matcher, s: string): seq<string> {
    FindAllFrom(m, s, 0)
  }

  /** Positions where the pattern does not match are copied through. */
  lemma {:induction false} SubFromSkip(m: Matcher, s: string, p: nat, q: nat)
    requires p <= q <= |s|
    requires forall k :: p <= k < q ==> !Fires(m, s, k)
    ensures SubFrom(m, s, p) == s[p..q] + SubFrom(m, s, q)
    decreases q - p
  {
    if p < q {
      SubFromSkip(m, s, p + 1, q);
      CopyStep(s, p, q, SubFrom(m, s, q));
    } else {
      assert s[p..q] == [];
    }
  }

  /** One copied character in front of the copied run after it. */
  lemma CopyStep(s: string, p: nat, q: nat, rest: string)
    requires p < q <= |s|
    ensures [s[p]] + (s[p + 1..q] + rest) == s[p..q] + rest
  {
    assert s[p..q] == [s[p]] + s[p + 1..q];
  }

  /** A text the pattern matches nowhere is returned unchanged. */
  lemma SubNoMatch(m: Matcher, s: string)
    requires forall k :: 0 <= k < |s| ==> !Fires(m, s, k)
    ensures Sub(m, s) == s
  {
    SubFromSkip(m, s, 0, |s|);
  }

  /** A match spanning the whole text is replaced as a whole. */
  lemma SubWhole(m: Matcher, s: string)
    requires Fires(m, s, 0) && m(s, 0).value.0 == |s|
    ensures Sub(m, s) == m(s, 0).value.1
  {
    assert SubFrom(m, s, |s|) == "";
  }

  /** One match at `p`, none before it and none after it: only that span is replaced. */
  lemma SubSplice(m: Matcher, s: string, p: nat, e: nat, r: string)
    requires p < e <= |s| && m(s, p).Some? && m(s, p).value.0 == e && m(s, p).value.1 == r
    requires forall k :: 0 <= k < p ==> !Fires(m, s, k)
    requires forall k :: e <= k < |s| ==> !Fires(m, s, k)
    ensures Sub(m, s) == s[..p] + r + s[e..]
  {
    SubFromSkip(m, s, 0, p);
    assert SubFrom(m, s, p) == r + SubFrom(m, s, e);
    SubFromSkip(m, s, e, |s|);
    assert SubFrom(m, s, |s|) == "";
    assert s[e..|s|] + "" == s[e..];
    assert s[0..p] == s[..p];
  }

  /** Positions where the pattern does not match yield nothing. */
  lemma {:induction false} FindAllFromSkip(m: Matcher, s: string, p: nat, q: nat)
    requires p <= q <= |s|
    requires forall k :: p <= k < q ==> !Fires(m, s, k)
    ensures FindAllFrom(m, s, p) == FindAllFrom(m, s, q)
    decreases q - p
  {
    if p < q {
      FindAllFromSkip(m, s, p + 1, q);
    }
  }

  /** No match anywhere: `findall` is empty. */
  lemma FindAllNoMatch(m: Matcher, s: string)
    requires forall k :: 0 <= k < |s| ==> !Fires(m, s, k)
    ensures FindAll(m, s) == []
  {
    FindAllFromSkip(m, s, 0, |s|);
  }

  /**
   * Where a lazy `(.*?)` started at `from` stops when `pat` must follow it:
   * at the first occurrence of `pat`, provided no newline comes before it,
   * because `.` does not match a newline.
   */
  function LazyUntil(s: string, pat: string, from: nat): (r: Option<nat>)
    ensures r.Some? ==> from <= r.value && OccursAt(s, pat, r.value)
    ensures r.Some? ==> forall j :: from <= j < r.value ==> s[j] != '\n'
    ensures r.Some? ==> forall j :: from <= j < r.value ==> !OccursAt(s, pat, j)
    ensures r.None? ==> forall k :: from <= k && OccursAt(s, pat, k) ==> exists j :: from <= j < k && s[j] == '\n'
    decreases |s| - from
  {
    if from + |pat| > |s| then None
    else if OccursAt(s, pat, from) then Some(from)
    else if s[from] == '\n' then None
    else LazyUntil(s, pat, from + 1)
  }

  /** The lazy group ends at the first occurrence reached without crossing a newline. */
  lemma {:induction false} LazyUntilAt(s: string, pat: string, from: nat, k: nat)
    requires from <= k && OccursAt(s, pat, k)
    requires forall j :: from <= j < k ==> s[j] != '\n' && !OccursAt(s, pat, j)
    ensures LazyUntil(s, pat, from) == Some(k)
    decreases k - from
  {
    if from < k {
      LazyUntilAt(s, pat, from + 1, k);
    }
  }

  /** A lazy group closed by a single character `c` stops at the first `c`, if no newline comes first. */
  lemma LazyUntilChar(s: string, c: char, from: nat, k: nat)
    requires from <= k < |s| && s[k] == c
    requires forall i :: from <= i < k ==> s[i] != c && s[i] != '\n'
    ensures LazyUntil(s, [c], from) == Some(k)
  {
    forall i | from <= i < k ensures s[i] != '\n' && !OccursAt(s, [c], i) {
      OccursAtChar(s, c, i);
    }
    OccursAtChar(s, c, k);
    LazyUntilAt(s, [c], from, k);
  }

  /** No occurrence from `from` on: the lazy group cannot close. */
  lemma LazyUntilNone(s: string, pat: string, from: nat)
    requires forall k :: from <= k ==> !OccursAt(s, pat, k)
    ensures LazyUntil(s, pat, from) == None
  {
  }

  /** `re.sub(r'^.*?://', '', url)`: everything up to the first `"://"` on the first line is dropped. */
  function StripScheme(url: string): (r: string)
    ensures EndsWith(url, r)
    ensures !Contains(url, "://") ==> r == url
  {
    match LazyUntil(url, "://", 0)
    case Some(k) => ContainsAt(url, "://", k); url[k + 3..]
    case None => url
  }

  /** A scheme without `:` or newline, then `"://"`, then the rest: exactly the scheme and separator go. */
  lemma StripSchemeOf(scheme: string, rest: string)
    requires ':' !in scheme && '\n' !in scheme
    ensures StripScheme(scheme + "://" + rest) == rest
  {
    var s := scheme + "://" + rest;
    assert s[|scheme|..|scheme| + 3] == "://";
    forall j | 0 <= j < |scheme| ensures s[j] != '\n' && !OccursAt(s, "://", j) {
      assert s[j] == scheme[j];
      assert scheme[j] in scheme;
      Mismatch(s, "://", j, 0);
    }
    LazyUntilAt(s, "://", 0, |scheme|);
    assert s[|scheme| + 3..] == rest;
  }
}
