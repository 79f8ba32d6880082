/**
 * The shared text helpers of aicv/utils/text_processing.py: markdown link
 * parsing and rewriting, section-heading emojis for generated HTML, and the
 * consistent formatting of the name, website, GitHub and e-mail fields for
 * the `html` and `markdown` backends.
 */
module TextProcessing {
  import opened Strings
  import opened Records
  import opened Substitution
  import Lookup

  // ---------------------------------------------------------------------
  // extract_link_or_text

  /** The `{'text': ..., 'url': ...}` result. */
  datatype Link = Link(text: string, url: string)

  /** The markdown form `[text](url)`. */
  function MarkdownLinkText(text: string, url: string): string {
    "[" + text + "](" + url + ")"
  }

  /**
   * `\[(.*?)\]\((.*?)\)` with its `[` at `p`, the lazy label having reached
   * `j`: the label grows one character at a time until `](` follows it and
   * the lazy target can close on a `)`; neither group crosses a newline.
   */
  function LinkFrom(s: string, p: nat, j: nat): Option<Link>
    requires p < j <= |s| && s[p] == '['
    decreases |s| - j
  {
    if j + 2 > |s| then None
    else if s[j] == ']' && s[j + 1] == '(' && LazyUntil(s, ")", j + 2).Some? then
      var k := LazyUntil(s, ")", j + 2).value;
      Some(Link(s[p + 1..j], s[j + 2..k]))
    else if s[j] == '\n' then None
    else LinkFrom(s, p, j + 1)
  }

  /** `re.search` for the link pattern from position `p` on: the leftmost `[` that starts a match. */
  function SearchLink(s: string, p: nat): Option<Link>
    decreases |s| - p
  {
    if p >= |s| then None
    else if s[p] == '[' && LinkFrom(s, p, p + 1).Some? then LinkFrom(s, p, p + 1)
    else SearchLink(s, p + 1)
  }

  /** What the lazy pattern reads from the `[` at `p` is a link written there. */
  lemma {:induction false} LinkFromOccurs(s: string, p: nat, j: nat)
    requires p < j <= |s| && s[p] == '['
    ensures LinkFrom(s, p, j).Some? ==>
      OccursAt(s, MarkdownLinkText(LinkFrom(s, p, j).value.text, LinkFrom(s, p, j).value.url), p)
    decreases |s| - j
  {
    if j + 2 > |s| {
    } else if s[j] == ']' && s[j + 1] == '(' && LazyUntil(s, ")", j + 2).Some? {
      var k := LazyUntil(s, ")", j + 2).value;
      OccursAtChar(s, ')', k);
      assert s[p..k + 1] == MarkdownLinkText(s[p + 1..j], s[j + 2..k]);
    } else if s[j] != '\n' {
      LinkFromOccurs(s, p, j + 1);
    }
  }

  /** The link the search finds is written somewhere in the text. */
  lemma {:induction false} SearchLinkOccurs(s: string, p: nat)
    ensures SearchLink(s, p).Some? ==> Contains(s, MarkdownLinkText(SearchLink(s, p).value.text, SearchLink(s, p).value.url))
    decreases |s| - p
  {
    if p >= |s| {
    } else if s[p] == '[' && LinkFrom(s, p, p + 1).Some? {
      LinkFromOccurs(s, p, p + 1);
      var l := LinkFrom(s, p, p + 1).value;
      ContainsAt(s, MarkdownLinkText(l.text, l.url), p);
    } else {
      SearchLinkOccurs(s, p + 1);
    }
  }

  /**
   * `extract_link_or_text`: the label and target of the first markdown link,
   * or the whole text as both when there is none.
   */
  function ExtractLinkOrText(text: string): (r: Link)
    ensures r == Link(text, text) || Contains(text, MarkdownLinkText(r.text, r.url))
  {
    match SearchLink(text, 0)
    case Some(l) => SearchLinkOccurs(text, 0); l
    case None => Link(text, text)
  }

  /** Label positions without `]` or newline are passed over one at a time. */
  lemma {:induction false} LinkFromSkip(s: string, p: nat, j: nat, j': nat)
    requires p < j <= j' <= |s| && s[p] == '['
    requires forall i :: p < i < j' ==> s[i] != '\n' && s[i] != ']'
    ensures LinkFrom(s, p, j) == LinkFrom(s, p, j')
    decreases j' - j
  {
    if j < j' {
      LinkFromSkip(s, p, j + 1, j');
    }
  }

  /** Positions without `[` never start a match. */
  lemma {:induction false} SearchLinkSkip(s: string, p: nat, q: nat)
    requires p <= q <= |s|
    requires forall k :: p <= k < q ==> s[k] != '['
    ensures SearchLink(s, p) == SearchLink(s, q)
    decreases q - p
  {
    if p < q {
      SearchLinkSkip(s, p + 1, q);
    }
  }

  /** A text without `[` is its own label and target. */
  lemma NoLinkIsText(text: string)
    requires '[' !in text
    ensures ExtractLinkOrText(text) == Link(text, text)
  {
    SearchLinkSkip(text, 0, |text|);
  }

  /**
   * The first link is found wherever it stands: a label without `]` and a
   * target without `)`, neither holding a newline, come back as written,
   * whatever precedes (without `[`) or follows.
   */
  lemma ExtractLink(a: string, t: string, u: string, b: string)
    requires '[' !in a && ']' !in t && '\n' !in t && ')' !in u && '\n' !in u
    ensures ExtractLinkOrText(a + MarkdownLinkText(t, u) + b) == Link(t, u)
  {
    var l := MarkdownLinkText(t, u);
    var s := a + l + b;
    var p := |a|;
    assert OccursAt(s, l, p) by { assert s[p..p + |l|] == l; }
    forall k | 0 <= k < p ensures s[k] != '[' {
      assert s[k] == a[k];
    }
    SearchLinkSkip(s, 0, p);
    LinkFromAt(s, p, t, u);
  }

  // ---------------------------------------------------------------------
  // convert_markdown_links

  /** The characters the look-behind refuses before a link and the look-ahead after it. */
  const GuardBefore: set<char> := {'<', '"', '\''}
  const GuardAfter: set<char> := {'>', '"', '\''}

  /** `<a href="url" target="_blank">text</a>` */
  function Anchor(url: string, text: string): string {
    "<a href=\"" + url + "\" target=\"_blank\">" + text + "</a>"
  }

  /**
   * `(?<![<"'])(\[([^\]]+)\]\(([^)]+)\))(?![>"'])` at `p`, replaced by an
   * anchor. The label runs to the first `]` and the target to the first `)`:
   * neither class admits its closing character, so backtracking cannot move
   * either end.
   */
  function MarkdownLinkAt(s: string, p: nat): Option<(nat, string)> {
    if p < |s| && s[p] == '[' && (p == 0 || s[p - 1] !in GuardBefore) then
      match FindFrom(s, "]", p + 1)
      case None => None
      case Some(q) =>
        if q > p + 1 && q + 1 < |s| && s[q + 1] == '(' then
          match FindFrom(s, ")", q + 2)
          case None => None
          case Some(r) =>
            if r > q + 2 && (r + 1 == |s| || s[r + 1] !in GuardAfter) then
              Some((r + 1, Anchor(s[q + 2..r], s[p + 1..q])))
            else None
        else None
    else None
  }

  /** `convert_markdown_links`: text without `[` is left as it is. */
  function ConvertMarkdownLinks(html: string): (r: string)
    ensures '[' !in html ==> r == html
  {
    ConvertNoBracket(html);
    Sub(MarkdownLinkAt, html)
  }

  /** Without `[` the link pattern matches nowhere. */
  lemma ConvertNoBracket(html: string)
    ensures '[' !in html ==> Sub(MarkdownLinkAt, html) == html
  {
    if '[' !in html {
      forall k | 0 <= k < |html| ensures !Fires(MarkdownLinkAt, html, k) {
        assert html[k] in html;
      }
      SubNoMatch(MarkdownLinkAt, html);
    }
  }

  /** The characters of a link written at `p`. */
  lemma LinkChars(s: string, p: nat, t: string, u: string)
    requires OccursAt(s, MarkdownLinkText(t, u), p)
    ensures s[p] == '[' && s[p + 1 + |t|] == ']' && s[p + 2 + |t|] == '(' && s[p + 3 + |t| + |u|] == ')'
    ensures forall i :: 0 <= i < |t| ==> s[p + 1 + i] == t[i]
    ensures forall i :: 0 <= i < |u| ==> s[p + 3 + |t| + i] == u[i]
    ensures s[p + 1..p + 1 + |t|] == t && s[p + 3 + |t|..p + 3 + |t| + |u|] == u
  {
    var l := MarkdownLinkText(t, u);
    assert s[p..p + |l|] == l;
    assert l[0] == '[' && l[1 + |t|] == ']' && l[2 + |t|] == '(' && l[3 + |t| + |u|] == ')';
    forall i | 0 <= i < |t| ensures s[p + 1 + i] == t[i] {
      assert l[1 + i] == t[i];
      assert s[p..p + |l|][1 + i] == s[p + 1 + i];
    }
    forall i | 0 <= i < |u| ensures s[p + 3 + |t| + i] == u[i] {
      assert l[3 + |t| + i] == u[i];
      assert s[p..p + |l|][3 + |t| + i] == s[p + 3 + |t| + i];
    }
    assert s[p..p + |l|][1 + |t|] == s[p + 1 + |t|];
    assert s[p..p + |l|][2 + |t|] == s[p + 2 + |t|];
    assert s[p..p + |l|][3 + |t| + |u|] == s[p + 3 + |t| + |u|];
  }

  /** The brackets and the two parts of a link written at `p`. */
  lemma LinkShape(s: string, p: nat, t: string, u: string)
    requires OccursAt(s, MarkdownLinkText(t, u), p)
    ensures p + 3 + |t| + |u| < |s|
    ensures s[p] == '[' && s[p + 1 + |t|] == ']' && s[p + 2 + |t|] == '(' && s[p + 3 + |t| + |u|] == ')'
    ensures s[p + 1..p + 1 + |t|] == t && s[p + 3 + |t|..p + 3 + |t| + |u|] == u
  {
    LinkChars(s, p, t, u);
  }

  /** A character the label lacks does not occur between the brackets. */
  lemma LinkLabelAvoids(s: string, p: nat, t: string, u: string, c: char)
    requires OccursAt(s, MarkdownLinkText(t, u), p) && c !in t
    ensures forall i :: p < i < p + 1 + |t| ==> s[i] != c
  {
    LinkChars(s, p, t, u);
    forall i | p < i < p + 1 + |t| ensures s[i] != c {
      assert s[p + 1 + (i - p - 1)] == t[i - p - 1];
      assert t[i - p - 1] in t;
    }
  }

  /** A character the target lacks does not occur between the parentheses. */
  lemma LinkTargetAvoids(s: string, p: nat, t: string, u: string, c: char)
    requires OccursAt(s, MarkdownLinkText(t, u), p) && c !in u
    ensures forall i :: p + 3 + |t| <= i < p + 3 + |t| + |u| ==> s[i] != c
  {
    LinkChars(s, p, t, u);
    forall i | p + 3 + |t| <= i < p + 3 + |t| + |u| ensures s[i] != c {
      assert s[p + 3 + |t| + (i - p - 3 - |t|)] == u[i - p - 3 - |t|];
      assert u[i - p - 3 - |t|] in u;
    }
  }

  /** The positions of the label's `]` and the target's `)`. */
  lemma LinkEnds(s: string, p: nat, t: string, u: string)
    requires OccursAt(s, MarkdownLinkText(t, u), p) && ']' !in t && ')' !in u
    ensures FindFrom(s, "]", p + 1) == Some(p + 1 + |t|)
    ensures FindFrom(s, ")", p + 3 + |t|) == Some(p + 3 + |t| + |u|)
  {
    LinkShape(s, p, t, u);
    LinkLabelAvoids(s, p, t, u, ']');
    LinkTargetAvoids(s, p, t, u, ')');
    FindFromChar(s, ']', p + 1, p + 1 + |t|);
    FindFromChar(s, ')', p + 3 + |t|, p + 3 + |t| + |u|);
  }

  /** The lazy pattern closes its label at `j` when `](` follows and the target closes at `k`. */
  lemma LinkFromClose(s: string, p: nat, j: nat, k: nat)
    requires p < j && j + 2 <= |s| && s[p] == '[' && s[j] == ']' && s[j + 1] == '('
    requires LazyUntil(s, ")", j + 2) == Some(k)
    ensures LinkFrom(s, p, j).Some?
    ensures LinkFrom(s, p, j).value.text == s[p + 1..j] && LinkFrom(s, p, j).value.url == s[j + 2..k]
  {
  }

  /** The lazy pattern from the `[` at `p` reads the label up to `j` and the target up to `k`. */
  lemma LinkFromReads(s: string, p: nat, j: nat, k: nat)
    requires p < j && j + 2 <= k < |s|
    requires s[p] == '[' && s[j] == ']' && s[j + 1] == '(' && s[k] == ')'
    requires forall i :: p < i < j ==> s[i] != '\n' && s[i] != ']'
    requires forall i :: j + 2 <= i < k ==> s[i] != '\n' && s[i] != ')'
    ensures LinkFrom(s, p, p + 1).Some?
    ensures LinkFrom(s, p, p + 1).value.text == s[p + 1..j] && LinkFrom(s, p, p + 1).value.url == s[j + 2..k]
  {
    assert LinkFrom(s, p, p + 1) == LinkFrom(s, p, j) by {
      LinkFromSkip(s, p, p + 1, j);
    }
    assert LazyUntil(s, ")", j + 2) == Some(k) by {
      LazyUntilChar(s, ')', j + 2, k);
    }
    LinkFromClose(s, p, j, k);
  }

  /** A link written at `p` with a label free of `]` and newlines and a target free of `)` and newlines is what the lazy pattern reads. */
  lemma LinkFromAt(s: string, p: nat, t: string, u: string)
    requires OccursAt(s, MarkdownLinkText(t, u), p)
    requires ']' !in t && '\n' !in t && ')' !in u && '\n' !in u
    ensures LinkFrom(s, p, p + 1).Some? && LinkFrom(s, p, p + 1).value == Link(t, u)
  {
    LinkShape(s, p, t, u);
    LinkLabelAvoids(s, p, t, u, ']');
    LinkLabelAvoids(s, p, t, u, '\n');
    LinkTargetAvoids(s, p, t, u, ')');
    LinkTargetAvoids(s, p, t, u, '\n');
    LinkFromReads(s, p, p + 1 + |t|, p + 3 + |t| + |u|);
  }

  /** The link pattern at `p` once both classes are known to close at `q` and `r`. */
  lemma MarkdownLinkAtReads(s: string, p: nat, q: nat, r: nat)
    requires p < |s| && s[p] == '[' && (p == 0 || s[p - 1] !in GuardBefore)
    requires FindFrom(s, "]", p + 1) == Some(q) && q > p + 1 && q + 1 < |s| && s[q + 1] == '('
    requires FindFrom(s, ")", q + 2) == Some(r) && r > q + 2 && (r + 1 == |s| || s[r + 1] !in GuardAfter)
    ensures MarkdownLinkAt(s, p).Some? && MarkdownLinkAt(s, p).value.0 == r + 1
    ensures MarkdownLinkAt(s, p).value.1 == Anchor(s[q + 2..r], s[p + 1..q])
  {
  }

  /** An unguarded link with a non-empty label and target is replaced by its anchor. */
  lemma LinkFires(s: string, p: nat, t: string, u: string)
    requires OccursAt(s, MarkdownLinkText(t, u), p)
    requires t != "" && ']' !in t && u != "" && ')' !in u
    requires p == 0 || s[p - 1] !in GuardBefore
    requires p + |MarkdownLinkText(t, u)| == |s| || s[p + |MarkdownLinkText(t, u)|] !in GuardAfter
    ensures MarkdownLinkAt(s, p).Some? && MarkdownLinkAt(s, p).value.0 == p + |MarkdownLinkText(t, u)|
    ensures MarkdownLinkAt(s, p).value.1 == Anchor(u, t)
  {
    LinkShape(s, p, t, u);
    LinkEnds(s, p, t, u);
    MarkdownLinkAtReads(s, p, p + 1 + |t|, p + 3 + |t| + |u|);
  }

  /** Positions without `[` are copied through. */
  lemma NoBracketNoFire(s: string, from: nat, to: nat)
    requires from <= to <= |s|
    requires forall k :: from <= k < to ==> s[k] != '['
    ensures forall k :: from <= k < to ==> !Fires(MarkdownLinkAt, s, k)
  {
  }

  /** No link fires in the bracket-free text on either side of `l`. */
  lemma QuietSides(a: string, l: string, b: string)
    requires '[' !in a && '[' !in b
    ensures forall k :: 0 <= k < |a| ==> !Fires(MarkdownLinkAt, a + l + b, k)
    ensures forall k :: |a| + |l| <= k < |a + l + b| ==> !Fires(MarkdownLinkAt, a + l + b, k)
  {
    var s := a + l + b;
    var e := |a| + |l|;
    forall k | 0 <= k < |a| ensures s[k] != '[' {
      assert s[k] == a[k];
    }
    forall k | e <= k < |s| ensures s[k] != '[' {
      assert s[k] == b[k - e];
    }
    NoBracketNoFire(s, 0, |a|);
    NoBracketNoFire(s, e, |s|);
  }

  /**
   * A link between text that cannot interfere (no `[` around it, no guard
   * character touching it) becomes an anchor, and nothing else changes.
   */
  lemma ConvertLink(a: string, t: string, u: string, b: string)
    requires t != "" && ']' !in t && u != "" && ')' !in u
    requires '[' !in a && '[' !in b
    requires a == "" || a[|a| - 1] !in GuardBefore
    requires b == "" || b[0] !in GuardAfter
    ensures ConvertMarkdownLinks(a + MarkdownLinkText(t, u) + b) == a + Anchor(u, t) + b
  {
    var l := MarkdownLinkText(t, u);
    var s := a + l + b;
    var p := |a|;
    var e := p + |l|;
    assert OccursAt(s, l, p) by { assert s[p..p + |l|] == l; }
    if a != "" {
      assert s[p - 1] == a[|a| - 1];
    }
    if b != "" {
      assert s[e] == b[0];
    }
    LinkFires(s, p, t, u);
    QuietSides(a, l, b);
    SubSplice(MarkdownLinkAt, s, p, e, Anchor(u, t));
    assert s[..p] == a;
    assert s[e..] == b;
    assert ConvertMarkdownLinks(s) == Sub(MarkdownLinkAt, s);
  }

  /** A link right after `<`, `"` or `'` is not rewritten. */
  lemma ConvertGuardedBefore(c: char, t: string, u: string)
    requires c in GuardBefore && '[' !in t && '[' !in u
    ensures ConvertMarkdownLinks([c] + MarkdownLinkText(t, u)) == [c] + MarkdownLinkText(t, u)
  {
    var s := [c] + MarkdownLinkText(t, u);
    forall k | 0 <= k < |s| ensures !Fires(MarkdownLinkAt, s, k) {
      if 1 < k < 2 + |t| {
        assert s[k] == t[k - 2];
        assert t[k - 2] in t;
      } else if 4 + |t| <= k < 4 + |t| + |u| {
        assert s[k] == u[k - 4 - |t|];
        assert u[k - 4 - |t|] in u;
      }
    }
    SubNoMatch(MarkdownLinkAt, s);
  }

  /** A link right before `>`, `"` or `'` is not rewritten. */
  lemma ConvertGuardedAfter(t: string, u: string, c: char)
    requires c in GuardAfter && ']' !in t && ')' !in u && '[' !in t && '[' !in u
    ensures ConvertMarkdownLinks(MarkdownLinkText(t, u) + [c]) == MarkdownLinkText(t, u) + [c]
  {
    var s := MarkdownLinkText(t, u) + [c];
    assert OccursAt(s, MarkdownLinkText(t, u), 0) by { assert s[..|s| - 1] == MarkdownLinkText(t, u); }
    LinkEnds(s, 0, t, u);
    forall k | 0 <= k < |s| ensures !Fires(MarkdownLinkAt, s, k) {
      if 0 < k < 1 + |t| {
        assert s[k] == t[k - 1];
        assert t[k - 1] in t;
      } else if 3 + |t| <= k < 3 + |t| + |u| {
        assert s[k] == u[k - 3 - |t|];
        assert u[k - 3 - |t|] in u;
      }
    }
    SubNoMatch(MarkdownLinkAt, s);
  }

  // ---------------------------------------------------------------------
  // add_section_emojis

  /** `section_emojis`, in declaration order. */
  const SectionEmojis: Lookup.Table := [
    ("academic", "\U{1F393}"),
    ("education", "\U{1F393}"),
    ("professional", "\U{1F4BC}"),
    ("experience", "\U{1F4BC}"),
    ("employment", "\U{1F4BC}"),
    ("work", "\U{1F4BC}"),
    ("award", "\U{1F3C6}"),
    ("skill", "\U{1F527}"),
    ("competenc", "\U{1F527}"),
    ("technolog", "\U{1F4BB}"),
    ("language", "\U{1F5E3}\U{FE0F}"),
    ("publication", "\U{1F4DA}"),
    ("research", "\U{1F52C}"),
    ("project", "\U{1F4CB}"),
    ("interest", "\U{26A1}"),
    ("hobby", "\U{26A1}"),
    ("phd", "\U{1F4DD}"),
    ("thesis", "\U{1F4C4}"),
    ("certification", "\U{1F3C5}"),
    ("volunteer", "\U{1F91D}"),
    ("achievement", "\U{1F3C6}")
  ]

  /** The emoji used when no keyword occurs. */
  const DefaultEmoji: string := "\U{1F4C4}"

  /**
   * The nested `find_emoji`: the first keyword of the table found in the
   * lower-cased heading decides, so the result is the default or a table value.
   */
  function FindEmoji(heading: string): (r: string)
    ensures r == DefaultEmoji || exists i :: 0 <= i < |SectionEmojis| && r == SectionEmojis[i].1
  {
    Lookup.ResolveRange(SectionEmojis, Lower(heading), DefaultEmoji);
    Lookup.Resolve(SectionEmojis, Lower(heading), DefaultEmoji)
  }

  /** Neither `<` nor a newline: an emoji can stand inside a heading without opening a tag or ending the line. */
  predicate PlainText(e: string) {
    forall i :: 0 <= i < |e| ==> e[i] != '<' && e[i] != '\n'
  }

  /** No emoji of the table holds a `<` or a newline. */
  lemma EmojiValuesPlain()
    ensures forall i :: 0 <= i < |SectionEmojis| ==> PlainText(SectionEmojis[i].1)
  {
    forall i | 0 <= i < |SectionEmojis| ensures PlainText(SectionEmojis[i].1) {
      var e := SectionEmojis[i].1;
      assert forall j :: 0 <= j < |e| ==> e[j] >= '\U{26A1}';
    }
  }

  /** The emoji found for any heading is plain text. */
  lemma EmojiPlain(heading: string)
    ensures '<' !in FindEmoji(heading) && '\n' !in FindEmoji(heading)
  {
    EmojiValuesPlain();
    var e := FindEmoji(heading);
    assert PlainText(e);
    assert forall j :: 0 <= j < |e| ==> e[j] != '<' && e[j] != '\n';
  }

  /** The character class `[\U0001F000-\U0001FFFF]`. */
  predicate IsEmojiChar(c: char) {
    '\U{1F000}' <= c <= '\U{1FFFF}'
  }

  predicate HasEmoji(t: string) {
    exists i :: 0 <= i < |t| && IsEmojiChar(t[i])
  }

  const JobHeaderOpen: string := "<span class='job-header'>"
  const SpanOpen: string := "<span class=\"mono-emoji\">"
  const MarkOpen: string := "<h2_EMOJI_ALREADY_PRESENT>"
  const MarkClose: string := "</h2_EMOJI_ALREADY_PRESENT>"

  /**
   * `<h2>(.*?)<span class='job-header'>(.*?)</span>(.*?)</h2>` at `p`,
   * replaced by `<h2>\1\2\3</h2>`. Each lazy group closes at the first
   * occurrence of what follows it: a later closing point is reached only
   * through newline-free text, which the first one would then also reach.
   */
  function JobHeaderAt(s: string, p: nat): Option<(nat, string)> {
    var g := JobHeaderGroups(s, p);
    if g.None? then None
    else Some((g.value.2 + 5, "<h2>" + s[p + 4..g.value.0] + s[g.value.0 + 25..g.value.1] + s[g.value.1 + 7..g.value.2] + "</h2>"))
  }

  /** Where the three lazy groups of the job-header pattern at `p` end, when it matches there. */
  function JobHeaderGroups(s: string, p: nat): (r: Option<(nat, nat, nat)>)
    ensures r.Some? ==> p + 4 <= r.value.0 && r.value.0 + 25 <= r.value.1
    ensures r.Some? ==> r.value.1 + 7 <= r.value.2 && r.value.2 + 5 <= |s|
  {
    if !OccursAt(s, "<h2>", p) then None
    else match LazyUntil(s, JobHeaderOpen, p + 4)
      case None => None
      case Some(a) =>
        match LazyUntil(s, "</span>", a + 25)
        case None => None
        case Some(b) =>
          match LazyUntil(s, "</h2>", b + 7)
          case None => None
          case Some(c) => Some((a, b, c))
  }

  /** The first substitution: job-header spans dropped, their text kept. */
  function StripJobHeaders(content: string): string {
    Sub(JobHeaderAt, content)
  }

  /** A heading with its emoji span: `open<span class="mono-emoji">emoji</span> text close`. */
  function Decorated(open: string, close: string, emoji: string, text: string): string {
    open + SpanOpen + emoji + "</span> " + text + close
  }

  /** `open(.*?)close` at `p`, decorated with the emoji of its text. */
  function HeadingAt(open: string, close: string, s: string, p: nat): Option<(nat, string)> {
    if !OccursAt(s, open, p) then None
    else match LazyUntil(s, close, p + |open|)
      case None => None
      case Some(c) =>
        var text := s[p + |open|..c];
        Some((c + |close|, Decorated(open, close, FindEmoji(text), text)))
  }

  function H1At(s: string, p: nat): Option<(nat, string)> {
    HeadingAt("<h1>", "</h1>", s, p)
  }

  function H2At(s: string, p: nat): Option<(nat, string)> {
    HeadingAt("<h2>", "</h2>", s, p)
  }

  /**
   * `<h2>([^<]*?[\U0001F000-\U0001FFFF][^<]*?)</h2>` at `p`, yielding the
   * group: no `<` may occur in it, so it runs to the first `<`, which must
   * open `</h2>`, and it must hold an emoji character.
   */
  function EmojiH2At(s: string, p: nat): Option<(nat, string)> {
    if !OccursAt(s, "<h2>", p) then None
    else match FindFrom(s, "<", p + 4)
      case None => None
      case Some(q) =>
        if OccursAt(s, "</h2>", q) && HasEmoji(s[p + 4..q]) then Some((q + 5, s[p + 4..q])) else None
  }

  /** The text of an h2 set aside under the temporary marker. */
  function Marked(tag: string): string {
    MarkOpen + tag + MarkClose
  }

  /** The marking loop: each tag in turn, every `<h2>tag</h2>` replaced by its marked form. */
  function MarkAll(content: string, tags: seq<string>): string
    decreases |tags|
  {
    if tags == [] then content
    else
      var last := tags[|tags| - 1];
      ReplaceAll(MarkAll(content, tags[..|tags| - 1]), "<h2>" + last + "</h2>", Marked(last))
  }

  /** `<h2_EMOJI_ALREADY_PRESENT>(.*?)</h2_EMOJI_ALREADY_PRESENT>` at `p`, back to a plain h2. */
  function RestoreAt(s: string, p: nat): Option<(nat, string)> {
    if !OccursAt(s, MarkOpen, p) then None
    else match LazyUntil(s, MarkClose, p + |MarkOpen|)
      case None => None
      case Some(c) => Some((c + |MarkClose|, "<h2>" + s[p + |MarkOpen|..c] + "</h2>"))
  }

  /** Everything after the job-header substitution. */
  function DecorateHeadings(content: string): string {
    var withH1 := Sub(H1At, content);
    Sub(RestoreAt, Sub(H2At, MarkAll(withH1, FindAll(EmojiH2At, withH1))))
  }

  /** What `add_section_emojis` returns. */
  function SectionEmojisOf(content: string): string {
    DecorateHeadings(StripJobHeaders(content))
  }

  /** `add_section_emojis` */
  method AddSectionEmojis(input: string) returns (content: string)
    ensures content == SectionEmojisOf(input)
  {
    content := StripJobHeaders(input);
    content := Sub(H1At, content);
    var withH1 := content;
    var tags := FindAll(EmojiH2At, content);
    for i := 0 to |tags|
      invariant content == MarkAll(withH1, tags[..i])
    {
      assert tags[..i + 1][..i] == tags[..i];
      content := ReplaceAll(content, "<h2>" + tags[i] + "</h2>", Marked(tags[i]));
    }
    assert tags[..|tags|] == tags;
    content := Sub(H2At, content);
    content := Sub(RestoreAt, content);
  }

  /** A pattern starting with a character found only at known positions, and absent there, is absent. */
  lemma AbsentBesides(s: string, pat: string, at: set<int>)
    requires pat != ""
    requires forall k :: 0 <= k < |s| && k !in at ==> s[k] != pat[0]
    requires forall k :: k in at ==> !OccursAt(s, pat, k)
    ensures forall k :: !OccursAt(s, pat, k)
  {
    forall k ensures !OccursAt(s, pat, k) {
      if k !in at && 0 <= k < |s| {
        Mismatch(s, pat, k, 0);
      }
    }
  }

  /** A lazy group over a piece without `<` or newline closes right after it on a pattern starting with `<`. */
  lemma LazyOverPiece(s: string, pat: string, from: nat, piece: string)
    requires from + |piece| <= |s| && s[from..from + |piece|] == piece
    requires '<' !in piece && '\n' !in piece && pat != "" && pat[0] == '<'
    requires OccursAt(s, pat, from + |piece|)
    ensures LazyUntil(s, pat, from) == Some(from + |piece|)
  {
    forall j | from <= j < from + |piece| ensures s[j] != '\n' && !OccursAt(s, pat, j) {
      assert s[j] == piece[j - from];
      assert piece[j - from] in piece;
      Mismatch(s, pat, j, 0);
    }
    LazyUntilAt(s, pat, from, from + |piece|);
  }

  /** The `<` of `"<h2>" + t + "</h2>"`. */
  lemma LineAngles(open: string, t: string, close: string)
    requires '<' !in t && |open| == 4 && |close| == 5 && '<' !in open[1..] && '<' !in close[1..]
    ensures forall k :: 0 <= k < |open + t + close| && k !in {0, 4 + |t|} ==> (open + t + close)[k] != '<'
  {
    var s := open + t + close;
    forall k | 0 <= k < |s| && k !in {0, 4 + |t|} ensures s[k] != '<' {
      if k < 4 {
        assert s[k] == open[1..][k - 1];
      } else if k < 4 + |t| {
        assert s[k] == t[k - 4];
        assert t[k - 4] in t;
      } else {
        assert s[k] == close[1..][k - 5 - |t|];
      }
    }
  }

  /** The `<` of a decorated heading. */
  lemma DecoratedAngles(open: string, close: string, e: string, t: string)
    requires '<' !in t && '<' !in e && |open| == 4 && |close| == 5 && '<' !in open[1..] && '<' !in close[1..]
    ensures forall k :: 0 <= k < |Decorated(open, close, e, t)| && k !in {0, 4, 29 + |e|, 37 + |e| + |t|} ==>
      Decorated(open, close, e, t)[k] != '<'
  {
    var s := Decorated(open, close, e, t);
    assert s == open + SpanOpen + e + "</span> " + t + close;
    forall k | 0 <= k < |s| && k !in {0, 4, 29 + |e|, 37 + |e| + |t|} ensures s[k] != '<' {
      if k < 4 {
        assert s[k] == open[1..][k - 1];
      } else if k < 29 {
        assert s[k] == SpanOpen[k - 4];
      } else if k < 29 + |e| {
        assert s[k] == e[k - 29];
        assert e[k - 29] in e;
      } else if k < 37 + |e| {
        assert s[k] == "</span> "[k - 29 - |e|];
      } else if k < 37 + |e| + |t| {
        assert s[k] == t[k - 37 - |e|];
        assert t[k - 37 - |e|] in t;
      } else {
        assert s[k] == close[1..][k - 38 - |e| - |t|];
      }
    }
  }

  /** Which tag pair a heading line uses. */
  predicate HeadingTags(open: string, close: string) {
    (open == "<h1>" && close == "</h1>") || (open == "<h2>" && close == "</h2>")
  }

  /** A heading line holds no job-header span and no marker. */
  lemma LineNoSpanOrMarker(open: string, t: string, close: string)
    requires HeadingTags(open, close) && '<' !in t
    ensures forall k :: !OccursAt(open + t + close, JobHeaderOpen, k)
    ensures forall k :: !OccursAt(open + t + close, MarkOpen, k)
  {
    var s := open + t + close;
    LineAngles(open, t, close);
    Mismatch(s, JobHeaderOpen, 0, 1);
    Mismatch(s, JobHeaderOpen, 4 + |t|, 1);
    AbsentBesides(s, JobHeaderOpen, {0, 4 + |t|});
    Mismatch(s, MarkOpen, 0, 3);
    Mismatch(s, MarkOpen, 4 + |t|, 1);
    AbsentBesides(s, MarkOpen, {0, 4 + |t|});
  }

  /** An h1 line holds no `<h2>`; an h2 line holds no `<h1>`, and `<h2>` only at its start. */
  lemma LineOpens(open: string, t: string, close: string)
    requires HeadingTags(open, close) && '<' !in t
    ensures open == "<h1>" ==> forall k :: !OccursAt(open + t + close, "<h2>", k)
    ensures open == "<h2>" ==> forall k :: !OccursAt(open + t + close, "<h1>", k)
    ensures open == "<h2>" ==> forall k :: k != 0 ==> !OccursAt(open + t + close, "<h2>", k)
  {
    var s := open + t + close;
    LineAngles(open, t, close);
    Mismatch(s, "<h2>", 4 + |t|, 1);
    Mismatch(s, "<h1>", 4 + |t|, 1);
    if open == "<h1>" {
      Mismatch(s, "<h2>", 0, 2);
      AbsentBesides(s, "<h2>", {0, 4 + |t|});
    } else {
      Mismatch(s, "<h1>", 0, 2);
      AbsentBesides(s, "<h1>", {0, 4 + |t|});
      forall k | k != 0 ensures !OccursAt(s, "<h2>", k) {
        if k != 4 + |t| && 0 <= k < |s| {
          Mismatch(s, "<h2>", k, 0);
        }
      }
    }
  }

  /** What follows each `<` of a decorated heading. */
  lemma DecoratedAfterAngles(open: string, close: string, e: string, t: string)
    requires HeadingTags(open, close)
    ensures Decorated(open, close, e, t)[3] == '>'
    ensures open == "<h1>" ==> Decorated(open, close, e, t)[2] == '1'
    ensures Decorated(open, close, e, t)[5] == 's'
    ensures Decorated(open, close, e, t)[30 + |e|] == '/'
    ensures Decorated(open, close, e, t)[38 + |e| + |t|] == '/'
  {
    var d := Decorated(open, close, e, t);
    var x := open + SpanOpen + e;
    assert d == x + ("</span> " + t + close);
    assert d[30 + |e|] == ("</span> " + t + close)[1];
    var y := x + "</span> " + t;
    assert d == y + close;
    assert d[38 + |e| + |t|] == close[1];
  }

  /** A decorated heading holds no marker. */
  lemma DecoratedNoMarker(open: string, close: string, e: string, t: string)
    requires HeadingTags(open, close) && '<' !in t && '<' !in e
    ensures forall k :: !OccursAt(Decorated(open, close, e, t), MarkOpen, k)
  {
    var d := Decorated(open, close, e, t);
    DecoratedAngles(open, close, e, t);
    DecoratedAfterAngles(open, close, e, t);
    assert MarkOpen[1] == 'h' && MarkOpen[3] == '_';
    assert !OccursAt(d, MarkOpen, 0) by {
      Mismatch(d, MarkOpen, 0, 3);
    }
    assert !OccursAt(d, MarkOpen, 4) by {
      Mismatch(d, MarkOpen, 4, 1);
    }
    assert !OccursAt(d, MarkOpen, 29 + |e|) by {
      Mismatch(d, MarkOpen, 29 + |e|, 1);
    }
    assert !OccursAt(d, MarkOpen, 37 + |e| + |t|) by {
      Mismatch(d, MarkOpen, 37 + |e| + |t|, 1);
    }
    AbsentBesides(d, MarkOpen, {0, 4, 29 + |e|, 37 + |e| + |t|});
  }

  /** A decorated h1 holds no `<h2>`. */
  lemma DecoratedH1NoH2(e: string, t: string)
    requires '<' !in t && '<' !in e
    ensures forall k :: !OccursAt(Decorated("<h1>", "</h1>", e, t), "<h2>", k)
  {
    var d := Decorated("<h1>", "</h1>", e, t);
    DecoratedAngles("<h1>", "</h1>", e, t);
    DecoratedAfterAngles("<h1>", "</h1>", e, t);
    Mismatch(d, "<h2>", 0, 2);
    Mismatch(d, "<h2>", 4, 1);
    Mismatch(d, "<h2>", 29 + |e|, 1);
    Mismatch(d, "<h2>", 37 + |e| + |t|, 1);
    AbsentBesides(d, "<h2>", {0, 4, 29 + |e|, 37 + |e| + |t|});
  }

  /** The `<` of a marked h2: the ones opening the two markers. */
  lemma MarkedAngles(t: string)
    requires '<' !in t
    ensures forall k :: 0 <= k < |Marked(t)| && k !in {0, 26 + |t|} ==> Marked(t)[k] != '<'
    ensures Marked(t)[3] == '_' && Marked(t)[27 + |t|] == '/'
  {
    var m := Marked(t);
    forall k | 0 <= k < |m| && k !in {0, 26 + |t|} ensures m[k] != '<' {
      if k < 26 {
        assert m[k] == MarkOpen[k];
      } else if k < 26 + |t| {
        assert m[k] == t[k - 26];
        assert t[k - 26] in t;
      } else {
        assert m[k] == MarkClose[k - 26 - |t|];
      }
    }
  }

  /** A marked h2 holds no `<h2>`. */
  lemma MarkedNoOpen(t: string)
    requires '<' !in t
    ensures forall k :: !OccursAt(Marked(t), "<h2>", k)
  {
    var m := Marked(t);
    MarkedAngles(t);
    assert !OccursAt(m, "<h2>", 0) by {
      Mismatch(m, "<h2>", 0, 3);
    }
    assert !OccursAt(m, "<h2>", 26 + |t|) by {
      Mismatch(m, "<h2>", 26 + |t|, 1);
    }
    AbsentBesides(m, "<h2>", {0, 26 + |t|});
  }

  /** Without a job-header span there is nothing to strip. */
  lemma StripJobHeadersNone(s: string)
    requires forall k :: !OccursAt(s, JobHeaderOpen, k)
    ensures StripJobHeaders(s) == s
  {
    SubNoMatch(JobHeaderAt, s);
  }

  /** Without `<h1>` the h1 substitution changes nothing. */
  lemma H1None(s: string)
    requires forall k :: !OccursAt(s, "<h1>", k)
    ensures Sub(H1At, s) == s
  {
    SubNoMatch(H1At, s);
  }

  /** Without `<h2>` neither the h2 substitution nor the emoji search finds anything. */
  lemma H2None(s: string)
    requires forall k :: !OccursAt(s, "<h2>", k)
    ensures Sub(H2At, s) == s
    ensures FindAll(EmojiH2At, s) == []
  {
    SubNoMatch(H2At, s);
    FindAllNoMatch(EmojiH2At, s);
  }

  /** Without the marker nothing is restored. */
  lemma RestoreNone(s: string)
    requires forall k :: !OccursAt(s, MarkOpen, k)
    ensures Sub(RestoreAt, s) == s
  {
    SubNoMatch(RestoreAt, s);
  }

  /** A whole heading line is one match of its heading pattern. */
  lemma HeadingLineFires(open: string, t: string, close: string)
    requires HeadingTags(open, close) && '<' !in t && '\n' !in t
    ensures HeadingAt(open, close, open + t + close, 0).Some?
    ensures HeadingAt(open, close, open + t + close, 0).value.0 == |open + t + close|
    ensures HeadingAt(open, close, open + t + close, 0).value.1 == Decorated(open, close, FindEmoji(t), t)
  {
    var s := open + t + close;
    assert s[..4] == open;
    assert s[4..4 + |t|] == t;
    assert s[4 + |t|..] == close;
    LazyOverPiece(s, close, 4, t);
  }

  /**
   * Every h1 gains one emoji span in front of its unchanged text: for an h1
   * line whose text holds no `<` or newline, the span of `find_emoji(text)`.
   */
  lemma H1Decorated(t: string)
    requires '<' !in t && '\n' !in t
    ensures SectionEmojisOf("<h1>" + t + "</h1>") == Decorated("<h1>", "</h1>", FindEmoji(t), t)
  {
    var s := "<h1>" + t + "</h1>";
    LineNoSpanOrMarker("<h1>", t, "</h1>");
    StripJobHeadersNone(s);
    HeadingLineFires("<h1>", t, "</h1>");
    SubWhole(H1At, s);
    var d := Decorated("<h1>", "</h1>", FindEmoji(t), t);
    EmojiPlain(t);
    DecoratedNoMarker("<h1>", "</h1>", FindEmoji(t), t);
    DecoratedH1NoH2(FindEmoji(t), t);
    H2None(d);
    RestoreNone(d);
  }

  /** The emoji search on an h2 line yields its text exactly when the text holds an emoji. */
  lemma EmojiSearchLine(t: string)
    requires '<' !in t
    ensures FindAll(EmojiH2At, "<h2>" + t + "</h2>") == if HasEmoji(t) then [t] else []
  {
    var s := "<h2>" + t + "</h2>";
    LineOpens("<h2>", t, "</h2>");
    LineAngles("<h2>", t, "</h2>");
    forall j | 4 <= j < 4 + |t| ensures !OccursAt(s, "<", j) {
      Mismatch(s, "<", j, 0);
    }
    assert s[4 + |t|..5 + |t|] == "<";
    FindFromAt(s, "<", 4, 4 + |t|);
    assert s[4 + |t|..] == "</h2>";
    assert s[4..4 + |t|] == t;
    forall k | 1 <= k < |s| ensures !Fires(EmojiH2At, s, k) {
    }
    FindAllFromSkip(EmojiH2At, s, 1, |s|);
    if HasEmoji(t) {
      assert EmojiH2At(s, 0) == Some((|s|, t));
      assert FindAllFrom(EmojiH2At, s, |s|) == [];
    } else {
      assert !Fires(EmojiH2At, s, 0);
    }
  }

  /** An h2 whose text holds no emoji character gains one emoji span. */
  lemma H2Decorated(t: string)
    requires '<' !in t && '\n' !in t && !HasEmoji(t)
    ensures DecorateHeadings("<h2>" + t + "</h2>") == Decorated("<h2>", "</h2>", FindEmoji(t), t)
    ensures SectionEmojisOf("<h2>" + t + "</h2>") == Decorated("<h2>", "</h2>", FindEmoji(t), t)
  {
    var s := "<h2>" + t + "</h2>";
    LineNoSpanOrMarker("<h2>", t, "</h2>");
    LineOpens("<h2>", t, "</h2>");
    StripJobHeadersNone(s);
    H1None(s);
    EmojiSearchLine(t);
    HeadingLineFires("<h2>", t, "</h2>");
    SubWhole(H2At, s);
    EmojiPlain(t);
    DecoratedNoMarker("<h2>", "</h2>", FindEmoji(t), t);
    RestoreNone(Decorated("<h2>", "</h2>", FindEmoji(t), t));
  }

  /** Replacing a whole text that is the pattern gives the replacement. */
  lemma ReplaceWhole(p: string, r: string)
    requires |p| > 0
    ensures ReplaceAll(p, p, r) == r
  {
    ReplaceAllSplit("", p, r, "");
    assert "" + p + "" == p;
  }

  /** An h2 whose text holds an emoji survives the first two stages and is set aside under the marker. */
  lemma H2WithEmojiMarked(t: string)
    requires '<' !in t && '\n' !in t && HasEmoji(t)
    ensures var s := "<h2>" + t + "</h2>"; Sub(H1At, s) == s && MarkAll(s, FindAll(EmojiH2At, s)) == Marked(t)
  {
    var s := "<h2>" + t + "</h2>";
    LineNoSpanOrMarker("<h2>", t, "</h2>");
    LineOpens("<h2>", t, "</h2>");
    H1None(s);
    EmojiSearchLine(t);
    assert [t][..0] == [];
    ReplaceWhole(s, Marked(t));
    assert MarkAll(s, [t]) == Marked(t);
  }

  /** The marked text holds no h2, and restoring it gives the plain h2 back. */
  lemma MarkedRestored(t: string)
    requires '<' !in t && '\n' !in t
    ensures Sub(RestoreAt, Sub(H2At, Marked(t))) == "<h2>" + t + "</h2>"
  {
    MarkedNoOpen(t);
    H2None(Marked(t));
    var m := Marked(t);
    assert m[..26] == MarkOpen;
    assert m[26..26 + |t|] == t;
    assert m[26 + |t|..] == MarkClose;
    LazyOverPiece(m, MarkClose, 26, t);
    SubWhole(RestoreAt, m);
  }

  /** An h2 whose text already holds an emoji character is left as it is. */
  lemma H2WithEmojiKept(t: string)
    requires '<' !in t && '\n' !in t && HasEmoji(t)
    ensures DecorateHeadings("<h2>" + t + "</h2>") == "<h2>" + t + "</h2>"
    ensures SectionEmojisOf("<h2>" + t + "</h2>") == "<h2>" + t + "</h2>"
  {
    var s := "<h2>" + t + "</h2>";
    LineNoSpanOrMarker("<h2>", t, "</h2>");
    StripJobHeadersNone(s);
    H2WithEmojiMarked(t);
    MarkedRestored(t);
  }

  /** A job heading `<h2>a<span class='job-header'>b</span>c</h2>`. */
  function JobHeading(a: string, b: string, c: string): string {
    "<h2>" + a + JobHeaderOpen + b + "</span>" + c + "</h2>"
  }

  lemma JobHeaderOpenShape()
    ensures |JobHeaderOpen| == 25 && JobHeaderOpen[0] == '<'
  {
  }

  /** The job-header pattern matches at `p` once its three lazy groups close. */
  lemma JobHeaderGroupsClose(s: string, p: nat, i: nat, j: nat, k: nat)
    requires OccursAt(s, "<h2>", p)
    requires LazyUntil(s, JobHeaderOpen, p + 4).Some? && LazyUntil(s, JobHeaderOpen, p + 4).value == i
    requires LazyUntil(s, "</span>", i + 25).Some? && LazyUntil(s, "</span>", i + 25).value == j
    requires LazyUntil(s, "</h2>", j + 7).Some? && LazyUntil(s, "</h2>", j + 7).value == k
    ensures JobHeaderGroups(s, p).Some?
    ensures JobHeaderGroups(s, p).value.0 == i && JobHeaderGroups(s, p).value.1 == j && JobHeaderGroups(s, p).value.2 == k
  {
  }

  /** Where the pieces of a job heading sit. */
  predicate JobHeadingSlices(s: string, a: string, b: string, c: string) {
    |s| == 41 + |a| + |b| + |c| &&
    OccursAt(s, "<h2>", 0) && s[4..4 + |a|] == a &&
    OccursAt(s, JobHeaderOpen, 4 + |a|) &&
    s[29 + |a|..29 + |a| + |b|] == b &&
    OccursAt(s, "</span>", 29 + |a| + |b|) &&
    s[36 + |a| + |b|..36 + |a| + |b| + |c|] == c &&
    OccursAt(s, "</h2>", 36 + |a| + |b| + |c|)
  }

  lemma JobHeadingShape(a: string, b: string, c: string)
    ensures JobHeadingSlices(JobHeading(a, b, c), a, b, c)
  {
    JobHeaderOpenShape();
  }

  /** The first lazy group of the job-header pattern ends where `a` does. */
  lemma SlicesGroupA(s: string, a: string, b: string, c: string)
    requires '<' !in a && '\n' !in a && '<' !in b && '\n' !in b && '<' !in c && '\n' !in c
    requires JobHeadingSlices(s, a, b, c)
    ensures LazyUntil(s, JobHeaderOpen, 0 + 4).Some? && LazyUntil(s, JobHeaderOpen, 0 + 4).value == 4 + |a|
  {
    JobHeaderOpenShape();
    LazyOverPiece(s, JobHeaderOpen, 4, a);
  }

  /** The second ends where `b` does. */
  lemma SlicesGroupB(s: string, a: string, b: string, c: string)
    requires '<' !in a && '\n' !in a && '<' !in b && '\n' !in b && '<' !in c && '\n' !in c
    requires JobHeadingSlices(s, a, b, c)
    ensures LazyUntil(s, "</span>", 4 + |a| + 25).Some? && LazyUntil(s, "</span>", 4 + |a| + 25).value == 29 + |a| + |b|
  {
    LazyOverPiece(s, "</span>", 29 + |a|, b);
  }

  /** The third ends where `c` does. */
  lemma SlicesGroupC(s: string, a: string, b: string, c: string)
    requires '<' !in a && '\n' !in a && '<' !in b && '\n' !in b && '<' !in c && '\n' !in c
    requires JobHeadingSlices(s, a, b, c)
    ensures LazyUntil(s, "</h2>", 29 + |a| + |b| + 7).Some? && LazyUntil(s, "</h2>", 29 + |a| + |b| + 7).value == 36 + |a| + |b| + |c|
  {
    LazyOverPiece(s, "</h2>", 36 + |a| + |b|, c);
  }

  /** The three lazy groups of the job-header pattern end where the pieces do. */
  lemma GroupsOfSlices(s: string, a: string, b: string, c: string)
    requires '<' !in a && '\n' !in a && '<' !in b && '\n' !in b && '<' !in c && '\n' !in c
    requires JobHeadingSlices(s, a, b, c)
    ensures JobHeaderGroups(s, 0).Some?
    ensures JobHeaderGroups(s, 0).value.0 == 4 + |a|
    ensures JobHeaderGroups(s, 0).value.1 == 29 + |a| + |b|
    ensures JobHeaderGroups(s, 0).value.2 == 36 + |a| + |b| + |c|
  {
    SlicesGroupA(s, a, b, c);
    SlicesGroupB(s, a, b, c);
    SlicesGroupC(s, a, b, c);
    JobHeaderGroupsClose(s, 0, 4 + |a|, 29 + |a| + |b|, 36 + |a| + |b| + |c|);
  }

  /** The match replaces the whole of `s` by the heading without its span. */
  lemma StrippedOfSlices(s: string, a: string, b: string, c: string)
    requires '<' !in a && '\n' !in a && '<' !in b && '\n' !in b && '<' !in c && '\n' !in c
    requires JobHeadingSlices(s, a, b, c)
    ensures Sub(JobHeaderAt, s) == "<h2>" + a + b + c + "</h2>"
  {
    GroupsOfSlices(s, a, b, c);
    SubWhole(JobHeaderAt, s);
  }

  /** The job-header span is dropped and its text kept in place. */
  lemma JobHeaderStripped(a: string, b: string, c: string)
    requires '<' !in a && '\n' !in a && '<' !in b && '\n' !in b && '<' !in c && '\n' !in c
    ensures StripJobHeaders(JobHeading(a, b, c)) == "<h2>" + a + b + c + "</h2>"
  {
    JobHeadingShape(a, b, c);
    StrippedOfSlices(JobHeading(a, b, c), a, b, c);
  }

  /**
   * A job heading keeps its own emoji: with the span gone it is an h2 like
   * any other, left alone when its text holds an emoji and decorated once
   * otherwise.
   */
  lemma JobHeadingEmojis(a: string, b: string, c: string)
    requires '<' !in a && '\n' !in a && '<' !in b && '\n' !in b && '<' !in c && '\n' !in c
    ensures HasEmoji(a + b + c) ==> SectionEmojisOf(JobHeading(a, b, c)) == "<h2>" + (a + b + c) + "</h2>"
    ensures !HasEmoji(a + b + c) ==>
      SectionEmojisOf(JobHeading(a, b, c)) == Decorated("<h2>", "</h2>", FindEmoji(a + b + c), a + b + c)
  {
    JobHeaderStripped(a, b, c);
    var t := a + b + c;
    assert "<h2>" + a + b + c + "</h2>" == "<h2>" + t + "</h2>";
    forall i | 0 <= i < |t| ensures t[i] != '<' && t[i] != '\n' {
      if i < |a| {
        assert t[i] == a[i];
        assert a[i] in a;
      } else if i < |a| + |b| {
        assert t[i] == b[i - |a|];
        assert b[i - |a|] in b;
      } else {
        assert t[i] == c[i - |a| - |b|];
        assert c[i - |a| - |b|] in c;
      }
    }
    if HasEmoji(t) {
      H2WithEmojiKept(t);
    } else {
      H2Decorated(t);
    }
  }

  // ---------------------------------------------------------------------
  // format_phd_name

  /** The first position at or after `q` that is not whitespace (`|s|` when there is none). */
  function SkipSpaces(s: string, q: nat): (w: nat)
    ensures q <= w && (w >= |s| || !IsSpace(s[w]))
    ensures w > q ==> w <= |s|
    ensures forall j :: q <= j < w ==> IsSpace(s[j])
    decreases |s| - q
  {
    if q < |s| && IsSpace(s[q]) then SkipSpaces(s, q + 1) else q
  }

  /**
   * `,?\s*(PhD|Ph\.D\.?)` at `p`, replaced by nothing. Each quantifier is
   * greedy and no shorter choice can succeed: after a comma the next
   * character must be whitespace or the `P`, and the degree must start at the
   * first non-space character.
   */
  function PhdAt(s: string, p: nat): Option<(nat, string)> {
    var q := if p < |s| && s[p] == ',' then p + 1 else p;
    var w := SkipSpaces(s, q);
    if OccursAt(s, "PhD", w) then Some((w + 3, ""))
    else if OccursAt(s, "Ph.D", w) then Some((if w + 4 < |s| && s[w + 4] == '.' then w + 5 else w + 4, ""))
    else None
  }

  /** `re.sub(r',?\s*(PhD|Ph\.D\.?)', '', name)`: a name with no PhD spelling is kept. */
  function StripPhd(name: string): (r: string)
    ensures NoPhdIn(name) ==> r == name
  {
    NothingToStrip(name);
    Sub(PhdAt, name)
  }

  /** Without `PhD` or `Ph.D` in the name the pattern matches nowhere. */
  lemma NothingToStrip(name: string)
    ensures NoPhdIn(name) ==> Sub(PhdAt, name) == name
  {
    if NoPhdIn(name) {
      forall k | 0 <= k < |name| ensures !Fires(PhdAt, name, k) {
        var q := if k < |name| && name[k] == ',' then k + 1 else k;
        var w := SkipSpaces(name, q);
        if OccursAt(name, "PhD", w) {
          ContainsAt(name, "PhD", w);
        }
        if OccursAt(name, "Ph.D", w) {
          ContainsAt(name, "Ph.D", w);
        }
      }
      SubNoMatch(PhdAt, name);
    }
  }

  /**
   * `format_phd_name`: any PhD mention is replaced by one suffix in the
   * backend's style, and a name that mentions no PhD is kept.
   */
  function FormatPhdName(name: string, backend: string): (r: string)
    ensures NoPhdIn(name) ==> r == name
    ensures !NoPhdIn(name) ==> EndsWith(r, if backend == "html" then ",<br>PhD" else ", PhD")
  {
    DottedMention(name);
    if name != "" && (Contains(name, "PhD") || Contains(name, "Ph.D") || Contains(name, "Ph.D.")) then
      StripPhd(name) + (if backend == "html" then ",<br>PhD" else ", PhD")
    else name
  }

  /** `Ph.D.` in a name means `Ph.D` is in it, and any mention makes the name non-empty. */
  lemma DottedMention(name: string)
    ensures Contains(name, "Ph.D.") ==> Contains(name, "Ph.D")
    ensures !NoPhdIn(name) ==> name != ""
  {
    if Contains(name, "Ph.D.") {
      var k := FindFrom(name, "Ph.D.", 0).value;
      assert name[k..k + 4] == name[k..k + 5][..4];
      ContainsAt(name, "Ph.D", k);
    }
  }

  /** The degree spellings the pattern removes. */
  predicate IsPhdSpelling(deg: string) {
    deg == "PhD" || deg == "Ph.D" || deg == "Ph.D."
  }

  /** A name with no PhD spelling of its own: neither `PhD` nor `Ph.D` occurs in it. */
  predicate NoPhdIn(base: string) {
    !Contains(base, "PhD") && !Contains(base, "Ph.D")
  }

  /** A degree pattern cannot match across the comma that ends `base`. */
  lemma NoMatchAcrossComma(s: string, base: string, w: nat, p: string)
    requires StartsWith(s, base + ",") && w <= |base|
    requires p == "PhD" || p == "Ph.D"
    requires !Contains(base, p)
    ensures !OccursAt(s, p, w)
  {
    assert s[|base|] == ',' by { assert s[..|base| + 1][|base|] == s[|base|]; }
    if w + |p| <= |base| {
      if OccursAt(s, p, w) {
        assert base[w..w + |p|] == s[..|base| + 1][w..w + |p|] == s[w..w + |p|];
        ContainsAt(base, p, w);
      }
    } else {
      var m := |base| - w;
      assert 0 <= m < |p|;
      assert p[m] != ',';
      Mismatch(s, p, w, m);
    }
  }

  /** Inside a name with no PhD spelling of its own no removal can start. */
  lemma PhdNotInBase(s: string, base: string)
    requires StartsWith(s, base + ",") && NoPhdIn(base)
    ensures forall k :: 0 <= k < |base| ==> !Fires(PhdAt, s, k)
  {
    assert s[|base|] == ',' by { assert s[..|base| + 1][|base|] == s[|base|]; }
    forall k | 0 <= k < |base| ensures !Fires(PhdAt, s, k) {
      var q := if k < |s| && s[k] == ',' then k + 1 else k;
      var w := SkipSpaces(s, q);
      assert w <= |base|;
      NoMatchAcrossComma(s, base, w, "PhD");
      NoMatchAcrossComma(s, base, w, "Ph.D");
    }
  }

  /** `", "` then the degree at the end of the name is one removal spanning it. */
  lemma PhdAtSuffix(base: string, deg: string)
    requires IsPhdSpelling(deg)
    ensures PhdAt(base + ", " + deg, |base|).Some? && PhdAt(base + ", " + deg, |base|).value.0 == |base + ", " + deg|
    ensures PhdAt(base + ", " + deg, |base|).value.1 == ""
  {
    var s := base + ", " + deg;
    var w := |base| + 2;
    assert s[|base|] == ',' && s[|base| + 1] == ' ';
    assert SkipSpaces(s, |base| + 2) == w by {
      assert s[w] == 'P';
    }
    assert SkipSpaces(s, |base| + 1) == w;
    assert s[w..] == deg;
    if deg == "PhD" {
      assert s[w..w + 3] == "PhD";
    } else {
      assert s[w + 2] == '.';
      Mismatch(s, "PhD", w, 2);
      assert s[w..w + 4] == "Ph.D";
    }
  }

  /** The suffix `", "` and a PhD spelling after a name with no PhD spelling of its own is all that is removed. */
  lemma StripPhdSuffix(base: string, deg: string)
    requires NoPhdIn(base) && IsPhdSpelling(deg)
    ensures StripPhd(base + ", " + deg) == base
  {
    var s := base + ", " + deg;
    assert StartsWith(s, base + ",") by { assert s[..|base| + 1] == base + ","; }
    PhdNotInBase(s, base);
    PhdAtSuffix(base, deg);
    SubSplice(PhdAt, s, |base|, |s|, "");
    assert s[..|base|] == base;
  }

  /** Such a name mentions the degree. */
  lemma PhdMentioned(base: string, deg: string)
    requires IsPhdSpelling(deg)
    ensures Contains(base + ", " + deg, "PhD") || Contains(base + ", " + deg, "Ph.D")
  {
    var s := base + ", " + deg;
    var w := |base| + 2;
    if deg == "PhD" {
      assert s[w..w + 3] == "PhD";
      ContainsAt(s, "PhD", w);
    } else {
      assert s[w..w + 4] == "Ph.D";
      ContainsAt(s, "Ph.D", w);
    }
  }

  /**
   * A name ending in `", "` and a PhD spelling, with no other PhD spelling,
   * loses the suffix and gets the backend's: `",<br>PhD"` in HTML, `", PhD"`
   * otherwise.
   */
  lemma PhdSuffix(base: string, deg: string)
    requires NoPhdIn(base) && IsPhdSpelling(deg)
    ensures FormatPhdName(base + ", " + deg, "html") == base + ",<br>PhD"
    ensures FormatPhdName(base + ", " + deg, "markdown") == base + ", PhD"
  {
    var s := base + ", " + deg;
    StripPhdSuffix(base, deg);
    PhdMentioned(base, deg);
    assert s != "";
  }

  lemma PaulSmithHasNoPhd()
    ensures NoPhdIn("Paul Smith")
  {
    var base := "Paul Smith";
    forall k ensures !OccursAt(base, "PhD", k) && !OccursAt(base, "Ph.D", k) {
      if 0 <= k < |base| {
        var i := if k == 0 then 1 else 0;
        assert base[k + i] != 'P' || i == 1;
        Mismatch(base, "PhD", k, i);
        Mismatch(base, "Ph.D", k, i);
      }
    }
    ContainsIff(base, "PhD");
    ContainsIff(base, "Ph.D");
  }

  /** A capital P elsewhere in the name is no obstacle: `Paul Smith, PhD` becomes `Paul Smith,<br>PhD`. */
  lemma CapitalPName(base: string)
    requires base == "Paul Smith"
    ensures FormatPhdName(base + ", PhD", "html") == base + ",<br>PhD"
  {
    PaulSmithHasNoPhd();
    assert base + ", PhD" == base + ", " + "PhD";
    PhdSuffix(base, "PhD");
  }

  /** The markdown form is a fixed point. */
  lemma PhdMarkdownFixedPoint(base: string)
    requires NoPhdIn(base)
    ensures FormatPhdName(base + ", PhD", "markdown") == base + ", PhD"
  {
    assert base + ", " + "PhD" == base + ", PhD";
    PhdSuffix(base, "PhD");
  }

  // ---------------------------------------------------------------------
  // format_website, format_github, format_email

  /** The URL with `"https://"` put in front unless it is empty or already starts with `"http"`. */
  function WithScheme(url: string): (r: string)
    ensures url != "" ==> StartsWith(r, "http") && EndsWith(r, url)
    ensures url == "" || StartsWith(url, "http") ==> r == url
  {
    if url != "" && !StartsWith(url, "http") then
      assert ("https://" + url)[..4] == "http";
      "https://" + url
    else url
  }

  /** The URL of a website value: the string itself, or an object's `url` entry. */
  function WebsiteUrl(website: Field): string {
    match website
    case Str(u) => u
    case Dict(d) => DictGet(d, "url")
  }

  /** `format_website`: empty exactly for a falsy value. */
  function FormatWebsite(website: Field, backend: string): (r: string)
    ensures r == "" <==> !FieldTruthy(website)
  {
    if !FieldTruthy(website) then ""
    else
      var url := WebsiteUrl(website);
      var text := StripScheme(url);
      if backend == "html" then Anchor(WithScheme(url), text) else MarkdownLinkText(text, WithScheme(url))
  }

  /**
   * A website given bare, with its scheme or as an object renders the same:
   * the text is the address without scheme and the target carries `https://`.
   */
  lemma WebsiteForms(rest: string, backend: string)
    requires rest != "" && ':' !in rest && '\n' !in rest && !StartsWith(rest, "http")
    ensures FormatWebsite(Str(rest), backend) == FormatWebsite(Str("https://" + rest), backend)
    ensures FormatWebsite(Str(rest), backend) == FormatWebsite(Dict(map["url" := rest]), backend)
    ensures FormatWebsite(Str(rest), "markdown") == MarkdownLinkText(rest, "https://" + rest)
  {
    var full := "https://" + rest;
    MissingChar(rest, "://", 0);
    StripSchemeOf("https", rest);
    assert "https" + "://" + rest == full;
    assert StartsWith(full, "http") by { assert full[..4] == "http"; }
    assert WithScheme(rest) == full && WithScheme(full) == full;
    assert StripScheme(full) == rest;
    assert WebsiteUrl(Dict(map["url" := rest])) == rest;
  }

  /** A character missing from the address and from `https://` is missing from both link parts. */
  lemma SchemeKeepsOut(url: string, c: char)
    requires c !in url && c !in "https://"
    ensures forall i :: 0 <= i < |WithScheme(url)| ==> WithScheme(url)[i] != c
    ensures forall i :: 0 <= i < |StripScheme(url)| ==> StripScheme(url)[i] != c
  {
    var text := StripScheme(url);
    var full := WithScheme(url);
    assert text == url[|url| - |text|..];
    forall i | 0 <= i < |text| ensures text[i] != c {
      assert text[i] == url[|url| - |text| + i];
      assert url[|url| - |text| + i] in url;
    }
    forall i | 0 <= i < |full| ensures full[i] != c {
      if full != url {
        assert full == "https://" + url;
        if i >= 8 {
          assert full[i] == url[i - 8];
          assert url[i - 8] in url;
        } else {
          assert full[i] == "https://"[i];
        }
      } else {
        assert full[i] in url;
      }
    }
  }

  /** What `extract_link_or_text` reads back from the markdown website link. */
  lemma WebsiteLinkRoundTrip(website: Field)
    requires FieldTruthy(website)
    requires ']' !in StripScheme(WebsiteUrl(website)) && '\n' !in WebsiteUrl(website) && ')' !in WebsiteUrl(website)
    ensures ExtractLinkOrText(FormatWebsite(website, "markdown")) == Link(StripScheme(WebsiteUrl(website)), WithScheme(WebsiteUrl(website)))
  {
    var url := WebsiteUrl(website);
    var text := StripScheme(url);
    var full := WithScheme(url);
    SchemeKeepsOut(url, '\n');
    SchemeKeepsOut(url, ')');
    ExtractLink("", text, full, "");
    assert "" + MarkdownLinkText(text, full) + "" == MarkdownLinkText(text, full);
  }

  /** The GitHub user name in a URL, an `@handle` or a bare name. */
  function GithubUsername(github: string): string {
    if Contains(github, "github.com/") then StripChars(LastPiece(github, "github.com/"), {'/'})
    else if StartsWith(github, "@") then LStripChars(github, {'@'})
    else github
  }

  /** `format_github`: empty exactly for an empty value. */
  function FormatGithub(github: string, backend: string, icon: string): (r: string)
    ensures r == "" <==> github == ""
  {
    if github == "" then ""
    else
      var u := GithubUsername(github);
      if backend == "html" then
        "<span class=\"mono-emoji\">" + icon + "</span>" + Anchor("https://github.com/" + u, "@" + u)
      else MarkdownLinkText("@" + u, "https://github.com/" + u)
  }

  /** In a profile URL the first `github.com/` follows the scheme. */
  lemma GithubUrlSegment(u: string)
    ensures FindFrom("https://github.com/" + u, "github.com/", 0) == Some(8)
  {
    var s := "https://github.com/" + u;
    assert s[8..19] == "github.com/";
    forall j | 0 <= j < 8 ensures !OccursAt(s, "github.com/", j) {
      Mismatch(s, "github.com/", j, 0);
    }
    FindFromAt(s, "github.com/", 0, 8);
  }

  /** What follows the last `github.com/` of a profile URL is the name. */
  lemma GithubUrlLastPiece(u: string)
    requires '/' !in u
    ensures LastPiece("https://github.com/" + u, "github.com/") == u
  {
    var s := "https://github.com/" + u;
    GithubUrlSegment(u);
    MissingChar(u, "github.com/", 10);
    assert s[19..] == u;
  }

  /** The profile URL gives the name after `github.com/`. */
  lemma GithubUsernameOfUrl(u: string)
    requires '/' !in u
    ensures GithubUsername("https://github.com/" + u) == u
  {
    GithubUrlSegment(u);
    GithubUrlLastPiece(u);
    forall i | 0 <= i < |u| ensures u[i] !in {'/'} {
      assert u[i] in u;
    }
    StripCharsAbsent(u, {'/'});
  }

  /** The `@` handle loses its `@`. */
  lemma GithubUsernameOfHandle(u: string)
    requires u != "" && '/' !in u && '@' !in u
    ensures GithubUsername("@" + u) == u
  {
    MissingChar("@" + u, "github.com/", 10);
    assert StartsWith("@" + u, "@") by { assert ("@" + u)[..1] == "@"; }
    assert u[0] in u;
    LStripCharsPrefix("@", u, {'@'});
  }

  /** The profile URL, the `@` handle and the bare name all give the same user name. */
  lemma GithubUsernameForms(u: string)
    requires u != "" && '/' !in u && '@' !in u
    ensures GithubUsername("https://github.com/" + u) == u
    ensures GithubUsername("@" + u) == u
    ensures GithubUsername(u) == u
  {
    GithubUsernameOfUrl(u);
    GithubUsernameOfHandle(u);
    MissingChar(u, "github.com/", 10);
    assert u[0] in u;
  }

  /** All three forms render the same link to `https://github.com/u` labelled `@u`. */
  lemma GithubForms(u: string, backend: string, icon: string)
    requires u != "" && '/' !in u && '@' !in u
    ensures FormatGithub("https://github.com/" + u, backend, icon) == FormatGithub(u, backend, icon)
    ensures FormatGithub("@" + u, backend, icon) == FormatGithub(u, backend, icon)
    ensures FormatGithub(u, "markdown", icon) == MarkdownLinkText("@" + u, "https://github.com/" + u)
  {
    GithubUsernameForms(u);
  }

  /** `format_email` past its falsiness test: a `mailto:` link showing the printed value. */
  function EmailLink(email: string, backend: string): string {
    if backend == "html" then "<a href=\"mailto:" + email + "\">" + email + "</a>"
    else MarkdownLinkText(email, "mailto:" + email)
  }

  /** `format_email`: empty exactly for an empty value. */
  function FormatEmail(email: string, backend: string): (r: string)
    ensures r == "" <==> email == ""
  {
    if email == "" then "" else EmailLink(email, backend)
  }

  /** The markdown e-mail link reads back as the address and its `mailto:` target. */
  lemma EmailLinkRoundTrip(email: string)
    requires email != "" && ']' !in email && ')' !in email && '\n' !in email
    ensures ExtractLinkOrText(FormatEmail(email, "markdown")) == Link(email, "mailto:" + email)
  {
    var full := "mailto:" + email;
    forall i | 0 <= i < |full| ensures full[i] != '\n' && full[i] != ')' {
      if i >= 7 {
        assert full[i] == email[i - 7];
        assert email[i - 7] in email;
      }
    }
    ExtractLink("", email, full, "");
    assert "" + MarkdownLinkText(email, full) + "" == MarkdownLinkText(email, full);
  }

  // ---------------------------------------------------------------------
  // format_personal_info

  /**
   * What `format_personal_info` hands back: a formatted text, the value
   * itself when Python returns an object unchanged, or the exception a
   * formatter raises on an object.
   */
  datatype InfoValue = Text(text: string) | Value(field: Field) | Raises

  /** `'PhD' in name or 'Ph.D' in name or 'Ph.D.' in name` on an object tests its keys. */
  predicate PhdKey(d: map<string, string>) {
    "PhD" in d || "Ph.D" in d || "Ph.D." in d
  }

  /**
   * `format_personal_info`. On an object value: `format_phd_name` returns
   * it unchanged unless one of its keys is a PhD spelling, when `re.sub`
   * raises `TypeError`; `format_github` raises `AttributeError` (an object
   * has neither `split` nor `startswith`); `format_email` prints its `repr`
   * inside the link; `format_website` reads its `url`; any other field
   * returns it as it is.
   */
  function FormatPersonalInfo(info: PersonalInfo, field: string, backend: string, icon: string,
                              repr: map<string, string> -> string): (r: InfoValue)
    ensures !FieldTruthy(Get(info, field)) ==> r == Text("")
    ensures r.Raises? <==>
      FieldTruthy(Get(info, field)) && Get(info, field).Dict? &&
      (field == "github" || (field == "name" && PhdKey(Get(info, field).entries)))
    ensures r.Value? <==>
      FieldTruthy(Get(info, field)) && Get(info, field).Dict? && field !in {"website", "github", "email"} &&
      !(field == "name" && PhdKey(Get(info, field).entries))
    ensures r.Value? ==> r.field == Get(info, field)
    ensures field !in {"name", "website", "github", "email"} && Get(info, field).Str? ==> r == Text(Get(info, field).text)
    ensures field == "name" && FieldTruthy(Get(info, field)) && Get(info, field).Str? ==>
      r == Text(FormatPhdName(Get(info, field).text, backend))
    ensures field == "github" && FieldTruthy(Get(info, field)) && Get(info, field).Str? ==>
      r == Text(FormatGithub(Get(info, field).text, backend, icon))
    ensures field == "website" ==> r == Text(FormatWebsite(Get(info, field), backend))
    ensures field == "email" && FieldTruthy(Get(info, field)) ==>
      r == Text(EmailLink(FieldText(Get(info, field), repr), backend))
  {
    var value := Get(info, field);
    if !FieldTruthy(value) then Text("")
    else if field == "website" then Text(FormatWebsite(value, backend))
    else match value
      case Dict(d) =>
        if field == "github" then Raises
        else if field == "name" then (if PhdKey(d) then Raises else Value(value))
        else if field == "email" then Text(EmailLink(repr(d), backend))
        else Value(value)
      case Str(v) =>
        if field == "name" then Text(FormatPhdName(v, backend))
        else if field == "github" then Text(FormatGithub(v, backend, icon))
        else if field == "email" then Text(FormatEmail(v, backend))
        else Text(v)
  }

  /**
   * The Markdown e-mail entry reads back through `extract_link_or_text` as
   * the printed value and its `mailto:` target, for a string address and
   * for an object alike.
   */
  lemma PersonalInfoEmailRoundTrip(info: PersonalInfo, icon: string, repr: map<string, string> -> string)
    requires FieldTruthy(Get(info, "email"))
    requires var e := FieldText(Get(info, "email"), repr); e != "" && ']' !in e && ')' !in e && '\n' !in e
    ensures var e := FieldText(Get(info, "email"), repr);
      FormatPersonalInfo(info, "email", "markdown", icon, repr).Text? &&
      ExtractLinkOrText(FormatPersonalInfo(info, "email", "markdown", icon, repr).text) == Link(e, "mailto:" + e)
  {
    var e := FieldText(Get(info, "email"), repr);
    EmailLinkRoundTrip(e);
  }

  /** A GitHub entry renders the same for the profile URL, the `@` handle and the bare name. */
  lemma PersonalInfoGithubForms(info: PersonalInfo, u: string, backend: string, icon: string,
                                repr: map<string, string> -> string)
    requires u != "" && '/' !in u && '@' !in u && "github" in info
    requires info["github"] in {Str("https://github.com/" + u), Str("@" + u), Str(u)}
    ensures FormatPersonalInfo(info, "github", backend, icon, repr) == Text(FormatGithub(u, backend, icon))
  {
    GithubForms(u, backend, icon);
  }
}
