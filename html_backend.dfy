/**
 * The HTML backend (aicv/backend/html.py): emoji spans for the `<h1>` and
 * `<h2>` headings of converted content, the contact-line formatters, and
 * the dynamic parts of the page `create_html` assembles: the name in the
 * title and in the heading, the stripping of emojis from the content when
 * they are switched off, and the slot the content goes into.
 *
 * The photo markup (`embed_photo` reads a file) and the static style sheet
 * between the title and the photo are parameters.
 */
module HtmlBackend {
  import opened Strings
  import opened Records
  import opened Substitution
  import Emojis
  import TextProcessing
  import PersonalInfoFormatter
  import Template

  // ---------------------------------------------------------------------
  // EmojisFormatterHtml.add_section_emojis

  /** `open(.*?)close` at `p`, decorated with the section emoji of its text. */
  function HeadingAt(open: string, close: string, s: string, p: nat): Option<(nat, string)> {
    if !OccursAt(s, open, p) then None
    else match LazyUntil(s, close, p + |open|)
      case None => None
      case Some(c) =>
        var text := s[p + |open|..c];
        Some((c + |close|, TextProcessing.Decorated(open, close, Emojis.FindEmoji(text), text)))
  }

  function H1At(s: string, p: nat): Option<(nat, string)> {
    HeadingAt("<h1>", "</h1>", s, p)
  }

  function H2At(s: string, p: nat): Option<(nat, string)> {
    HeadingAt("<h2>", "</h2>", s, p)
  }

  /**
   * Every h1, then every h2, gains a span with the emoji of its text; text
   * without a tag is left as it is.
   */
  function AddSectionEmojis(content: string): (r: string)
    ensures '<' !in content ==> r == content
  {
    NoTagNoHeading(content);
    Sub(H2At, Sub(H1At, content))
  }

  /** Neither heading pattern matches in text without `<`. */
  lemma NoTagNoHeading(content: string)
    ensures '<' !in content ==> Sub(H2At, Sub(H1At, content)) == content
  {
    if '<' !in content {
      forall k | 0 <= k < |content| ensures !Fires(H1At, content, k) && !Fires(H2At, content, k) {
        assert content[k] in content;
      }
      SubNoMatch(H1At, content);
      SubNoMatch(H2At, content);
    }
  }

  /** The text a decorated heading holds between its tags: the span, a space, the old text. */
  function Inner(e: string, t: string): string {
    TextProcessing.SpanOpen + e + "</span> " + t
  }

  /** Every `<` is followed by a character other than `h`: no heading tag opens here. */
  predicate NoHeadingTag(x: string) {
    forall j :: 0 <= j < |x| && x[j] == '<' ==> j + 1 < |x| && x[j + 1] != 'h'
  }

  /** The section emoji holds neither `<` nor a newline. */
  lemma EmojiPlain(text: string)
    ensures '<' !in Emojis.FindEmoji(text) && '\n' !in Emojis.FindEmoji(text)
  {
    var e := Emojis.FindEmoji(text);
    Emojis.FindEmojiAboveAscii(text);
    forall i | 0 <= i < |e| ensures e[i] != '<' && e[i] != '\n' {
    }
  }

  /** Where the inner text of a decorated heading has a `<`, and what follows each. */
  lemma InnerShape(e: string, t: string)
    requires '<' !in e && '<' !in t
    ensures |Inner(e, t)| == 33 + |e| + |t|
    ensures forall j :: 0 <= j < |Inner(e, t)| && j != 0 && j != 25 + |e| ==> Inner(e, t)[j] != '<'
    ensures Inner(e, t)[0] == '<' && Inner(e, t)[1] == 's'
    ensures Inner(e, t)[25 + |e|] == '<' && Inner(e, t)[26 + |e|] == '/' && Inner(e, t)[27 + |e|] == 's'
  {
    var x := Inner(e, t);
    FrontAngles(e, t);
    assert x == (TextProcessing.SpanOpen + e + "</span> ") + t;
    forall j | 33 + |e| <= j < |x| ensures x[j] != '<' {
      assert x[j] == t[j - 33 - |e|];
      assert t[j - 33 - |e|] in t;
    }
  }

  /** The inner text of a decorated heading opens no heading tag and has no newline. */
  lemma InnerPlain(e: string, t: string)
    requires '<' !in e && '<' !in t && '\n' !in e && '\n' !in t
    ensures NoHeadingTag(Inner(e, t)) && '\n' !in Inner(e, t)
  {
    InnerShape(e, t);
    assert '\n' !in TextProcessing.SpanOpen && '\n' !in "</span> ";
  }

  /** Decorating a text that opens no heading tag gives an inner text that opens none either. */
  lemma InnerNoTag(e: string, x: string)
    requires '<' !in e && NoHeadingTag(x)
    ensures NoHeadingTag(Inner(e, x))
  {
    var y := Inner(e, x);
    var s := TextProcessing.SpanOpen;
    assert y == (s + e + "</span> ") + x;
    forall j | 0 <= j < |y| && y[j] == '<' ensures j + 1 < |y| && y[j + 1] != 'h' {
      if j < 33 + |e| {
        FrontAngles(e, x);
      } else {
        assert y[j] == x[j - 33 - |e|];
        assert y[j + 1] == x[j - 32 - |e|];
      }
    }
  }

  /** Where the span in front of the text has a `<`, and what follows each. */
  lemma FrontAngles(e: string, x: string)
    requires '<' !in e
    ensures forall j :: 0 <= j < 33 + |e| && j != 0 && j != 25 + |e| ==> Inner(e, x)[j] != '<'
    ensures Inner(e, x)[0] == '<' && Inner(e, x)[1] == 's'
    ensures Inner(e, x)[25 + |e|] == '<' && Inner(e, x)[26 + |e|] == '/' && Inner(e, x)[27 + |e|] == 's'
  {
    var y := Inner(e, x);
    var s := TextProcessing.SpanOpen;
    var z := s + e + "</span> ";
    assert y == z + x;
    forall j | 0 <= j < 33 + |e| && j != 0 && j != 25 + |e| ensures y[j] != '<' {
      assert y[j] == z[j];
      if j < 25 {
        assert z[j] == s[j];
      } else if j < 25 + |e| {
        assert z[j] == e[j - 25];
        assert e[j - 25] in e;
      } else {
        assert z[j] == "</span> "[j - 25 - |e|];
      }
    }
    assert y[1] == s[1];
    assert y[26 + |e|] == z[26 + |e|] == "</span> "[1];
    assert y[27 + |e|] == z[27 + |e|] == "</span> "[2];
  }

  /** A line of one heading tag, whose text opens no tag, holds no instance of another. */
  lemma LineOtherOpen(open: string, x: string, close: string, other: string)
    requires |open| == 4 && open[0] == '<' && '<' !in open[1..]
    requires |close| == 5 && close[0] == '<' && close[1] == '/' && '<' !in close[1..]
    requires |other| == 4 && other[0] == '<' && other[1] == 'h' && open[2] != other[2]
    requires NoHeadingTag(x)
    ensures forall k :: !OccursAt(open + x + close, other, k)
  {
    var d := open + x + close;
    forall k | 0 <= k < |d| ensures !OccursAt(d, other, k) {
      if k == 0 {
        Mismatch(d, other, 0, 2);
      } else if k < 4 {
        assert d[k] == open[1..][k - 1];
        Mismatch(d, other, k, 0);
      } else if k < 4 + |x| {
        assert d[k] == x[k - 4];
        if x[k - 4] == '<' {
          assert d[k + 1] == x[k - 3];
          Mismatch(d, other, k, 1);
        } else {
          Mismatch(d, other, k, 0);
        }
      } else if k == 4 + |x| {
        Mismatch(d, other, k, 1);
      } else {
        assert d[k] == close[1..][k - 5 - |x|];
        Mismatch(d, other, k, 0);
      }
    }
  }

  /** Every `<` is followed by something other than `/h`: no closing heading tag starts here. */
  predicate NoClosingTag(x: string) {
    forall j :: 0 <= j < |x| && x[j] == '<' ==> j + 2 < |x| && (x[j + 1] != '/' || x[j + 2] != 'h')
  }

  /** A text without closing heading tags, standing in a larger one, holds no closing tag start. */
  lemma NoCloseInside(d: string, x: string, close: string, at: nat)
    requires OccursAt(d, x, at) && '\n' !in x && NoClosingTag(x)
    requires |close| >= 3 && close[0] == '<' && close[1] == '/' && close[2] == 'h'
    ensures forall j :: at <= j < at + |x| ==> d[j] != '\n' && !OccursAt(d, close, j)
  {
    forall j | at <= j < at + |x| ensures d[j] != '\n' && !OccursAt(d, close, j) {
      assert d[j] == d[at..at + |x|][j - at] == x[j - at];
      assert x[j - at] in x;
      if x[j - at] != '<' {
        Mismatch(d, close, j, 0);
      } else if x[j - at + 1] != '/' {
        assert d[j + 1] == d[at..at + |x|][j - at + 1];
        Mismatch(d, close, j, 1);
      } else {
        assert d[j + 2] == d[at..at + |x|][j - at + 2];
        Mismatch(d, close, j, 2);
      }
    }
  }

  /** The inner text of a decorated heading holds no closing heading tag. */
  lemma InnerNoClosingTag(e: string, t: string)
    requires '<' !in e && '<' !in t
    ensures NoClosingTag(Inner(e, t))
  {
    InnerShape(e, t);
  }

  /** A text standing between the tags of a heading, filling it: the text is the group of one match. */
  lemma TaggedFires(s: string, open: string, x: string, close: string)
    requires TextProcessing.HeadingTags(open, close)
    requires |s| == 9 + |x| && OccursAt(s, open, 0) && OccursAt(s, x, 4) && OccursAt(s, close, 4 + |x|)
    requires '\n' !in x && NoClosingTag(x)
    ensures HeadingAt(open, close, s, 0).Some?
    ensures HeadingAt(open, close, s, 0).value.0 == |s|
    ensures HeadingAt(open, close, s, 0).value.1 == TextProcessing.Decorated(open, close, Emojis.FindEmoji(x), x)
  {
    NoCloseInside(s, x, close, 4);
    LazyUntilAt(s, close, 4, 4 + |x|);
  }

  /** The tags and the text of a heading line, each in its place. */
  lemma LineSlices(open: string, x: string, close: string)
    requires |open| == 4 && |close| == 5
    ensures var s := open + x + close;
      |s| == 9 + |x| && OccursAt(s, open, 0) && OccursAt(s, x, 4) && OccursAt(s, close, 4 + |x|)
  {
    var s := open + x + close;
    assert s[..4] == open;
    assert s[4..4 + |x|] == x;
    assert s[4 + |x|..] == close;
  }

  /** A decorated heading is again one match of its pattern, whose text is now the span and the old text. */
  lemma DecoratedFires(open: string, close: string, e: string, t: string)
    requires TextProcessing.HeadingTags(open, close)
    requires '<' !in e && '<' !in t && '\n' !in e && '\n' !in t
    ensures HeadingAt(open, close, TextProcessing.Decorated(open, close, e, t), 0).Some?
    ensures HeadingAt(open, close, TextProcessing.Decorated(open, close, e, t), 0).value.0
      == |TextProcessing.Decorated(open, close, e, t)|
    ensures HeadingAt(open, close, TextProcessing.Decorated(open, close, e, t), 0).value.1
      == TextProcessing.Decorated(open, close, Emojis.FindEmoji(Inner(e, t)), Inner(e, t))
  {
    var x := Inner(e, t);
    DecoratedAsLine(open, close, e, t);
    LineSlices(open, x, close);
    InnerPlain(e, t);
    InnerNoClosingTag(e, t);
    TaggedFires(TextProcessing.Decorated(open, close, e, t), open, x, close);
  }

  /** A whole heading line is one match of its heading pattern. */
  lemma LineFires(open: string, t: string, close: string)
    requires TextProcessing.HeadingTags(open, close) && '<' !in t && '\n' !in t
    ensures HeadingAt(open, close, open + t + close, 0).Some?
    ensures HeadingAt(open, close, open + t + close, 0).value.0 == |open + t + close|
    ensures HeadingAt(open, close, open + t + close, 0).value.1 == TextProcessing.Decorated(open, close, Emojis.FindEmoji(t), t)
  {
    LineSlices(open, t, close);
    forall j | 0 <= j < |t| ensures t[j] != '<' {
      assert t[j] in t;
    }
    TaggedFires(open + t + close, open, t, close);
  }

  /** Without the opening tag the heading substitution changes nothing. */
  lemma HeadingNone(open: string, close: string, s: string)
    requires TextProcessing.HeadingTags(open, close)
    requires forall k :: !OccursAt(s, open, k)
    ensures open == "<h1>" ==> Sub(H1At, s) == s
    ensures open == "<h2>" ==> Sub(H2At, s) == s
  {
    if open == "<h1>" {
      SubNoMatch(H1At, s);
    } else {
      SubNoMatch(H2At, s);
    }
  }

  /** A decorated heading, written as its tags around the inner text. */
  lemma DecoratedAsLine(open: string, close: string, e: string, t: string)
    ensures TextProcessing.Decorated(open, close, e, t) == open + Inner(e, t) + close
  {
  }

  /** Every h1 line gains one span with the emoji of its text, in front of the unchanged text. */
  lemma H1Line(t: string)
    requires '<' !in t && '\n' !in t
    ensures AddSectionEmojis("<h1>" + t + "</h1>")
      == TextProcessing.Decorated("<h1>", "</h1>", Emojis.FindEmoji(t), t)
  {
    var e := Emojis.FindEmoji(t);
    LineFires("<h1>", t, "</h1>");
    SubWhole(H1At, "<h1>" + t + "</h1>");
    EmojiPlain(t);
    InnerPlain(e, t);
    DecoratedAsLine("<h1>", "</h1>", e, t);
    LineOtherOpen("<h1>", Inner(e, t), "</h1>", "<h2>");
    HeadingNone("<h2>", "</h2>", TextProcessing.Decorated("<h1>", "</h1>", e, t));
  }

  /** Every h2 line gains one span with the emoji of its text, in front of the unchanged text. */
  lemma H2Line(t: string)
    requires '<' !in t && '\n' !in t
    ensures AddSectionEmojis("<h2>" + t + "</h2>")
      == TextProcessing.Decorated("<h2>", "</h2>", Emojis.FindEmoji(t), t)
  {
    forall j | 0 <= j < |t| ensures t[j] != '<' {
      assert t[j] in t;
    }
    LineOtherOpen("<h2>", t, "</h2>", "<h1>");
    HeadingNone("<h1>", "</h1>", "<h2>" + t + "</h2>");
    LineFires("<h2>", t, "</h2>");
    SubWhole(H2At, "<h2>" + t + "</h2>");
  }

  /** A second call adds a second span to an h1 line, in front of the first. */
  lemma H1Twice(t: string)
    requires '<' !in t && '\n' !in t
    ensures var x := Inner(Emojis.FindEmoji(t), t);
      AddSectionEmojis(AddSectionEmojis("<h1>" + t + "</h1>"))
        == TextProcessing.Decorated("<h1>", "</h1>", Emojis.FindEmoji(x), x)
  {
    H1Line(t);
    EmojiPlain(t);
    H1Again(Emojis.FindEmoji(t), t);
  }

  /** A decorated h1 line is decorated once more, around its whole inner text. */
  lemma H1Again(e: string, t: string)
    requires '<' !in e && '\n' !in e && '<' !in t && '\n' !in t
    ensures var x := Inner(e, t);
      AddSectionEmojis(TextProcessing.Decorated("<h1>", "</h1>", e, t))
        == TextProcessing.Decorated("<h1>", "</h1>", Emojis.FindEmoji(x), x)
  {
    var x := Inner(e, t);
    var d := TextProcessing.Decorated("<h1>", "</h1>", e, t);
    DecoratedFires("<h1>", "</h1>", e, t);
    SubWhole(H1At, d);
    var e2 := Emojis.FindEmoji(x);
    EmojiPlain(x);
    InnerPlain(e, t);
    InnerNoTag(e2, x);
    DecoratedAsLine("<h1>", "</h1>", e2, x);
    LineOtherOpen("<h1>", Inner(e2, x), "</h1>", "<h2>");
    HeadingNone("<h2>", "</h2>", TextProcessing.Decorated("<h1>", "</h1>", e2, x));
  }

  /** A second call adds a second span to an h2 line, in front of the first. */
  lemma H2Twice(t: string)
    requires '<' !in t && '\n' !in t
    ensures var x := Inner(Emojis.FindEmoji(t), t);
      AddSectionEmojis(AddSectionEmojis("<h2>" + t + "</h2>"))
        == TextProcessing.Decorated("<h2>", "</h2>", Emojis.FindEmoji(x), x)
  {
    var e := Emojis.FindEmoji(t);
    var x := Inner(e, t);
    var d := TextProcessing.Decorated("<h2>", "</h2>", e, t);
    H2Line(t);
    EmojiPlain(t);
    InnerPlain(e, t);
    DecoratedAsLine("<h2>", "</h2>", e, t);
    LineOtherOpen("<h2>", x, "</h2>", "<h1>");
    HeadingNone("<h1>", "</h1>", d);
    DecoratedFires("<h2>", "</h2>", e, t);
    SubWhole(H2At, d);
  }

  // ---------------------------------------------------------------------
  // create_html with emojis switched off

  /** `<span class="mono-emoji">[^<]*</span> ?` at `p`: the span and one space after it are removed. */
  function EmojiSpanAt(s: string, p: nat): Option<(nat, string)> {
    if !OccursAt(s, TextProcessing.SpanOpen, p) then None
    else match FindFrom(s, "<", p + 25)
      case None => None
      case Some(q) =>
        if !OccursAt(s, "</span>", q) then None
        else if q + 7 < |s| && s[q + 7] == ' ' then Some((q + 8, ""))
        else Some((q + 7, ""))
  }

  /** `[\U0001F300-\U0001FAFF\U00002700-\U000027BF\U00002600-\U000026FF\U0001F000-\U0001FFFF]` */
  predicate IsLeadingEmoji(c: char) {
    ('\U{1F300}' <= c <= '\U{1FAFF}') || ('\U{2700}' <= c <= '\U{27BF}')
    || ('\U{2600}' <= c <= '\U{26FF}') || ('\U{1F000}' <= c <= '\U{1FFFF}')
  }

  /** `[^>]*>` from `from`: the position after the first `>`. */
  function CloseAngle(s: string, from: nat): (r: Option<nat>)
    ensures r.Some? ==> from < r.value <= |s|
  {
    match FindFrom(s, ">", from)
    case None => None
    case Some(q) => Some(q + 1)
  }

  /** `<h[12]` at `p` */
  predicate HeadingOpenAt(s: string, p: nat) {
    OccursAt(s, "<h", p) && p + 2 < |s| && (s[p + 2] == '1' || s[p + 2] == '2')
  }

  /** With the group ending at `g`, an emoji character and an optional space: the group is kept. */
  function LeadAfter(s: string, p: nat, g: Option<nat>): Option<(nat, string)>
    requires g.Some? ==> p <= g.value <= |s|
  {
    match g
    case None => None
    case Some(q) =>
      if q < |s| && IsLeadingEmoji(s[q]) then
        Some((if q + 1 < |s| && s[q + 1] == ' ' then q + 2 else q + 1, s[p..q]))
      else None
  }

  /**
   * `(<h[12][^>]*>|<li[^>]*>|^)` followed by an emoji character and an
   * optional space, at `p`, replaced by the group. The alternatives are
   * tried in order; `^` stands only at the start of the text.
   */
  function LeadingEmojiAt(s: string, p: nat): Option<(nat, string)> {
    var heading := if HeadingOpenAt(s, p) then CloseAngle(s, p + 3) else None;
    var item := if OccursAt(s, "<li", p) then CloseAngle(s, p + 3) else None;
    var start := if p == 0 then Some(0) else None;
    if LeadAfter(s, p, heading).Some? then LeadAfter(s, p, heading)
    else if LeadAfter(s, p, item).Some? then LeadAfter(s, p, item)
    else LeadAfter(s, p, start)
  }

  /**
   * The two substitutions `create_html` applies to the content when emojis
   * are off. Text without a tag that does not open with an emoji is kept.
   */
  function StripEmojis(content: string): (r: string)
    ensures '<' !in content && (content == [] || !IsLeadingEmoji(content[0])) ==> r == content
  {
    NothingToStrip(content);
    Sub(LeadingEmojiAt, Sub(EmojiSpanAt, content))
  }

  /** Neither removal pattern matches in text without `<` whose first character is no emoji. */
  lemma NothingToStrip(content: string)
    ensures '<' !in content && (content == [] || !IsLeadingEmoji(content[0])) ==>
      Sub(LeadingEmojiAt, Sub(EmojiSpanAt, content)) == content
  {
    if '<' !in content && (content == [] || !IsLeadingEmoji(content[0])) {
      forall k | 0 <= k < |content| ensures !Fires(EmojiSpanAt, content, k) {
        assert content[k] in content;
        Mismatch(content, TextProcessing.SpanOpen, k, 0);
      }
      SubNoMatch(EmojiSpanAt, content);
      forall k | 0 <= k < |content| ensures !Fires(LeadingEmojiAt, content, k) {
        assert content[k] in content;
        Mismatch(content, "<h", k, 0);
        Mismatch(content, "<li", k, 0);
      }
      SubNoMatch(LeadingEmojiAt, content);
    }
  }

  /** The content as it goes into the page. */
  function MainContent(content: string, emojis: bool): string {
    if emojis then content else StripEmojis(content)
  }

  /** The span of a decorated heading, with the space after it, is one match. */
  lemma SpanFires(open: string, close: string, e: string, t: string)
    requires TextProcessing.HeadingTags(open, close) && '<' !in e && '<' !in t
    ensures EmojiSpanAt(TextProcessing.Decorated(open, close, e, t), 4).Some?
    ensures EmojiSpanAt(TextProcessing.Decorated(open, close, e, t), 4).value.0 == 37 + |e|
    ensures EmojiSpanAt(TextProcessing.Decorated(open, close, e, t), 4).value.1 == ""
  {
    var d := TextProcessing.Decorated(open, close, e, t);
    var x := open + TextProcessing.SpanOpen + e;
    assert d == x + ("</span> " + t + close);
    assert d[4..29] == TextProcessing.SpanOpen;
    assert d[29 + |e|..36 + |e|] == "</span>";
    assert d[36 + |e|] == ' ';
    TextProcessing.DecoratedAngles(open, close, e, t);
    SpanWithSpace(d, 4, 29 + |e|);
  }

  /** A span start at `p`, no `<` until `q`, `</span>` at `q` and a space after it: one match up to the space. */
  lemma SpanWithSpace(s: string, p: nat, q: nat)
    requires OccursAt(s, TextProcessing.SpanOpen, p) && p + 25 <= q && OccursAt(s, "</span>", q)
    requires forall j :: p + 25 <= j < q ==> s[j] != '<'
    requires q + 7 < |s| && s[q + 7] == ' '
    ensures EmojiSpanAt(s, p) == Some((q + 8, ""))
  {
    assert s[q] == "</span>"[0];
    FindFromChar(s, '<', p + 25, q);
  }

  /** A decorated heading has no span start except the one at 4. */
  lemma SpanOnlyAt(open: string, close: string, e: string, t: string)
    requires TextProcessing.HeadingTags(open, close) && '<' !in e && '<' !in t
    ensures forall k :: k != 4 ==> !OccursAt(TextProcessing.Decorated(open, close, e, t), TextProcessing.SpanOpen, k)
  {
    var d := TextProcessing.Decorated(open, close, e, t);
    TextProcessing.DecoratedAngles(open, close, e, t);
    TextProcessing.DecoratedAfterAngles(open, close, e, t);
    assert d[1] == 'h';
    forall k | k != 4 ensures !OccursAt(d, TextProcessing.SpanOpen, k) {
      if k == 0 || k == 29 + |e| || k == 37 + |e| + |t| {
        Mismatch(d, TextProcessing.SpanOpen, k, 1);
      } else if 0 <= k < |d| {
        Mismatch(d, TextProcessing.SpanOpen, k, 0);
      }
    }
  }

  /** The span substitution takes a decorated heading back to its plain line. */
  lemma SpanRemoved(open: string, close: string, e: string, t: string)
    requires TextProcessing.HeadingTags(open, close) && '<' !in e && '<' !in t
    ensures Sub(EmojiSpanAt, TextProcessing.Decorated(open, close, e, t)) == open + t + close
  {
    var d := TextProcessing.Decorated(open, close, e, t);
    SpanFires(open, close, e, t);
    SpanOnlyAt(open, close, e, t);
    SubSplice(EmojiSpanAt, d, 4, 37 + |e|, "");
    DecoratedEnds(open, close, e, t);
  }

  /** The tag in front of a decorated heading, and the text with the closing tag after its span. */
  lemma DecoratedEnds(open: string, close: string, e: string, t: string)
    requires |open| == 4
    ensures var d := TextProcessing.Decorated(open, close, e, t);
      37 + |e| <= |d| && d[..4] == open && d[37 + |e|..] == t + close
  {
    var d := TextProcessing.Decorated(open, close, e, t);
    var x := open + TextProcessing.SpanOpen + e + "</span> ";
    assert d == x + (t + close);
    assert d[..4] == open;
    assert d[37 + |e|..] == t + close;
  }

  /** Where a heading line has no heading or item tag, and what its first tag is followed by. */
  lemma LineNoLead(open: string, t: string, close: string)
    requires TextProcessing.HeadingTags(open, close) && '<' !in t
    requires t == [] || !IsLeadingEmoji(t[0])
    ensures forall k :: !Fires(LeadingEmojiAt, open + t + close, k)
  {
    var s := open + t + close;
    TextProcessing.LineAngles(open, t, close);
    assert s[1] == 'h' && s[3] == '>' && s[5 + |t|] == '/';
    assert s[4] == if t == [] then '<' else t[0];
    TagsOnlyAtEnds(s, 4 + |t|);
    Mismatch(s, "<li", 0, 1);
    assert FindFrom(s, ">", 3) == Some(3);
  }

  /** A text whose `<` stand at 0 and `m` only, the one at `m` closing a tag: no tag opens after 0. */
  lemma TagsOnlyAtEnds(s: string, m: nat)
    requires 0 < m && m + 1 < |s| && s[m + 1] == '/'
    requires forall k :: 0 < k < |s| && k != m ==> s[k] != '<'
    ensures forall k :: 0 < k < |s| ==>
      !OccursAt(s, "<h", k) && !OccursAt(s, "<li", k) && !OccursAt(s, TextProcessing.SpanOpen, k)
  {
    forall k | 0 < k < |s|
      ensures !OccursAt(s, "<h", k) && !OccursAt(s, "<li", k) && !OccursAt(s, TextProcessing.SpanOpen, k)
    {
      if k == m {
        Mismatch(s, "<h", k, 1);
        Mismatch(s, "<li", k, 1);
        Mismatch(s, TextProcessing.SpanOpen, k, 1);
      } else {
        Mismatch(s, "<h", k, 0);
        Mismatch(s, "<li", k, 0);
        Mismatch(s, TextProcessing.SpanOpen, k, 0);
      }
    }
  }

  /**
   * The partner of the heading emojis: with emojis off, the spans added to
   * a heading line are removed again, with the space after them, as long as
   * its text does not itself start with an emoji character.
   */
  lemma StripUndoesDecoration(open: string, close: string, e: string, t: string)
    requires TextProcessing.HeadingTags(open, close) && '<' !in e && '<' !in t
    requires t == [] || !IsLeadingEmoji(t[0])
    ensures StripEmojis(TextProcessing.Decorated(open, close, e, t)) == open + t + close
  {
    SpanRemoved(open, close, e, t);
    LineNoLead(open, t, close);
    SubNoMatch(LeadingEmojiAt, open + t + close);
  }

  /** Adding the heading emojis and then stripping them gives back an h1 or h2 line. */
  lemma StripAfterAdd(open: string, t: string, close: string)
    requires TextProcessing.HeadingTags(open, close) && '<' !in t && '\n' !in t
    requires t == [] || !IsLeadingEmoji(t[0])
    ensures StripEmojis(AddSectionEmojis(open + t + close)) == open + t + close
  {
    EmojiPlain(t);
    if open == "<h1>" {
      H1Line(t);
    } else {
      H2Line(t);
    }
    StripUndoesDecoration(open, close, Emojis.FindEmoji(t), t);
  }

  /** An emoji character at the very start, with the space after it, is removed. */
  lemma LeadingEmojiRemoved(c: char, t: string)
    requires IsLeadingEmoji(c) && '<' !in t
    ensures StripEmojis([c] + " " + t) == t
  {
    var s := [c] + " " + t;
    forall k | 0 <= k < |s| ensures s[k] != '<' {
      if k >= 2 {
        assert s[k] == t[k - 2];
        assert t[k - 2] in t;
      }
    }
    forall k | 0 <= k < |s| ensures !Fires(EmojiSpanAt, s, k) && (k > 0 ==> !Fires(LeadingEmojiAt, s, k)) {
      Mismatch(s, TextProcessing.SpanOpen, k, 0);
      Mismatch(s, "<h", k, 0);
      Mismatch(s, "<li", k, 0);
    }
    SubNoMatch(EmojiSpanAt, s);
    Mismatch(s, "<h", 0, 0);
    Mismatch(s, "<li", 0, 0);
    assert LeadingEmojiAt(s, 0) == Some((2, ""));
    SubSplice(LeadingEmojiAt, s, 0, 2, "");
    assert s[2..] == t;
  }

  /** An emoji character opening a list item, with the space after it, is removed; the tag stays. */
  lemma ItemEmojiRemoved(c: char, t: string)
    requires IsLeadingEmoji(c) && '<' !in t
    ensures StripEmojis("<li>" + [c] + " " + t + "</li>") == "<li>" + t + "</li>"
  {
    var s := "<li>" + [c] + " " + t + "</li>";
    ItemAngles(c, t);
    ItemNoSpan(s, 6 + |t|);
    SubNoMatch(EmojiSpanAt, s);
    assert s[..3] == "<li" && s[3] == '>' && s[4] == c && s[5] == ' ';
    assert s[0..4] == "<li>";
    Mismatch(s, "<h", 0, 1);
    assert FindFrom(s, ">", 3) == Some(3);
    assert LeadingEmojiAt(s, 0) == Some((6, "<li>"));
    SubSplice(LeadingEmojiAt, s, 0, 6, "<li>");
    assert s[6..] == t + "</li>";
  }

  /** In a list item holding no `<`, the only `<` are those of its two tags. */
  lemma ItemAngles(c: char, t: string)
    requires IsLeadingEmoji(c) && '<' !in t
    ensures var s := "<li>" + [c] + " " + t + "</li>"; var m := 6 + |t|;
      |s| == m + 5 && s[0] == '<' && s[1] == 'l' && s[m] == '<' && s[m + 1] == '/' &&
      forall k :: 0 <= k < |s| && k != 0 && k != m ==> s[k] != '<'
  {
    var s := "<li>" + [c] + " " + t + "</li>";
    var m := 6 + |t|;
    assert s == ("<li>" + [c] + " ") + t + "</li>";
    forall k | 0 <= k < |s| && k != 0 && k != m ensures s[k] != '<' {
      if 6 <= k < m {
        assert s[k] == t[k - 6];
        assert t[k - 6] in t;
      }
    }
  }

  /** A text whose `<` stand at 0 and `m` only, followed by `l` and `/`: no span anywhere, and no lead after 0. */
  lemma ItemNoSpan(s: string, m: nat)
    requires 0 < m && m + 1 < |s| && s[0] == '<' && s[1] == 'l' && s[m] == '<' && s[m + 1] == '/'
    requires forall k :: 0 <= k < |s| && k != 0 && k != m ==> s[k] != '<'
    ensures forall k :: 0 <= k < |s| ==> !Fires(EmojiSpanAt, s, k) && (k > 0 ==> !Fires(LeadingEmojiAt, s, k))
  {
    TagsOnlyAtEnds(s, m);
    Mismatch(s, TextProcessing.SpanOpen, 0, 1);
  }

  // ---------------------------------------------------------------------
  // PersonalInfoFormatterHtml

  /** `format_website`: nothing without a display text, otherwise an anchor on the address as given. */
  function FormatWebsite(info: PersonalInfo): (r: string)
    ensures var w := PersonalInfoFormatter.ParseWebsiteInfo(Get(info, "website"));
      (r == "" <==> w.0 == "") && (r != "" ==> r == TextProcessing.Anchor(w.1, w.0))
  {
    var w := PersonalInfoFormatter.ParseWebsiteInfo(Get(info, "website"));
    if w.0 == "" then "" else TextProcessing.Anchor(w.1, w.0)
  }

  /** A website with a scheme shows the rest of the address and links to the whole of it. */
  lemma WebsiteOfScheme(info: PersonalInfo, scheme: string, rest: string)
    requires ':' !in scheme && '\n' !in scheme && rest != ""
    requires "website" in info && (info["website"] == Str(scheme + "://" + rest) || info["website"] == Dict(map["url" := scheme + "://" + rest]))
    ensures FormatWebsite(info) == TextProcessing.Anchor(scheme + "://" + rest, rest)
  {
    PersonalInfoFormatter.ParseWebsiteOfScheme(scheme, rest);
  }

  /** Unlike the shared helper, no scheme is added: a bare address is both the text and the target. */
  lemma WebsiteBare(info: PersonalInfo, w: string)
    requires w != "" && !Contains(w, "://") && "website" in info && info["website"] == Str(w)
    ensures FormatWebsite(info) == TextProcessing.Anchor(w, w)
  {
  }

  /** The icon in its span, then an anchor on the profile URL showing the handle. */
  function SocialLink(icon: string, url: string, text: string): string {
    TextProcessing.SpanOpen + icon + "</span>" + TextProcessing.Anchor(url, text)
  }

  /** The profile link for a social field, always emitted; `None` where Python raises. */
  function FormatSocial(f: Field, base: string, segment: string, icon: string): (r: Option<string>)
    ensures r.None? <==> FieldTruthy(f) && f.Dict?
    ensures r.Some? ==> var p := PersonalInfoFormatter.ParseSocialInfo(PersonalInfoFormatter.SocialValue(f).value, base, "@", segment);
      r.value == SocialLink(icon, p.1, p.0)
  {
    match PersonalInfoFormatter.SocialValue(f)
    case None => None
    case Some(v) =>
      var p := PersonalInfoFormatter.ParseSocialInfo(v, base, "@", segment);
      Some(SocialLink(icon, p.1, p.0))
  }

  /**
   * `format_github`: raises (`None`) exactly for a non-empty object, and a
   * missing or falsy value still gives the link, to nowhere and with no text.
   */
  function FormatGithub(info: PersonalInfo, icon: string): (r: Option<string>)
    ensures r.None? <==> FieldTruthy(Get(info, "github")) && Get(info, "github").Dict?
    ensures !FieldTruthy(Get(info, "github")) ==> r == Some(SocialLink(icon, "", ""))
  {
    FormatSocial(Get(info, "github"), "https://github.com/", "github.com/", icon)
  }

  /**
   * `format_linkedin`: raises (`None`) exactly for a non-empty object, and a
   * missing or falsy value still gives the link, to nowhere and with no text.
   */
  function FormatLinkedin(info: PersonalInfo, icon: string): (r: Option<string>)
    ensures r.None? <==> FieldTruthy(Get(info, "linkedin")) && Get(info, "linkedin").Dict?
    ensures !FieldTruthy(Get(info, "linkedin")) ==> r == Some(SocialLink(icon, "", ""))
  {
    FormatSocial(Get(info, "linkedin"), "https://www.linkedin.com/in/", "linkedin.com/in/", icon)
  }

  /** Without a value the link is still there, to an empty address with an empty text. */
  lemma SocialMissing(info: PersonalInfo, icon: string)
    requires "github" !in info && "linkedin" !in info
    ensures FormatGithub(info, icon) == Some(SocialLink(icon, "", ""))
    ensures FormatLinkedin(info, icon) == Some(SocialLink(icon, "", ""))
  {
  }

  /** The profile URL, the `@` handle and the bare name give the same GitHub link. */
  lemma GithubLinkForms(info: PersonalInfo, u: string, icon: string)
    requires PersonalInfoFormatter.PlainUsername(u) && "github" in info
    requires info["github"] in {Str("https://github.com/" + u), Str("@" + u), Str(u)}
    ensures FormatGithub(info, icon) == Some(SocialLink(icon, "https://github.com/" + u, "@" + u))
  {
    PersonalInfoFormatter.GithubSocialForms(u);
  }

  /** `format_email`: nothing for an empty value, otherwise a `mailto:` anchor showing the address. */
  function FormatEmail(info: PersonalInfo, repr: map<string, string> -> string): (r: string)
    ensures var e := FieldText(Get(info, "email"), repr);
      (r == "" <==> !FieldTruthy(Get(info, "email"))) &&
      (FieldTruthy(Get(info, "email")) ==> r == "<a href=\"mailto:" + e + "\">" + e + "</a>")
  {
    var email := Get(info, "email");
    if !FieldTruthy(email) then ""
    else
      var e := FieldText(email, repr);
      "<a href=\"mailto:" + e + "\">" + e + "</a>"
  }

  /** The backend's e-mail entry is the one the shared `format_personal_info` builds for `html`. */
  lemma EmailAgreesWithShared(info: PersonalInfo, icon: string, repr: map<string, string> -> string)
    ensures TextProcessing.FormatPersonalInfo(info, "email", "html", icon, repr) == TextProcessing.Text(FormatEmail(info, repr))
  {
  }

  /** `format_phone`: a falsy value gives nothing, a string is passed through as it is. */
  function FormatPhone(info: PersonalInfo, repr: map<string, string> -> string): (r: string)
    ensures !FieldTruthy(Get(info, "phone")) ==> r == ""
    ensures Get(info, "phone").Str? ==> r == Get(info, "phone").text
  {
    PersonalInfoFormatter.OrEmpty(Get(info, "phone"), repr)
  }

  /** `format_address` */
  function FormatAddress(info: PersonalInfo, repr: map<string, string> -> string): string {
    PersonalInfoFormatter.OrEmpty(Get(info, "address"), repr)
  }

  // ---------------------------------------------------------------------
  // create_html

  /** The name in the page heading: `", PhD"` is added for a PhD degree. */
  function HeadingName(info: PersonalInfo, repr: map<string, string> -> string): (r: string)
    ensures PersonalInfoFormatter.HasPhd(info) ==> r == PersonalInfoFormatter.FormatName(info, repr) + ", PhD"
    ensures !PersonalInfoFormatter.HasPhd(info) ==> r == PersonalInfoFormatter.FormatName(info, repr)
  {
    var name := PersonalInfoFormatter.FormatName(info, repr);
    if PersonalInfoFormatter.HasPhd(info) then name + ", PhD" else name
  }

  /** The heading shows `", PhD"` exactly for the degrees `PhD`, `Ph.D` and `Ph.D.`. */
  lemma HeadingNamePhd(info: PersonalInfo, repr: map<string, string> -> string)
    ensures HeadingName(info, repr) == PersonalInfoFormatter.FormatName(info, repr) + ", PhD"
      <==> Get(info, "degree") in {Str("PhD"), Str("Ph.D"), Str("Ph.D.")}
    ensures HeadingName(info, repr) == PersonalInfoFormatter.FormatName(info, repr)
      <==> Get(info, "degree") !in {Str("PhD"), Str("Ph.D"), Str("Ph.D.")}
  {
    var name := PersonalInfoFormatter.FormatName(info, repr);
    assert |name + ", PhD"| != |name|;
  }

  // The slots of the page `create_html` fills, in document order. The text
  // between them (head, style sheet, the header markup with the contact
  // icons, the closing tags) is fixed for a given `strict_page_breaks`.
  const TitleSlot: nat := 0
  const PhotoSlot: nat := 1
  const HeadingSlot: nat := 2
  const PositionSlot: nat := 3
  const AddressSlot: nat := 4
  const PhoneSlot: nat := 5
  const EmailSlot: nat := 6
  const WebsiteSlot: nat := 7
  const GithubSlot: nat := 8
  const BirthSlot: nat := 9
  const ContentSlot: nat := 10

  /** The values `create_html` puts into its page, one per slot. */
  datatype PageValues = PageValues(title: string, photo: string, heading: string, position: string,
                                   address: string, phone: string, email: string, website: string,
                                   github: string, birth: string, body: string)

  /** The page values for `personal_info`, given the photo markup and the formatted GitHub link. */
  function ValuesOf(content: string, info: PersonalInfo, emojis: bool, photo: string, github: string,
                    repr: map<string, string> -> string): PageValues
  {
    PageValues(PersonalInfoFormatter.FormatName(info, repr), photo, HeadingName(info, repr),
      FieldText(Get(info, "position"), repr), FormatAddress(info, repr),
      FormatPhone(info, repr), FormatEmail(info, repr), FormatWebsite(info), github,
      FieldText(PersonalInfoFormatter.DateOfBirth(info), repr),
      MainContent(content, emojis))
  }

  /** The page values in slot order. */
  function Slots(v: PageValues): (s: seq<string>)
    ensures |s| == ContentSlot + 1
  {
    [v.title, v.photo, v.heading, v.position, v.address, v.phone, v.email, v.website, v.github, v.birth, v.body]
  }

  /** `create_html`'s slots, given the photo markup and the formatted GitHub link. */
  function HtmlSlots(content: string, info: PersonalInfo, emojis: bool, photo: string, github: string,
                     repr: map<string, string> -> string): (s: seq<string>)
    ensures |s| == ContentSlot + 1
  {
    Slots(ValuesOf(content, info, emojis, photo, github, repr))
  }

  /**
   * `create_html`. `page` holds the fixed text around the slots (it differs
   * with `strict_page_breaks`), `photo` the markup `embed_photo` produced.
   * `None` where the GitHub formatter raises.
   */
  function CreateHtml(content: string, info: PersonalInfo, emojis: bool, page: seq<string>, photo: string,
                      icon: string, repr: map<string, string> -> string): (r: Option<string>)
    requires |page| == ContentSlot + 2
    ensures r.Some? <==> FormatGithub(info, icon).Some?
  {
    match FormatGithub(info, icon)
    case None => None
    case Some(github) => Some(Template.Fill(page, HtmlSlots(content, info, emojis, photo, github, repr)))
  }

  /**
   * The title shows the plain name right after the opening text; the photo
   * markup, the heading (the name with the degree), the position, each
   * contact value and the birth date sit in their slots; and the content is
   * followed by the closing text only.
   */
  lemma CreateHtmlLayout(content: string, info: PersonalInfo, emojis: bool, page: seq<string>, photo: string,
                         icon: string, repr: map<string, string> -> string)
    requires |page| == ContentSlot + 2 && FormatGithub(info, icon).Some?
    ensures var d := CreateHtml(content, info, emojis, page, photo, icon, repr).value;
      var s := HtmlSlots(content, info, emojis, photo, FormatGithub(info, icon).value, repr);
      StartsWith(d, page[0] + PersonalInfoFormatter.FormatName(info, repr)) &&
      OccursAt(d, photo, Template.Offset(page, s, PhotoSlot)) &&
      OccursAt(d, HeadingName(info, repr), Template.Offset(page, s, HeadingSlot)) &&
      OccursAt(d, FieldText(Get(info, "position"), repr), Template.Offset(page, s, PositionSlot)) &&
      OccursAt(d, FormatAddress(info, repr), Template.Offset(page, s, AddressSlot)) &&
      OccursAt(d, FormatPhone(info, repr), Template.Offset(page, s, PhoneSlot)) &&
      OccursAt(d, FormatEmail(info, repr), Template.Offset(page, s, EmailSlot)) &&
      OccursAt(d, FormatWebsite(info), Template.Offset(page, s, WebsiteSlot)) &&
      OccursAt(d, FormatGithub(info, icon).value, Template.Offset(page, s, GithubSlot)) &&
      OccursAt(d, FieldText(PersonalInfoFormatter.DateOfBirth(info), repr), Template.Offset(page, s, BirthSlot)) &&
      EndsWith(d, MainContent(content, emojis) + page[ContentSlot + 1])
  {
    var s := HtmlSlots(content, info, emojis, photo, FormatGithub(info, icon).value, repr);
    Template.FirstSlot(page, s);
    Template.SlotAt(page, s, PhotoSlot);
    Template.SlotAt(page, s, HeadingSlot);
    Template.SlotAt(page, s, PositionSlot);
    Template.SlotAt(page, s, AddressSlot);
    Template.SlotAt(page, s, PhoneSlot);
    Template.SlotAt(page, s, EmailSlot);
    Template.SlotAt(page, s, WebsiteSlot);
    Template.SlotAt(page, s, GithubSlot);
    Template.SlotAt(page, s, BirthSlot);
    Template.LastSlot(page, s);
  }

  /**
   * The emojis switch changes the content only: the page up to the content,
   * the emojis of the contact lines included, is the same, and so is the
   * text after it.
   */
  lemma EmojisOnlyInBody(content: string, info: PersonalInfo, page: seq<string>, photo: string,
                         icon: string, repr: map<string, string> -> string)
    requires |page| == ContentSlot + 2 && FormatGithub(info, icon).Some?
    ensures var on := CreateHtml(content, info, true, page, photo, icon, repr).value;
      var off := CreateHtml(content, info, false, page, photo, icon, repr).value;
      var k := Template.Offset(page, HtmlSlots(content, info, true, photo, FormatGithub(info, icon).value, repr), ContentSlot);
      k + |content| <= |on| && k + |StripEmojis(content)| <= |off| &&
      on[..k] == off[..k] && on[k..] == content + page[ContentSlot + 1] && off[k..] == StripEmojis(content) + page[ContentSlot + 1]
  {
    var github := FormatGithub(info, icon).value;
    var s := HtmlSlots(content, info, true, photo, github, repr);
    var s' := HtmlSlots(content, info, false, photo, github, repr);
    SlotsNewBody(ValuesOf(content, info, true, photo, github, repr), StripEmojis(content));
    assert ValuesOf(content, info, false, photo, github, repr) == ValuesOf(content, info, true, photo, github, repr).(body := StripEmojis(content));
    Template.LastSlotChanges(page, s, StripEmojis(content));
  }

  /** The degree changes the heading value and nothing else. */
  lemma DegreeOnlyInHeadingValue(content: string, info: PersonalInfo, degree: Field, emojis: bool, photo: string,
                                 github: string, repr: map<string, string> -> string)
    ensures var info' := info["degree" := degree];
      ValuesOf(content, info', emojis, photo, github, repr)
        == ValuesOf(content, info, emojis, photo, github, repr).(heading := HeadingName(info', repr))
  {
    DegreeKeepsName(info, degree, repr);
    DegreeKeepsContacts(info, degree, repr);
  }

  /** The degree is not part of the name, the position, the address or the phone number. */
  lemma DegreeKeepsName(info: PersonalInfo, degree: Field, repr: map<string, string> -> string)
    ensures var info' := info["degree" := degree];
      PersonalInfoFormatter.FormatName(info', repr) == PersonalInfoFormatter.FormatName(info, repr) &&
      Get(info', "position") == Get(info, "position") &&
      FormatAddress(info', repr) == FormatAddress(info, repr) && FormatPhone(info', repr) == FormatPhone(info, repr)
  {
    var info' := info["degree" := degree];
    assert Get(info', "first_name") == Get(info, "first_name");
    assert Get(info', "family_name") == Get(info, "family_name");
    assert Get(info', "position") == Get(info, "position");
    assert Get(info', "address") == Get(info, "address");
    assert Get(info', "phone") == Get(info, "phone");
  }

  /** The degree is not part of the email address, the website or the date of birth. */
  lemma DegreeKeepsContacts(info: PersonalInfo, degree: Field, repr: map<string, string> -> string)
    ensures var info' := info["degree" := degree];
      FormatEmail(info', repr) == FormatEmail(info, repr) && FormatWebsite(info') == FormatWebsite(info) &&
      PersonalInfoFormatter.DateOfBirth(info') == PersonalInfoFormatter.DateOfBirth(info)
  {
    var info' := info["degree" := degree];
    assert Get(info', "email") == Get(info, "email");
    assert Get(info', "website") == Get(info, "website");
    assert Get(info', "date_of_birth") == Get(info, "date_of_birth");
  }

  /** A new heading value is a new heading slot. */
  lemma SlotsNewHeading(v: PageValues, x: string)
    ensures Slots(v.(heading := x)) == Slots(v)[HeadingSlot := x]
  {
  }

  /** A new body value is a new content slot. */
  lemma SlotsNewBody(v: PageValues, x: string)
    ensures Slots(v.(body := x)) == Slots(v)[ContentSlot := x]
  {
  }

  /** A new heading value leaves the page before the heading and after it as it was. */
  lemma NewHeadingPage(page: seq<string>, v: PageValues, x: string)
    requires |page| == ContentSlot + 2
    ensures var d, d' := Template.Fill(page, Slots(v)), Template.Fill(page, Slots(v.(heading := x)));
      var k := Template.Offset(page, Slots(v), HeadingSlot);
      Template.SameAround(d, d', k, |v.heading|, |x|)
  {
    SlotsNewHeading(v, x);
    Template.OnlySlotChanges(page, Slots(v), HeadingSlot, x);
  }

  /**
   * The degree changes only the heading: the title keeps the plain name,
   * and what comes before the heading and after it is the same page.
   */
  lemma DegreeOnlyInHeading(content: string, info: PersonalInfo, degree: Field, emojis: bool, page: seq<string>,
                            photo: string, icon: string, repr: map<string, string> -> string)
    requires |page| == ContentSlot + 2 && FormatGithub(info, icon).Some?
    ensures var info' := info["degree" := degree];
      var r, r' := CreateHtml(content, info, emojis, page, photo, icon, repr), CreateHtml(content, info', emojis, page, photo, icon, repr);
      var k := Template.Offset(page, HtmlSlots(content, info, emojis, photo, FormatGithub(info, icon).value, repr), HeadingSlot);
      r'.Some? && Template.SameAround(r.value, r'.value, k, |HeadingName(info, repr)|, |HeadingName(info', repr)|)
  {
    var info' := info["degree" := degree];
    assert Get(info', "github") == Get(info, "github");
    var github := FormatGithub(info, icon).value;
    var x := HeadingName(info', repr);
    var v := ValuesOf(content, info, emojis, photo, github, repr);
    DegreeOnlyInHeadingValue(content, info, degree, emojis, photo, github, repr);
    assert CreateHtml(content, info', emojis, page, photo, icon, repr) == Some(Template.Fill(page, Slots(v.(heading := x))));
    NewHeadingPage(page, v, x);
  }
}
