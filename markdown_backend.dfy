/**
 * The Markdown backend (aicv/backend/markdown.py): section emojis for the
 * `#` and `##` heading lines, the Markdown link formatters, and the
 * personal-information block `create_markdown` puts in front of the content.
 */
module MarkdownBackend {
  import opened Strings
  import opened Records
  import opened Substitution
  import Emojis
  import PersonalInfoFormatter
  import TextProcessing

  // ---------------------------------------------------------------------
  // EmojisFormatterMarkdown.add_section_emojis

  /** `p` is where a line starts: `^` under `re.MULTILINE`. */
  predicate LineStart(s: string, p: nat) {
    p == 0 || (p <= |s| && s[p - 1] == '\n')
  }

  /** Where the line that goes on at `i` ends: the next newline, or the end of the text. */
  function LineStop(s: string, i: nat): (e: nat)
    requires i <= |s|
    ensures i <= e <= |s| && (e == |s| || s[e] == '\n')
    ensures forall j :: i <= j < e ==> s[j] != '\n'
    decreases |s| - i
  {
    if i == |s| || s[i] == '\n' then i else LineStop(s, i + 1)
  }

  /**
   * `^(hashes) ([^#\n][^\n]*)$` at `p`, replaced by the hashes, the emoji
   * of the heading text and the text. The text runs to the end of the line.
   */
  function HashHeadingAt(hashes: string, s: string, p: nat): Option<(nat, string)> {
    var q := p + |hashes| + 1;
    if LineStart(s, p) && OccursAt(s, hashes + " ", p) && q < |s| && s[q] != '#' && s[q] != '\n' then
      var e := LineStop(s, q);
      var t := s[q..e];
      Some((e, hashes + " " + Emojis.FindEmoji(t) + " " + t))
    else None
  }

  function H1At(s: string, p: nat): Option<(nat, string)> {
    HashHeadingAt("#", s, p)
  }

  function H2At(s: string, p: nat): Option<(nat, string)> {
    HashHeadingAt("##", s, p)
  }

  /**
   * Every `# ` line, then every `## ` line, gains the emoji of its text;
   * text without `#` is left as it is.
   */
  function AddSectionEmojis(content: string): (r: string)
    ensures '#' !in content ==> r == content
  {
    NoHashNoHeading(content);
    Sub(H2At, Sub(H1At, content))
  }

  /** Neither heading pattern matches in text without `#`. */
  lemma NoHashNoHeading(content: string)
    ensures '#' !in content ==> Sub(H2At, Sub(H1At, content)) == content
  {
    if '#' !in content {
      forall k | 0 <= k < |content| ensures !Fires(H1At, content, k) && !Fires(H2At, content, k) {
        assert content[k] in content;
        Mismatch(content, "# ", k, 0);
        Mismatch(content, "## ", k, 0);
      }
      SubNoMatch(H1At, content);
      SubNoMatch(H2At, content);
    }
  }

  /** The emoji of a heading is not empty and holds no `#`, space or newline. */
  lemma EmojiPlain(text: string)
    ensures var e := Emojis.FindEmoji(text); e != [] && e[0] != '#' && '\n' !in e
  {
    var e := Emojis.FindEmoji(text);
    Emojis.FindEmojiAboveAscii(text);
    assert e[0] >= '\U{a1}';
    forall i | 0 <= i < |e| ensures e[i] != '\n' {
    }
  }

  /** In a single line only position 0 starts a line, so neither pattern matches anywhere else. */
  lemma OneLine(s: string)
    requires '\n' !in s
    ensures forall k :: 0 < k ==> !Fires(H1At, s, k) && !Fires(H2At, s, k)
  {
    forall k | 0 < k ensures !LineStart(s, k) {
      if k <= |s| {
        assert s[k - 1] in s;
      }
    }
  }

  /** A one-line heading whose text starts after the hashes and a space fires over the whole text. */
  lemma HeadingFires(hashes: string, t: string)
    requires t != [] && t[0] != '#' && '\n' !in t
    ensures var s := hashes + " " + t;
      HashHeadingAt(hashes, s, 0) == Some((|s|, hashes + " " + Emojis.FindEmoji(t) + " " + t))
  {
    var s := hashes + " " + t;
    var q := |hashes| + 1;
    assert s[..q] == hashes + " ";
    assert s[q] == t[0];
    forall j | q <= j < |s| ensures s[j] != '\n' {
      assert s[j] == t[j - q];
      assert t[j - q] in t;
    }
    assert LineStop(s, q) == |s|;
    assert s[q..|s|] == t;
  }

  /** `# text` gains the emoji of its text. */
  lemma H1Line(t: string)
    requires t != [] && t[0] != '#' && '\n' !in t
    ensures AddSectionEmojis("# " + t) == "# " + Emojis.FindEmoji(t) + " " + t
  {
    var s := "# " + t;
    HeadingFires("#", t);
    SubWhole(H1At, s);
    var r := "# " + Emojis.FindEmoji(t) + " " + t;
    EmojiPlain(t);
    OneLine(r);
    Mismatch(r, "## ", 0, 1);
    SubNoMatch(H2At, r);
  }

  /** `## text` gains the emoji of its text. */
  lemma H2Line(t: string)
    requires t != [] && t[0] != '#' && '\n' !in t
    ensures AddSectionEmojis("## " + t) == "## " + Emojis.FindEmoji(t) + " " + t
  {
    var s := "## " + t;
    OneLine(s);
    Mismatch(s, "# ", 0, 1);
    SubNoMatch(H1At, s);
    assert Sub(H1At, s) == s;
    HeadingFires("##", t);
    SubWhole(H2At, s);
    assert AddSectionEmojis(s) == Sub(H2At, s);
  }

  /** Deeper headings, and headings whose text starts with `#`, are left alone. */
  lemma OtherLinesUnchanged(t: string)
    requires '\n' !in t
    ensures AddSectionEmojis("###" + t) == "###" + t
    ensures AddSectionEmojis("# #" + t) == "# #" + t
  {
    var s := "###" + t;
    OneLine(s);
    Mismatch(s, "# ", 0, 1);
    Mismatch(s, "## ", 0, 2);
    SubNoMatch(H1At, s);
    SubNoMatch(H2At, s);
    var s' := "# #" + t;
    OneLine(s');
    assert s'[2] == '#';
    Mismatch(s', "## ", 0, 1);
    SubNoMatch(H1At, s');
    SubNoMatch(H2At, s');
  }

  /** The function is not idempotent: a second call puts a second emoji in front of the first. */
  lemma H1Twice(t: string)
    requires t != [] && t[0] != '#' && '\n' !in t
    ensures var u := Emojis.FindEmoji(t) + " " + t;
      AddSectionEmojis(AddSectionEmojis("# " + t)) == "# " + Emojis.FindEmoji(u) + " " + u
  {
    var e := Emojis.FindEmoji(t);
    var u := e + " " + t;
    H1Line(t);
    EmojiPlain(t);
    DecoratedText(e, t);
    H1Line(u);
  }

  /** The text of a decorated heading starts with the emoji: a heading text again. */
  lemma DecoratedText(e: string, t: string)
    requires e != [] && e[0] != '#' && '\n' !in e && '\n' !in t
    ensures var u := e + " " + t; u != [] && u[0] != '#' && '\n' !in u && "# " + e + " " + t == "# " + u
  {
    var u := e + " " + t;
    assert u[0] == e[0];
  }

  // ---------------------------------------------------------------------
  // PersonalInfoFormatterMarkdown

  /** `[text](url)` */
  function Link(text: string, url: string): string {
    "[" + text + "](" + url + ")"
  }

  /**
   * `format_website` as written: it calls `parse_website_info` as a bare
   * name, which this module neither defines nor imports (and links to
   * `website_url`, which it never assigns), so every call raises
   * `NameError` (`None`), before the value is even looked at.
   */
  function FormatWebsiteAsWritten(info: PersonalInfo): Option<string> {
    None
  }

  /** `format_website` as intended: a link showing the display text and targeting the address. */
  function FormatWebsite(info: PersonalInfo): (r: string)
    ensures var w := PersonalInfoFormatter.ParseWebsiteInfo(Get(info, "website"));
      (r == "" <==> w.0 == "") && (w.0 != "" ==> r == Link(w.0, w.1))
  {
    var w := PersonalInfoFormatter.ParseWebsiteInfo(Get(info, "website"));
    if w.0 == "" then "" else Link(w.0, w.1)
  }

  /**
   * With a scheme, the link shows the address without it and targets the
   * whole address; the method as written raises instead.
   */
  lemma WebsiteLink(info: PersonalInfo, scheme: string, rest: string)
    requires ':' !in scheme && '\n' !in scheme && rest != ""
    requires "website" in info && info["website"] == Str(scheme + "://" + rest)
    ensures FormatWebsite(info) == Link(rest, scheme + "://" + rest)
    ensures FormatWebsiteAsWritten(info).None?
  {
    PersonalInfoFormatter.ParseWebsiteOfScheme(scheme, rest);
  }

  /**
   * `format_linkedin` and `format_github` as written: both call
   * `parse_social_info` as a bare name this module does not define, so
   * every call raises `NameError` (`None`).
   */
  function FormatSocialAsWritten(f: Field): Option<string> {
    None
  }

  /**
   * A social link `[@handle](url)` as intended, through the shared
   * `parse_social_info`; also for a missing value; `None` where that helper
   * raises.
   */
  function FormatSocial(f: Field, base: string, segment: string): (r: Option<string>)
    ensures r.None? <==> FieldTruthy(f) && f.Dict?
    ensures r.Some? ==> var p := PersonalInfoFormatter.ParseSocialInfo(PersonalInfoFormatter.SocialValue(f).value, base, "@", segment);
      r.value == Link(p.0, p.1)
  {
    match PersonalInfoFormatter.SocialValue(f)
    case None => None
    case Some(v) =>
      var p := PersonalInfoFormatter.ParseSocialInfo(v, base, "@", segment);
      Some(Link(p.0, p.1))
  }

  /**
   * `format_linkedin` as intended: `None` exactly for a non-empty object, and a
   * missing or falsy value still gives the link, to nowhere and with no text.
   */
  function FormatLinkedin(info: PersonalInfo): (r: Option<string>)
    ensures r.None? <==> FieldTruthy(Get(info, "linkedin")) && Get(info, "linkedin").Dict?
    ensures !FieldTruthy(Get(info, "linkedin")) ==> r == Some(Link("", ""))
  {
    FormatSocial(Get(info, "linkedin"), "https://www.linkedin.com/in/", "linkedin.com/in/")
  }

  /**
   * `format_github` as intended: `None` exactly for a non-empty object, and a
   * missing or falsy value still gives the link, to nowhere and with no text.
   */
  function FormatGithub(info: PersonalInfo): (r: Option<string>)
    ensures r.None? <==> FieldTruthy(Get(info, "github")) && Get(info, "github").Dict?
    ensures !FieldTruthy(Get(info, "github")) ==> r == Some(Link("", ""))
  {
    FormatSocial(Get(info, "github"), "https://github.com/", "github.com/")
  }

  /**
   * The profile URL, the `@` handle and the bare name give the same GitHub
   * link; the method as written raises on each of them.
   */
  lemma GithubLinkForms(info: PersonalInfo, u: string)
    requires PersonalInfoFormatter.PlainUsername(u) && "github" in info
    requires info["github"] in {Str("https://github.com/" + u), Str("@" + u), Str(u)}
    ensures FormatGithub(info) == Some(Link("@" + u, "https://github.com/" + u))
    ensures FormatSocialAsWritten(Get(info, "github")).None?
  {
    PersonalInfoFormatter.GithubSocialForms(u);
  }

  /** `format_email`: nothing for a falsy value, otherwise a `mailto:` link showing the address. */
  function FormatEmail(info: PersonalInfo, repr: map<string, string> -> string): (r: string)
    ensures var e := FieldText(Get(info, "email"), repr);
      (r == "" <==> !FieldTruthy(Get(info, "email"))) &&
      (FieldTruthy(Get(info, "email")) ==> r == Link(e, "mailto:" + e))
  {
    var email := Get(info, "email");
    if !FieldTruthy(email) then ""
    else
      var e := FieldText(email, repr);
      Link(e, "mailto:" + e)
  }

  /** The backend's e-mail entry is the one the shared `format_personal_info` builds for Markdown. */
  lemma EmailAgreesWithShared(info: PersonalInfo, icon: string, repr: map<string, string> -> string)
    ensures TextProcessing.FormatPersonalInfo(info, "email", "markdown", icon, repr) == TextProcessing.Text(FormatEmail(info, repr))
  {
  }

  /** `format_phone`: a falsy value gives nothing, a string is passed through as it is. */
  function FormatPhone(info: PersonalInfo, repr: map<string, string> -> string): (r: string)
    ensures !FieldTruthy(Get(info, "phone")) ==> r == ""
    ensures Get(info, "phone").Str? ==> r == Get(info, "phone").text
  {
    PersonalInfoFormatter.OrEmpty(Get(info, "phone"), repr)
  }

  /** `format_address`, the one method here that accepts the value `format_field` passes (and ignores it). */
  function FormatAddress(info: PersonalInfo, repr: map<string, string> -> string): string {
    PersonalInfoFormatter.OrEmpty(Get(info, "address"), repr)
  }

  /**
   * `format_field` on this formatter: as in the shared formatter, except
   * that the address reaches this formatter's `format_address`, which
   * accepts the value and so returns the address instead of raising.
   */
  function FormatField(info: PersonalInfo, field: string, repr: map<string, string> -> string): (r: Option<string>)
    ensures field == "address" ==> r == Some(FormatAddress(info, repr))
    ensures field != "address" ==> r == PersonalInfoFormatter.FormatField(info, field, repr)
  {
    if field == "address" then
      var value := if FieldTruthy(Get(info, field)) then FieldText(Get(info, field), repr) else "";
      if value == "" then Some("") else Some(FormatAddress(info, repr))
    else PersonalInfoFormatter.FormatField(info, field, repr)
  }

  /**
   * `format_field` as evidently intended: each dispatched field calls its
   * method without the value (the methods read `personal_info` themselves),
   * so a shown field renders instead of raising `TypeError`; only an object
   * GitHub or LinkedIn value still fails.
   */
  function FormatFieldIntended(info: PersonalInfo, field: string, repr: map<string, string> -> string): (r: Option<string>)
    ensures !Shown(info, field, repr) ==> r == Some("")
    ensures r.None? <==> Shown(info, field, repr) && field in {"github", "linkedin"} && Get(info, field).Dict?
    ensures field !in PersonalInfoFormatter.DispatchedFields ==> r == FormatField(info, field, repr)
    ensures Shown(info, field, repr) && field == "email" ==> r == Some(FormatEmail(info, repr))
    ensures Shown(info, field, repr) && field == "website" ==> r == Some(FormatWebsite(info))
  {
    var value := if FieldTruthy(Get(info, field)) then FieldText(Get(info, field), repr) else "";
    if value == "" then Some("")
    else if field == "name" then Some(PersonalInfoFormatter.FormatName(info, repr))
    else if field == "first_name" then Some(FieldText(PersonalInfoFormatter.FirstName(info), repr))
    else if field == "family_name" then Some(FieldText(PersonalInfoFormatter.FamilyName(info), repr))
    else if field == "website" then Some(FormatWebsite(info))
    else if field == "github" then FormatGithub(info)
    else if field == "linkedin" then FormatLinkedin(info)
    else if field == "email" then Some(FormatEmail(info, repr))
    else if field == "phone" then Some(FormatPhone(info, repr))
    else if field == "address" then Some(FormatAddress(info, repr))
    else Some(value)
  }

  /**
   * A shown e-mail address: `format_field` as written raises, the intended
   * dispatch gives its `mailto:` link.
   */
  lemma EmailFieldIntended(info: PersonalInfo, e: string, repr: map<string, string> -> string)
    requires "email" in info && info["email"] == Str(e) && e != ""
    ensures FormatField(info, "email", repr).None?
    ensures FormatFieldIntended(info, "email", repr) == Some(Link(e, "mailto:" + e))
  {
    assert "email" in PersonalInfoFormatter.DispatchedFields;
  }

  // ---------------------------------------------------------------------
  // create_markdown

  /** The labels and keys of the personal-information lines, in order. */
  const InfoFields: seq<(string, string)> := [
    ("Name", "name"), ("Position", "position"), ("Address", "address"), ("Phone", "phone"),
    ("Email", "email"), ("Website", "website"), ("GitHub", "github"), ("Date of Birth", "date_of_birth")
  ]

  /** `- **caption**: value` */
  function InfoLine(caption: string, value: string): string {
    "- **" + caption + "**: " + value
  }

  /** One line per `(caption, key)` pair, in order; `None` as soon as a field raises. */
  function InfoLines(info: PersonalInfo, repr: map<string, string> -> string, fields: seq<(string, string)>): (r: Option<seq<string>>)
    ensures r.Some? ==> |r.value| == |fields|
    ensures r.Some? ==> forall j :: 0 <= j < |fields| ==>
      FormatField(info, fields[j].1, repr).Some? &&
      r.value[j] == InfoLine(fields[j].0, FormatField(info, fields[j].1, repr).value)
    ensures r.None? <==> exists j :: 0 <= j < |fields| && FormatField(info, fields[j].1, repr).None?
  {
    if fields == [] then Some([])
    else match FormatField(info, fields[0].1, repr)
      case None => None
      case Some(v) =>
        match InfoLines(info, repr, fields[1..])
        case None =>
          ghost var j :| 0 <= j < |fields[1..]| && FormatField(info, fields[1..][j].1, repr).None?;
          assert FormatField(info, fields[j + 1].1, repr).None?;
          None
        case Some(rest) =>
          var r := [InfoLine(fields[0].0, v)] + rest;
          assert forall j :: 1 <= j < |fields| ==> r[j] == rest[j - 1] && fields[j] == fields[1..][j - 1];
          Some(r)
  }

  /**
   * `create_markdown`: the personal-information lines joined by newlines,
   * a blank line, then the content as given. `emojis` is not used.
   */
  function CreateMarkdown(content: string, info: PersonalInfo, emojis: bool, repr: map<string, string> -> string): (r: Option<string>)
    ensures r.Some? <==> InfoLines(info, repr, InfoFields).Some?
    ensures r.Some? ==> EndsWith(r.value, "\n\n" + content)
    ensures r.Some? ==> StartsWith(r.value, InfoLine("Name", FormatField(info, "name", repr).value))
  {
    match InfoLines(info, repr, InfoFields)
    case None => None
    case Some(lines) =>
      var head := Join(lines, "\n");
      var r := head + ("\n\n" + content);
      assert r[|r| - |"\n\n" + content|..] == "\n\n" + content;
      assert r[..|head|] == head;
      JoinStarts(lines, "\n");
      StartsWithTrans(r, head, lines[0]);
      Some(r)
  }

  /** The field has a value `format_field` would pass on: truthy, and not empty once printed. */
  predicate Shown(info: PersonalInfo, key: string, repr: map<string, string> -> string) {
    FieldTruthy(Get(info, key)) && FieldText(Get(info, key), repr) != ""
  }

  /**
   * Only the position and the address can be shown: every other field in
   * the block is dispatched to a method that takes no value, so a shown
   * name, phone, email, website, GitHub or date of birth raises `TypeError`.
   */
  lemma CreateMarkdownRaises(content: string, info: PersonalInfo, emojis: bool, repr: map<string, string> -> string)
    ensures CreateMarkdown(content, info, emojis, repr).None? <==>
      Shown(info, "name", repr) || Shown(info, "phone", repr) || Shown(info, "email", repr) ||
      Shown(info, "website", repr) || Shown(info, "github", repr) || Shown(info, "date_of_birth", repr)
  {
    var ks := InfoFields;
    assert ks[0].1 == "name" && ks[1].1 == "position" && ks[2].1 == "address" && ks[3].1 == "phone";
    assert ks[4].1 == "email" && ks[5].1 == "website" && ks[6].1 == "github" && ks[7].1 == "date_of_birth";
    DispatchedRaises(info, repr);
    assert FormatField(info, "position", repr).Some? by {
      assert "position" !in PersonalInfoFormatter.DispatchedFields;
    }
    assert FormatField(info, "address", repr).Some?;
    if !(Shown(info, "name", repr) || Shown(info, "phone", repr) || Shown(info, "email", repr) ||
         Shown(info, "website", repr) || Shown(info, "github", repr) || Shown(info, "date_of_birth", repr)) {
      forall j | 0 <= j < |ks| ensures FormatField(info, ks[j].1, repr).Some? {
        assert j in {0, 1, 2, 3, 4, 5, 6, 7};
      }
    }
  }

  /**
   * When nothing raises, the block shows the position and the address, and
   * every other line has its caption only.
   */
  lemma CreateMarkdownBlock(content: string, info: PersonalInfo, emojis: bool, repr: map<string, string> -> string)
    requires !Shown(info, "name", repr) && !Shown(info, "phone", repr) && !Shown(info, "email", repr)
    requires !Shown(info, "website", repr) && !Shown(info, "github", repr) && !Shown(info, "date_of_birth", repr)
    ensures var position := if Shown(info, "position", repr) then FieldText(Get(info, "position"), repr) else "";
      CreateMarkdown(content, info, emojis, repr) == Some(Join([
        InfoLine("Name", ""), InfoLine("Position", position), InfoLine("Address", FormatAddress(info, repr)),
        InfoLine("Phone", ""), InfoLine("Email", ""), InfoLine("Website", ""), InfoLine("GitHub", ""),
        InfoLine("Date of Birth", "")], "\n") + "\n\n" + content)
  {
    var ks := InfoFields;
    var position := if Shown(info, "position", repr) then FieldText(Get(info, "position"), repr) else "";
    BlockValues(info, repr);
    CreateMarkdownRaises(content, info, emojis, repr);
    var lines := InfoLines(info, repr, ks).value;
    var expected := [
        InfoLine("Name", ""), InfoLine("Position", position), InfoLine("Address", FormatAddress(info, repr)),
        InfoLine("Phone", ""), InfoLine("Email", ""), InfoLine("Website", ""), InfoLine("GitHub", ""),
        InfoLine("Date of Birth", "")];
    assert lines[0] == expected[0] && lines[1] == expected[1] && lines[2] == expected[2] && lines[3] == expected[3];
    assert lines[4] == expected[4] && lines[5] == expected[5] && lines[6] == expected[6] && lines[7] == expected[7];
    assert lines == expected;
    assert CreateMarkdown(content, info, emojis, repr) == Some(Join(lines, "\n") + ("\n\n" + content));
    assert Join(lines, "\n") + ("\n\n" + content) == Join(lines, "\n") + "\n\n" + content;
  }

  /** What `format_field` gives for each key of the block when none of them raises. */
  lemma BlockValues(info: PersonalInfo, repr: map<string, string> -> string)
    requires !Shown(info, "name", repr) && !Shown(info, "phone", repr) && !Shown(info, "email", repr)
    requires !Shown(info, "website", repr) && !Shown(info, "github", repr) && !Shown(info, "date_of_birth", repr)
    ensures FormatField(info, "name", repr) == Some("") && FormatField(info, "phone", repr) == Some("")
    ensures FormatField(info, "email", repr) == Some("") && FormatField(info, "website", repr) == Some("")
    ensures FormatField(info, "github", repr) == Some("") && FormatField(info, "date_of_birth", repr) == Some("")
    ensures FormatField(info, "position", repr) ==
      Some(if Shown(info, "position", repr) then FieldText(Get(info, "position"), repr) else "")
    ensures FormatField(info, "address", repr) == Some(FormatAddress(info, repr))
  {
    DispatchedRaises(info, repr);
    var d := PersonalInfoFormatter.DispatchedFields;
    assert "name" in d && "phone" in d && "email" in d && "website" in d && "github" in d && "date_of_birth" in d;
    assert "position" !in d;
  }

  /** A dispatched field other than the address raises exactly when it is shown. */
  lemma DispatchedRaises(info: PersonalInfo, repr: map<string, string> -> string)
    ensures FormatField(info, "name", repr).None? <==> Shown(info, "name", repr)
    ensures FormatField(info, "phone", repr).None? <==> Shown(info, "phone", repr)
    ensures FormatField(info, "email", repr).None? <==> Shown(info, "email", repr)
    ensures FormatField(info, "website", repr).None? <==> Shown(info, "website", repr)
    ensures FormatField(info, "github", repr).None? <==> Shown(info, "github", repr)
    ensures FormatField(info, "date_of_birth", repr).None? <==> Shown(info, "date_of_birth", repr)
  {
    var d := PersonalInfoFormatter.DispatchedFields;
    assert "name" in d && "phone" in d && "email" in d && "website" in d && "github" in d && "date_of_birth" in d;
  }

  /** A join of at least one part starts with the first part. */
  lemma JoinStarts(parts: seq<string>, sep: string)
    requires |parts| > 0
    ensures StartsWith(Join(parts, sep), parts[0])
  {
    if |parts| > 1 {
      var j := Join(parts, sep);
      assert j == parts[0] + (sep + Join(parts[1..], sep));
      assert j[..|parts[0]|] == parts[0];
    }
  }

  /** A prefix of a prefix is a prefix. */
  lemma StartsWithTrans(r: string, a: string, b: string)
    requires StartsWith(r, a) && StartsWith(a, b)
    ensures StartsWith(r, b)
  {
    assert r[..|b|] == a[..|b|];
  }
}
