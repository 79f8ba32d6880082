/**
 * The moderncv backend (aicv/backend/moderncv.py): the LaTeX formatter of
 * the personal information, and `create_moderncv`, which fills the
 * personal information, the photo, the optional inline bibliography and
 * the content into a fixed LaTeX document.
 */
module ModernCv {
  import opened Strings
  import opened Records
  import PersonalInfoFormatter
  import LatexEscape
  import Template

  /** `EmojisFormatterModernCV.add_section_emojis`: LaTeX sections get no emojis. */
  function AddSectionEmojis(content: string): (r: string)
    ensures r == content
  {
    content
  }

  /** `\name{value}` */
  function Command(name: string, value: string): string {
    "\\" + name + "{" + value + "}"
  }

  /** `format_website`: `\homepage{…}` with the display text, nothing without one. */
  function FormatWebsite(info: PersonalInfo): (r: string)
    ensures var w := PersonalInfoFormatter.ParseWebsiteInfo(Get(info, "website"));
      (r == "" <==> w.0 == "") && (w.0 != "" ==> r == Command("homepage", w.0))
  {
    var w := PersonalInfoFormatter.ParseWebsiteInfo(Get(info, "website"));
    if w.0 == "" then "" else Command("homepage", w.0)
  }

  /** An address with a scheme is shown without it. */
  lemma HomepageOfScheme(info: PersonalInfo, scheme: string, rest: string)
    requires ':' !in scheme && '\n' !in scheme && rest != ""
    requires "website" in info && info["website"] in {Str(scheme + "://" + rest), Dict(map["url" := scheme + "://" + rest])}
    ensures FormatWebsite(info) == Command("homepage", rest)
  {
    PersonalInfoFormatter.ParseWebsiteOfScheme(scheme, rest);
  }

  /** `\social[kind]{name}` */
  function SocialCommand(kind: string, name: string): string {
    "\\social[" + kind + "]{" + name + "}"
  }

  /**
   * `\social[kind]{username}`: `parse_social_info` with an empty handle
   * prefix, so the user name is shown bare. The command is there even for
   * a missing value, with empty braces; a non-empty object raises (`None`).
   */
  function FormatSocial(f: Field, kind: string, base: string, segment: string): (r: Option<string>)
    ensures r.None? <==> FieldTruthy(f) && f.Dict?
    ensures r.Some? ==> var v := PersonalInfoFormatter.SocialValue(f).value;
      r.value == SocialCommand(kind, if v == "" then "" else PersonalInfoFormatter.SocialUsername(v, "", segment))
  {
    match PersonalInfoFormatter.SocialValue(f)
    case None => None
    case Some(v) =>
      var p := PersonalInfoFormatter.ParseSocialInfo(v, base, "", segment);
      Some(SocialCommand(kind, p.0))
  }

  /**
   * `format_linkedin`: raises (`None`) exactly for a non-empty object, and a
   * missing or falsy value still gives the command, with empty braces.
   */
  function FormatLinkedin(info: PersonalInfo): (r: Option<string>)
    ensures r.None? <==> FieldTruthy(Get(info, "linkedin")) && Get(info, "linkedin").Dict?
    ensures !FieldTruthy(Get(info, "linkedin")) ==> r == Some(SocialCommand("linkedin", ""))
  {
    FormatSocial(Get(info, "linkedin"), "linkedin", "https://www.linkedin.com/in/", "linkedin.com/in/")
  }

  /**
   * `format_github`: raises (`None`) exactly for a non-empty object, and a
   * missing or falsy value still gives the command, with empty braces.
   */
  function FormatGithub(info: PersonalInfo): (r: Option<string>)
    ensures r.None? <==> FieldTruthy(Get(info, "github")) && Get(info, "github").Dict?
    ensures !FieldTruthy(Get(info, "github")) ==> r == Some(SocialCommand("github", ""))
  {
    FormatSocial(Get(info, "github"), "github", "https://github.com/", "github.com/")
  }

  /**
   * The profile URL and the bare name give the same command; the empty
   * handle prefix leaves an `@` handle as it is.
   */
  lemma GithubForms(info: PersonalInfo, u: string)
    requires PersonalInfoFormatter.PlainUsername(u) && "github" in info
    ensures info["github"] == Str("https://github.com/" + u) ==> FormatGithub(info) == Some(SocialCommand("github", u))
    ensures info["github"] == Str(u) ==> FormatGithub(info) == Some(SocialCommand("github", u))
    ensures info["github"] == Str("@" + u) ==> FormatGithub(info) == Some(SocialCommand("github", "@" + u))
  {
    assert u != "";
    if info["github"] == Str("https://github.com/" + u) {
      PersonalInfoFormatter.SocialFromUrl(u, "");
    } else if info["github"] == Str(u) {
      PersonalInfoFormatter.SocialFromName(u, "");
    } else if info["github"] == Str("@" + u) {
      HandleKept(u);
    }
  }

  /** With no handle prefix, `@u` is a name of its own. */
  lemma HandleKept(u: string)
    requires PersonalInfoFormatter.PlainUsername(u)
    ensures PersonalInfoFormatter.SocialUsername("@" + u, "", "github.com/") == "@" + u
  {
    var v := "@" + u;
    PersonalInfoFormatter.PlainUsernameStrips(u);
    PersonalInfoFormatter.StripOfTrimmed("@", u);
    MissingChar(v, "github.com/", 10);
    assert PersonalInfoFormatter.CharsOf("") == {};
    assert StartsWith(v, "");
    StripCharsAbsent(v, {});
    assert forall i :: 0 <= i < |v| ==> v[i] != '/' by {
      forall i | 0 <= i < |v| ensures v[i] != '/' {
        if i > 0 {
          assert v[i] == u[i - 1];
        }
      }
    }
    StripCharsAbsent(v, {'/'});
  }

  /** `\name{value}` for a truthy value, nothing otherwise. */
  function Optional(f: Field, name: string, value: string): (r: string)
    ensures !FieldTruthy(f) <==> r == ""
    ensures FieldTruthy(f) ==> r == Command(name, value)
  {
    if FieldTruthy(f) then Command(name, value) else ""
  }

  /** `format_email`: `\email{…}` around the address, nothing for a falsy value. */
  function FormatEmail(info: PersonalInfo, repr: map<string, string> -> string): (r: string)
    ensures r == "" <==> !FieldTruthy(Get(info, "email"))
    ensures Get(info, "email").Str? && r != "" ==> r == "\\email{" + Get(info, "email").text + "}"
  {
    var email := Get(info, "email");
    Optional(email, "email", FieldText(email, repr))
  }

  /** `format_phone`: `\mobile{…}` around the number, nothing for a falsy value. */
  function FormatPhone(info: PersonalInfo, repr: map<string, string> -> string): (r: string)
    ensures r == "" <==> !FieldTruthy(Get(info, "phone"))
    ensures Get(info, "phone").Str? && r != "" ==> r == "\\mobile{" + Get(info, "phone").text + "}"
  {
    var phone := Get(info, "phone");
    Optional(phone, "mobile", FieldText(phone, repr))
  }

  /** `format_address`: the address escaped for LaTeX, then two empty arguments. */
  function FormatAddress(info: PersonalInfo, repr: map<string, string> -> string): (r: string)
    ensures var address := Get(info, "address");
      (r == "" <==> !FieldTruthy(address)) &&
      (FieldTruthy(address) ==> r == Command("address", LatexEscape.EscapeLatex(FieldText(address, repr))) + "{}{}")
  {
    var address := Get(info, "address");
    if !FieldTruthy(address) then ""
    else Command("address", LatexEscape.EscapeLatex(FieldText(address, repr))) + "{}{}"
  }

  /** An address free of LaTeX special characters is shown as it is. */
  lemma AddressPlain(info: PersonalInfo, a: string, repr: map<string, string> -> string)
    requires LatexEscape.Plain(a) && a != "" && "address" in info && info["address"] == Str(a)
    ensures FormatAddress(info, repr) == Command("address", a) + "{}{}"
  {
    LatexEscape.PlainUnchanged(a);
  }

  /** The family name escaped for LaTeX, with `, PhD` for a PhD. */
  function FamilyName(info: PersonalInfo, repr: map<string, string> -> string): (r: string)
    ensures var escaped := LatexEscape.EscapeLatex(FieldText(PersonalInfoFormatter.FamilyName(info), repr));
      StartsWith(r, escaped) && (PersonalInfoFormatter.HasPhd(info) <==> |r| > |escaped|) &&
      (PersonalInfoFormatter.HasPhd(info) ==> r[|escaped|..] == ", PhD")
  {
    var escaped := LatexEscape.EscapeLatex(FieldText(PersonalInfoFormatter.FamilyName(info), repr));
    var r := if PersonalInfoFormatter.HasPhd(info) then escaped + ", PhD" else escaped;
    assert r[..|escaped|] == escaped;
    r
  }

  /** A plain family name is shown as it is; the degree adds the suffix after the escaping, so it is not escaped. */
  lemma FamilyNamePlain(info: PersonalInfo, name: string, repr: map<string, string> -> string)
    requires LatexEscape.Plain(name) && "family_name" in info && info["family_name"] == Str(name)
    ensures FamilyName(info, repr) == if PersonalInfoFormatter.HasPhd(info) then name + ", PhD" else name
  {
    LatexEscape.PlainUnchanged(name);
    var r := FamilyName(info, repr);
    assert r[..|name|] == name;
    if PersonalInfoFormatter.HasPhd(info) {
      assert r == r[..|name|] + r[|name|..];
    }
  }

  /** `photo_path.replace('\\', '/')` */
  function ForwardSlashes(p: string): string {
    ReplaceAll(p, "\\", "/")
  }

  /** Every backslash of the path becomes a slash, and nothing else changes. */
  lemma {:induction false} ForwardSlashesAt(p: string)
    ensures |ForwardSlashes(p)| == |p|
    ensures forall i :: 0 <= i < |p| ==> ForwardSlashes(p)[i] == if p[i] == '\\' then '/' else p[i]
    decreases |p|
  {
    if p != [] {
      ForwardSlashesAt(p[1..]);
      assert p == [p[0]] + p[1..];
      ReplaceCharConcat([p[0]], p[1..], '\\', "/");
      if p[0] == '\\' {
        assert [p[0]] == "\\";
      } else {
        assert [p[0]][..1] != "\\";
      }
    }
  }

  /**
   * The photo command, only for a non-empty photo path; a non-empty
   * object has no `replace` and raises (`None`).
   */
  function PhotoCommand(info: PersonalInfo): (r: Option<string>)
    ensures r.None? <==> FieldTruthy(Get(info, "photo")) && Get(info, "photo").Dict?
    ensures r == Some("") <==> !FieldTruthy(Get(info, "photo"))
  {
    match Get(info, "photo")
    case Dict(d) => if d == map[] then Some("") else None
    case Str(p) => if p == "" then Some("") else Some("\\photo[64pt]{" + ForwardSlashes(p) + "}")
  }

  /** A non-empty path of a photo appears in the command with forward slashes only. */
  lemma PhotoSlashes(info: PersonalInfo, p: string)
    requires "photo" in info && info["photo"] == Str(p) && p != ""
    ensures var c := PhotoCommand(info).value;
      |c| == |p| + 14 && StartsWith(c, "\\photo[64pt]{") && EndsWith(c, "}") &&
      forall i :: 0 <= i < |p| ==> c[13 + i] != '\\' && (p[i] != '\\' ==> c[13 + i] == p[i])
  {
    ForwardSlashesAt(p);
    var c := PhotoCommand(info).value;
    var f := ForwardSlashes(p);
    assert c == "\\photo[64pt]{" + f + "}";
    assert c[..13] == "\\photo[64pt]{";
    assert forall i :: 0 <= i < |p| ==> c[13 + i] == f[i];
  }

  /** The name of the bibliography file the document writes and reads. */
  const BibFile := "cv_publications.bib"

  const BibOpen := "\n% Inline bibliography using filecontents\n\\begin{filecontents}[overwrite]{" + BibFile + "}\n"
  const BibClose := "\n\\end{filecontents}\n"

  /** The inline `filecontents` block holding the BibTeX text, when there is any. */
  function BibSetup(bib: string): (r: string)
    ensures bib == "" <==> r == ""
    ensures bib != "" ==> StartsWith(r, BibOpen) && OccursAt(r, bib, |BibOpen|) && EndsWith(r, BibClose)
  {
    if bib == "" then ""
    else
      var r := BibOpen + bib + BibClose;
      assert r[..|BibOpen|] == BibOpen;
      assert r[|BibOpen|..|BibOpen| + |bib|] == bib;
      assert r[|r| - |BibClose|..] == BibClose;
      r
  }

  const PrintBibliography := "\\printbibliography[heading=none]"

  // Slots of the document, in order.
  const BibSlot: nat := 0
  const BiblatexSlot: nat := 1
  const FirstNameSlot: nat := 2
  const FamilyNameSlot: nat := 3
  const AddressSlot: nat := 4
  const MobileSlot: nat := 5
  const EmailSlot: nat := 6
  const HomepageSlot: nat := 7
  const GithubSlot: nat := 8
  const LinkedinSlot: nat := 9
  const PhotoSlot: nat := 10
  const ContentSlot: nat := 11
  const PrintSlot: nat := 12

  /** The values `create_moderncv` puts into the document. */
  datatype Values = Values(
    bib: string, biblatex: string, first: string, family: string, address: string, mobile: string,
    email: string, homepage: string, github: string, linkedin: string, photo: string, content: string,
    printBib: string)

  /** The values in slot order. */
  function Slots(v: Values): (s: seq<string>)
    ensures |s| == PrintSlot + 1
    ensures s[BibSlot] == v.bib && s[BiblatexSlot] == v.biblatex && s[FamilyNameSlot] == v.family
    ensures s[AddressSlot] == v.address && s[EmailSlot] == v.email && s[GithubSlot] == v.github
    ensures s[PhotoSlot] == v.photo && s[ContentSlot] == v.content && s[PrintSlot] == v.printBib
    ensures s[FirstNameSlot] == v.first && s[MobileSlot] == v.mobile && s[HomepageSlot] == v.homepage
    ensures s[LinkedinSlot] == v.linkedin
  {
    [v.bib, v.biblatex, v.first, v.family, v.address, v.mobile, v.email, v.homepage, v.github, v.linkedin,
     v.photo, v.content, v.printBib]
  }

  /**
   * The document's values, given the formatted GitHub, LinkedIn and photo
   * commands. `biblatex` is the fixed BibLaTeX preamble, used only with a
   * bibliography.
   */
  function ValuesOf(content: string, info: PersonalInfo, bib: string, biblatex: string, github: string,
                    linkedin: string, photo: string, repr: map<string, string> -> string): Values
  {
    Values(
      BibSetup(bib), if bib != "" then biblatex else "",
      LatexEscape.EscapeLatex(FieldText(PersonalInfoFormatter.FirstName(info), repr)),
      FamilyName(info, repr), FormatAddress(info, repr), FormatPhone(info, repr), FormatEmail(info, repr),
      FormatWebsite(info), github, linkedin, photo, content, if bib != "" then PrintBibliography else "")
  }

  /**
   * `create_moderncv`. `page` holds the fixed LaTeX text around the slots;
   * `None` where a formatter raises.
   */
  function CreateModerncv(content: string, info: PersonalInfo, bib: string, page: seq<string>, biblatex: string,
                          repr: map<string, string> -> string): (r: Option<string>)
    requires |page| == PrintSlot + 2
    ensures r.None? <==> FormatGithub(info).None? || FormatLinkedin(info).None? || PhotoCommand(info).None?
  {
    if FormatGithub(info).Some? && FormatLinkedin(info).Some? && PhotoCommand(info).Some? then
      Some(Template.Fill(page, DocumentSlots(content, info, bib, biblatex, repr)))
    else None
  }

  /** The values of a document that is produced. */
  function DocumentValues(content: string, info: PersonalInfo, bib: string, biblatex: string,
                          repr: map<string, string> -> string): Values
    requires FormatGithub(info).Some? && FormatLinkedin(info).Some? && PhotoCommand(info).Some?
  {
    ValuesOf(content, info, bib, biblatex, FormatGithub(info).value, FormatLinkedin(info).value,
             PhotoCommand(info).value, repr)
  }

  /** The slots of a document that is produced. */
  function DocumentSlots(content: string, info: PersonalInfo, bib: string, biblatex: string,
                         repr: map<string, string> -> string): (s: seq<string>)
    requires FormatGithub(info).Some? && FormatLinkedin(info).Some? && PhotoCommand(info).Some?
    ensures |s| == PrintSlot + 1
  {
    Slots(DocumentValues(content, info, bib, biblatex, repr))
  }

  lemma DocumentValuesAre(content: string, info: PersonalInfo, bib: string, biblatex: string,
                         repr: map<string, string> -> string)
    requires FormatGithub(info).Some? && FormatLinkedin(info).Some? && PhotoCommand(info).Some?
    ensures var v := DocumentValues(content, info, bib, biblatex, repr);
      v.bib == BibSetup(bib) && v.biblatex == (if bib != "" then biblatex else "") &&
      v.family == FamilyName(info, repr) && v.address == FormatAddress(info, repr) &&
      v.email == FormatEmail(info, repr) && v.github == FormatGithub(info).value &&
      v.photo == PhotoCommand(info).value && v.content == content &&
      v.printBib == if bib != "" then PrintBibliography else ""
  {
  }

  /**
   * The escaped first name, the family name, the contact commands (address,
   * mobile, e-mail, homepage, GitHub, LinkedIn), the photo command and the
   * content each stand at their slot, in that order.
   */
  lemma CreateModerncvLayout(content: string, info: PersonalInfo, bib: string, page: seq<string>, biblatex: string,
                             repr: map<string, string> -> string)
    requires |page| == PrintSlot + 2
    requires FormatGithub(info).Some? && FormatLinkedin(info).Some? && PhotoCommand(info).Some?
    ensures var d := CreateModerncv(content, info, bib, page, biblatex, repr).value;
      var s := DocumentSlots(content, info, bib, biblatex, repr);
      OccursAt(d, LatexEscape.EscapeLatex(FieldText(PersonalInfoFormatter.FirstName(info), repr)),
               Template.Offset(page, s, FirstNameSlot)) &&
      OccursAt(d, FamilyName(info, repr), Template.Offset(page, s, FamilyNameSlot)) &&
      OccursAt(d, FormatPhone(info, repr), Template.Offset(page, s, MobileSlot)) &&
      OccursAt(d, FormatWebsite(info), Template.Offset(page, s, HomepageSlot)) &&
      OccursAt(d, FormatLinkedin(info).value, Template.Offset(page, s, LinkedinSlot)) &&
      OccursAt(d, FormatAddress(info, repr), Template.Offset(page, s, AddressSlot)) &&
      OccursAt(d, FormatEmail(info, repr), Template.Offset(page, s, EmailSlot)) &&
      OccursAt(d, FormatGithub(info).value, Template.Offset(page, s, GithubSlot)) &&
      OccursAt(d, PhotoCommand(info).value, Template.Offset(page, s, PhotoSlot)) &&
      OccursAt(d, content, Template.Offset(page, s, ContentSlot))
  {
    var s := DocumentSlots(content, info, bib, biblatex, repr);
    Template.SlotAt(page, s, FirstNameSlot);
    Template.SlotAt(page, s, FamilyNameSlot);
    Template.SlotAt(page, s, MobileSlot);
    Template.SlotAt(page, s, HomepageSlot);
    Template.SlotAt(page, s, LinkedinSlot);
    Template.SlotAt(page, s, AddressSlot);
    Template.SlotAt(page, s, EmailSlot);
    Template.SlotAt(page, s, GithubSlot);
    Template.SlotAt(page, s, PhotoSlot);
    Template.SlotAt(page, s, ContentSlot);
  }

  /**
   * With a bibliography, the document holds the `filecontents` block, the
   * BibLaTeX preamble and the print command at their slots, the print
   * command after the content; the content is followed by the last piece
   * of fixed text only.
   */
  lemma WithBibliography(content: string, info: PersonalInfo, bib: string, page: seq<string>, biblatex: string,
                         repr: map<string, string> -> string)
    requires |page| == PrintSlot + 2 && bib != ""
    requires FormatGithub(info).Some? && FormatLinkedin(info).Some? && PhotoCommand(info).Some?
    ensures var d := CreateModerncv(content, info, bib, page, biblatex, repr).value;
      var s := DocumentSlots(content, info, bib, biblatex, repr);
      StartsWith(d, page[0] + BibSetup(bib)) &&
      OccursAt(d, biblatex, Template.Offset(page, s, BiblatexSlot)) &&
      Template.Offset(page, s, ContentSlot) + |content| <= Template.Offset(page, s, PrintSlot) &&
      EndsWith(d, PrintBibliography + page[PrintSlot + 1])
  {
    var s := DocumentSlots(content, info, bib, biblatex, repr);
    Template.FirstSlot(page, s);
    Template.SlotAt(page, s, BiblatexSlot);
    Template.NextOffset(page, s, ContentSlot);
    Template.LastSlot(page, s);
  }

  /** Without a bibliography the three bibliography slots are empty, and the BibLaTeX preamble plays no part. */
  lemma WithoutBibliography(content: string, info: PersonalInfo, page: seq<string>, biblatex: string, biblatex': string,
                            repr: map<string, string> -> string)
    requires |page| == PrintSlot + 2
    requires FormatGithub(info).Some? && FormatLinkedin(info).Some? && PhotoCommand(info).Some?
    ensures var s := DocumentSlots(content, info, "", biblatex, repr);
      s[BibSlot] == s[BiblatexSlot] == s[PrintSlot] == ""
    ensures CreateModerncv(content, info, "", page, biblatex, repr) == CreateModerncv(content, info, "", page, biblatex', repr)
  {
  }

  /** The degree is not part of the names' text, the address or the phone number. */
  lemma DegreeKeepsNames(info: PersonalInfo, degree: Field)
    ensures var info' := info["degree" := degree];
      Get(info', "first_name") == Get(info, "first_name") && Get(info', "family_name") == Get(info, "family_name") &&
      Get(info', "address") == Get(info, "address") && Get(info', "phone") == Get(info, "phone")
  {
  }

  /** The degree is not part of the email address, the website, the profiles or the photo. */
  lemma DegreeKeepsLinks(info: PersonalInfo, degree: Field)
    ensures var info' := info["degree" := degree];
      Get(info', "email") == Get(info, "email") && Get(info', "website") == Get(info, "website") &&
      Get(info', "github") == Get(info, "github") && Get(info', "linkedin") == Get(info, "linkedin") &&
      Get(info', "photo") == Get(info, "photo")
  {
  }

  /** With another degree, the values differ in the family name only. */
  lemma DegreeOnlyInFamilyNameValue(content: string, info: PersonalInfo, bib: string, biblatex: string, degree: Field,
                                    repr: map<string, string> -> string)
    requires FormatGithub(info).Some? && FormatLinkedin(info).Some? && PhotoCommand(info).Some?
    ensures var info' := info["degree" := degree];
      FormatGithub(info').Some? && FormatLinkedin(info').Some? && PhotoCommand(info').Some? &&
      DocumentValues(content, info', bib, biblatex, repr) ==
      DocumentValues(content, info, bib, biblatex, repr).(family := FamilyName(info', repr))
  {
    DegreeKeepsNames(info, degree);
    DegreeKeepsLinks(info, degree);
  }

  /** A new family name value is a new family name slot. */
  lemma SlotsNewFamilyName(v: Values, x: string)
    ensures Slots(v.(family := x)) == Slots(v)[FamilyNameSlot := x]
  {
  }

  /**
   * The degree changes only the family name: what comes before it and
   * after it is the same document.
   */
  lemma DegreeOnlyInFamilyName(content: string, info: PersonalInfo, bib: string, page: seq<string>, biblatex: string,
                               degree: Field, repr: map<string, string> -> string)
    requires |page| == PrintSlot + 2
    requires FormatGithub(info).Some? && FormatLinkedin(info).Some? && PhotoCommand(info).Some?
    ensures var info' := info["degree" := degree];
      var r, r' := CreateModerncv(content, info, bib, page, biblatex, repr), CreateModerncv(content, info', bib, page, biblatex, repr);
      var k := Template.Offset(page, DocumentSlots(content, info, bib, biblatex, repr), FamilyNameSlot);
      r'.Some? && Template.SameAround(r.value, r'.value, k, |FamilyName(info, repr)|, |FamilyName(info', repr)|)
  {
    var info' := info["degree" := degree];
    var v := DocumentValues(content, info, bib, biblatex, repr);
    var x := FamilyName(info', repr);
    DegreeOnlyInFamilyNameValue(content, info, bib, biblatex, degree, repr);
    DocumentValuesAre(content, info, bib, biblatex, repr);
    SlotsNewFamilyName(v, x);
    Template.OnlySlotChanges(page, Slots(v), FamilyNameSlot, x);
  }
}
