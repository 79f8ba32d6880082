/**
 * `create_styled_html` (aicv/utils/html_generator.py): the styled HTML
 * page of the CV. The name, with a PhD mention taken out of it and shown as
 * a suffix, the photo markup, the position, the address and the phone go
 * into the page head; the contact lines for the email address, the website,
 * the GitHub profile and the date of birth follow; then the content. The
 * personal information is indexed with `[]`, so a missing key raises
 * `KeyError`.
 */
module HtmlGenerator {
  import opened Strings
  import opened Records
  import opened Substitution
  import PersonalInfoFormatter
  import TextProcessing
  import Template

  /** The page, or the exception that ends `create_styled_html`. */
  datatype Styled =
    | Styled(html: string)
    | Missing(key: string)  // `KeyError` for a key of `personal_info` or of one of its objects
    | NameNotText           // `name.split(' ')` on an object: `AttributeError`

  /** `d[key]`, on `personal_info` or on one of its objects */
  function Need<V>(d: map<string, V>, key: string): (r: Result<V>)
    ensures r.Ok? <==> key in d
    ensures r.Ok? ==> r.value == d[key]
    ensures r.Err? ==> r.missing == key
  {
    if key in d then Ok(d[key]) else Err(key)
  }

  // ---------------------------------------------------------------------
  // The name

  /** `name and ('PhD' in name or 'Ph.D' in name or 'Ph.D.' in name)` */
  predicate MentionsPhd(name: string) {
    name != "" && (Contains(name, "PhD") || Contains(name, "Ph.D") || Contains(name, "Ph.D."))
  }

  /** The name in the title: without the PhD mention when there is one. */
  function TitleName(name: string): string {
    if MentionsPhd(name) then TextProcessing.StripPhd(name) else name
  }

  /** `name_with_phd`: the title's name, with `,<br>PhD` for a PhD. */
  function HeadingName(name: string): (r: string)
    ensures MentionsPhd(name) ==> r == TitleName(name) + ",<br>PhD"
    ensures !MentionsPhd(name) ==> r == name
  {
    if MentionsPhd(name) then TitleName(name) + ",<br>PhD" else name
  }

  /** The heading agrees with the name formatter shared by the backends. */
  lemma HeadingIsPhdName(name: string)
    ensures HeadingName(name) == TextProcessing.FormatPhdName(name, "html")
  {
  }

  /**
   * A name ending in `", "` and a PhD spelling, with no other PhD spelling, is
   * shown without it in the title and with the suffix in the heading.
   */
  lemma PhdName(base: string, deg: string)
    requires TextProcessing.NoPhdIn(base) && TextProcessing.IsPhdSpelling(deg)
    ensures TitleName(base + ", " + deg) == base
    ensures HeadingName(base + ", " + deg) == base + ",<br>PhD"
  {
    TextProcessing.PhdMentioned(base, deg);
    TextProcessing.StripPhdSuffix(base, deg);
    assert base + ", " + deg != "";
  }

  // ---------------------------------------------------------------------
  // The contact lines

  /** Twenty spaces: the indentation of a contact line. */
  const Indent := "                    "

  /** `<p><span class="mono-emoji">emoji</span> inner</p>`, indented, with a newline. */
  function ContactLine(emoji: string, inner: string): string {
    Indent + "<p><span class=\"mono-emoji\">" + emoji + "</span> " + inner + "</p>\n"
  }

  const EnvelopeEmoji := "\U{2709}\U{FE0F}"
  const GlobeEmoji := "\U{1F310}"
  const LaptopEmoji := "\U{1F4BB}"
  const CakeEmoji := "\U{1F382}"

  /** `<a href="url">text</a>` */
  function MailAnchor(url: string, text: string): string {
    "<a href=\"" + url + "\">" + text + "</a>"
  }

  /** An email address without a scheme gets `mailto:`. */
  function MailUrl(url: string): (r: string)
    ensures r == url || r == "mailto:" + url
    ensures r != url <==> Contains(url, "@") && !StartsWith(url, "mailto:") && !StartsWith(url, "http")
  {
    if Contains(url, "@") && !StartsWith(url, "mailto:") && !StartsWith(url, "http") then "mailto:" + url else url
  }

  /** The prefix is added once: the result needs no second one. */
  lemma MailUrlIdempotent(url: string)
    ensures MailUrl(MailUrl(url)) == MailUrl(url)
  {
    var m := "mailto:" + url;
    assert m[..7] == "mailto:";
  }

  /** The email line: an object gives its `text` and `url`, a string is both. */
  function EmailLine(email: Field): (r: Result<string>)
    ensures email.Str? ==> r == Ok(ContactLine(EnvelopeEmoji, MailAnchor("mailto:" + email.text, email.text)))
    ensures email.Dict? ==> (r.Ok? <==> "text" in email.entries && "url" in email.entries)
    ensures email.Dict? && r.Ok? ==>
      r.value == ContactLine(EnvelopeEmoji, MailAnchor(MailUrl(email.entries["url"]), email.entries["text"]))
    ensures r.Err? ==> r.missing in {"text", "url"}
  {
    match email
    case Str(e) => Ok(ContactLine(EnvelopeEmoji, MailAnchor("mailto:" + e, e)))
    case Dict(d) =>
      match Need(d, "text")
      case Err(k) => Err(k)
      case Ok(text) =>
        match Need(d, "url")
        case Err(k) => Err(k)
        case Ok(url) => Ok(ContactLine(EnvelopeEmoji, MailAnchor(MailUrl(url), text)))
  }

  /** A website address without a scheme gets `https://`. */
  function WebUrl(url: string): (r: string)
    ensures StartsWith(r, "http")
    ensures r == url <==> StartsWith(url, "http")
    ensures r != url ==> r == "https://" + url
  {
    if StartsWith(url, "http") then url
    else
      var r := "https://" + url;
      assert r[..4] == "http";
      r
  }

  /** The website line: the text loses every `https://`, the object's address gets a scheme. */
  function WebsiteLine(website: Field): (r: Result<string>)
    ensures website.Str? ==> var w := ReplaceAll(website.text, "https://", "");
      r == Ok(ContactLine(GlobeEmoji, TextProcessing.Anchor("https://" + w, w)))
    ensures website.Dict? ==> (r.Ok? <==> "text" in website.entries && "url" in website.entries)
    ensures website.Dict? && r.Ok? ==>
      r.value == ContactLine(GlobeEmoji, TextProcessing.Anchor(WebUrl(website.entries["url"]),
                                                             ReplaceAll(website.entries["text"], "https://", "")))
    ensures r.Err? ==> r.missing in {"text", "url"}
  {
    match website
    case Str(w) =>
      var shown := ReplaceAll(w, "https://", "");
      Ok(ContactLine(GlobeEmoji, TextProcessing.Anchor("https://" + shown, shown)))
    case Dict(d) =>
      match Need(d, "text")
      case Err(k) => Err(k)
      case Ok(text) =>
        match Need(d, "url")
        case Err(k) => Err(k)
        case Ok(url) => Ok(ContactLine(GlobeEmoji, TextProcessing.Anchor(WebUrl(url), ReplaceAll(text, "https://", ""))))
  }

  /** A plain address passes through unchanged in both the text and the link. */
  lemma WebsiteLinePlain(w: string)
    requires !Contains(w, "https://")
    ensures WebsiteLine(Str(w)) == Ok(ContactLine(GlobeEmoji, TextProcessing.Anchor("https://" + w, w)))
  {
    ReplaceAllAbsent(w, "https://", "");
  }

  /** The GitHub address of an object, as the branches of the source build it. */
  function GithubUrl(url: string): (r: string)
    ensures StartsWith(r, "http")
    ensures StartsWith(url, "http") ==> r == url
    ensures !StartsWith(url, "http") ==> r == "https://github.com/" + url
  {
    if !StartsWith(url, "http") then
      var r := "https://github.com/" + url;
      assert r[..4] == "http";
      if !Contains(url, "/") && !StartsWith(url, "@") then r
      else if !StartsWith(url, "https://") then r
      else url
    else url
  }

  /** The address is completed once: a completed address stays as it is. */
  lemma GithubUrlIdempotent(url: string)
    ensures GithubUrl(GithubUrl(url)) == GithubUrl(url)
  {
  }

  /** The GitHub line, only for a truthy value: an object gives its `text` and `url`, a string is the user name. */
  function GithubLine(github: Field): (r: Result<string>)
    ensures !FieldTruthy(github) ==> r == Ok("")
    ensures github.Str? && FieldTruthy(github) ==>
      r == Ok(ContactLine(LaptopEmoji, "GitHub: " + TextProcessing.Anchor("https://github.com/" + github.text, github.text)))
    ensures github.Dict? && FieldTruthy(github) ==> (r.Ok? <==> "text" in github.entries && "url" in github.entries)
    ensures github.Dict? && FieldTruthy(github) && r.Ok? ==>
      r.value == ContactLine(LaptopEmoji, "GitHub: " + TextProcessing.Anchor(GithubUrl(github.entries["url"]), github.entries["text"]))
    ensures r.Err? ==> r.missing in {"text", "url"}
  {
    if !FieldTruthy(github) then Ok("")
    else match github
      case Str(g) => Ok(ContactLine(LaptopEmoji, "GitHub: " + TextProcessing.Anchor("https://github.com/" + g, g)))
      case Dict(d) =>
        match Need(d, "text")
        case Err(k) => Err(k)
        case Ok(text) =>
          match Need(d, "url")
          case Err(k) => Err(k)
          case Ok(url) => Ok(ContactLine(LaptopEmoji, "GitHub: " + TextProcessing.Anchor(GithubUrl(url), text)))
  }

  /** The date-of-birth line, only for a truthy value. */
  function BirthLine(dob: Field, repr: map<string, string> -> string): (r: string)
    ensures !FieldTruthy(dob) <==> r == ""
    ensures FieldTruthy(dob) ==> r == ContactLine(CakeEmoji, FieldText(dob, repr))
  {
    if FieldTruthy(dob) then ContactLine(CakeEmoji, FieldText(dob, repr)) else ""
  }

  // ---------------------------------------------------------------------
  // The page

  // Slots of the page, in order.
  const TitleSlot: nat := 0
  const PhotoSlot: nat := 1
  const HeadingSlot: nat := 2
  const PositionSlot: nat := 3
  const AddressSlot: nat := 4
  const PhoneSlot: nat := 5
  const ContactSlot: nat := 6
  const ContentSlot: nat := 7

  /** The keys `create_styled_html` reads with `[]`, in the order it reads them. */
  const Keys: seq<string> := ["name", "position", "address", "phone", "email", "website", "github", "date_of_birth"]

  /** The keys of the contact lines are all there. */
  predicate ContactKeys(info: PersonalInfo) {
    "email" in info && "website" in info && "github" in info && "date_of_birth" in info
  }

  /** The values `create_styled_html` puts into its page. */
  datatype PageValues = PageValues(title: string, photo: string, heading: string, position: string,
                                   address: string, phone: string, contacts: string, body: string)

  /** The values in slot order. */
  function Slots(v: PageValues): (s: seq<string>)
    ensures |s| == ContentSlot + 1
    ensures s[TitleSlot] == v.title && s[HeadingSlot] == v.heading && s[ContactSlot] == v.contacts
    ensures s[ContentSlot] == v.body
  {
    [v.title, v.photo, v.heading, v.position, v.address, v.phone, v.contacts, v.body]
  }

  /** The keys of the page head are all there, and the name is a string. */
  predicate HeadReady(info: PersonalInfo) {
    "name" in info && info["name"].Str? && "position" in info && "address" in info && "phone" in info
  }

  /** The page values, given the contact lines. */
  function ValuesOf(content: string, info: PersonalInfo, photo: string, contacts: string,
                    repr: map<string, string> -> string): PageValues
    requires HeadReady(info)
  {
    var name := info["name"].text;
    PageValues(TitleName(name), photo, HeadingName(name), FieldText(info["position"], repr),
      FieldText(info["address"], repr), FieldText(info["phone"], repr),
      contacts, content)
  }

  /**
   * `create_styled_html`. `page` holds the fixed text around the slots:
   * the document head with its style sheet, the header markup, and the
   * closing markup after the content; `photo` is the markup of the photo.
   * The keys are read in the order of `Keys`, each object's `text` before
   * its `url`; the first one missing is the `KeyError`.
   */
  function CreateStyledHtml(content: string, info: PersonalInfo, photo: string, page: seq<string>,
                            repr: map<string, string> -> string): (r: Styled)
    requires |page| == ContentSlot + 2
    ensures "name" !in info ==> r == Missing("name")
    ensures "name" in info && info["name"].Dict? ==> r == NameNotText
    ensures r.Styled? <==> HeadReady(info) && Contacts(info, repr).Ok?
    ensures r.Styled? ==> r.html == Template.Fill(page, Slots(ValuesOf(content, info, photo, Contacts(info, repr).value, repr)))
    ensures r.Missing? ==> r.key in {"text", "url"} || r.key in Keys
  {
    match Need(info, "name")
    case Err(k) => Missing(k)
    case Ok(n) =>
      if n.Dict? then NameNotText
      else
        match (Need(info, "position"), Need(info, "address"), Need(info, "phone"))
        case (Err(k), _, _) => Missing(k)
        case (_, Err(k), _) => Missing(k)
        case (_, _, Err(k)) => Missing(k)
        case (Ok(position), Ok(address), Ok(phone)) =>
          match Contacts(info, repr)
          case Err(k) => Missing(k)
          case Ok(contacts) => Styled(Template.Fill(page, Slots(ValuesOf(content, info, photo, contacts, repr))))
  }

  /**
   * The title holds the name without its PhD mention right after the
   * opening text, the heading the name with the suffix, the contact lines
   * stand at their slot, and the content is followed by the closing text
   * only.
   */
  lemma StyledHtmlLayout(content: string, info: PersonalInfo, photo: string, page: seq<string>,
                         repr: map<string, string> -> string)
    requires |page| == ContentSlot + 2 && CreateStyledHtml(content, info, photo, page, repr).Styled?
    ensures var d := CreateStyledHtml(content, info, photo, page, repr).html;
      var name := info["name"].text;
      var s := Slots(ValuesOf(content, info, photo, Contacts(info, repr).value, repr));
      StartsWith(d, page[0] + TitleName(name)) &&
      OccursAt(d, HeadingName(name), Template.Offset(page, s, HeadingSlot)) &&
      OccursAt(d, Contacts(info, repr).value, Template.Offset(page, s, ContactSlot)) &&
      EndsWith(d, content + page[ContentSlot + 1])
  {
    var s := Slots(ValuesOf(content, info, photo, Contacts(info, repr).value, repr));
    Template.FirstSlot(page, s);
    Template.SlotAt(page, s, HeadingSlot);
    Template.SlotAt(page, s, ContactSlot);
    Template.LastSlot(page, s);
  }

  /** The first key of the page head (or the email key right after them) that is missing is the one reported. */
  lemma MissingHeadKey(content: string, info: PersonalInfo, photo: string, page: seq<string>, i: nat,
                       repr: map<string, string> -> string)
    requires |page| == ContentSlot + 2 && 1 <= i <= 4
    requires "name" in info && info["name"].Str?
    requires forall j :: 1 <= j < i ==> Keys[j] in info
    requires Keys[i] !in info
    ensures CreateStyledHtml(content, info, photo, page, repr) == Missing(Keys[i])
  {
    assert Keys[1] == "position" && Keys[2] == "address" && Keys[3] == "phone" && Keys[4] == "email";
    if i > 1 { assert Keys[1] in info; }
    if i > 2 { assert Keys[2] in info; }
    if i > 3 { assert Keys[3] in info; }
  }

  /** With every key there and string values, the page is produced, and its contact lines say what each field holds. */
  lemma StyledHtmlOfStrings(content: string, info: PersonalInfo, photo: string, page: seq<string>,
                            repr: map<string, string> -> string)
    requires |page| == ContentSlot + 2 && HeadReady(info) && ContactKeys(info)
    requires info["email"].Str? && info["website"].Str? && info["github"].Str?
    ensures var r := CreateStyledHtml(content, info, photo, page, repr);
      var e, w, g := info["email"].text, ReplaceAll(info["website"].text, "https://", ""), info["github"].text;
      r.Styled? &&
      Contacts(info, repr).value ==
        ContactLine(EnvelopeEmoji, MailAnchor("mailto:" + e, e)) +
        ContactLine(GlobeEmoji, TextProcessing.Anchor("https://" + w, w)) +
        (if g == "" then "" else ContactLine(LaptopEmoji, "GitHub: " + TextProcessing.Anchor("https://github.com/" + g, g))) +
        BirthLine(info["date_of_birth"], repr)
  {
  }

  /**
   * The lines appended for the email address, the website, GitHub and the
   * date of birth, each key looked up in turn.
   */
  function Contacts(info: PersonalInfo, repr: map<string, string> -> string): (r: Result<string>)
    ensures "email" !in info ==> r == Err("email")
    ensures ContactKeys(info) ==>
      (r.Ok? <==> EmailLine(info["email"]).Ok? && WebsiteLine(info["website"]).Ok? && GithubLine(info["github"]).Ok?)
    ensures ContactKeys(info) && r.Ok? ==>
      r.value == EmailLine(info["email"]).value + WebsiteLine(info["website"]).value + GithubLine(info["github"]).value +
                 BirthLine(info["date_of_birth"], repr)
    ensures r.Err? ==> r.missing in {"email", "website", "github", "date_of_birth", "text", "url"}
  {
    match Need(info, "email")
    case Err(k) => Err(k)
    case Ok(email) =>
      match EmailLine(email)
      case Err(k) => Err(k)
      case Ok(e) =>
        match Need(info, "website")
        case Err(k) => Err(k)
        case Ok(website) =>
          match WebsiteLine(website)
          case Err(k) => Err(k)
          case Ok(w) =>
            match Need(info, "github")
            case Err(k) => Err(k)
            case Ok(github) =>
              match GithubLine(github)
              case Err(k) => Err(k)
              case Ok(g) =>
                match Need(info, "date_of_birth")
                case Err(k) => Err(k)
                case Ok(dob) => Ok(e + w + g + BirthLine(dob, repr))
  }
}
