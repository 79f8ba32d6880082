/**
 * `PersonalInfoFormatter` (aicv/backend/personal_info.py): the shared part
 * of the per-backend personal-information formatters. The formatter only
 * reads the `personal_info` object it was built with, so every method is a
 * function of that object.
 */
module PersonalInfoFormatter {
  import opened Strings
  import opened Records
  import Substitution
  import TextProcessing

  /** `format_first_name` */
  function FirstName(info: PersonalInfo): Field {
    Get(info, "first_name")
  }

  /** `format_family_name` */
  function FamilyName(info: PersonalInfo): Field {
    Get(info, "family_name")
  }

  /** `format_date_of_birth` */
  function DateOfBirth(info: PersonalInfo): Field {
    Get(info, "date_of_birth")
  }

  /** `format_name`: the first name, one space, the family name. */
  function FormatName(info: PersonalInfo, repr: map<string, string> -> string): (r: string)
    ensures var first, family := FieldText(FirstName(info), repr), FieldText(FamilyName(info), repr);
      |r| == |first| + 1 + |family| && StartsWith(r, first) && r[|first|] == ' ' && EndsWith(r, family)
  {
    var first, family := FieldText(FirstName(info), repr), FieldText(FamilyName(info), repr);
    assert (first + " " + family)[..|first|] == first;
    assert (first + " " + family)[|first| + 1..] == family;
    first + " " + family
  }

  /** Both name keys absent: the name is a single space. */
  lemma FormatNameDefaults(info: PersonalInfo, repr: map<string, string> -> string)
    requires "first_name" !in info && "family_name" !in info
    ensures FormatName(info, repr) == " "
  {
  }

  /** The name is determined by its two parts: equal names with equal first names have equal family names. */
  lemma FormatNameParts(info: PersonalInfo, info': PersonalInfo, repr: map<string, string> -> string)
    requires FieldText(FirstName(info), repr) == FieldText(FirstName(info'), repr)
    requires FormatName(info, repr) == FormatName(info', repr)
    ensures FieldText(FamilyName(info), repr) == FieldText(FamilyName(info'), repr)
  {
    var n := FormatName(info, repr);
    var k := |FieldText(FirstName(info), repr)| + 1;
    assert FieldText(FamilyName(info), repr) == n[k..];
    assert FieldText(FamilyName(info'), repr) == n[k..];
  }

  /**
   * `has_phd`: the `degree` value is one of the three exact spellings, so
   * a missing degree never counts.
   */
  predicate HasPhd(info: PersonalInfo)
    ensures HasPhd(info) ==> "degree" in info && info["degree"].Str? && TextProcessing.IsPhdSpelling(info["degree"].text)
  {
    var degree := Get(info, "degree");
    degree == Str("PhD") || degree == Str("Ph.D") || degree == Str("Ph.D.")
  }

  /** The test is exact: a string degree counts exactly when it is a PhD spelling, and an object never does. */
  lemma HasPhdExact(info: PersonalInfo)
    ensures HasPhd(info) <==> Get(info, "degree").Str? && TextProcessing.IsPhdSpelling(Get(info, "degree").text)
    ensures Get(info, "degree").Dict? ==> !HasPhd(info)
    ensures Get(info, "degree") == Str("phd") || Get(info, "degree") == Str("PhD.") ==> !HasPhd(info)
  {
  }

  /** The fields `format_field` hands to a method of their own. */
  const DispatchedFields: set<string> :=
    {"name", "first_name", "family_name", "date_of_birth", "website", "github", "linkedin", "email", "phone", "address"}

  /**
   * `format_field`: the empty and fall-through paths. `None` stands for the
   * call into the field's own method, which passes the value to a method
   * that takes none and so raises `TypeError` (the markdown formatter's
   * `format_address` is the one exception, handled where that formatter
   * is modelled).
   */
  function FormatField(info: PersonalInfo, field: string, repr: map<string, string> -> string): (r: Option<string>)
    ensures !FieldTruthy(Get(info, field)) ==> r == Some("")
    ensures FieldTruthy(Get(info, field)) && field !in DispatchedFields ==> r == Some(FieldText(Get(info, field), repr))
    ensures r.None? <==> FieldTruthy(Get(info, field)) && FieldText(Get(info, field), repr) != "" && field in DispatchedFields
    ensures r.Some? && r.value != "" ==> field !in DispatchedFields
  {
    var value := if FieldTruthy(Get(info, field)) then FieldText(Get(info, field), repr) else "";
    if value == "" then Some("")
    else if field in DispatchedFields then None
    else Some(value)
  }

  /** A field such as `position` is printed as it is. */
  lemma FormatFieldPassThrough(info: PersonalInfo, f: string, repr: map<string, string> -> string)
    requires "position" in info && info["position"] == Str(f)
    ensures FormatField(info, "position", repr) == Some(f)
  {
  }

  /**
   * `parse_website_info`: the display text (the address without everything
   * up to its first `"://"`) and the address itself, read from an object's
   * `url` entry when the value is an object.
   */
  function ParseWebsiteInfo(website: Field): (r: (string, string))
    ensures !FieldTruthy(website) ==> r.0 == "" && r.1 == ""
    ensures FieldTruthy(website) ==> r.1 == TextProcessing.WebsiteUrl(website) && EndsWith(r.1, r.0)
    ensures FieldTruthy(website) && !Contains(r.1, "://") ==> r.0 == r.1
  {
    if !FieldTruthy(website) then ("", "")
    else
      var url := TextProcessing.WebsiteUrl(website);
      (Substitution.StripScheme(url), url)
  }

  /** With a scheme the text is the rest of the address, the same for a string and for `{"url": ...}`. */
  lemma ParseWebsiteOfScheme(scheme: string, rest: string)
    requires ':' !in scheme && '\n' !in scheme
    ensures ParseWebsiteInfo(Str(scheme + "://" + rest)).0 == rest
    ensures ParseWebsiteInfo(Dict(map["url" := scheme + "://" + rest])).0 == rest
    ensures ParseWebsiteInfo(Dict(map["url" := scheme + "://" + rest])).1 == scheme + "://" + rest
  {
    Substitution.StripSchemeOf(scheme, rest);
    assert "url" in map["url" := scheme + "://" + rest];
  }

  /** An object without a `url` entry gives empty text and address. */
  lemma ParseWebsiteNoUrl(d: map<string, string>)
    requires d != map[] && "url" !in d
    ensures ParseWebsiteInfo(Dict(d)).0 == "" && ParseWebsiteInfo(Dict(d)).1 == ""
  {
  }

  /** The set of characters of `s`: `lstrip(s)` removes any of them. */
  function CharsOf(s: string): set<char> {
    set i | 0 <= i < |s| :: s[i]
  }

  /** `s.strip('/')`: neither end is a slash. */
  function StripSlashes(s: string): (u: string)
    ensures u == [] || (u[0] != '/' && u[|u| - 1] != '/')
  {
    var l := LStripChars(s, {'/'});
    var u := RStripChars(l, {'/'});
    assert u != [] ==> u[0] == l[0];
    u
  }

  /** The name before the final `strip('/')`: after the path segment, or without the handle prefix. */
  function SocialName(v: string, prefix: string, segment: string): string {
    if segment != "" && Contains(v, segment) then StripSlashes(LastPiece(v, segment))
    else if StartsWith(v, prefix) then LStripChars(v, CharsOf(prefix))
    else v
  }

  /** The user name `parse_social_info` extracts from a non-empty value. */
  function SocialUsername(value: string, prefix: string, segment: string): string {
    StripSlashes(SocialName(Strip(value), prefix, segment))
  }

  /**
   * `parse_social_info(value, base_url, handle_prefix, path_segment)`: the
   * handle text and the profile URL, both built on the same user name, or
   * two empty strings for an empty value. An absent `path_segment` is `""`.
   */
  function ParseSocialInfo(value: string, base: string, prefix: string, segment: string): (r: (string, string))
    ensures value == "" ==> r.0 == "" && r.1 == ""
    ensures value != "" ==> StartsWith(r.0, prefix) && StartsWith(r.1, base)
    ensures value != "" ==> r.0[|prefix|..] == r.1[|base|..] == SocialUsername(value, prefix, segment)
  {
    if value == "" then ("", "")
    else
      var u := SocialUsername(value, prefix, segment);
      assert (prefix + u)[..|prefix|] == prefix && (prefix + u)[|prefix|..] == u;
      assert (base + u)[..|base|] == base && (base + u)[|base|..] == u;
      (prefix + u, base + u)
  }

  /**
   * The value `parse_social_info` works on: a string, or an empty object
   * (which is falsy). A non-empty object has no `strip`: `None`.
   */
  function SocialValue(f: Field): (r: Option<string>)
    ensures r.None? <==> FieldTruthy(f) && f.Dict?
    ensures f.Str? ==> r == Some(f.text)
  {
    match f
    case Str(v) => Some(v)
    case Dict(d) => if d == map[] then Some("") else None
  }

  /** `value or ""`: a falsy value gives the empty string, any other value is shown. */
  function OrEmpty(f: Field, repr: map<string, string> -> string): (r: string)
    ensures !FieldTruthy(f) ==> r == ""
    ensures FieldTruthy(f) ==> r == FieldText(f, repr)
    ensures f.Str? ==> r == f.text
  {
    if FieldTruthy(f) then FieldText(f, repr) else ""
  }

  /** A user name as the profiles write it: no whitespace, slash or `@`. */
  predicate PlainUsername(u: string) {
    u != [] && forall i :: 0 <= i < |u| ==> !IsSpace(u[i]) && u[i] != '/' && u[i] != '@'
  }

  lemma PlainUsernameStrips(u: string)
    requires PlainUsername(u)
    ensures Strip(u) == u && StripSlashes(u) == u
    ensures !Contains(u, "github.com/")
  {
    StripTrimmed(u);
    forall i | 0 <= i < |u| ensures u[i] !in {'/'} {
    }
    StripCharsAbsent(u, {'/'});
    MissingChar(u, "github.com/", 10);
  }

  /** `strip()` keeps a value that starts and ends with non-space characters. */
  lemma StripOfTrimmed(x: string, u: string)
    requires PlainUsername(u) && x != [] && !IsSpace(x[0])
    ensures Strip(x + u) == x + u
  {
    assert (x + u)[0] == x[0];
    assert (x + u)[|x + u| - 1] == u[|u| - 1];
    StripTrimmed(x + u);
  }

  /** The profile URL yields the name after `github.com/`, whatever the handle prefix. */
  lemma SocialFromUrl(u: string, prefix: string)
    requires PlainUsername(u)
    ensures SocialUsername("https://github.com/" + u, prefix, "github.com/") == u
  {
    var v := "https://github.com/" + u;
    StripOfTrimmed("https://github.com/", u);
    TextProcessing.GithubUrlSegment(u);
    TextProcessing.GithubUrlLastPiece(u);
    PlainUsernameStrips(u);
  }

  /** `github.com/` is found right after the `@`. */
  lemma HandleSegmentAt(u: string)
    ensures FindFrom("@github.com/" + u, "github.com/", 0) == Some(1)
  {
    var v := "@github.com/" + u;
    assert v[1..12] == "github.com/";
    Mismatch(v, "github.com/", 0, 0);
    FindFromAt(v, "github.com/", 0, 1);
  }

  /** The path segment takes precedence: `@github.com/u` gives `u`, not `github.com/u`. */
  lemma SocialSegmentFirst(u: string)
    requires PlainUsername(u)
    ensures SocialUsername("@github.com/" + u, "@", "github.com/") == u
  {
    var v := "@github.com/" + u;
    StripOfTrimmed("@github.com/", u);
    HandleSegmentAt(u);
    PlainUsernameStrips(u);
    HandleLastPiece(u);
  }

  /** What follows the `github.com/` of `@github.com/u` is `u`. */
  lemma HandleLastPiece(u: string)
    requires '/' !in u
    ensures LastPiece("@github.com/" + u, "github.com/") == u
  {
    var v := "@github.com/" + u;
    HandleSegmentAt(u);
    MissingChar(u, "github.com/", 10);
    assert v[12..] == u;
  }

  /** The `@` handle loses its leading `@` characters. */
  lemma SocialFromHandle(u: string)
    requires PlainUsername(u)
    ensures SocialUsername("@" + u, "@", "github.com/") == u
  {
    var v := "@" + u;
    StripOfTrimmed("@", u);
    MissingChar(v, "github.com/", 10);
    assert StartsWith(v, "@") by { assert v[..1] == "@"; }
    assert CharsOf("@") == {'@'} by { assert "@"[0] == '@'; }
    assert u[0] in u;
    LStripCharsPrefix("@", u, {'@'});
    PlainUsernameStrips(u);
  }

  /** A bare name is the user name. */
  lemma SocialFromName(u: string, prefix: string)
    requires PlainUsername(u) && (prefix == "" || prefix == "@")
    ensures SocialUsername(u, prefix, "github.com/") == u
  {
    PlainUsernameStrips(u);
    if prefix == "" {
      assert CharsOf("") == {};
      assert StartsWith(u, "");
      StripCharsAbsent(u, {});
    } else {
      assert u[..1][0] == u[0] && u[0] != '@';
      assert !StartsWith(u, prefix);
    }
  }

  /**
   * A GitHub profile given as a URL, an `@` handle or a bare name gives the
   * same handle text `@u` and profile URL `https://github.com/u`.
   */
  lemma GithubSocialForms(u: string)
    requires PlainUsername(u)
    ensures ParseSocialInfo("https://github.com/" + u, "https://github.com/", "@", "github.com/") == ("@" + u, "https://github.com/" + u)
    ensures ParseSocialInfo("@" + u, "https://github.com/", "@", "github.com/") == ("@" + u, "https://github.com/" + u)
    ensures ParseSocialInfo(u, "https://github.com/", "@", "github.com/") == ("@" + u, "https://github.com/" + u)
  {
    SocialFromUrl(u, "@");
    SocialFromHandle(u);
    SocialFromName(u, "@");
  }
}
