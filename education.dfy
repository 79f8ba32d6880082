/**
 * `render_education` (aicv/renderers/education.py): the Markdown for an
 * `education` list, one block per entry, under a fixed heading.
 */
module EducationRenderer {
  import opened Strings
  import opened Records

  const Header: string := "## Education\n"

  function DissertationLine(e: Education): string {
    if e.dissertation.Some? then "- **Dissertation:** " + e.dissertation.value + "\n" else ""
  }

  function FocusAreasLine(e: Education): string {
    if e.focusAreas.Some? then "- **Focus Areas:** " + Join(e.focusAreas.value, ", ") + "\n" else ""
  }

  /** The four lines every entry has: heading, dates, institution, location. */
  function RequiredLines(degree: string, dates: string, institution: string, location: string): string {
    "## " + degree + "\n"
    + "<p><em>" + dates + "</em></p>\n\n"
    + "- **Institution:** " + institution + "\n"
    + "- **Location:** " + location + "\n"
  }

  /** The block for one entry, or the `KeyError` of the first required key it lacks. */
  function EntryMarkdown(e: Education): Result<string> {
    if e.degree.None? then Err("degree")
    else if e.dates.None? then Err("dates")
    else if e.institution.None? then Err("institution")
    else if e.location.None? then Err("location")
    else
      Ok(RequiredLines(e.degree.value, e.dates.value, e.institution.value, e.location.value)
         + DissertationLine(e)
         + FocusAreasLine(e)
         + "\n")
  }

  /** What `render_education(education)` returns. */
  function EducationMarkdown(education: seq<Education>): Result<string> {
    PrefixWith(Header, ConcatMap(education, EntryMarkdown))
  }

  /** `render_education`, statement for statement. */
  method RenderEducation(education: seq<Education>) returns (r: Result<string>)
    ensures r == EducationMarkdown(education)
  {
    var md := Header;
    var i := 0;
    assert Header + "" == Header;
    while i < |education|
      invariant 0 <= i <= |education|
      invariant PrefixWith(Header, ConcatMap(education[..i], EntryMarkdown)) == Ok(md)
    {
      var edu := education[i];
      if edu.degree.None? || edu.dates.None? || edu.institution.None? || edu.location.None? {
        ConcatMapStepErr(education, EntryMarkdown, i);
        return Err(EntryMarkdown(edu).missing);
      }
      var entry := "## " + edu.degree.value + "\n";
      entry := entry + "<p><em>" + edu.dates.value + "</em></p>\n\n";
      entry := entry + "- **Institution:** " + edu.institution.value + "\n";
      entry := entry + "- **Location:** " + edu.location.value + "\n";
      assert entry == RequiredLines(edu.degree.value, edu.dates.value, edu.institution.value, edu.location.value);
      var dissertation := "";
      if edu.dissertation.Some? {
        dissertation := "- **Dissertation:** " + edu.dissertation.value + "\n";
      }
      var focusAreas := "";
      if edu.focusAreas.Some? {
        focusAreas := "- **Focus Areas:** " + Join(edu.focusAreas.value, ", ") + "\n";
      }
      entry := entry + dissertation + focusAreas + "\n";
      assert entry == EntryMarkdown(edu).value;
      PrefixStep(Header, education, EntryMarkdown, i, md);
      md := md + entry;
      i := i + 1;
    }
    assert education[..i] == education;
    return Ok(md);
  }

  /** An empty list still gets the heading. */
  lemma EmptyList()
    ensures EducationMarkdown([]) == Ok(Header)
  {
    assert Header + "" == Header;
  }

  /** Every rendering starts with the heading. */
  lemma StartsWithHeader(education: seq<Education>)
    requires EducationMarkdown(education).Ok?
    ensures StartsWith(EducationMarkdown(education).value, Header)
  {
    assert EducationMarkdown(education).value[..|Header|] == Header;
  }

  /** Entries are rendered one after the other, in input order. */
  lemma InputOrder(xs: seq<Education>, e: Education)
    requires EducationMarkdown(xs).Ok? && EntryMarkdown(e).Ok?
    ensures EducationMarkdown(xs + [e]) == Ok(EducationMarkdown(xs).value + EntryMarkdown(e).value)
  {
    ConcatMapAppend(xs, [e], EntryMarkdown);
    assert [e][..0] == [];
    var body := ConcatMap(xs, EntryMarkdown).value;
    var t := EntryMarkdown(e).value;
    assert ConcatMap([e], EntryMarkdown) == Ok("" + t);
    assert "" + t == t;
    Assoc(Header, body, t);
  }

  /** The list renders exactly when every entry has a degree, dates, an institution and a location. */
  lemma RendersIff(education: seq<Education>)
    ensures EducationMarkdown(education).Ok? <==>
            forall i :: 0 <= i < |education| ==>
              education[i].degree.Some? && education[i].dates.Some?
              && education[i].institution.Some? && education[i].location.Some?
  {
    ConcatMapOk(education, EntryMarkdown);
  }

  /** The keys are read in the order degree, dates, institution, location. */
  lemma MissingKeyOrder(e: Education)
    ensures e.degree.None? ==> EntryMarkdown(e) == Err("degree")
    ensures e.degree.Some? && e.dates.None? ==> EntryMarkdown(e) == Err("dates")
    ensures e.degree.Some? && e.dates.Some? && e.institution.None? ==> EntryMarkdown(e) == Err("institution")
    ensures e.degree.Some? && e.dates.Some? && e.institution.Some? && e.location.None? ==> EntryMarkdown(e) == Err("location")
  {
  }

  /**
   * The dissertation line is there only when the key is: adding the key
   * inserts exactly that line and changes nothing else.
   */
  lemma DissertationOptional(e: Education, d: string)
    requires e.dissertation.None? && EntryMarkdown(e).Ok?
    ensures exists x, y ::
      EntryMarkdown(e).value == x + y
      && EntryMarkdown(e.(dissertation := Some(d))).value == x + ("- **Dissertation:** " + d + "\n") + y
  {
    var e2 := e.(dissertation := Some(d));
    var x := RequiredLines(e.degree.value, e.dates.value, e.institution.value, e.location.value);
    var y := FocusAreasLine(e) + "\n";
    assert FocusAreasLine(e2) == FocusAreasLine(e);
    var l := "- **Dissertation:** " + d + "\n";
    assert DissertationLine(e2) == l;
    assert EntryMarkdown(e).value == x + "" + FocusAreasLine(e) + "\n";
    assert EntryMarkdown(e).value == x + y;
    assert EntryMarkdown(e2).value == x + l + FocusAreasLine(e) + "\n";
    assert EntryMarkdown(e2).value == x + l + y;
  }

  /** The focus-areas line is there only when the key is, with the areas joined by `", "`. */
  lemma FocusAreasOptional(e: Education, areas: seq<string>)
    requires e.focusAreas.None? && EntryMarkdown(e).Ok?
    ensures exists x ::
      EntryMarkdown(e).value == x + "\n"
      && EntryMarkdown(e.(focusAreas := Some(areas))).value == x + ("- **Focus Areas:** " + Join(areas, ", ") + "\n") + "\n"
  {
    var e2 := e.(focusAreas := Some(areas));
    var x := RequiredLines(e.degree.value, e.dates.value, e.institution.value, e.location.value)
         + DissertationLine(e);
    assert DissertationLine(e2) == DissertationLine(e);
    assert EntryMarkdown(e).value == x + "" + "\n";
    assert EntryMarkdown(e).value == x + "\n";
    var l := "- **Focus Areas:** " + Join(areas, ", ") + "\n";
    assert FocusAreasLine(e2) == l;
    assert EntryMarkdown(e2).value == x + l + "\n";
  }
}
