/**
 * `render_publications` (aicv/renderers/publications.py): the "to appear"
 * entries first, newest first, then the others by citation count, each as
 * a citation led by a status emoji, in an HTML list or as Markdown lines.
 */
module PublicationsRenderer {
  import opened Strings
  import opened Records
  import opened Sorting
  import opened Citations

  /*
   * The emoji literals of the source file are UTF-8 bytes read back as
   * Windows-1252 text; they are kept here code point for code point.
   */
  const Fire: string := "\U{f0}\U{178}\U{201d}\U{a5}"
  const GlowingStar: string := "\U{f0}\U{178}\U{152}\U{178}"
  const Star: string := "\U{e2}\U{ad}"
  const BarChart: string := "\U{f0}\U{178}\U{201c}\U{160}"
  const PageFacingUp: string := "\U{f0}\U{178}\U{201c}\U{201e}"

  const ListOpen: string := "<ul class=\"publications-list\">"
  const ListClose: string := "</ul>"

  /** A `note` that is present, non-empty and mentions "to appear" in any letter case. */
  predicate IsToAppear(p: Publication) {
    Truthy(p.note) && Contains(Lower(p.note.value), "to appear")
  }

  predicate IsRegular(p: Publication) {
    !IsToAppear(p)
  }

  /** `pub.get('year', 0)` */
  function YearKey(p: Publication): int {
    GetOr(p.year, 0)
  }

  /** `sorted_publications`: the "to appear" group sorted by year, then the rest sorted by citations. */
  function Ordered(publications: seq<Publication>): seq<Publication> {
    SortDesc(Filter(publications, IsToAppear), YearKey) + SortDesc(Filter(publications, IsRegular), CitationsKey)
  }

  /**
   * The emoji of a regular entry, by citation count: each of the four tiers
   * is given exactly on its own range of counts, bounded by strict `>` tests.
   */
  function TierEmoji(count: int): (r: string)
    ensures r == GlowingStar <==> count > 30
    ensures r == Star <==> 15 < count <= 30
    ensures r == BarChart <==> 5 < count <= 15
    ensures r == PageFacingUp <==> count <= 5
  {
    if count > 30 then GlowingStar
    else if count > 15 then Star
    else if count > 5 then BarChart
    else PageFacingUp
  }

  function CitationEmoji(p: Publication): string {
    if IsToAppear(p) then Fire else TierEmoji(CitationsKey(p))
  }

  /** The citation count, for a regular entry with a positive `citations`. */
  function CountSuffix(p: Publication): string {
    if !IsToAppear(p) && p.citations.Some? && p.citations.value > 0 then CitedSuffix(p.citations.value) else ""
  }

  /** The `citation` of one entry; `author` is read for every type. */
  function Citation(p: Publication, e: Emphasis): Result<string> {
    if p.author.None? then Err("author")
    else
      match Body(CitationEmoji(p) + " ", JoinAuthors(FormatAll(p.author.value)), p, e, true)
      case Err(k) => Err(k)
      case Ok(b) => Ok(b + CountSuffix(p))
  }

  function HtmlItem(p: Publication): Result<string> {
    match Citation(p, EmTag)
    case Err(k) => Err(k)
    case Ok(c) => Ok("<li>" + c + "</li>")
  }

  function MarkdownItem(p: Publication): Result<string> {
    match Citation(p, Asterisks)
    case Err(k) => Err(k)
    case Ok(c) => Ok("- " + c + "\n")
  }

  /** What `render_publications(publications, backend)` returns. */
  function PublicationsOutput(publications: seq<Publication>, backend: string): Result<string> {
    var ordered := Ordered(publications);
    if backend == "html" then
      match ConcatMap(ordered, HtmlItem)
      case Err(k) => Err(k)
      case Ok(s) => Ok(ListOpen + s + ListClose)
    else ConcatMap(ordered, MarkdownItem)
  }

  /** The loop body that computes one `citation`. */
  method RenderCitation(pub: Publication, e: Emphasis) returns (r: Result<string>)
    ensures r == Citation(pub, e)
  {
    var isToAppear := pub.note.Some? && pub.note.value != "" && Contains(Lower(pub.note.value), "to appear");
    var citationEmoji: string;
    if isToAppear {
      citationEmoji := Fire;
    } else {
      var citationCount := GetOr(pub.citations, 0);
      if citationCount > 30 {
        citationEmoji := GlowingStar;
      } else if citationCount > 15 {
        citationEmoji := Star;
      } else if citationCount > 5 {
        citationEmoji := BarChart;
      } else {
        citationEmoji := PageFacingUp;
      }
    }
    assert citationEmoji == CitationEmoji(pub);
    if pub.author.None? {
      return Err("author");
    }
    var authors := FormatAuthors(pub.author.value);
    assert authors == FormatAll(pub.author.value);
    var authorsText := JoinAuthors(authors);
    var citation := BuildBody(citationEmoji + " ", authorsText, pub, e, true);
    if citation.Err? {
      return citation;
    }
    var suffix := "";
    if !isToAppear && pub.citations.Some? && pub.citations.value > 0 {
      suffix := CitedSuffix(pub.citations.value);
    }
    return Ok(citation.value + suffix);
  }

  /** The partition loop: each entry goes to one of two lists, in input order. */
  method Partition(publications: seq<Publication>) returns (toAppear: seq<Publication>, regular: seq<Publication>)
    ensures toAppear == Filter(publications, IsToAppear)
    ensures regular == Filter(publications, IsRegular)
  {
    toAppear := [];
    regular := [];
    for i := 0 to |publications|
      invariant toAppear == Filter(publications[..i], IsToAppear)
      invariant regular == Filter(publications[..i], IsRegular)
    {
      var pub := publications[i];
      var isToAppear := false;
      if pub.note.Some? && pub.note.value != "" && Contains(Lower(pub.note.value), "to appear") {
        isToAppear := true;
      }
      assert publications[..i + 1] == publications[..i] + [pub];
      FilterSnoc(publications[..i], pub, IsToAppear);
      FilterSnoc(publications[..i], pub, IsRegular);
      if isToAppear {
        toAppear := toAppear + [pub];
      } else {
        regular := regular + [pub];
      }
    }
    assert publications[..|publications|] == publications;
  }

  /** `render_publications`, loop for loop. */
  method RenderPublications(publications: seq<Publication>, backend: string) returns (r: Result<string>)
    ensures r == PublicationsOutput(publications, backend)
  {
    var toAppear, regular := Partition(publications);
    var sortedPublications := SortDesc(toAppear, YearKey) + SortDesc(regular, CitationsKey);
    if backend == "html" {
      var items := RenderItems(sortedPublications, EmTag);
      assert Item(EmTag) == HtmlItem;
      if items.Err? {
        return Err(items.missing);
      }
      var html := ListOpen + items.value;
      html := html + ListClose;
      return Ok(html);
    } else {
      r := RenderItems(sortedPublications, Asterisks);
      assert Item(Asterisks) == MarkdownItem;
    }
  }

  /** The list item of one entry in the output for emphasis `e`. */
  function Item(e: Emphasis): Publication -> Result<string> {
    match e
    case EmTag => HtmlItem
    case Asterisks => MarkdownItem
  }

  /** The loop over the sorted entries: `<li>…</li>` or `- …\n` per entry. */
  method RenderItems(sortedPublications: seq<Publication>, e: Emphasis) returns (r: Result<string>)
    ensures r == ConcatMap(sortedPublications, Item(e))
  {
    var out := "";
    for i := 0 to |sortedPublications|
      invariant ConcatMap(sortedPublications[..i], Item(e)) == Ok(out)
    {
      var pub := sortedPublications[i];
      var citation := RenderCitation(pub, e);
      if citation.Err? {
        ConcatMapStepErr(sortedPublications, Item(e), i);
        return Err(citation.missing);
      }
      var item: string;
      if e == EmTag {
        item := "<li>" + citation.value + "</li>";
      } else {
        item := "- " + citation.value + "\n";
      }
      assert Item(e)(pub) == Ok(item);
      ConcatMapStep(sortedPublications, Item(e), i);
      out := out + item;
    }
    assert sortedPublications[..|sortedPublications|] == sortedPublications;
    return Ok(out);
  }

  /** The output lists every entry exactly once. */
  lemma OrderedPermutation(publications: seq<Publication>)
    ensures multiset(Ordered(publications)) == multiset(publications)
  {
    SortDescPermutation(Filter(publications, IsToAppear), YearKey);
    SortDescPermutation(Filter(publications, IsRegular), CitationsKey);
    FilterComplement(publications, IsToAppear, IsRegular);
  }

  /** Every "to appear" entry comes before every other entry. */
  lemma ToAppearFirst(publications: seq<Publication>)
    ensures forall i :: 0 <= i < |Filter(publications, IsToAppear)| ==> IsToAppear(Ordered(publications)[i])
    ensures forall i :: |Filter(publications, IsToAppear)| <= i < |Ordered(publications)| ==> !IsToAppear(Ordered(publications)[i])
  {
    var a := Filter(publications, IsToAppear);
    var b := Filter(publications, IsRegular);
    var sa := SortDesc(a, YearKey);
    var sb := SortDesc(b, CitationsKey);
    SortDescMembers(a, YearKey);
    SortDescMembers(b, CitationsKey);
    var o := Ordered(publications);
    forall i | 0 <= i < |a| ensures IsToAppear(o[i]) {
      assert o[i] == sa[i] && sa[i] in sa;
      var m :| 0 <= m < |a| && a[m] == sa[i];
    }
    forall i | |a| <= i < |o| ensures !IsToAppear(o[i]) {
      assert o[i] == sb[i - |a|] && sb[i - |a|] in sb;
      var m :| 0 <= m < |b| && b[m] == sb[i - |a|];
    }
  }

  /**
   * Within each group the order is non-increasing (years in the first,
   * citation counts in the second) and entries with equal keys keep their
   * input order.
   */
  lemma GroupsSortedAndStable(publications: seq<Publication>, k: int)
    ensures var sa := SortDesc(Filter(publications, IsToAppear), YearKey);
      var sb := SortDesc(Filter(publications, IsRegular), CitationsKey);
      Ordered(publications) == sa + sb
      && SortedDesc(sa, YearKey) && SortedDesc(sb, CitationsKey)
      && WithKey(sa, YearKey, k) == WithKey(Filter(publications, IsToAppear), YearKey, k)
      && WithKey(sb, CitationsKey, k) == WithKey(Filter(publications, IsRegular), CitationsKey, k)
  {
    SortDescSorted(Filter(publications, IsToAppear), YearKey);
    SortDescSorted(Filter(publications, IsRegular), CitationsKey);
    SortDescStable(Filter(publications, IsToAppear), YearKey, k);
    SortDescStable(Filter(publications, IsRegular), CitationsKey, k);
  }

  /** "To appear" entries always get the fire; the other tiers are strict. */
  lemma EmojiTiers(p: Publication)
    ensures IsToAppear(p) ==> CitationEmoji(p) == Fire
    ensures !IsToAppear(p) && CitationsKey(p) > 30 ==> CitationEmoji(p) == GlowingStar
    ensures !IsToAppear(p) && 15 < CitationsKey(p) <= 30 ==> CitationEmoji(p) == Star
    ensures !IsToAppear(p) && 5 < CitationsKey(p) <= 15 ==> CitationEmoji(p) == BarChart
    ensures !IsToAppear(p) && CitationsKey(p) <= 5 ==> CitationEmoji(p) == PageFacingUp
  {
  }

  /** The thresholds themselves fall into the lower tier. */
  lemma TierBoundaries()
    ensures TierEmoji(31) == GlowingStar && TierEmoji(30) == Star
    ensures TierEmoji(16) == Star && TierEmoji(15) == BarChart
    ensures TierEmoji(6) == BarChart && TierEmoji(5) == PageFacingUp
  {
  }

  /** The count is shown exactly for regular entries with a positive `citations`. */
  lemma CountShownIff(p: Publication)
    ensures CountSuffix(p) != "" <==> !IsToAppear(p) && p.citations.Some? && p.citations.value > 0
    ensures CountSuffix(p) != "" ==> CountSuffix(p) == " (Cited " + IntToString(p.citations.value) + " times)"
  {
  }

  /**
   * An entry whose type has no template renders as its citation count
   * alone: no emoji, no authors, no title; it still needs `author`.
   */
  lemma UnknownTypeCitation(p: Publication, e: Emphasis)
    requires !KnownType(PubType(p), true)
    ensures p.author.None? ==> Citation(p, e) == Err("author")
    ensures p.author.Some? ==> Citation(p, e) == Ok(CountSuffix(p))
  {
    if p.author.Some? {
      assert "" + CountSuffix(p) == CountSuffix(p);
    }
  }

  /** An entry renders exactly when it has `author` and, for a type with a template, `year` and `title`. */
  predicate Renderable(p: Publication) {
    p.author.Some? && (KnownType(PubType(p), true) ==> p.year.Some? && p.title.Some?)
  }

  lemma CitationOk(p: Publication, e: Emphasis)
    ensures Citation(p, e).Ok? <==> Renderable(p)
  {
    BodyErrors(CitationEmoji(p) + " ", if p.author.Some? then JoinAuthors(FormatAll(p.author.value)) else "", p, e, true);
  }

  /** The whole list renders, for either backend, exactly when every entry does; a missing `author` always raises. */
  lemma RendersIff(publications: seq<Publication>, backend: string)
    ensures PublicationsOutput(publications, backend).Ok? <==>
      forall i :: 0 <= i < |publications| ==> Renderable(publications[i])
  {
    OrderedPermutation(publications);
    forall p ensures HtmlItem(p).Ok? <==> Renderable(p) {
      CitationOk(p, EmTag);
    }
    forall p ensures MarkdownItem(p).Ok? <==> Renderable(p) {
      CitationOk(p, Asterisks);
    }
    if backend == "html" {
      ConcatMapOkPermutation(Ordered(publications), publications, HtmlItem);
    } else {
      ConcatMapOkPermutation(Ordered(publications), publications, MarkdownItem);
    }
  }

  /** HTML output is the list element around one `<li>` per entry, in output order. */
  lemma HtmlShape(publications: seq<Publication>)
    requires PublicationsOutput(publications, "html").Ok?
    ensures var out := PublicationsOutput(publications, "html").value;
      StartsWith(out, ListOpen) && EndsWith(out, ListClose)
      && out == ListOpen + ConcatMap(Ordered(publications), HtmlItem).value + ListClose
  {
    var out := PublicationsOutput(publications, "html").value;
    var s := ConcatMap(Ordered(publications), HtmlItem).value;
    assert out == ListOpen + s + ListClose;
    assert out[..|ListOpen|] == ListOpen;
    assert out[|out| - |ListClose|..] == ListClose;
  }
}
