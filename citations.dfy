/**
 * The citation text both publication renderers build for one entry
 * (aicv/renderers/publications.py and pymd.py share it line for line):
 * author-name normalisation, the author list, and the per-type templates.
 * The renderers differ only in what precedes the authors (an emoji or
 * nothing), in how a venue is emphasised, and in whether `poster` is a
 * known type.
 */
module Citations {
  import opened Strings
  import opened Records

  /** How a venue is emphasised: `<em>…</em>` in HTML output, `*…*` in Markdown output. */
  datatype Emphasis = EmTag | Asterisks

  function Emph(e: Emphasis, t: string): string {
    match e
    case EmTag => "<em>" + t + "</em>"
    case Asterisks => "*" + t + "*"
  }

  /** One author name, normalised to `"Last, F."` where the name allows it. */
  function FormatAuthor(author: string): string {
    if ',' in author then
      var k := IndexOf(author, ',');
      var last := Strip(author[..k]);
      var first := Strip(author[k + 1..]);
      if first != "" then last + ", " + [first[0]] + "." else last
    else
      var parts := Words(author);
      if |parts| >= 2 then parts[|parts| - 1] + ", " + [parts[0][0]] + "." else author
  }

  /** `"Last, First"`: the last name, then the initial of the first name. */
  lemma LastCommaFirst(last: string, first: string)
    requires ',' !in last && Strip(first) != ""
    ensures FormatAuthor(last + "," + first) == Strip(last) + ", " + [Strip(first)[0]] + "."
  {
    var a := last + "," + first;
    assert a[|last|] == ',';
    assert IndexOf(a, ',') == |last|;
    assert a[..|last|] == last;
    assert a[|last| + 1..] == first;
  }

  /** `"Last,"` with nothing but whitespace after the comma: the last name alone. */
  lemma LastCommaOnly(last: string, rest: string)
    requires ',' !in last && Strip(rest) == ""
    ensures FormatAuthor(last + "," + rest) == Strip(last)
  {
    var a := last + "," + rest;
    assert a[|last|] == ',';
    assert IndexOf(a, ',') == |last|;
    assert a[..|last|] == last;
    assert a[|last| + 1..] == rest;
  }

  /**
   * `"First Middle Last"` written with single spaces: the last token, then
   * the initial of the first.
   */
  lemma FirstLast(words: seq<string>)
    requires |words| >= 2
    requires forall i :: 0 <= i < |words| ==> words[i] != [] && ',' !in words[i]
    requires forall i :: 0 <= i < |words| ==> forall j :: 0 <= j < |words[i]| ==> !IsSpace(words[i][j])
    ensures FormatAuthor(Join(words, " ")) == words[|words| - 1] + ", " + [words[0][0]] + "."
  {
    WordsOfJoin(words);
    JoinWithoutComma(words);
  }

  lemma {:induction false} JoinWithoutComma(words: seq<string>)
    requires forall i :: 0 <= i < |words| ==> ',' !in words[i]
    ensures ',' !in Join(words, " ")
    decreases |words|
  {
    if |words| > 1 {
      JoinWithoutComma(words[1..]);
    }
  }

  /**
   * A comma-free name that splits into at most one word is kept as it is,
   * surrounding whitespace included.
   */
  lemma SingleToken(author: string)
    requires ',' !in author && |Words(author)| <= 1
    ensures FormatAuthor(author) == author
  {
  }

  /** In particular a comma-free name without any whitespace. */
  lemma UnspacedToken(author: string)
    requires ',' !in author
    requires forall j :: 0 <= j < |author| ==> !IsSpace(author[j])
    ensures FormatAuthor(author) == author
  {
    if author != [] {
      WordsOfWord(author);
    }
    SingleToken(author);
  }

  /** The authors loop: each name normalised, in order. */
  method FormatAuthors(names: seq<string>) returns (authors: seq<string>)
    ensures |authors| == |names|
    ensures forall i :: 0 <= i < |names| ==> authors[i] == FormatAuthor(names[i])
  {
    authors := [];
    for i := 0 to |names|
      invariant |authors| == i
      invariant forall j :: 0 <= j < i ==> authors[j] == FormatAuthor(names[j])
    {
      var author := names[i];
      if ',' in author {
        var k := IndexOf(author, ',');
        var lastName := Strip(author[..k]);
        var firstName := Strip(author[k + 1..]);
        if firstName != "" {
          var firstInitial := firstName[0];
          authors := authors + [lastName + ", " + [firstInitial] + "."];
        } else {
          authors := authors + [lastName];
        }
      } else {
        var parts := Words(author);
        if |parts| >= 2 {
          var lastName := parts[|parts| - 1];
          var firstInitial := parts[0][0];
          authors := authors + [lastName + ", " + [firstInitial] + "."];
        } else {
          authors := authors + [author];
        }
      }
    }
  }

  /** Every author name normalised, in order. */
  function FormatAll(names: seq<string>): (r: seq<string>)
    ensures |r| == |names|
  {
    seq(|names|, i requires 0 <= i < |names| => FormatAuthor(names[i]))
  }

  /** The `authors_text` of a list of normalised names. */
  function JoinAuthors(authors: seq<string>): string {
    if |authors| > 1 then Join(authors[..|authors| - 1], ", ") + ", & " + authors[|authors| - 1]
    else if |authors| == 1 then authors[0]
    else ""
  }

  /**
   * With more than one author the text is the `", "`-separated list in
   * which the last name carries a leading `"& "`; one author is itself; no
   * author is the empty text.
   */
  lemma JoinAuthorsList(authors: seq<string>)
    ensures |authors| > 1 ==>
      JoinAuthors(authors) == Join(authors[..|authors| - 1] + ["& " + authors[|authors| - 1]], ", ")
    ensures |authors| == 1 ==> JoinAuthors(authors) == authors[0]
    ensures |authors| == 0 ==> JoinAuthors(authors) == ""
  {
    if |authors| > 1 {
      var last := "& " + authors[|authors| - 1];
      JoinSnoc(authors[..|authors| - 1], last, ", ");
      assert ", " + last == ", & " + authors[|authors| - 1];
      Assoc(Join(authors[..|authors| - 1], ", "), ", ", last);
    }
  }

  /** `" {before}{value}{after}"` when the key is present (`'k' in pub`), else nothing. */
  function IfPresent(o: Option<string>, before: string, after: string): string {
    if o.Some? then before + o.value + after else ""
  }

  /** The same when the value is also truthy (`'k' in pub and pub['k']`). */
  function IfTruthy(o: Option<string>, before: string, after: string): string {
    if Truthy(o) then before + o.value + after else ""
  }

  /** What an `article` adds after its title. */
  function ArticleTail(p: Publication, e: Emphasis): string {
    if p.journal.Some? then Emph(e, p.journal.value) + ArticleDetails(p) else "."
  }

  /** What follows the journal: volume, number, pages, the closing period, the publisher. */
  function ArticleDetails(p: Publication): string {
    IfPresent(p.volume, ", ", "") + IfPresent(p.number, "(", ")") + IfTruthy(p.pages, ", ", "")
    + "." + IfTruthy(p.publisher, " ", ".")
  }

  /**
   * What an entry with a `booktitle` venue adds after its title: the
   * venue after `intro`, then its details.
   */
  function VenueTail(p: Publication, e: Emphasis, intro: string, pagesLabel: string, extra: Option<string>): string {
    if p.booktitle.Some? then intro + Emph(e, p.booktitle.value) + VenueDetails(p, pagesLabel, extra) else "."
  }

  /** What follows the venue: the pages after `pagesLabel`, the closing period, then `extra`. */
  function VenueDetails(p: Publication, pagesLabel: string, extra: Option<string>): string {
    IfTruthy(p.pages, pagesLabel, "") + "." + IfTruthy(extra, " ", ".")
  }

  /** `pub.get('citations', 0)` */
  function CitationsKey(p: Publication): int {
    GetOr(p.citations, 0)
  }

  /** `pub.get('type', 'article')` */
  function PubType(p: Publication): string {
    GetOr(p.pubType, "article")
  }

  /** The types with a template; `poster` is one only when `withPoster`. */
  predicate KnownType(t: string, withPoster: bool) {
    t == "article" || t == "inproceedings" || t == "inbook" || (withPoster && t == "poster")
  }

  /** The tail of the template of a known type. */
  function Tail(p: Publication, e: Emphasis, withPoster: bool): string
    requires KnownType(PubType(p), withPoster)
  {
    var t := PubType(p);
    if t == "article" then ArticleTail(p, e)
    else if t == "inproceedings" then VenueTail(p, e, "In ", ", pp. ", p.organization)
    else if t == "inbook" then VenueTail(p, e, "In ", ", pp. ", p.note)
    else VenueTail(p, e, "Poster presented at ", ", p. ", p.note)
  }

  /** `"{prefix}{authors} ({year}). {title}. "`; `year` is read before `title`. */
  function Lead(prefix: string, authorsText: string, p: Publication): Result<string> {
    if p.year.None? then Err("year")
    else if p.title.None? then Err("title")
    else Ok(prefix + authorsText + " (" + IntToString(p.year.value) + "). " + p.title.value + ". ")
  }

  /** The citation text before any citation count: empty for a type without a template. */
  function Body(prefix: string, authorsText: string, p: Publication, e: Emphasis, withPoster: bool): Result<string> {
    if !KnownType(PubType(p), withPoster) then Ok("")
    else
      match Lead(prefix, authorsText, p)
      case Err(k) => Err(k)
      case Ok(l) => Ok(l + Tail(p, e, withPoster))
  }

  /** `" (Cited {n} times)"` */
  function CitedSuffix(n: int): string {
    " (Cited " + IntToString(n) + " times)"
  }

  /** The template branches of the loop body, `citation +=` by `citation +=`. */
  method BuildBody(prefix: string, authorsText: string, p: Publication, e: Emphasis, withPoster: bool)
    returns (r: Result<string>)
    ensures r == Body(prefix, authorsText, p, e, withPoster)
  {
    var pubType := PubType(p);
    if !KnownType(pubType, withPoster) {
      return Ok("");
    }
    if p.year.None? {
      return Err("year");
    }
    if p.title.None? {
      return Err("title");
    }
    var citation := prefix + authorsText + " (" + IntToString(p.year.value) + "). " + p.title.value + ". ";
    var tail: string;
    if pubType == "article" {
      tail := BuildArticleTail(p, e);
    } else if pubType == "inproceedings" {
      tail := BuildVenueTail(p, e, "In ", ", pp. ", p.organization);
    } else if pubType == "inbook" {
      tail := BuildVenueTail(p, e, "In ", ", pp. ", p.note);
    } else {
      tail := BuildVenueTail(p, e, "Poster presented at ", ", p. ", p.note);
    }
    citation := citation + tail;
    return Ok(citation);
  }

  method BuildArticleTail(p: Publication, e: Emphasis) returns (citation: string)
    ensures citation == ArticleTail(p, e)
  {
    citation := "";
    if p.journal.Some? {
      citation := citation + Emph(e, p.journal.value);
      var volume := "";
      if p.volume.Some? {
        volume := ", " + p.volume.value;
      }
      assert volume == IfPresent(p.volume, ", ", "");
      var number := "";
      if p.number.Some? {
        number := "(" + p.number.value + ")";
      }
      assert number == IfPresent(p.number, "(", ")");
      var pages := "";
      if p.pages.Some? && p.pages.value != "" {
        pages := ", " + p.pages.value;
      }
      assert pages == IfTruthy(p.pages, ", ", "");
      var publisher := "";
      if p.publisher.Some? && p.publisher.value != "" {
        publisher := " " + p.publisher.value + ".";
      }
      assert publisher == IfTruthy(p.publisher, " ", ".");
      var details := volume + number + pages + "." + publisher;
      citation := citation + details;
    } else {
      citation := citation + ".";
    }
  }

  method BuildVenueTail(p: Publication, e: Emphasis, intro: string, pagesLabel: string, extra: Option<string>)
    returns (citation: string)
    ensures citation == VenueTail(p, e, intro, pagesLabel, extra)
  {
    citation := "";
    if p.booktitle.Some? {
      citation := citation + intro + Emph(e, p.booktitle.value);
      var pages := "";
      if p.pages.Some? && p.pages.value != "" {
        pages := pagesLabel + p.pages.value;
      }
      assert pages == IfTruthy(p.pages, pagesLabel, "");
      var more := "";
      if extra.Some? && extra.value != "" {
        more := " " + extra.value + ".";
      }
      assert more == IfTruthy(extra, " ", ".");
      var details := pages + "." + more;
      assert "" + intro == intro;
      citation := citation + details;
    } else {
      citation := citation + ".";
    }
  }

  /** A type without a template gives an empty citation body, whatever else the entry holds. */
  lemma UnknownTypeEmpty(prefix: string, authorsText: string, p: Publication, e: Emphasis, withPoster: bool)
    requires !KnownType(PubType(p), withPoster)
    ensures Body(prefix, authorsText, p, e, withPoster) == Ok("")
  {
  }

  /** `type` defaults to `article`. */
  lemma DefaultType(p: Publication, withPoster: bool)
    requires p.pubType.None?
    ensures KnownType(PubType(p), withPoster) && Tail(p, Asterisks, withPoster) == ArticleTail(p, Asterisks)
  {
  }

  /**
   * The body fails exactly when the type has a template and `year` or
   * `title` is missing; `year` is reported first.
   */
  lemma BodyErrors(prefix: string, authorsText: string, p: Publication, e: Emphasis, withPoster: bool)
    ensures Body(prefix, authorsText, p, e, withPoster).Err? <==>
      KnownType(PubType(p), withPoster) && (p.year.None? || p.title.None?)
    ensures Body(prefix, authorsText, p, e, withPoster).Err? ==>
      Body(prefix, authorsText, p, e, withPoster).missing == (if p.year.None? then "year" else "title")
  {
  }

  /** The venue of an entry of a known type. */
  function Venue(p: Publication): Option<string> {
    if PubType(p) == "article" then p.journal else p.booktitle
  }

  /**
   * HTML and Markdown output differ only in the emphasis around the venue:
   * the same text with `<em>v</em>` in one place and `*v*` in the other.
   */
  lemma EmphasisOnlyDiffers(prefix: string, authorsText: string, p: Publication, withPoster: bool)
    requires KnownType(PubType(p), withPoster) && Lead(prefix, authorsText, p).Ok?
    requires Venue(p).Some?
    ensures exists x, y ::
      Body(prefix, authorsText, p, EmTag, withPoster) == Ok(x + "<em>" + Venue(p).value + "</em>" + y)
      && Body(prefix, authorsText, p, Asterisks, withPoster) == Ok(x + "*" + Venue(p).value + "*" + y)
  {
    var l := Lead(prefix, authorsText, p).value;
    var v := Venue(p).value;
    var a, b := TailAroundVenue(p, withPoster);
    EmphasisSplice(l, a, v, b);
    assert Body(prefix, authorsText, p, EmTag, withPoster) == Ok((l + a) + "<em>" + v + "</em>" + b);
    assert Body(prefix, authorsText, p, Asterisks, withPoster) == Ok((l + a) + "*" + v + "*" + b);
  }

  /** The venue's emphasis is the only part of the tail that depends on the emphasis. */
  lemma TailAroundVenue(p: Publication, withPoster: bool) returns (a: string, b: string)
    requires KnownType(PubType(p), withPoster) && Venue(p).Some?
    ensures Tail(p, EmTag, withPoster) == a + Emph(EmTag, Venue(p).value) + b
    ensures Tail(p, Asterisks, withPoster) == a + Emph(Asterisks, Venue(p).value) + b
  {
    var t := PubType(p);
    if t == "article" {
      a, b := "", ArticleDetails(p);
      assert "" + Emph(EmTag, p.journal.value) == Emph(EmTag, p.journal.value);
      assert "" + Emph(Asterisks, p.journal.value) == Emph(Asterisks, p.journal.value);
    } else {
      var intro := if t == "inproceedings" || t == "inbook" then "In " else "Poster presented at ";
      var pagesLabel := if t == "inproceedings" || t == "inbook" then ", pp. " else ", p. ";
      var extra := if t == "inproceedings" then p.organization else p.note;
      a, b := intro, VenueDetails(p, pagesLabel, extra);
      assert Tail(p, EmTag, withPoster) == VenueTail(p, EmTag, intro, pagesLabel, extra);
      assert Tail(p, Asterisks, withPoster) == VenueTail(p, Asterisks, intro, pagesLabel, extra);
    }
  }

  lemma EmphasisSplice(l: string, intro: string, v: string, y: string)
    ensures l + (intro + Emph(EmTag, v) + y) == (l + intro) + "<em>" + v + "</em>" + y
    ensures l + (intro + Emph(Asterisks, v) + y) == (l + intro) + "*" + v + "*" + y
  {
  }
}
