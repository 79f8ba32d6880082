/**
 * The text steps of the PDF converters (aicv/utils/pdf_converter.py):
 * making the HTML ready for applicant tracking systems (a style sheet in
 * the head and an invisible JSON overlay after the body tag), the default
 * name of the PDF file, and the page-number style inserted into every style
 * sheet. Rendering the PDF and the file system are not modelled; the fixed
 * CSS and markup are parameters, and `json.dumps` is the parameter `dumps`.
 */
module PdfConverter {
  import opened Strings

  // ---------------------------------------------------------------------
  // create_ats_json_overlay

  const StartMarker := "ATS_DATA_START"
  const EndMarker := "ATS_DATA_END"

  /** The line break and indentation between each marker and the JSON. */
  const Gap := "\n            "

  /** The fixed markup of the overlay: the invisible block before the start marker and its end after the end marker. */
  datatype OverlayFrame = OverlayFrame(open: string, close: string)

  /**
   * `create_ats_json_overlay`: the JSON text of the three lists between the
   * two markers, inside the invisible block.
   */
  function Overlay(json: string, frame: OverlayFrame): (r: string)
    ensures OccursAt(r, StartMarker, |frame.open|)
    ensures OccursAt(r, json, |frame.open| + |StartMarker| + |Gap|)
    ensures OccursAt(r, EndMarker, |frame.open| + |StartMarker| + |Gap| + |json| + |Gap|)
  {
    var r := frame.open + StartMarker + Gap + json + Gap + EndMarker + frame.close;
    var k := |frame.open| + |StartMarker| + |Gap|;
    assert r[|frame.open|..|frame.open| + |StartMarker|] == StartMarker;
    assert r[k..k + |json|] == json;
    assert r[k + |json| + |Gap|..k + |json| + |Gap| + |EndMarker|] == EndMarker;
    r
  }

  /** The markers come in order, the JSON between them. */
  lemma OverlayOrder(json: string, frame: OverlayFrame)
    ensures var r := Overlay(json, frame);
      exists i, j, k :: i + |StartMarker| <= j && j + |json| <= k &&
        OccursAt(r, StartMarker, i) && OccursAt(r, json, j) && OccursAt(r, EndMarker, k)
  {
    var i := |frame.open|;
    var j := i + |StartMarker| + |Gap|;
    var k := j + |json| + |Gap|;
    assert OccursAt(Overlay(json, frame), StartMarker, i) && OccursAt(Overlay(json, frame), json, j);
    assert OccursAt(Overlay(json, frame), EndMarker, k);
  }

  // ---------------------------------------------------------------------
  // modify_html_for_ats_compatibility

  /** An optional data argument: `None` or a list. */
  predicate Truthy<T>(d: Option<seq<T>>) {
    d.Some? && d.value != []
  }

  /** `data or []` */
  function OrEmpty<T>(d: Option<seq<T>>): (r: seq<T>)
    ensures Truthy(d) ==> r == d.value
    ensures !Truthy(d) ==> r == []
  {
    if Truthy(d) then d.value else []
  }

  /**
   * The style sheet goes before every `</head>`, or into a new head in front
   * of the page, which then follows unchanged.
   */
  function InsertCss(html: string, css: string): (r: string)
    ensures Contains(html, "</head>") ==> Contains(r, css + "\n</head>")
    ensures !Contains(html, "</head>") ==> StartsWith(r, "<head>" + css + "</head>") && EndsWith(r, html)
  {
    ReplaceAllIntroduces(html, "</head>", css + "\n</head>");
    if Contains(html, "</head>") then ReplaceAll(html, "</head>", css + "\n</head>")
    else "<head>" + css + "</head>" + html
  }

  /**
   * The overlay goes after every `<body>`, or in front of the page with a
   * newline, the page then following unchanged.
   */
  function InsertOverlay(html: string, overlay: string): (r: string)
    ensures Contains(html, "<body>") ==> Contains(r, "<body>\n" + overlay)
    ensures !Contains(html, "<body>") ==> StartsWith(r, overlay + "\n") && EndsWith(r, html)
  {
    ReplaceAllIntroduces(html, "<body>", "<body>\n" + overlay);
    if Contains(html, "<body>") then ReplaceAll(html, "<body>", "<body>\n" + overlay)
    else overlay + "\n" + html
  }

  /**
   * `modify_html_for_ats_compatibility`. `css` is the fixed style sheet,
   * `frame` the overlay's markup, and `dumps` gives the JSON text of the
   * object holding the three lists. The overlay is added only when one of
   * the lists is given and not empty, and each list that is not is passed
   * on as `[]`.
   */
  function ModifyHtml<E, D, P>(html: string, css: string, frame: OverlayFrame, dumps: (seq<E>, seq<D>, seq<P>) -> string,
                               employment: Option<seq<E>>, education: Option<seq<D>>, publications: Option<seq<P>>): (r: string)
    ensures !(Truthy(employment) || Truthy(education) || Truthy(publications)) ==> r == InsertCss(html, css)
    ensures Truthy(employment) || Truthy(education) || Truthy(publications) ==>
      r == InsertOverlay(InsertCss(html, css), Overlay(dumps(OrEmpty(employment), OrEmpty(education), OrEmpty(publications)), frame))
  {
    var withCss := InsertCss(html, css);
    if Truthy(employment) || Truthy(education) || Truthy(publications) then
      var json := dumps(OrEmpty(employment), OrEmpty(education), OrEmpty(publications));
      InsertOverlay(withCss, Overlay(json, frame))
    else withCss
  }

  /** A page without a head gets one holding the style sheet, in front of it. */
  lemma CssWithoutHead(html: string, css: string)
    requires !Contains(html, "</head>")
    ensures StartsWith(InsertCss(html, css), "<head>" + css + "</head>")
    ensures EndsWith(InsertCss(html, css), html)
  {
    var r := InsertCss(html, css);
    var h := "<head>" + css + "</head>";
    assert r == h + html;
    assert r[..|h|] == h;
    assert r[|r| - |html|..] == html;
  }

  /** A page with one `</head>`: the style sheet and a newline go right before it, and nothing else changes. */
  lemma CssOneHead(html: string, css: string, k: nat)
    requires OccursAt(html, "</head>", k) && !Contains(html[k + 7..], "</head>")
    requires forall j :: 0 <= j < k ==> !OccursAt(html, "</head>", j)
    ensures InsertCss(html, css) == html[..k] + css + "\n</head>" + html[k + 7..]
  {
    ContainsAt(html, "</head>", k);
    ReplaceOnce(html, "</head>", css + "\n</head>", k);
  }

  /** A page with one `<body>`: the overlay follows it on a line of its own, and nothing else changes. */
  lemma OverlayOneBody(html: string, overlay: string, k: nat)
    requires OccursAt(html, "<body>", k) && !Contains(html[k + 6..], "<body>")
    requires forall j :: 0 <= j < k ==> !OccursAt(html, "<body>", j)
    ensures InsertOverlay(html, overlay) == html[..k] + "<body>\n" + overlay + html[k + 6..]
  {
    ContainsAt(html, "<body>", k);
    ReplaceOnce(html, "<body>", "<body>\n" + overlay, k);
  }

  /** Without a `<body>`, the overlay and a newline come first. */
  lemma OverlayWithoutBody(html: string, overlay: string)
    requires !Contains(html, "<body>")
    ensures StartsWith(InsertOverlay(html, overlay), overlay + "\n")
    ensures EndsWith(InsertOverlay(html, overlay), html)
  {
    var r := InsertOverlay(html, overlay);
    assert r == (overlay + "\n") + html;
    assert r[..|overlay + "\n"|] == overlay + "\n";
    assert r[|r| - |html|..] == html;
  }

  /** Lists that are missing or empty make no overlay: the JSON function plays no part. */
  lemma NoDataNoOverlay<E, D, P>(html: string, css: string, frame: OverlayFrame,
                                 dumps: (seq<E>, seq<D>, seq<P>) -> string, dumps': (seq<E>, seq<D>, seq<P>) -> string,
                                 employment: Option<seq<E>>, education: Option<seq<D>>, publications: Option<seq<P>>)
    requires !Truthy(employment) && !Truthy(education) && !Truthy(publications)
    ensures ModifyHtml(html, css, frame, dumps, employment, education, publications) ==
      ModifyHtml(html, css, frame, dumps', None, Some([]), None)
  {
  }

  // ---------------------------------------------------------------------
  // The default pdf_path

  /**
   * `os.path.splitext` (POSIX): the extension runs from the last dot of the
   * last path component, unless only dots come before that dot in the
   * component (a hidden file such as `.html` has no extension).
   */
  function SplitExt(path: string): (r: (string, string))
    ensures r.0 + r.1 == path
    ensures r.1 == "" || (r.1[0] == '.' && '/' !in r.1)
  {
    var sep := LastIndex(path, '/');
    var dot := LastIndex(path, '.');
    if dot > sep && exists i :: sep + 1 <= i < dot && path[i] != '.' then
      assert path[..dot] + path[dot..] == path;
      assert forall j :: 0 <= j < |path[dot..]| ==> path[dot..][j] == path[dot + j];
      (path[..dot], path[dot..])
    else (path, "")
  }

  /**
   * The PDF path when none is given: the HTML path with its extension
   * replaced (`_ats.pdf` for the ATS variant, `.pdf` otherwise) when it
   * ends in `.html`, a fixed name otherwise.
   */
  function DefaultPdfPath(htmlPath: string, ats: bool): (r: string)
    ensures EndsWith(r, if ats then "_ats.pdf" else ".pdf")
  {
    if EndsWith(htmlPath, ".html") then SplitExt(htmlPath).0 + (if ats then "_ats.pdf" else ".pdf")
    else if ats then "cv_ats.pdf" else "cv.pdf"
  }

  /** `pdf_path` as given, when it is truthy. */
  function PdfPath(pdfPath: Option<string>, htmlPath: string, ats: bool): (r: string)
    ensures pdfPath.Some? && pdfPath.value != "" ==> r == pdfPath.value
    ensures pdfPath.None? || pdfPath.value == "" ==> r == DefaultPdfPath(htmlPath, ats)
  {
    if pdfPath.Some? && pdfPath.value != "" then pdfPath.value else DefaultPdfPath(htmlPath, ats)
  }

  /** `splitext` cuts at the last dot when a non-dot precedes it in the last component. */
  lemma SplitExtAt(path: string, dot: nat, i: nat)
    requires dot < |path| && LastIndex(path, '.') == dot
    requires LastIndex(path, '/') < i < dot && path[i] != '.'
    ensures SplitExt(path) == (path[..dot], path[dot..])
  {
  }

  /**
   * A file name `base.html` whose last path component in `base` holds a
   * character other than a dot (at `i`) loses `.html` for the PDF suffix.
   */
  lemma PdfPathOfHtml(base: string, i: nat, ats: bool)
    requires LastIndex(base, '/') < i < |base| && base[i] != '.'
    ensures DefaultPdfPath(base + ".html", ats) == base + (if ats then "_ats.pdf" else ".pdf")
  {
    var p := base + ".html";
    var n := |base|;
    HtmlDot(base);
    LastIndexAppend(base, ".html", '/');
    assert p[i] == base[i];
    SplitExtAt(p, n, i);
    assert p[..n] == base;
    assert SplitExt(p).0 == base;
    assert EndsWith(p, ".html");
    assert DefaultPdfPath(p, ats) == SplitExt(p).0 + (if ats then "_ats.pdf" else ".pdf");
  }

  /** In `base.html` the suffix ends the name and its dot is the last one. */
  lemma HtmlDot(base: string)
    ensures EndsWith(base + ".html", ".html")
    ensures LastIndex(base + ".html", '.') == |base|
  {
    assert ".html"[1..] == "html" && '.' !in "html";
    LastIndexOfTail(base, ".html", '.');
    assert (base + ".html")[|base|..] == ".html";
  }

  /** A hidden file called `.html` keeps its whole name in front of the suffix. */
  lemma PdfPathOfHiddenName(ats: bool)
    ensures DefaultPdfPath(".html", ats) == ".html" + (if ats then "_ats.pdf" else ".pdf")
  {
    var p := ".html";
    assert LastIndex(p, '/') == -1;
    LastIndexAt(p, '.', 0);
    assert p[|p| - 5..] == ".html";
  }

  /** A name that does not end in `.html` gives the fixed name. */
  lemma PdfPathOther(htmlPath: string, ats: bool)
    requires !EndsWith(htmlPath, ".html")
    ensures DefaultPdfPath(htmlPath, ats) == if ats then "cv_ats.pdf" else "cv.pdf"
  {
  }

  /** Without a PDF path, or with an empty one, a name `base.html` gives `base_ats.pdf` or `base.pdf`. */
  lemma PdfPathOfHtmlDefault(pdfPath: Option<string>, base: string, i: nat, ats: bool)
    requires pdfPath.None? || pdfPath.value == ""
    requires LastIndex(base, '/') < i < |base| && base[i] != '.'
    ensures PdfPath(pdfPath, base + ".html", ats) == base + (if ats then "_ats.pdf" else ".pdf")
  {
    PdfPathOfHtml(base, i, ats);
  }

  // ---------------------------------------------------------------------
  // Page numbers

  /**
   * The page-number style goes, with a newline, before every `</style>`; a
   * page without one is left as it is.
   */
  function AddPageNumbers(html: string, pageCss: string): (r: string)
    ensures Contains(html, "</style>") ==> Contains(r, pageCss + "\n</style>")
    ensures !Contains(html, "</style>") ==> r == html
  {
    ReplaceAllIntroduces(html, "</style>", pageCss + "\n</style>");
    ReplaceAllUnchanged(html, "</style>", pageCss + "\n</style>");
    ReplaceAll(html, "</style>", pageCss + "\n</style>")
  }

  /** A page with one style sheet gets the page-number style at its end, and nothing else changes. */
  lemma PageNumbersOneStyle(html: string, pageCss: string, k: nat)
    requires OccursAt(html, "</style>", k) && !Contains(html[k + 8..], "</style>")
    requires forall j :: 0 <= j < k ==> !OccursAt(html, "</style>", j)
    ensures AddPageNumbers(html, pageCss) == html[..k] + pageCss + "\n</style>" + html[k + 8..]
  {
    ReplaceOnce(html, "</style>", pageCss + "\n</style>", k);
  }

  /** A page without a style sheet is left as it is. */
  lemma PageNumbersWithoutStyle(html: string, pageCss: string)
    requires !Contains(html, "</style>")
    ensures AddPageNumbers(html, pageCss) == html
  {
    ReplaceAllAbsent(html, "</style>", pageCss + "\n</style>");
  }

  /**
   * The HTML text `convert_html_to_pdf_with_ats` renders: the ATS changes,
   * then the page numbers when asked for.
   */
  function AtsHtml<E, D, P>(html: string, css: string, frame: OverlayFrame, dumps: (seq<E>, seq<D>, seq<P>) -> string,
                            employment: Option<seq<E>>, education: Option<seq<D>>, publications: Option<seq<P>>,
                            addPageNumbers: bool, pageCss: string): (r: string)
    ensures !addPageNumbers ==> r == ModifyHtml(html, css, frame, dumps, employment, education, publications)
    ensures addPageNumbers ==> r == AddPageNumbers(ModifyHtml(html, css, frame, dumps, employment, education, publications), pageCss)
  {
    var ats := ModifyHtml(html, css, frame, dumps, employment, education, publications);
    if addPageNumbers then AddPageNumbers(ats, pageCss) else ats
  }

  /** The HTML text `convert_html_to_pdf` renders. */
  function PlainHtml(html: string, addPageNumbers: bool, pageCss: string): (r: string)
    ensures !addPageNumbers ==> r == html
    ensures addPageNumbers ==> r == AddPageNumbers(html, pageCss)
  {
    if addPageNumbers then AddPageNumbers(html, pageCss) else html
  }

  /** `convert_html_to_pdf` on a page with one style sheet: the page-number style goes at its end. */
  lemma PlainHtmlOneStyle(html: string, pageCss: string, k: nat)
    requires OccursAt(html, "</style>", k) && !Contains(html[k + 8..], "</style>")
    requires forall j :: 0 <= j < k ==> !OccursAt(html, "</style>", j)
    ensures PlainHtml(html, true, pageCss) == html[..k] + pageCss + "\n</style>" + html[k + 8..]
    ensures PlainHtml(html, false, pageCss) == html
  {
    PageNumbersOneStyle(html, pageCss, k);
  }

  /** `convert_html_to_pdf` on a page without a style sheet renders it as it is, page numbers or not. */
  lemma PlainHtmlWithoutStyle(html: string, pageCss: string, addPageNumbers: bool)
    requires !Contains(html, "</style>")
    ensures PlainHtml(html, addPageNumbers, pageCss) == html
  {
    PageNumbersWithoutStyle(html, pageCss);
  }

  /** After the `</head>` that follows the style sheet no `</style>` can start. */
  lemma HeadTailClean(h: string)
    requires !Contains(h, "</style>")
    ensures !Contains("\n</head>" + h, "</style>")
  {
    var z := "\n</head>" + h;
    var p := "</style>";
    ContainsIff(h, p);
    forall j ensures !OccursAt(z, p, j) {
      if 0 <= j < 8 {
        Mismatch(z, p, j, if j == 1 then 2 else 0);
      } else if 8 <= j && j + 8 <= |z| {
        assert z[j..j + 8] == h[j - 8..j];
        assert !OccursAt(h, p, j - 8);
      }
    }
    ContainsIff(z, p);
  }

  /**
   * `convert_html_to_pdf_with_ats` with page numbers, on a page with one
   * `</head>`, no style sheet of its own and no data for the overlay, and an
   * ATS sheet `pre + "</style>" + post` with no other `</style>`: the
   * page-number style lands at the end of the ATS sheet, right before its
   * `</style>`. (`pre` must not start with a character of `/style>`, which
   * holds for the sheet of the source, as it starts with a newline.)
   */
  lemma AtsPageNumbers<E, D, P>(html: string, pre: string, post: string, frame: OverlayFrame,
                                dumps: (seq<E>, seq<D>, seq<P>) -> string,
                                employment: Option<seq<E>>, education: Option<seq<D>>, publications: Option<seq<P>>,
                                pageCss: string, k: nat)
    requires !Truthy(employment) && !Truthy(education) && !Truthy(publications)
    requires OccursAt(html, "</head>", k) && !Contains(html[k + 7..], "</head>")
    requires forall j :: 0 <= j < k ==> !OccursAt(html, "</head>", j)
    requires !Contains(html, "</style>")
    requires !Contains(pre, "</style>") && !Contains(post, "</style>") && (pre == [] || pre[0] !in "/style>")
    ensures AtsHtml(html, pre + "</style>" + post, frame, dumps, employment, education, publications, true, pageCss)
      == html[..k] + pre + pageCss + "\n</style>" + post + "\n</head>" + html[k + 7..]
  {
    var css := pre + "</style>" + post;
    var h1, h2 := html[..k], html[k + 7..];
    CssOneHead(html, css, k);
    NoOccurrenceSlice(html, 0, k, "</style>");
    NoOccurrenceSlice(html, k + 7, |html|, "</style>");
    assert html[0..k] == h1 && html[k + 7..|html|] == h2;
    SheetPageNumbers(h1, pre, post, h2, pageCss);
  }

  /** The page-number step on a page whose only `</style>` ends the inserted sheet. */
  lemma SheetPageNumbers(h1: string, pre: string, post: string, h2: string, pageCss: string)
    requires !Contains(h1, "</style>") && !Contains(h2, "</style>")
    requires !Contains(pre, "</style>") && !Contains(post, "</style>") && (pre == [] || pre[0] !in "/style>")
    ensures AddPageNumbers(h1 + (pre + "</style>" + post) + "\n</head>" + h2, pageCss)
      == h1 + pre + pageCss + "\n</style>" + post + "\n</head>" + h2
  {
    var p := "</style>";
    var t := "\n</head>" + h2;
    assert p[1..] == "/style>";
    NoOccurrenceConcat(h1, pre, p);
    HeadTailClean(h2);
    assert t[0] == '\n';
    NoOccurrenceConcat(post, t, p);
    OneStyleBetween(h1 + pre, post + t, pageCss);
    RegroupSheet(h1, pre, p, post, "\n</head>", h2);
    RegroupResult(h1 + pre, pageCss, "\n</style>", post, "\n</head>", h2);
  }

  lemma RegroupSheet(a: string, b: string, c: string, d: string, e: string, f: string)
    ensures a + (b + c + d) + e + f == (a + b) + c + (d + (e + f))
  {
    Assoc(a, b + c, d);
    Assoc(a, b, c);
    Assoc(a + b + c, d, e);
    Assoc(a + b + c, d + e, f);
    Assoc(d, e, f);
  }

  lemma RegroupResult(a: string, b: string, c: string, d: string, e: string, f: string)
    ensures a + b + c + (d + (e + f)) == a + b + c + d + e + f
  {
    Assoc(d, e, f);
    Assoc(a + b + c, d + e, f);
    Assoc(a + b + c, d, e);
  }

  /** One `</style>` between two texts without one, and no match straddling it. */
  lemma OneStyleBetween(l: string, r: string, pageCss: string)
    requires !Contains(l, "</style>") && !Contains(r, "</style>")
    ensures AddPageNumbers(l + "</style>" + r, pageCss) == l + pageCss + "\n</style>" + r
  {
    var p := "</style>";
    var x := l + p + r;
    assert p[1..] == "/style>";
    assert (p + r)[0] == '<';
    assert x == l + (p + r);
    NoOccurrenceBefore(l, p + r, p);
    assert x[|l|..|l| + 8] == p;
    assert x[|l| + 8..] == r;
    assert x[..|l|] == l;
    PageNumbersOneStyle(x, pageCss, |l|);
  }
}
