# aicv in Dafny

A model of the text core of aicv, an "AI-aware" CV generator. aicv turns a Markdown CV with embedded Python snippets (fenced as ```` ```pymd ````) and JSON records into HTML, Markdown, LaTeX (moderncv) or PDF. The model covers everything between reading the input and writing the output:

- **The snippet preprocessor** (`PyMdPreprocessor.run`, in aicv/core/extensions.py and the older pymd.py). It is a two-state line scanner written as imperative Dafny: methods with `while` loops over `seq<string>` lines, proved against recursive specification functions. Fence lines never reach the output. Plain lines keep their order. Each snippet's printed lines stand where its closing fence was. Plain runs are buffered and flushed per backend.
- **The record renderers**: education, employment, publications, and the legacy renderers of pymd.py.
  - They are `method`s that grow their text with `+=` in loops, as the source does.
  - Each is proved equal to a recursive specification function.
  - Lemmas about those functions cover the first-match emoji tables, the strict citation tiers, and the two-group stable sort of publications (sorted, a permutation, and stable).
  - They also cover author-name normalisation and the per-type citation templates.
- **The formatters**:
  - section-emoji lookup;
  - LaTeX escaping, a sequence of replace-all steps;
  - heading and link rewriting, as deterministic scanners that each stand for one regular expression;
  - website and social-profile parsing;
  - the personal-information formatters of the HTML, Markdown and moderncv backends.
- **The documents**: the dynamic slots of the HTML, moderncv and styled-HTML documents, the ATS (applicant tracking system) rewrite of the HTML, the default PDF file name, and the page-number style.

Calls into code the model cannot see become parameters: running a snippet (`exec`), the Markdown converter, `json.dumps`, `repr` of an object, file existence and JSON loading, and the photo markup. Static text (style sheets, document templates, icon markup) is a parameter too. A document is `Template.Fill(pieces, slots)`: the fixed pieces alternate with the values the code computes. The lemmas state where each value lands and what stays unchanged when only one value changes.

Python's exceptions are modelled as results. A missing key of a record raises `KeyError`, which is `Err(key)`, reported for the first key the source reads. A string method called on an object is `None`. A rendering that prints is modelled as the text it prints.

Where the repository's own description and its code disagree, the model follows the code:

- each snippet in aicv/core/extensions.py runs in a fresh namespace, and only pymd.py shares its globals between snippets;
- a block without a closing fence is dropped, not executed;
- education entries have no start/end date fallback;
- backends other than `html` and `markdown` drop plain lines in aicv/core/extensions.py.

## Model

| member | source | states |
|---|---|---|
| Citations.LastCommaFirst | aicv/renderers/publications.py:60-67 | a `"Last, First"` name becomes the stripped last name, `", "`, the first letter of the stripped first name and a period |
| Citations.LastCommaOnly | aicv/renderers/publications.py:60-69 | a `"Last,"` name with only whitespace after the comma becomes the stripped last name alone |
| Citations.FirstLast | aicv/renderers/publications.py:71-76 | a comma-free name of two or more words becomes `"LastWord, F."`, where F is the first letter of the first word |
| Citations.SingleToken | aicv/renderers/publications.py:77-78 | a comma-free name that splits into at most one word is kept unchanged, surrounding whitespace included |
| Citations.UnspacedToken | aicv/renderers/publications.py:77-78 | in particular a comma-free name without whitespace is kept unchanged |
| Citations.FormatAuthors | aicv/renderers/publications.py:57-78 | the authors loop yields one normalised name per input name, in input order |
| Citations.JoinAuthorsList | aicv/renderers/publications.py:80-84 | with two or more names, all are joined by `", "` and the last one carries a leading `"& "`; one name is itself; no names give the empty text |
| Citations.BuildBody | aicv/renderers/publications.py:86-160 | the `citation +=` steps of the four type branches build exactly the template text of the entry's type |
| Citations.BuildArticleTail | aicv/renderers/publications.py:91-109 | an article's journal, volume, number, pages and publisher are appended under the presence and truthiness tests of the source |
| Citations.BuildVenueTail | aicv/renderers/publications.py:115-126 | a proceedings, chapter or poster entry appends its emphasised book title, its pages after the type's label, a period and the type's extra field |
| Citations.UnknownTypeEmpty | aicv/renderers/publications.py:86-87 | a type with no template leaves the citation text empty, whatever the entry holds |
| Citations.DefaultType | aicv/renderers/publications.py:38 | an entry without `type` is rendered by the article template |
| Citations.BodyErrors | aicv/renderers/publications.py:89 | the citation text fails exactly when the type has a template and `year` or `title` is missing, and `year` is reported first |
| Citations.EmphasisOnlyDiffers | aicv/renderers/publications.py:86-290 | the HTML and Markdown citation texts agree except that the venue is wrapped in `<em>…</em>` in one and in `*…*` in the other |
| PublicationsRenderer.Partition | aicv/renderers/publications.py:15-24 | the partition loop puts every "to appear" entry in one list and every other entry in the other, both in input order |
| PublicationsRenderer.RenderCitation | aicv/renderers/publications.py:38-164 | the loop body builds emoji, authors, type template and citation count, or fails with the first missing key |
| PublicationsRenderer.RenderItems | aicv/renderers/publications.py:37-166 | the loop over the sorted entries emits one list item per entry, in order, and stops at the first entry that fails |
| PublicationsRenderer.RenderPublications | aicv/renderers/publications.py:5-304 | the whole renderer returns the HTML list for `"html"` and the Markdown list for every other backend name |
| PublicationsRenderer.OrderedPermutation | aicv/renderers/publications.py:33 | the output order lists every input entry exactly once |
| PublicationsRenderer.ToAppearFirst | aicv/renderers/publications.py:33 | every "to appear" entry comes before every other entry |
| PublicationsRenderer.GroupsSortedAndStable | aicv/renderers/publications.py:26-30 | the "to appear" group is in non-increasing year order, the rest in non-increasing citation order, and entries with equal keys keep their input order |
| PublicationsRenderer.EmojiTiers | aicv/renderers/publications.py:41-54 | a "to appear" entry gets the fire; otherwise above 30 citations the glowing star, 16 to 30 the star, 6 to 15 the bar chart, and at most 5 the page |
| PublicationsRenderer.TierEmoji | aicv/renderers/publications.py:47-54 | the glowing star exactly above 30 citations, the star exactly from 16 to 30, the bar chart exactly from 6 to 15 and the page exactly at 5 or fewer |
| PublicationsRenderer.TierBoundaries | aicv/renderers/publications.py:47-54 | the thresholds 30, 15 and 5 themselves fall into the lower tier |
| PublicationsRenderer.CountShownIff | aicv/renderers/publications.py:162-164 | the `(Cited n times)` suffix appears exactly for an entry that is not "to appear" and has a positive `citations` |
| PublicationsRenderer.UnknownTypeCitation | aicv/renderers/publications.py:86-164 | an entry of a type with no template renders as its citation count alone, and still fails without `author` |
| PublicationsRenderer.CitationOk | aicv/renderers/publications.py:58-89 | one entry renders exactly when it has `author` and, for a type with a template, `year` and `title` |
| PublicationsRenderer.RendersIff | aicv/renderers/publications.py:37-58 | the whole list renders, for either backend, exactly when every entry renders |
| PublicationsRenderer.HtmlShape | aicv/renderers/publications.py:36-167 | HTML output is the `publications-list` element around the item of every entry, in output order |
| LegacyPyMd.Run | pymd.py:20-47 | `run` line for line: plain lines are copied, block lines are collected, and at the closing fence the block's output lines replace it |
| LegacyPyMd.CopiesWithoutBlocks | pymd.py:44-45 | without an opening fence, `run` returns its input unchanged |
| LegacyPyMd.ScanAppend | pymd.py:25-45 | scanning two pieces of input one after the other equals scanning them joined |
| LegacyPyMd.Compose | pymd.py:26-41 | the lines before a block are copied, the block is replaced by the output of its code, and the rest is processed after it |
| LegacyPyMd.ScanBlock | pymd.py:26-43 | up to its closing fence a block's lines are collected and run once, after all earlier code |
| LegacyPyMd.Unterminated | pymd.py:42-43 | the code of a block without a closing fence is neither run nor copied |
| LegacyPyMd.SameAsMarkdownBackend | aicv/core/extensions.py:36-74 | for the Markdown backend, the older preprocessor and the extension's preprocessor return the same lines when no snippet's output depends on the snippets before it (the older one runs every snippet in one shared namespace, the extension gives each a fresh one) |
| LegacyPyMd.RenderEducation | pymd.py:76-88 | `render_education` line for line: the heading, then per entry the four required lines, the optional lines and a blank line |
| LegacyPyMd.EducationStartsWithHeader | pymd.py:77 | the output starts with the `# Education` heading, and an empty list gives the heading alone |
| LegacyPyMd.OptionalEducationLines | pymd.py:83-86 | for each of the four combinations of present and absent `dissertation` and `focus_areas`, the entry is the required lines, then the dissertation line if present, then the focus-areas line if present, then a blank line |
| LegacyPyMd.RenderJob | pymd.py:94-100 | one job's lines: the title, location, dates and the responsibilities heading, one line per responsibility, then a blank line |
| LegacyPyMd.RenderEmployment | pymd.py:91-101 | `render_employment` line for line, failing with the first missing key of the first job that lacks one |
| LegacyPyMd.LocationShown | pymd.py:95 | an absent location reads `N/A`; a present one is shown as it is, even when empty |
| LegacyPyMd.OneLinePerResponsibility | pymd.py:98-99 | each responsibility comes out as one `  - ` line, in order |
| LegacyPyMd.RenderCitation | pymd.py:117-210 | one citation: no emoji, Markdown emphasis, no poster template, the count whenever positive |
| LegacyPyMd.RenderPublications | pymd.py:104-214 | `render_publications` line for line over the entries sorted by citations |
| LegacyPyMd.PublicationsLayout | pymd.py:109-113 | the output starts with the two headings and lists the entries in non-increasing citation order, equal counts in input order |
| LegacyPyMd.PosterIsUnknown | pymd.py:150-206 | a poster has no template here and renders as its citation count alone |
| LegacyPyMd.LegacyCountShownIff | pymd.py:208-210 | the count is shown exactly when `citations` is present and positive, "to appear" or not |
| LegacyPyMd.DispatchOrder | pymd.py:61-73 | `render` picks education, then employment, then publications, by which key the data has, and otherwise prints the invalid-format line |
| Preprocessor.Run | aicv/core/extensions.py:25-74 | `run` loop for loop: it computes the lines of the specification scanner, including the buffer flushes and the final flush |
| Preprocessor.ScanAppend | aicv/core/extensions.py:36-65 | scanning two pieces of input one after the other equals scanning them joined |
| Preprocessor.RunRelated | aicv/core/extensions.py:36-74 | output already produced before a point is kept as a prefix, and the rest of the run does not depend on it |
| Preprocessor.PlainOut | aicv/core/extensions.py:39-45 | a run of plain lines reaches the Markdown output verbatim and the HTML output as one converted fragment split into lines; other backends drop it |
| Preprocessor.AllPlain | aicv/core/extensions.py:64-72 | without an opening fence the whole input is one plain run, flushed at the end |
| Preprocessor.MarkdownNoFences | aicv/core/extensions.py:71-72 | with the Markdown backend and no opening fence, `run` returns its input |
| Preprocessor.OtherBackendNoFences | aicv/core/extensions.py:39-45 | a backend other than `html` and `markdown` emits nothing for a document without blocks |
| Preprocessor.Compose | aicv/core/extensions.py:37-61 | a plain run, one closed block and a rest give the flushed plain run, the lines the snippet printed and the rest's own output, in that order; an exception in the snippet propagates |
| Preprocessor.ScanThroughBlock | aicv/core/extensions.py:37-47 | at an opening fence the buffer is flushed and an empty block begins, which then collects the code lines |
| Preprocessor.Unterminated | aicv/core/extensions.py:62-63 | a block without a closing fence is never executed, and none of its lines reach the output |
| Preprocessor.InBlockWithoutClose | aicv/core/extensions.py:62-63 | inside a block, lines that are not closing fences change neither the output nor the buffer |
| Preprocessor.BufferEmptyInBlock | aicv/core/extensions.py:38-47 | inside a block, under an emitting backend, the plain-line buffer is always empty |
| Preprocessor.Reopen | aicv/core/extensions.py:46-47 | an opening fence inside a block discards the code collected so far and keeps collecting |
| Records.ConcatMapAppend | aicv/renderers/education.py:8-21 | rendering a list `xs + ys` renders `xs`, then `ys`, so entries come out in input order |
| Records.ConcatMapOk | aicv/renderers/education.py:8-21 | a list renders exactly when every entry renders |
| Records.ConcatMapOkPermutation | aicv/renderers/publications.py:33-37 | reordering the entries does not change whether the list renders |
| Records.ConcatMapFirstErr | aicv/renderers/education.py:8-9 | the error of a list is the `KeyError` of its first entry that raises |
| Sorting.FilterSnoc | aicv/renderers/publications.py:15-24 | filtering `xs + [x]` filters `xs` and then keeps `x` exactly when it passes |
| Sorting.FilterComplement | aicv/renderers/publications.py:21-24 | a test and its negation split a list into two parts that together hold every entry exactly once |
| Sorting.FilterMembers | aicv/renderers/publications.py:21-24 | an entry is kept exactly when it is in the input and passes the test |
| Sorting.SortDescSorted | aicv/renderers/publications.py:27 | `sorted(..., reverse=True)` yields keys in non-increasing order |
| Sorting.SortDescPermutation | aicv/renderers/publications.py:27 | the sorted list is a permutation of the input |
| Sorting.SortDescStable | aicv/renderers/publications.py:27 | the entries that share a key keep their input order, as Python's stable sort keeps them even with `reverse=True` |
| Sorting.SortDescMembers | aicv/renderers/publications.py:30 | the sorted list holds exactly the entries of the input |
| Sorting.InsertWithKey | aicv/renderers/publications.py:27 | inserting an entry puts it at the front of its own key group and leaves the other groups alone |
| EducationRenderer.RenderEducation | aicv/renderers/education.py:5-22 | `render_education` statement for statement: the heading, then per entry the required lines, the optional lines and a blank line, or the first `KeyError` |
| EducationRenderer.EmptyList | aicv/renderers/education.py:7 | an empty list still gets the heading |
| EducationRenderer.StartsWithHeader | aicv/renderers/education.py:7 | every rendering starts with the heading |
| EducationRenderer.InputOrder | aicv/renderers/education.py:8-21 | one more entry appends exactly its block |
| EducationRenderer.RendersIff | aicv/renderers/education.py:9-15 | the list renders exactly when every entry has a degree, dates, an institution and a location |
| EducationRenderer.MissingKeyOrder | aicv/renderers/education.py:9-15 | the keys are read in the order degree, dates, institution, location, and the first one missing is the error |
| EducationRenderer.DissertationOptional | aicv/renderers/education.py:17-18 | adding a dissertation inserts exactly its line and changes nothing else |
| EducationRenderer.FocusAreasOptional | aicv/renderers/education.py:19-20 | adding focus areas inserts exactly one line, the areas joined by `", "`, before the closing blank line |
| EmploymentRenderer.PositionEmoji | aicv/renderers/employment.py:35-40 | the keyword loop with `break` yields the emoji of the first table keyword found in the lowered position, or the briefcase |
| EmploymentRenderer.JobEmojiFirstMatch | aicv/renderers/employment.py:37-40 | the first keyword in table order that occurs in the position decides the emoji |
| EmploymentRenderer.JobEmojiDefault | aicv/renderers/employment.py:35 | a position containing no keyword gets the briefcase |
| EmploymentRenderer.JobEmoji | aicv/renderers/employment.py:35-40 | the emoji of a position is the briefcase or the value of one of the table's entries |
| EmploymentRenderer.DirectorGetsRocket | aicv/renderers/employment.py:10-31 | table order beats the whole word: "Director" contains "cto", declared before "director", so it gets the rocket |
| EmploymentRenderer.RenderJob | aicv/renderers/employment.py:43-58 | the loop body adds the heading, the dates, the location when truthy, the responsibilities title, one bullet per responsibility and a blank line |
| EmploymentRenderer.RenderEmployment | aicv/renderers/employment.py:27-59 | `render_employment` loop for loop, failing with the first missing key of the first job that lacks one |
| EmploymentRenderer.EmptyList | aicv/renderers/employment.py:29 | an empty list renders to the empty string |
| EmploymentRenderer.InputOrder | aicv/renderers/employment.py:33-58 | one more job appends exactly its block |
| EmploymentRenderer.RendersIff | aicv/renderers/employment.py:36-56 | the list renders exactly when every job has a position, a company, dates and responsibilities |
| EmploymentRenderer.MissingKeyOrder | aicv/renderers/employment.py:36-56 | the keys are read in the order position, company, dates, responsibilities |
| EmploymentRenderer.BlockLayout | aicv/renderers/employment.py:43-53 | each block opens with the heading and dates lines, and without a truthy location goes straight on to the responsibilities title |
| EmploymentRenderer.OneLinePerResponsibility | aicv/renderers/employment.py:56-57 | each responsibility comes out as one indented bullet line, in order |
| Strings.LastIndex | aicv/renderers/__init__.py:15-16 | the last index holding the character, or -1 when there is none: the slash where `os.path.dirname` and `os.path.basename` split a path, and the dot where `os.path.splitext` does |
| RenderDispatch.BaseNameSuffix | aicv/renderers/__init__.py:16 | a base name holds no slash and ends the path |
| RenderDispatch.BaseNameJoin | aicv/renderers/__init__.py:16 | joining a slash-free name onto any directory gives a path with that base name |
| RenderDispatch.FallbackKeepsBaseName | aicv/renderers/__init__.py:13-16 | the fallback path keeps the base name of the requested file and discards its directory |
| RenderDispatch.ExampleDir | aicv/renderers/__init__.py:15-16 | the directory of `d/../../example/cv.md` is `d/../../example` |
| RenderDispatch.FallbackLocation | aicv/renderers/__init__.py:13-16 | for a package file in directory `d`, the fallback is `d/../../example/` followed by the base name |
| RenderDispatch.ExistingFileRead | aicv/renderers/__init__.py:13-23 | an existing file is read under its own name and nothing else is probed |
| RenderDispatch.FallbackRead | aicv/renderers/__init__.py:13-23 | a missing file is retried at the fallback path, and that file is the one read |
| RenderDispatch.NotFound | aicv/renderers/__init__.py:18-20 | when neither candidate exists, the only output is the message naming the fallback path, whatever any file would hold |
| RenderDispatch.DispatchOrder | aicv/renderers/__init__.py:25-32 | the first key present, in the order education, employment, publications, decides, and with none of them the invalid-format line is printed |
| RenderDispatch.ResolvePath | aicv/renderers/__init__.py:13-20 | no file exactly when neither the name nor its fallback exists; otherwise an existing one of the two, the name itself whenever it exists |
| RenderDispatch.Dispatch | aicv/renderers/__init__.py:25-32 | every printed result ends with a newline, and a document with none of the three keys prints the invalid-format line |
| RenderDispatch.Render | aicv/renderers/__init__.py:10-32 | every printed result ends with a newline, and a failure happens only once a file was found |
| Lookup.FirstMatchFrom | aicv/backend/emojis.py:32-34 | the position found is the first entry, from a start position on, whose keyword occurs in the text, and none means that no keyword from there on occurs |
| Lookup.ResolvePriority | aicv/backend/emojis.py:32-34 | when entry `i` is the first whose keyword occurs, its value is returned |
| Lookup.ResolveDefault | aicv/backend/emojis.py:35 | when no keyword occurs, the default is returned |
| Lookup.ResolveRange | aicv/backend/emojis.py:30-35 | the result is always the default or the value of an entry of the table |
| Emojis.FindEmojiFirstMatch | aicv/backend/emojis.py:31-34 | the first keyword in table order that occurs in the lower-cased heading decides the emoji |
| Emojis.FindEmojiDefault | aicv/backend/emojis.py:35 | a heading that contains no keyword gets the page emoji |
| Emojis.FindEmojiCaseInsensitive | aicv/backend/emojis.py:31 | lower-casing the heading first does not change the result |
| Emojis.FindEmoji | aicv/backend/emojis.py:30-35 | the emoji found for a heading is the default page emoji or the value of one of the table's entries; `FindEmojiFirstMatch` and `FindEmojiDefault` say which |
| Emojis.PhdThesis | aicv/backend/emojis.py:22-23 | "PhD Thesis" contains both "phd" and "thesis"; "phd" is declared first and gives the memo |
| Emojis.LanguagesAndTechnologies | aicv/backend/emojis.py:15-16 | "Languages and Technologies" contains "language" and "technolog"; "technolog" is declared first and gives the laptop |
| Emojis.ValuesAboveAscii | aicv/backend/emojis.py:5-27 | every emoji of the table consists only of characters above the ASCII range |
| Emojis.FindEmojiAboveAscii | aicv/backend/emojis.py:30-35 | whatever the heading, the emoji is non-empty and holds no ASCII character such as `<`, `#`, a space or a newline |
| LatexEscape.Escape | aicv/utils/escape_latex.py:1-36 | `escape_latex` statement for statement: the six typographic replacements, then every pair of the table in declaration order |
| LatexEscape.ReplaceTypographic | aicv/utils/escape_latex.py:6-11 | the six typographic `replace` statements apply the dash and curly-quote pairs one after another, in source order |
| LatexEscape.ReplaceEachAppend | aicv/utils/escape_latex.py:34-35 | applying a list of pairs `t1 + t2` applies `t1`, then `t2` |
| LatexEscape.ReplaceEachAbsent | aicv/utils/escape_latex.py:34-35 | pairs whose patterns do not occur in the text leave it unchanged |
| LatexEscape.DoubleHyphens | aicv/utils/escape_latex.py:26 | replacing `-` by `--` doubles a run of hyphens |
| LatexEscape.CharKeys | aicv/utils/escape_latex.py:7-29 | each single-character pattern is one character long, and only the hyphen pair rewrites a hyphen |
| LatexEscape.DashThrough | aicv/utils/escape_latex.py:7-8 | an en or em dash first becomes hyphens, which the later hyphen pair doubles: four and six hyphens |
| LatexEscape.EscapeLeftSingleQuote | aicv/utils/escape_latex.py:9 | a left single quote becomes a backtick |
| LatexEscape.EscapeRightSingleQuote | aicv/utils/escape_latex.py:10 | a right single quote becomes an apostrophe |
| LatexEscape.EscapeLeftDoubleQuote | aicv/utils/escape_latex.py:11 | a left double quote becomes two backticks |
| LatexEscape.EscapeRightDoubleQuote | aicv/utils/escape_latex.py:12 | a right double quote becomes two apostrophes |
| LatexEscape.EscapeAmpersand | aicv/utils/escape_latex.py:16 | `&` becomes `\&` and nothing later rewrites it |
| LatexEscape.EscapePercent | aicv/utils/escape_latex.py:17 | `%` becomes `\%` |
| LatexEscape.EscapeDollar | aicv/utils/escape_latex.py:18 | `$` becomes `\$` |
| LatexEscape.EscapeHash | aicv/utils/escape_latex.py:19 | `#` becomes `\#` |
| LatexEscape.EscapeUnderscore | aicv/utils/escape_latex.py:20 | `_` becomes `\_` |
| LatexEscape.EscapeOpenBrace | aicv/utils/escape_latex.py:21 | `{` becomes `\{` |
| LatexEscape.EscapeCloseBrace | aicv/utils/escape_latex.py:22 | `}` becomes `\}`, and the braces that pair writes are not escaped again |
| LatexEscape.EscapeTilde | aicv/utils/escape_latex.py:23 | `~` becomes `\textasciitilde{}`: its braces come after the brace pairs and survive |
| LatexEscape.EscapeCaret | aicv/utils/escape_latex.py:24 | `^` becomes `\textasciicircum{}` |
| LatexEscape.EscapeHyphen | aicv/utils/escape_latex.py:26 | `-` becomes `--` |
| LatexEscape.EscapeLessThan | aicv/utils/escape_latex.py:27 | `<` becomes `\textless{}` |
| LatexEscape.EscapeGreaterThan | aicv/utils/escape_latex.py:28 | `>` becomes `\textgreater{}` |
| LatexEscape.EscapeBar | aicv/utils/escape_latex.py:29 | `|` becomes `\textbar{}` |
| LatexEscape.EscapeCharTable | aicv/utils/escape_latex.py:7-29 | the single-character pairs turn every character into its table entry, and any other character into itself |
| LatexEscape.ReplaceEachConcat | aicv/utils/escape_latex.py:7-29 | single-character replacements act on the two halves of a text separately |
| LatexEscape.CharTableEscapes | aicv/utils/escape_latex.py:7-29 | the single-character stage escapes a text character by character |
| LatexEscape.Stages | aicv/utils/escape_latex.py:6-35 | `escape_latex` is the single-character stage followed by the two quote pairs |
| LatexEscape.NoQuoteIntroduced | aicv/utils/escape_latex.py:7-29 | no replacement writes a double quote, so only an input double quote survives the first stage |
| LatexEscape.EscapeLatex | aicv/utils/escape_latex.py:1-36 | text without a double quote is escaped character by character, the quote pairs never firing |
| LatexEscape.HyphenDoubling | aicv/utils/escape_latex.py:7-8 | hyphens double, so escaping is not idempotent: `-` gives `--`, `--` gives `----`, and the dashes give four and six hyphens |
| LatexEscape.QuoteStage | aicv/utils/escape_latex.py:30-31 | a lone double quote followed by a space becomes `'' ` |
| LatexEscape.ClosingQuote | aicv/utils/escape_latex.py:30 | a double quote followed by a space closes a quotation as `'' `, the text around it escaped as usual |
| LatexEscape.OpenQuoteStage | aicv/utils/escape_latex.py:30-31 | a lone double quote after a space and before no space becomes a space and two backticks |
| LatexEscape.OpeningQuote | aicv/utils/escape_latex.py:31 | a space and a double quote before an ordinary non-space character open a quotation as a space and two backticks, the text around it escaped as usual |
| LatexEscape.PlainUnchanged | aicv/utils/escape_latex.py:25 | text free of every special character comes back unchanged; a backslash, for one, passes through |
| TextProcessing.SearchLinkOccurs | aicv/utils/text_processing.py:9-10 | the link the lazy search finds is written in the text as `[text](url)` |
| TextProcessing.ExtractLinkOrText | aicv/utils/text_processing.py:6-23 | the result is the whole text as both label and target, or a label and target written in the text as a markdown link |
| TextProcessing.NoLinkIsText | aicv/utils/text_processing.py:19-23 | a text without `[` is its own label and target |
| TextProcessing.ExtractLink | aicv/utils/text_processing.py:9-18 | the first link is found wherever it stands, and a label without `]` and a target without `)` come back as written |
| TextProcessing.ConvertMarkdownLinks | aicv/utils/text_processing.py:26-33 | text without `[` is left as it is; `ConvertLink` gives the rewritten form of a link |
| TextProcessing.LinkFires | aicv/utils/text_processing.py:30 | an unguarded link with a non-empty label and target matches the pattern and is replaced by its anchor |
| TextProcessing.ConvertLink | aicv/utils/text_processing.py:26-33 | a link between text that cannot interfere becomes `<a href="url" target="_blank">text</a>` and nothing else changes |
| TextProcessing.ConvertGuardedBefore | aicv/utils/text_processing.py:30 | a link right after `<`, `"` or `'` is not rewritten |
| TextProcessing.ConvertGuardedAfter | aicv/utils/text_processing.py:30 | a link right before `>`, `"` or `'` is not rewritten |
| TextProcessing.EmojiPlain | aicv/utils/text_processing.py:40-70 | the emoji found for any heading holds no `<` and no newline |
| TextProcessing.FindEmoji | aicv/utils/text_processing.py:65-70 | the emoji found for a heading is the default page emoji or the value of one of the table's entries |
| TextProcessing.AddSectionEmojis | aicv/utils/text_processing.py:36-115 | `add_section_emojis` statement for statement, the marking loop included |
| TextProcessing.H1Decorated | aicv/utils/text_processing.py:83-88 | an h1 gains one emoji span in front of its unchanged text |
| TextProcessing.EmojiSearchLine | aicv/utils/text_processing.py:92-93 | the emoji search on an h2 line yields its text exactly when that text holds an emoji character |
| TextProcessing.H2Decorated | aicv/utils/text_processing.py:101-106 | an h2 whose text holds no emoji character gains one emoji span |
| TextProcessing.H2WithEmojiMarked | aicv/utils/text_processing.py:97-99 | an h2 whose text holds an emoji is set aside under the temporary marker |
| TextProcessing.MarkedRestored | aicv/utils/text_processing.py:108-113 | the marked text is not touched by the h2 substitution and is restored to the plain h2 |
| TextProcessing.H2WithEmojiKept | aicv/utils/text_processing.py:90-113 | an h2 whose text already holds an emoji character comes out unchanged |
| TextProcessing.JobHeaderStripped | aicv/utils/text_processing.py:74-78 | the job-header span is dropped and its text kept in place |
| TextProcessing.JobHeadingEmojis | aicv/utils/text_processing.py:72-113 | a job heading keeps its own emoji: without its span it is left alone when it holds an emoji and decorated once otherwise |
| TextProcessing.StripPhd | aicv/utils/text_processing.py:131 | a name holding neither `PhD` nor `Ph.D` comes through the removal pattern unchanged |
| TextProcessing.FormatPhdName | aicv/utils/text_processing.py:117-138 | a name holding no PhD spelling is returned as it is; one holding a spelling ends with `",<br>PhD"` for HTML and `", PhD"` for any other backend |
| TextProcessing.CapitalPName | aicv/utils/text_processing.py:117-138 | `Paul Smith, PhD` becomes `Paul Smith,<br>PhD` for HTML: the capital `P` of the name does not disturb the pattern |
| TextProcessing.StripPhdSuffix | aicv/utils/text_processing.py:131 | `", "` and a PhD spelling after a name with no PhD spelling of its own (neither `PhD` nor `Ph.D`) is all that the pattern removes |
| TextProcessing.PhdMentioned | aicv/utils/text_processing.py:128 | a name ending in a PhD spelling passes the mention test |
| TextProcessing.PhdSuffix | aicv/utils/text_processing.py:117-138 | a name with no PhD spelling of its own followed by `", "` and a spelling gets `",<br>PhD"` in HTML and `", PhD"` otherwise in place of that spelling |
| TextProcessing.PhdMarkdownFixedPoint | aicv/utils/text_processing.py:131-137 | the Markdown form of a PhD name whose base has no PhD spelling of its own is a fixed point |
| TextProcessing.WithScheme | aicv/utils/text_processing.py:161-163 | a non-empty URL comes out starting with `http` and ending with the given URL, and one that is empty or already starts with `http` is kept |
| TextProcessing.FormatWebsite | aicv/utils/text_processing.py:140-168 | the website renders to the empty text exactly when its value is falsy |
| TextProcessing.WebsiteForms | aicv/utils/text_processing.py:140-168 | a website given bare, with `https://` or as a `{"url": ...}` object renders the same, and in Markdown as `[address](https://address)` |
| TextProcessing.WebsiteLinkRoundTrip | aicv/utils/text_processing.py:158-168 | the Markdown website link reads back through `extract_link_or_text` as the address without scheme and the URL with scheme |
| TextProcessing.GithubUsernameForms | aicv/utils/text_processing.py:183-190 | the profile URL, the `@` handle and the bare name all give the same user name |
| TextProcessing.GithubForms | aicv/utils/text_processing.py:170-203 | all three forms render the same link to `https://github.com/u` labelled `@u` |
| TextProcessing.FormatGithub | aicv/utils/text_processing.py:170-203 | the GitHub value renders to the empty text exactly when it is empty |
| TextProcessing.EmailLinkRoundTrip | aicv/utils/text_processing.py:205-221 | the Markdown e-mail link reads back as the address and its `mailto:` target |
| TextProcessing.FormatEmail | aicv/utils/text_processing.py:205-221 | the e-mail renders to the empty text exactly when it is empty |
| TextProcessing.FormatPersonalInfo | aicv/utils/text_processing.py:223-247 | an absent or falsy value gives the empty text; an object raises exactly for `github`, and for `name` when one of its keys is a PhD spelling; any other object is returned as it is, except that a website renders and an e-mail object gives the `mailto:` link around its `repr`; a non-empty string goes through the field's formatter: `format_phd_name` for `name`, `format_github` for `github`, `format_email` for `email`, `format_website` for `website`, and any other field's string is returned as it is |
| TextProcessing.PersonalInfoEmailRoundTrip | aicv/utils/text_processing.py:205-247 | the Markdown e-mail entry, for a string address or an object, reads back through `extract_link_or_text` as the printed value and its `mailto:` target |
| TextProcessing.PersonalInfoGithubForms | aicv/utils/text_processing.py:170-247 | the GitHub entry is the same for the profile URL, the `@` handle and the bare name |
| PersonalInfoFormatter.FormatName | aicv/backend/personal_info.py:15-16 | the name is the first name, exactly one space, then the family name |
| PersonalInfoFormatter.FormatNameDefaults | aicv/backend/personal_info.py:9-16 | with both name keys absent the name is a single space |
| PersonalInfoFormatter.FormatNameParts | aicv/backend/personal_info.py:15-16 | two equal names with equal first names have equal family names |
| PersonalInfoFormatter.HasPhdExact | aicv/backend/personal_info.py:41-46 | `has_phd` holds exactly when `degree` is one of the strings `PhD`, `Ph.D` and `Ph.D.`; other casings and objects never count |
| PersonalInfoFormatter.HasPhd | aicv/backend/personal_info.py:41-46 | `has_phd` holds only for a string `degree` that is one of the PhD spellings |
| PersonalInfoFormatter.FormatField | aicv/backend/personal_info.py:48-75 | a falsy value gives the empty text, a field without a formatter of its own gives the value's text, and every field with one raises |
| PersonalInfoFormatter.FormatFieldPassThrough | aicv/backend/personal_info.py:74-75 | a field such as `position` is returned as it is |
| PersonalInfoFormatter.ParseWebsiteInfo | aicv/backend/personal_info.py:77-86 | a falsy website gives two empty texts; otherwise the URL is the given one and the text is a suffix of it, the whole URL when it has no `://` |
| PersonalInfoFormatter.ParseWebsiteOfScheme | aicv/backend/personal_info.py:85 | with a scheme the text is the rest of the address, the same for a string and for a `{"url": ...}` object |
| PersonalInfoFormatter.ParseWebsiteNoUrl | aicv/backend/personal_info.py:81-82 | an object without a `url` entry gives an empty text and an empty address |
| PersonalInfoFormatter.ParseSocialInfo | aicv/backend/personal_info.py:88-113 | an empty value gives two empty texts; otherwise the handle is the prefix and the URL the base, each followed by the same user name, which neither starts nor ends with a slash |
| PersonalInfoFormatter.SocialValue | aicv/backend/personal_info.py:102-104 | a string value is passed on, and only a truthy object is refused (it has no `strip`) |
| PersonalInfoFormatter.OrEmpty | aicv/backend/personal_info.py:49 | a falsy value gives the empty text and any other value its text |
| PersonalInfoFormatter.SocialFromUrl | aicv/backend/personal_info.py:106-107 | a profile URL yields the name after `github.com/`, whatever the handle prefix |
| PersonalInfoFormatter.SocialSegmentFirst | aicv/backend/personal_info.py:106-109 | the path segment is tested first: `@github.com/u` gives `u` |
| PersonalInfoFormatter.SocialFromHandle | aicv/backend/personal_info.py:108-109 | an `@` handle loses its leading `@` characters |
| PersonalInfoFormatter.SocialFromName | aicv/backend/personal_info.py:105-111 | a bare name is the user name |
| PersonalInfoFormatter.GithubSocialForms | aicv/backend/personal_info.py:88-113 | the profile URL, the `@` handle and the bare name give the same `@u` handle and `https://github.com/u` URL |
| HtmlBackend.EmojiPlain | aicv/backend/html.py:15 | the section emoji put into a heading holds no `<` and no newline |
| HtmlBackend.AddSectionEmojis | aicv/backend/html.py:12-23 | content without `<` holds no heading tag and comes back unchanged; `H1Line` and `H2Line` give the decorated lines |
| HtmlBackend.H1Line | aicv/backend/html.py:13-17 | every h1 line gains one span with the emoji of its text, in front of the unchanged text |
| HtmlBackend.H2Line | aicv/backend/html.py:18-22 | every h2 line gains one span with the emoji of its text, in front of the unchanged text |
| HtmlBackend.H1Twice | aicv/backend/html.py:12-23 | the HTML variant skips nothing: a second call adds a second span to an h1 line, in front of the first |
| HtmlBackend.H1Again | aicv/backend/html.py:13-17 | a decorated h1 line is decorated once more, around its whole inner text |
| HtmlBackend.H2Twice | aicv/backend/html.py:18-22 | a second call adds a second span to an h2 line, in front of the first |
| HtmlBackend.HeadingNone | aicv/backend/html.py:13-22 | without the opening tag the heading substitution changes nothing |
| HtmlBackend.SpanRemoved | aicv/backend/html.py:114 | the span substitution takes a decorated heading back to its plain line |
| HtmlBackend.StripUndoesDecoration | aicv/backend/html.py:110-116 | with emojis off, a decorated heading loses its span and the space after it |
| HtmlBackend.StripAfterAdd | aicv/backend/html.py:110-116 | adding the heading emojis and then stripping them gives back the h1 or h2 line, when its text does not start with an emoji |
| HtmlBackend.LeadingEmojiRemoved | aicv/backend/html.py:116 | an emoji character at the very start, with the space after it, is removed |
| HtmlBackend.ItemEmojiRemoved | aicv/backend/html.py:116 | an emoji character opening a list item, with the space after it, is removed and the tag stays |
| HtmlBackend.StripEmojis | aicv/backend/html.py:110-116 | content without `<` that does not start with an emoji character is left as it is; `StripAfterAdd` gives the inverse direction |
| HtmlBackend.FormatWebsite | aicv/backend/html.py:26-31 | nothing without a display text, otherwise an anchor on the address as given, labelled with the display text |
| HtmlBackend.WebsiteOfScheme | aicv/backend/html.py:26-31 | a website with a scheme shows the rest of the address and links to the whole of it |
| HtmlBackend.WebsiteBare | aicv/backend/html.py:26-31 | unlike the shared helper, no scheme is added: a bare address is both the text and the target |
| HtmlBackend.FormatSocial | aicv/backend/html.py:33-43 | the profile link is always emitted, the icon then an anchor on the profile URL showing the handle; only an object value raises |
| HtmlBackend.SocialMissing | aicv/backend/html.py:39-43 | without a value the link is still there, to an empty address with an empty text |
| HtmlBackend.GithubLinkForms | aicv/backend/html.py:39-43 | the profile URL, the `@` handle and the bare name give the same GitHub link |
| HtmlBackend.FormatGithub | aicv/backend/html.py:39-43 | the link fails exactly for a truthy object value, and a falsy value gives the icon with an empty anchor |
| HtmlBackend.FormatLinkedin | aicv/backend/html.py:33-37 | the link fails exactly for a truthy object value, and a falsy value gives the icon with an empty anchor |
| HtmlBackend.FormatEmail | aicv/backend/html.py:45-49 | a falsy e-mail gives nothing, otherwise exactly the anchor `<a href="mailto:e">e</a>` for the address text e |
| HtmlBackend.EmailAgreesWithShared | aicv/backend/html.py:45-49 | the backend's e-mail entry equals the one `format_personal_info` builds for `html`, objects included |
| HtmlBackend.FormatPhone | aicv/backend/html.py:51-53 | a falsy phone gives the empty text and a string phone its own text |
| HtmlBackend.HeadingName | aicv/backend/html.py:104-107 | the page heading is the name, followed by `", PhD"` exactly when `has_phd` holds |
| HtmlBackend.HeadingNamePhd | aicv/backend/html.py:104-107 | the heading shows `", PhD"` exactly for the degrees `PhD`, `Ph.D` and `Ph.D.` |
| HtmlBackend.CreateHtml | aicv/backend/html.py:89-640 | the page renders exactly when the GitHub formatter does not raise |
| HtmlBackend.CreateHtmlLayout | aicv/backend/html.py:119-638 | the title shows the plain name right after the opening text; the photo markup, the heading, the position, each contact value and the birth date sit in their slots; and the content is followed by the closing text only |
| HtmlBackend.EmojisOnlyInBody | aicv/backend/html.py:109-116 | the emojis switch changes the content only: the page up to it, contact emojis included, and the text after it are the same |
| HtmlBackend.DegreeOnlyInHeadingValue | aicv/backend/html.py:104-107 | the degree changes the heading value and no other page value |
| HtmlBackend.DegreeOnlyInHeading | aicv/backend/html.py:104-124 | the degree changes only the heading: the title keeps the plain name, and the page before and after the heading is the same |
| MarkdownBackend.LineStop | aicv/backend/markdown.py:9 | the line going on at a position ends at the next newline or at the end of the text, with no newline before that |
| MarkdownBackend.EmojiPlain | aicv/backend/markdown.py:10 | the emoji written into a heading is not empty and holds no `#` and no newline |
| MarkdownBackend.AddSectionEmojis | aicv/backend/markdown.py:7-20 | content without `#` holds no heading and comes back unchanged; `H1Line` and `H2Line` give the decorated lines |
| MarkdownBackend.OneLine | aicv/backend/markdown.py:9-15 | under `re.MULTILINE` a one-line text starts a line only at position 0, so neither pattern matches anywhere else |
| MarkdownBackend.H1Line | aicv/backend/markdown.py:8-13 | a `# T` line, T not starting with `#`, becomes `# {emoji of T} T` |
| MarkdownBackend.H2Line | aicv/backend/markdown.py:14-19 | a `## T` line, T not starting with `#`, becomes `## {emoji of T} T` |
| MarkdownBackend.OtherLinesUnchanged | aicv/backend/markdown.py:9-15 | deeper headings, and headings whose text starts with `#`, are left alone |
| MarkdownBackend.H1Twice | aicv/backend/markdown.py:7-20 | the function is not idempotent: a second call puts a second emoji in front of the first |
| MarkdownBackend.FormatWebsite | aicv/backend/markdown.py:23-28 | the intended `format_website`: nothing without a display text, otherwise a link that shows the display text and targets the address |
| MarkdownBackend.WebsiteLink | aicv/backend/markdown.py:23-28 | with a scheme, the intended link shows the address without it and targets the whole address, while the method as written raises |
| MarkdownBackend.FormatSocial | aicv/backend/markdown.py:30-38 | the intended social link is `[@handle](url)` from the shared `parse_social_info`, also for a missing value; only an object value raises |
| MarkdownBackend.GithubLinkForms | aicv/backend/markdown.py:35-38 | the profile URL, the `@` handle and the bare name give the same intended GitHub link, while the method as written raises |
| MarkdownBackend.FormatGithub | aicv/backend/markdown.py:35-38 | the intended link fails exactly for a truthy object value, and a falsy value gives an empty link |
| MarkdownBackend.FormatLinkedin | aicv/backend/markdown.py:30-33 | the intended link fails exactly for a truthy object value, and a falsy value gives an empty link |
| MarkdownBackend.FormatEmail | aicv/backend/markdown.py:40-44 | a falsy e-mail gives nothing, otherwise a `mailto:` link that shows the address |
| MarkdownBackend.EmailAgreesWithShared | aicv/backend/markdown.py:40-44 | the backend's e-mail entry equals the one `format_personal_info` builds for Markdown, objects included |
| MarkdownBackend.FormatPhone | aicv/backend/markdown.py:46-48 | a falsy phone gives the empty text and a string phone its own text |
| MarkdownBackend.FormatField | aicv/backend/markdown.py:50-52 | `format_field` on this formatter agrees with the shared one, except that the address reaches a `format_address` that accepts the passed value |
| MarkdownBackend.InfoLines | aicv/backend/markdown.py:58-67 | one `- **caption**: value` line per field, in order, and the block raises exactly when one of its fields does |
| MarkdownBackend.CreateMarkdown | aicv/backend/markdown.py:54-68 | the result is the block of information lines, starting with the name line, then a blank line and the content as given |
| MarkdownBackend.FormatFieldIntended | aicv/backend/personal_info.py:47-75 | `format_field` with each method called without the value: an empty value gives the empty text, fields without a method of their own agree with `format_field` as written, a shown e-mail gives the backend's `mailto:` link and a shown website its link, and only a GitHub or LinkedIn object fails |
| MarkdownBackend.EmailFieldIntended | aicv/backend/personal_info.py:47-75 | for a non-empty e-mail string, `format_field` as written raises and the intended dispatch gives `[e](mailto:e)` |
| MarkdownBackend.CreateMarkdownRaises | aicv/backend/markdown.py:59-66 | `create_markdown` raises exactly when the name, phone, e-mail, website, GitHub or date of birth has a value |
| MarkdownBackend.CreateMarkdownBlock | aicv/backend/markdown.py:58-68 | when nothing raises, the block shows the position and the address, and every other line its caption only |
| MarkdownBackend.DispatchedRaises | aicv/backend/personal_info.py:48-73 | every dispatched field but the address raises exactly when it has a value |
| ModernCv.AddSectionEmojis | aicv/backend/moderncv.py:11-15 | the LaTeX formatter adds no emojis: the content comes back unchanged |
| ModernCv.FormatWebsite | aicv/backend/moderncv.py:18-23 | the homepage command holds the website's display text, and there is no command exactly when that text is empty |
| ModernCv.HomepageOfScheme | aicv/backend/moderncv.py:18-23 | a website given as `scheme://rest`, as a string or as a `url` entry, is shown as `\homepage{rest}` |
| ModernCv.FormatSocial | aicv/backend/moderncv.py:25-33 | the `\social[kind]{…}` command is there even for a missing value (empty braces) and holds the user name taken with an empty handle prefix; it raises exactly for a non-empty object |
| ModernCv.GithubForms | aicv/backend/moderncv.py:30-33 | the profile URL and the bare user name give the same `\social[github]{u}`; an `@u` handle is kept with its `@` |
| ModernCv.HandleKept | aicv/backend/moderncv.py:27 | with the empty handle prefix, `@u` is a user name of its own and comes back as `@u` |
| ModernCv.FormatGithub | aicv/backend/moderncv.py:30-33 | the command fails exactly for a truthy object value, and a falsy value gives `\social[github]{}` |
| ModernCv.FormatLinkedin | aicv/backend/moderncv.py:25-28 | the command fails exactly for a truthy object value, and a falsy value gives `\social[linkedin]{}` |
| ModernCv.Optional | aicv/backend/moderncv.py:35-45 | the email and mobile commands are empty exactly for a falsy value, and otherwise wrap the value |
| ModernCv.FormatEmail | aicv/backend/moderncv.py:35-39 | the email command is empty exactly for a falsy e-mail, and for a string it is `\email{…}` around that string |
| ModernCv.FormatPhone | aicv/backend/moderncv.py:41-45 | the mobile command is empty exactly for a falsy phone, and for a string it is `\mobile{…}` around that string |
| ModernCv.FormatAddress | aicv/backend/moderncv.py:47-51 | the address command is empty exactly for a falsy address; otherwise it holds the LaTeX-escaped address, then two empty arguments |
| ModernCv.AddressPlain | aicv/backend/moderncv.py:47-51 | an address free of LaTeX special characters is shown unchanged |
| ModernCv.FamilyName | aicv/backend/moderncv.py:67-69 | the family name starts with the escaped name and is longer than it exactly for a PhD, the rest then being `, PhD` |
| ModernCv.FamilyNamePlain | aicv/backend/moderncv.py:67-69 | a plain family name is shown unchanged, with `, PhD` added after the escaping for a PhD |
| ModernCv.ForwardSlashesAt | aicv/backend/moderncv.py:81 | the path keeps its length, each backslash becomes a slash and every other character stays |
| ModernCv.PhotoCommand | aicv/backend/moderncv.py:78-89 | no photo command exactly for a falsy photo; it raises exactly for a non-empty object, which has no `replace` |
| ModernCv.PhotoSlashes | aicv/backend/moderncv.py:78-87 | the command for a non-empty path is `\photo[64pt]{…}` around the path, with no backslash in it and every other character in place |
| ModernCv.BibSetup | aicv/backend/moderncv.py:91-102 | the `filecontents` block is empty exactly without BibTeX text, and otherwise holds that text between the fixed opening and closing |
| ModernCv.CreateModerncv | aicv/backend/moderncv.py:53-174 | no document exactly when the GitHub, LinkedIn or photo formatter raises |
| ModernCv.DocumentSlots | aicv/backend/moderncv.py:139-173 | a produced document has one value for each of its thirteen slots |
| ModernCv.CreateModerncvLayout | aicv/backend/moderncv.py:139-173 | the escaped first name, the family name, the address, mobile, e-mail, homepage, GitHub, LinkedIn and photo commands and the content each occur in the document at their slot |
| ModernCv.WithBibliography | aicv/backend/moderncv.py:95-136 | with BibTeX text the document starts with the `filecontents` block, holds the BibLaTeX preamble at its slot, and ends with the print command after the content and the last fixed text |
| ModernCv.WithoutBibliography | aicv/backend/moderncv.py:95-136 | without BibTeX text the three bibliography slots are empty and the BibLaTeX preamble does not change the document |
| ModernCv.DegreeKeepsNames | aicv/backend/moderncv.py:66-72 | the degree entry is not the first or family name, the address or the phone |
| ModernCv.DegreeKeepsLinks | aicv/backend/moderncv.py:73-81 | the degree entry is not the email, website, profiles or photo |
| ModernCv.DegreeOnlyInFamilyNameValue | aicv/backend/moderncv.py:66-89 | with another degree, the document still is produced and its values differ in the family name only |
| ModernCv.SlotsNewFamilyName | aicv/backend/moderncv.py:139-173 | a new family name value changes the family name slot and no other |
| ModernCv.DegreeOnlyInFamilyName | aicv/backend/moderncv.py:66-69 | another degree leaves the document around the family name unchanged: the same text before it and after it |
| PdfConverter.Overlay | aicv/utils/pdf_converter.py:11-37 | the overlay holds the start marker right after the invisible block's opening, the JSON text after it on its own line, and the end marker on the line after that |
| PdfConverter.OverlayOrder | aicv/utils/pdf_converter.py:25-35 | the start marker, the JSON text and the end marker occur in that order, without overlapping |
| PdfConverter.OrEmpty | aicv/utils/pdf_converter.py:122-124 | a missing or empty list is passed on as `[]`, any other list as it is |
| PdfConverter.ModifyHtml | aicv/utils/pdf_converter.py:40-133 | the style sheet is always inserted; the overlay, holding the JSON text of the three lists with `[]` for the missing ones, is added exactly when one of the lists is given and not empty |
| PdfConverter.CssWithoutHead | aicv/utils/pdf_converter.py:115-117 | a page without `</head>` gets a new head holding the style sheet in front of it, and the page follows unchanged |
| PdfConverter.CssOneHead | aicv/utils/pdf_converter.py:113-114 | in a page with one `</head>` the style sheet and a newline go right before it, and nothing else changes |
| PdfConverter.OverlayOneBody | aicv/utils/pdf_converter.py:128-129 | in a page with one `<body>` the overlay follows it after a newline, and nothing else changes |
| PdfConverter.OverlayWithoutBody | aicv/utils/pdf_converter.py:130-131 | a page without `<body>` starts with the overlay and a newline, and the page follows unchanged |
| PdfConverter.InsertCss | aicv/utils/pdf_converter.py:113-117 | a page with `</head>` then holds the style sheet right before a `</head>`; any other page is the new head with the sheet followed by the page |
| PdfConverter.InsertOverlay | aicv/utils/pdf_converter.py:128-131 | a page with `<body>` then holds the overlay right after a `<body>` and a newline; any other page is the overlay and a newline followed by the page |
| PdfConverter.NoDataNoOverlay | aicv/utils/pdf_converter.py:120 | lists that are all missing or empty give the same page as no lists at all, whatever the JSON encoder |
| Strings.LastIndexAt | aicv/utils/pdf_converter.py:157 | a position holding the character with none after it is the last index |
| PdfConverter.SplitExt | aicv/utils/pdf_converter.py:157 | the root and the extension put together are the path, and the extension is empty or a dot followed by no slash |
| PdfConverter.PdfPath | aicv/utils/pdf_converter.py:155-159 | a non-empty PDF path is kept; a missing or empty one is replaced by the default name (`PdfPathOfHtmlDefault` gives it for `base.html`) |
| PdfConverter.PdfPathOfHtml | aicv/utils/pdf_converter.py:155-159 | with no PDF path, `base.html` gives `base_ats.pdf` for the ATS variant and `base.pdf` otherwise, whenever the last component of `base` holds a character other than a dot |
| PdfConverter.PdfPathOfHtmlDefault | aicv/utils/pdf_converter.py:155-159 | with a missing or empty PDF path, `base.html` gives `base_ats.pdf` or `base.pdf` whenever the last component of `base` holds a character other than a dot |
| PdfConverter.DefaultPdfPath | aicv/utils/pdf_converter.py:224-229 | the default path always ends with `_ats.pdf` for the ATS variant and with `.pdf` otherwise |
| PdfConverter.SplitExtAt | aicv/utils/pdf_converter.py:157 | `splitext` cuts at the last dot when a character other than a dot precedes it in the last path component |
| Strings.LastIndexAppend | aicv/utils/pdf_converter.py:157 | text appended without the character leaves its last index unchanged |
| PdfConverter.PdfPathOfHiddenName | aicv/utils/pdf_converter.py:224-229 | a file called `.html` has no extension, so its whole name stays in front of the suffix |
| PdfConverter.PdfPathOther | aicv/utils/pdf_converter.py:224-229 | a path not ending in `.html` gives the fixed name `cv_ats.pdf` or `cv.pdf` |
| PdfConverter.PageNumbersOneStyle | aicv/utils/pdf_converter.py:171-185 | in a page with one `</style>` the page-number style and a newline go right before it, and nothing else changes |
| PdfConverter.PageNumbersWithoutStyle | aicv/utils/pdf_converter.py:236-250 | a page without `</style>` gets no page numbers and is left as it is |
| PdfConverter.AddPageNumbers | aicv/utils/pdf_converter.py:250 | a page with `</style>` then holds the page-number style right before a `</style>`; a page without one is left as it is |
| PdfConverter.AtsPageNumbers | aicv/utils/pdf_converter.py:165-185 | for a page with one `</head>` and no `</style>`, and no lists, the page-number style lands inside the inserted ATS style sheet, right before its `</style>` |
| PdfConverter.AtsHtml | aicv/utils/pdf_converter.py:165-185 | the ATS variant renders the page with the ATS changes, and then with the page-number style when asked for (`AtsPageNumbers` gives the result in full) |
| PdfConverter.PlainHtml | aicv/utils/pdf_converter.py:235-250 | the plain variant renders the page as read, with the page-number style only when asked for (`PlainHtmlOneStyle`, `PlainHtmlWithoutStyle`) |
| PdfConverter.PlainHtmlOneStyle | aicv/utils/pdf_converter.py:235-250 | in a page with one `</style>` the plain variant puts the page-number style right before it when asked for, and otherwise leaves the page as read |
| PdfConverter.PlainHtmlWithoutStyle | aicv/utils/pdf_converter.py:235-250 | a page without `</style>` comes out of the plain variant as read, page numbers asked for or not |
| HtmlGenerator.Need | aicv/utils/html_generator.py:24 | indexing the personal information, or one of its objects, succeeds exactly for a key that is there, with its value; otherwise it is a `KeyError` for that key |
| HtmlGenerator.HeadingName | aicv/utils/html_generator.py:27-34 | a name mentioning a PhD is shown without the mention and with `,<br>PhD` after it; any other name as it is |
| HtmlGenerator.HeadingIsPhdName | aicv/utils/html_generator.py:27-34 | the heading name is the one the shared PhD name formatter gives for HTML |
| HtmlGenerator.PhdName | aicv/utils/html_generator.py:29-34 | for a name `base, PhD` (any spelling of the degree), `base` holding neither `PhD` nor `Ph.D`, the title shows `base` and the heading `base,<br>PhD` |
| HtmlGenerator.MailUrl | aicv/utils/html_generator.py:554-556 | `mailto:` is put in front of the address exactly when it holds `@` and starts with neither `mailto:` nor `http`; otherwise the address is kept |
| HtmlGenerator.MailUrlIdempotent | aicv/utils/html_generator.py:554-556 | completing an address twice gives the same as once |
| HtmlGenerator.EmailLine | aicv/utils/html_generator.py:550-560 | a string address links to `mailto:` and itself; an object needs both `text` and `url`, links its completed `url` and shows its `text`, and otherwise raises `KeyError` for `text` or `url` |
| HtmlGenerator.WebUrl | aicv/utils/html_generator.py:566-568 | the address starts with `http`: it is kept exactly when it already did, and otherwise gets `https://` in front |
| HtmlGenerator.WebsiteLine | aicv/utils/html_generator.py:562-573 | the text shown loses every `https://`; a string links to `https://` and that text, an object needs `text` and `url` and links its completed `url` |
| HtmlGenerator.WebsiteLinePlain | aicv/utils/html_generator.py:570-573 | an address without `https://` is shown unchanged and linked with `https://` in front |
| HtmlGenerator.GithubUrl | aicv/utils/html_generator.py:580-585 | the address starts with `http`: one that already does is kept, any other gets `https://github.com/` in front, in every branch |
| HtmlGenerator.GithubUrlIdempotent | aicv/utils/html_generator.py:580-585 | completing an address twice gives the same as once |
| HtmlGenerator.GithubLine | aicv/utils/html_generator.py:575-589 | nothing for a falsy value; a string links to its GitHub profile and shows the name; an object needs `text` and `url` and links its completed `url` |
| HtmlGenerator.BirthLine | aicv/utils/html_generator.py:591-593 | the line is empty exactly for a falsy date of birth, and otherwise shows it |
| HtmlGenerator.Contacts | aicv/utils/html_generator.py:550-593 | with the four keys there, the contact lines are produced exactly when each line is, and are the email, website, GitHub and birth lines in that order; a missing key or object entry is the `KeyError` reported |
| HtmlGenerator.CreateStyledHtml | aicv/utils/html_generator.py:20-612 | a missing name raises `KeyError`, an object name `AttributeError`; the page is produced exactly when the head's keys are there with a string name and the contact lines are produced, and holds the title, heading, head fields, contact lines and content in their slots |
| HtmlGenerator.StyledHtmlLayout | aicv/utils/html_generator.py:37-610 | the page starts with the fixed opening and the title's name, holds the heading and the contact lines at their slots, and ends with the content and the fixed closing |
| HtmlGenerator.MissingHeadKey | aicv/utils/html_generator.py:24-560 | with a string name, the first of `position`, `address`, `phone` and `email` that is missing is the `KeyError` |
| HtmlGenerator.StyledHtmlOfStrings | aicv/utils/html_generator.py:558-593 | with every key there and string values, the page is produced, and the contact lines are the `mailto:` link, the `https://` link, the GitHub line for a non-empty name, and the birth line |
| Substitution.LazyUntil | aicv/backend/personal_info.py:85 | the lazy `.*?` group ends at the first occurrence of the pattern reached without crossing a newline; none is found exactly when every occurrence lies past a newline |
| Substitution.LazyUntilAt | aicv/backend/personal_info.py:85 | an occurrence with no newline and no earlier occurrence before it is where the lazy group ends |
| Substitution.StripScheme | aicv/backend/personal_info.py:85 | what is left is a suffix of the address, and an address without `://` is kept whole |
| Substitution.StripSchemeOf | aicv/backend/personal_info.py:85 | for `scheme://rest`, with no `:` or newline in the scheme, exactly `rest` is left |
| Strings.LStripChars | aicv/backend/personal_info.py:109 | `lstrip(chars)` removes a leading run of the characters, up to the first other character |
| Strings.RStripChars | aicv/backend/personal_info.py:107 | `rstrip(chars)` removes a trailing run of the characters, back to the last other character |
| Strings.LStripSpec | aicv/backend/personal_info.py:104 | `lstrip()` removes exactly the leading run of whitespace |
| Strings.RStripSpec | aicv/backend/personal_info.py:104 | `rstrip()` removes exactly the trailing run of whitespace |
| Strings.Lower | aicv/renderers/employment.py:36 | lowering keeps the length and lowers each ASCII capital in place |
| Strings.LowerIdempotent | aicv/utils/text_processing.py:66 | lowering twice gives the same as once |

## Left out

- File and process I/O is not modelled: `embed_photo`, `create_html_file` in both files, the file reads and `json.load` of the renderers, WeasyPrint and its temporary files, `load_json_data_for_ats`, and aicv/utils/latex_compiler.py (which runs pdflatex and bibtex). `embed_photo`'s markup, file existence and JSON loading are parameters.
- aicv/main.py, aicv/core/processor.py, aicv/__init__.py and the test scripts are command-line and wrapper code and are not part of this model.
- Running a snippet, the Markdown converter, `json.dumps` and `repr` are calls into code the model cannot see, so they are function parameters. Capturing and restoring `sys.stdout` is not modelled: a snippet's outcome is the text it printed or an exception.
- The static style sheets, document templates, icon markup, ATS style sheet, overlay markup, page-number style and BibLaTeX preamble are parameters. Only their slots are modelled.
- Lowercasing treats ASCII letters only, because Python's full Unicode case mapping is out of scope.
- The emoji character classes of aicv/backend/html.py:116 and aicv/utils/text_processing.py:92 are abstract predicates, not the exact astral Unicode ranges.
- `escape_latex` on a value that is not a string (its `str(text)` path) is not modelled: the model takes strings.
- Records.Education, Records.Job and Records.Publication: each key is absent or holds a value of its one expected type (`Option<string>`, `Option<int>` or `Option<seq<string>>`), so a JSON `null` or a value of another type is not modelled. In the source such values take other paths: a `null` dissertation prints `None` (aicv/renderers/education.py:17-18), a `null` volume prints `, None` (aicv/renderers/publications.py:94-95), a `null` citation count makes `sorted` raise `TypeError` (aicv/renderers/publications.py:27) where the model can only treat an absent count as 0, and a string `focus_areas` is joined character by character (aicv/renderers/education.py:19-20).
- Records.Document: a key holding JSON `null` is treated as an absent key, so the model moves on to the next key or prints the invalid-format line, where the source finds the key and its renderer raises `TypeError` on iterating `None` (aicv/renderers/__init__.py:25-30, pymd.py:66-71). A `null` list is not modelled, to keep one `Option` per key.
- PdfConverter.SplitExt: models POSIX `os.path.splitext`, with `/` as the only separator and leading dots of the last component skipped; the Windows separators of `ntpath` are not modelled, as with `dirname`, `basename` and `join` in RenderDispatch.
- Personal-information values are strings or objects of strings: numbers, lists and `None` as values are not modelled, to keep a single field type. The text of an object, `str()` in the source, is the `repr` parameter.
- The `paper_size` argument of both PDF converters is not modelled, because the source never uses it.
- `render_with_backend` in aicv/core/extensions.py:56 calls `render` with three arguments, while `render` takes one. That call is not modelled.
- The unused `emojis` parameter of `create_markdown` is not modelled.
- Snippets of aicv/core/extensions.py run in a fresh namespace, so their `exec` parameter sees only the snippet's code. The shared `globals()` of pymd.py is modelled by passing the code of the earlier snippets (`executed`) to `exec` as well.
- PersonalInfoFormatter.FormatField: the `TypeError` that arises when a value is passed to a zero-argument method is modelled as `None`, without the exception's message.
- HtmlBackend.CreateHtmlLayout: states where the content stands, not that it occurs nowhere else in the page, because the template pieces are parameters.
- HtmlGenerator.StyledHtmlLayout: states that the content stands right before the closing text, not that it occurs exactly once, because the template pieces are parameters.
- ModernCv.CreateModerncvLayout: places the content at its slot and before the print command. How it stands relative to `\maketitle` depends on the template parameter, and that it occurs only once is not stated.

## Findings

| source | as written | input that shows it | evidently intended | confidence | as-written member | corrected member |
|---|---|---|---|---|---|---|
| aicv/backend/markdown.py:23-28 | `format_website` calls `parse_website_info` as a bare name, which the module neither defines nor imports, and links to the unassigned `website_url`; every call raises `NameError` | a personal information with website `"https://example.org"` | the inherited `PersonalInfoFormatter.parse_website_info`, giving the link `[example.org](https://example.org)` | not executed | MarkdownBackend.FormatWebsiteAsWritten (exhibited by MarkdownBackend.WebsiteLink) | MarkdownBackend.FormatWebsite |
| aicv/backend/markdown.py:30-38 | `format_linkedin` and `format_github` call `parse_social_info` as a bare name; every call raises `NameError` | a personal information with github `"octocat"` | the inherited `PersonalInfoFormatter.parse_social_info`, giving `[@octocat](https://github.com/octocat)` | not executed | MarkdownBackend.FormatSocialAsWritten (exhibited by MarkdownBackend.GithubLinkForms) | MarkdownBackend.FormatSocial |
| aicv/backend/personal_info.py:47-75 | `format_field` passes the value to the field's own method, and every such method except the Markdown `format_address` takes no argument; `create_markdown` therefore raises `TypeError` whenever the name, phone, e-mail, website, GitHub or date of birth has a value | a personal information with email `"a@b.c"` | call the method without the value, giving the line `- **Email**: [a@b.c](mailto:a@b.c)` | not executed | MarkdownBackend.FormatField (exhibited by MarkdownBackend.CreateMarkdownRaises and MarkdownBackend.EmailFieldIntended) | MarkdownBackend.FormatFieldIntended |
