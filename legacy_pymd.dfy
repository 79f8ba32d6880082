/**
 * The stand-alone script pymd.py: an older `PyMdPreprocessor.run` and the
 * first versions of the section renderers, with plain headings and no
 * emoji, and `render`, which prints the rendering of a data file.
 */
module LegacyPyMd {
  import opened Strings
  import opened Records
  import opened Sorting
  import opened Citations
  import Preprocessor
  import EducationRenderer

  /**
   * `exec('\n'.join(code), globals())` with stdout captured. The snippets
   * share the script's globals, so what one prints may depend on the
   * snippets run before it: the executor is given their code, oldest first,
   * along with the code to run.
   */
  type SharedExec = (seq<string>, string) -> Preprocessor.Outcome

  /** The loop variables of `run`, and the code executed so far. */
  datatype LegacyState = LegacyState(out: seq<string>, code: seq<string>, inBlock: bool, executed: seq<string>)

  /** One iteration of the loop; `None` when the snippet raised. */
  function Step(exec: SharedExec, st: LegacyState, line: string): Option<LegacyState> {
    if Preprocessor.IsOpenFence(line) then
      Some(st.(inBlock := true, code := []))
    else if Preprocessor.IsCloseFence(line) && st.inBlock then
      var code := Join(st.code, "\n");
      match exec(st.executed, code)
      case Raised => None
      case Printed(o) => Some(st.(inBlock := false, out := st.out + SplitLines(o), executed := st.executed + [code]))
    else if st.inBlock then
      Some(st.(code := st.code + [line]))
    else
      Some(st.(out := st.out + [line]))
  }

  function Scan(exec: SharedExec, st: LegacyState, lines: seq<string>): Option<LegacyState>
    decreases |lines|
  {
    if lines == [] then Some(st)
    else
      match Scan(exec, st, lines[..|lines| - 1])
      case None => None
      case Some(t) => Step(exec, t, lines[|lines| - 1])
  }

  /** The state `run` starts in, after the snippets `executed` of earlier runs. */
  function Initial(executed: seq<string>): LegacyState {
    LegacyState([], [], false, executed)
  }

  function Output(r: Option<LegacyState>): Option<seq<string>> {
    match r
    case None => None
    case Some(t) => Some(t.out)
  }

  /** What `run(lines)` returns; `None` stands for the exception a snippet raised. */
  function RunSpec(exec: SharedExec, executed: seq<string>, lines: seq<string>): Option<seq<string>> {
    Output(Scan(exec, Initial(executed), lines))
  }

  /** `run`, loop for loop. */
  method Run(exec: SharedExec, executed: seq<string>, lines: seq<string>) returns (r: Option<seq<string>>)
    ensures r == RunSpec(exec, executed, lines)
  {
    var newLines: seq<string> := [];
    var pymdBlock := false;
    var pymdCode: seq<string> := [];
    var history := executed;
    var i := 0;
    while i < |lines|
      invariant 0 <= i <= |lines|
      invariant Scan(exec, Initial(executed), lines[..i]) == Some(LegacyState(newLines, pymdCode, pymdBlock, history))
    {
      var line := lines[i];
      assert lines[..i + 1][..i] == lines[..i];
      if StartsWith(Strip(line), "```pymd") {
        pymdBlock := true;
        pymdCode := [];
      } else if Strip(line) == "```" && pymdBlock {
        pymdBlock := false;
        var code := Join(pymdCode, "\n");
        var outcome := exec(history, code);
        if outcome.Raised? {
          assert Scan(exec, Initial(executed), lines[..i + 1]) == None;
          ScanAppend(exec, Initial(executed), lines[..i + 1], lines[i + 1..]);
          assert lines[..i + 1] + lines[i + 1..] == lines;
          return None;
        }
        newLines := newLines + SplitLines(outcome.text);
        history := history + [code];
      } else if pymdBlock {
        pymdCode := pymdCode + [line];
      } else {
        newLines := newLines + [line];
      }
      i := i + 1;
    }
    assert lines[..i] == lines;
    return Some(newLines);
  }

  lemma {:induction false} ScanAppend(exec: SharedExec, st: LegacyState, xs: seq<string>, ys: seq<string>)
    ensures Scan(exec, st, xs + ys) ==
            match Scan(exec, st, xs)
            case None => None
            case Some(t) => Scan(exec, t, ys)
    decreases |ys|
  {
    if ys == [] {
      assert xs + ys == xs;
    } else {
      var zs := ys[..|ys| - 1];
      assert (xs + ys)[..|xs + ys| - 1] == xs + zs;
      assert (xs + ys)[|xs + ys| - 1] == ys[|ys| - 1];
      ScanAppend(exec, st, xs, zs);
    }
  }

  /** Outside a block, lines that open no block are copied to the output as they are. */
  lemma {:induction false} ScanPlain(exec: SharedExec, st: LegacyState, a: seq<string>)
    requires !st.inBlock
    requires forall i :: 0 <= i < |a| ==> !Preprocessor.IsOpenFence(a[i])
    ensures Scan(exec, st, a) == Some(st.(out := st.out + a))
    decreases |a|
  {
    if a != [] {
      var init := a[..|a| - 1];
      ScanPlain(exec, st, init);
      assert init + [a[|a| - 1]] == a;
      assert (st.out + init) + [a[|a| - 1]] == st.out + a;
    } else {
      assert st.out + a == st.out;
    }
  }

  /** Inside a block, lines that are not fences are collected as code. */
  lemma {:induction false} ScanCode(exec: SharedExec, st: LegacyState, c: seq<string>)
    requires st.inBlock
    requires forall i :: 0 <= i < |c| ==> !Preprocessor.IsOpenFence(c[i]) && !Preprocessor.IsCloseFence(c[i])
    ensures Scan(exec, st, c) == Some(st.(code := st.code + c))
    decreases |c|
  {
    if c != [] {
      var init := c[..|c| - 1];
      ScanCode(exec, st, init);
      assert init + [c[|c| - 1]] == c;
      assert (st.code + init) + [c[|c| - 1]] == st.code + c;
    } else {
      assert st.code + c == st.code;
    }
  }

  /** Without an opening fence, `run` returns its input. */
  lemma CopiesWithoutBlocks(exec: SharedExec, executed: seq<string>, lines: seq<string>)
    requires forall i :: 0 <= i < |lines| ==> !Preprocessor.IsOpenFence(lines[i])
    ensures RunSpec(exec, executed, lines) == Some(lines)
  {
    ScanPlain(exec, Initial(executed), lines);
    assert [] + lines == lines;
  }

  /** `p` prefixes the output of `st1` relative to `st2`, and everything else that matters agrees. */
  predicate Related(p: seq<string>, st1: LegacyState, st2: LegacyState) {
    st1.out == p + st2.out
    && st1.inBlock == st2.inBlock
    && (st1.inBlock ==> st1.code == st2.code)
    && st1.executed == st2.executed
  }

  /** One step keeps two related states related. */
  lemma StepRelated(exec: SharedExec, p: seq<string>, t1: LegacyState, t2: LegacyState, line: string)
    requires Related(p, t1, t2)
    ensures Step(exec, t1, line).Some? == Step(exec, t2, line).Some?
    ensures Step(exec, t1, line).Some? ==> Related(p, Step(exec, t1, line).value, Step(exec, t2, line).value)
  {
    if !Preprocessor.IsOpenFence(line) && !(Preprocessor.IsCloseFence(line) && t1.inBlock) && !t1.inBlock {
      assert (p + t2.out) + [line] == p + (t2.out + [line]);
    } else if !Preprocessor.IsOpenFence(line) && Preprocessor.IsCloseFence(line) && t1.inBlock {
      match exec(t1.executed, Join(t1.code, "\n"))
      case Raised =>
      case Printed(o) =>
        assert (p + t2.out) + SplitLines(o) == p + (t2.out + SplitLines(o));
    }
  }

  lemma {:induction false} ScanRelated(exec: SharedExec, p: seq<string>, st1: LegacyState, st2: LegacyState, lines: seq<string>)
    requires Related(p, st1, st2)
    ensures Scan(exec, st1, lines).Some? == Scan(exec, st2, lines).Some?
    ensures Scan(exec, st1, lines).Some? ==> Related(p, Scan(exec, st1, lines).value, Scan(exec, st2, lines).value)
    decreases |lines|
  {
    if lines != [] {
      var init := lines[..|lines| - 1];
      ScanRelated(exec, p, st1, st2, init);
      if Scan(exec, st1, init).Some? {
        StepRelated(exec, p, Scan(exec, st1, init).value, Scan(exec, st2, init).value, lines[|lines| - 1]);
      }
    }
  }

  /**
   * A document made of lines `a` outside any block, one terminated block
   * with code `c`, and a rest `b`: `a` is copied, the lines the snippet
   * printed follow, then what `b` gives once that snippet has run. The
   * fence and code lines are gone.
   */
  lemma Compose(exec: SharedExec, executed: seq<string>, a: seq<string>, open: string, c: seq<string>, close: string, b: seq<string>)
    requires forall i :: 0 <= i < |a| ==> !Preprocessor.IsOpenFence(a[i])
    requires Preprocessor.IsOpenFence(open) && Preprocessor.IsCloseFence(close)
    requires forall i :: 0 <= i < |c| ==> !Preprocessor.IsOpenFence(c[i]) && !Preprocessor.IsCloseFence(c[i])
    ensures RunSpec(exec, executed, a + [open] + c + [close] + b) ==
            match exec(executed, Join(c, "\n"))
            case Raised => None
            case Printed(o) => Prepend(a + SplitLines(o), RunSpec(exec, executed + [Join(c, "\n")], b))
  {
    Preprocessor.CloseIsNotOpen(close);
    var st0 := Initial(executed);
    ScanBlock(exec, executed, a, open, c, close);
    ScanAppend(exec, st0, a + [open] + c + [close], b);
    match exec(executed, Join(c, "\n"))
    case Raised =>
    case Printed(o) =>
      var w := LegacyState(a + SplitLines(o), c, false, executed + [Join(c, "\n")]);
      var st1 := Initial(executed + [Join(c, "\n")]);
      assert Related(a + SplitLines(o), w, st1);
      ScanRelated(exec, a + SplitLines(o), w, st1, b);
  }

  /** Up to its closing fence, the block is collected and then run once. */
  lemma ScanBlock(exec: SharedExec, executed: seq<string>, a: seq<string>, open: string, c: seq<string>, close: string)
    requires forall i :: 0 <= i < |a| ==> !Preprocessor.IsOpenFence(a[i])
    requires Preprocessor.IsOpenFence(open) && Preprocessor.IsCloseFence(close)
    requires forall i :: 0 <= i < |c| ==> !Preprocessor.IsOpenFence(c[i]) && !Preprocessor.IsCloseFence(c[i])
    ensures Scan(exec, Initial(executed), a + [open] + c + [close]) ==
            match exec(executed, Join(c, "\n"))
            case Raised => None
            case Printed(o) => Some(LegacyState(a + SplitLines(o), c, false, executed + [Join(c, "\n")]))
  {
    Preprocessor.CloseIsNotOpen(close);
    var st0 := Initial(executed);
    ScanPlain(exec, st0, a);
    assert [] + a == a;
    var u := LegacyState(a, [], true, executed);
    ScanAppend(exec, st0, a, [open]);
    assert Scan(exec, st0, a + [open]) == Some(u);
    ScanCode(exec, u, c);
    assert [] + c == c;
    ScanAppend(exec, st0, a + [open], c);
    ScanAppend(exec, st0, a + [open] + c, [close]);
  }

  function Prepend(p: seq<string>, r: Option<seq<string>>): Option<seq<string>> {
    match r
    case None => None
    case Some(x) => Some(p + x)
  }

  /** The code of a block nobody closes is silently dropped: neither run nor copied. */
  lemma Unterminated(exec: SharedExec, executed: seq<string>, a: seq<string>, open: string, c: seq<string>)
    requires Preprocessor.IsOpenFence(open)
    requires forall i :: 0 <= i < |c| ==> !Preprocessor.IsCloseFence(c[i])
    ensures RunSpec(exec, executed, a + [open] + c) == RunSpec(exec, executed, a)
  {
    var st0 := Initial(executed);
    ScanAppend(exec, st0, a + [open], c);
    ScanAppend(exec, st0, a, [open]);
    match Scan(exec, st0, a)
    case None =>
    case Some(t) =>
      var u := t.(inBlock := true, code := []);
      assert Scan(exec, st0, a + [open]) == Some(u);
      InBlockWithoutClose(exec, u, c);
  }

  lemma {:induction false} InBlockWithoutClose(exec: SharedExec, st: LegacyState, c: seq<string>)
    requires st.inBlock
    requires forall i :: 0 <= i < |c| ==> !Preprocessor.IsCloseFence(c[i])
    ensures Scan(exec, st, c).Some?
    ensures Scan(exec, st, c).value.out == st.out && Scan(exec, st, c).value.inBlock
    decreases |c|
  {
    if c != [] {
      InBlockWithoutClose(exec, st, c[..|c| - 1]);
    }
  }

  /** The two scanners side by side: the buffered plain lines of the newer one are already output here. */
  predicate Simulates(st: LegacyState, pst: Preprocessor.ScanState) {
    st.out == pst.out + pst.buffer
    && st.inBlock == pst.inBlock
    && (st.inBlock ==> st.code == pst.code && pst.buffer == [])
  }

  lemma {:induction false} ScanSimulates(exec: SharedExec, ext: Preprocessor.Exec, s: Preprocessor.Settings,
                                         convert: Preprocessor.Convert, executed: seq<string>, lines: seq<string>)
    requires s.backend == "markdown"
    requires forall h, code :: exec(h, code) == ext(code, s)
    ensures Scan(exec, Initial(executed), lines).Some? == Preprocessor.Scan(s, ext, convert, Preprocessor.Start, lines).Some?
    ensures Scan(exec, Initial(executed), lines).Some? ==>
      Simulates(Scan(exec, Initial(executed), lines).value, Preprocessor.Scan(s, ext, convert, Preprocessor.Start, lines).value)
    decreases |lines|
  {
    if lines != [] {
      var init := lines[..|lines| - 1];
      ScanSimulates(exec, ext, s, convert, executed, init);
      if Scan(exec, Initial(executed), init).Some? {
        var t := Scan(exec, Initial(executed), init).value;
        var pt := Preprocessor.Scan(s, ext, convert, Preprocessor.Start, init).value;
        var line := lines[|lines| - 1];
        if Preprocessor.IsOpenFence(line) {
        } else if Preprocessor.IsCloseFence(line) && t.inBlock {
          match ext(Join(t.code, "\n"), s)
          case Raised =>
          case Printed(o) =>
            assert pt.buffer == [] && pt.out + [] == pt.out;
            assert (pt.out + SplitLines(o)) + [] == pt.out + SplitLines(o);
        } else if t.inBlock {
        } else {
          assert (pt.out + pt.buffer) + [line] == pt.out + (pt.buffer + [line]);
        }
      }
    }
  }

  /**
   * When no snippet depends on the ones before it, the old `run` and the
   * new one with the `markdown` backend return the same lines: buffering
   * the plain lines and flushing them before each block and at the end
   * changes nothing when the flush copies them verbatim.
   */
  lemma SameAsMarkdownBackend(exec: SharedExec, ext: Preprocessor.Exec, s: Preprocessor.Settings,
                              convert: Preprocessor.Convert, executed: seq<string>, lines: seq<string>)
    requires s.backend == "markdown"
    requires forall h, code :: exec(h, code) == ext(code, s)
    ensures RunSpec(exec, executed, lines) == Preprocessor.RunSpec(s, ext, convert, lines)
  {
    ScanSimulates(exec, ext, s, convert, executed, lines);
    if Scan(exec, Initial(executed), lines).Some? {
      var pt := Preprocessor.Scan(s, ext, convert, Preprocessor.Start, lines).value;
      if pt.buffer == [] {
        assert pt.out + [] == pt.out;
      }
    }
  }

  // ---------------------------------------------------------------------
  // render_education

  const EducationHeader: string := "# Education\n"

  /** The four lines every entry has: heading, institution, location, dates. */
  function EducationLines(degree: string, institution: string, location: string, dates: string): string {
    "## " + degree + "\n"
    + "- **Institution:** " + institution + "\n"
    + "- **Location:** " + location + "\n"
    + "- **Dates:** " + dates + "\n"
  }

  /** One entry, or the `KeyError` of the first key it lacks, in the order degree, institution, location, dates. */
  function EducationEntry(e: Education): Result<string> {
    if e.degree.None? then Err("degree")
    else if e.institution.None? then Err("institution")
    else if e.location.None? then Err("location")
    else if e.dates.None? then Err("dates")
    else
      Ok(EducationLines(e.degree.value, e.institution.value, e.location.value, e.dates.value)
         + EducationRenderer.DissertationLine(e)
         + EducationRenderer.FocusAreasLine(e)
         + "\n")
  }

  function EducationMarkdown(education: seq<Education>): Result<string> {
    PrefixWith(EducationHeader, ConcatMap(education, EducationEntry))
  }

  method RenderEducation(education: seq<Education>) returns (r: Result<string>)
    ensures r == EducationMarkdown(education)
  {
    var md := EducationHeader;
    assert EducationHeader + "" == EducationHeader;
    for i := 0 to |education|
      invariant PrefixWith(EducationHeader, ConcatMap(education[..i], EducationEntry)) == Ok(md)
    {
      var edu := education[i];
      if edu.degree.None? || edu.institution.None? || edu.location.None? || edu.dates.None? {
        ConcatMapStepErr(education, EducationEntry, i);
        return Err(EducationEntry(edu).missing);
      }
      var entry := "## " + edu.degree.value + "\n";
      entry := entry + "- **Institution:** " + edu.institution.value + "\n";
      entry := entry + "- **Location:** " + edu.location.value + "\n";
      entry := entry + "- **Dates:** " + edu.dates.value + "\n";
      assert entry == EducationLines(edu.degree.value, edu.institution.value, edu.location.value, edu.dates.value);
      var dissertation := "";
      if edu.dissertation.Some? {
        dissertation := "- **Dissertation:** " + edu.dissertation.value + "\n";
      }
      var focusAreas := "";
      if edu.focusAreas.Some? {
        focusAreas := "- **Focus Areas:** " + Join(edu.focusAreas.value, ", ") + "\n";
      }
      entry := entry + dissertation + focusAreas + "\n";
      assert entry == EducationEntry(edu).value;
      PrefixStep(EducationHeader, education, EducationEntry, i, md);
      md := md + entry;
    }
    assert education[..|education|] == education;
    return Ok(md);
  }

  /** The output starts with the heading, also for an empty list. */
  lemma EducationStartsWithHeader(education: seq<Education>)
    requires EducationMarkdown(education).Ok?
    ensures StartsWith(EducationMarkdown(education).value, EducationHeader)
    ensures education == [] ==> EducationMarkdown(education) == Ok(EducationHeader)
  {
    assert EducationMarkdown(education).value[..|EducationHeader|] == EducationHeader;
    assert EducationHeader + "" == EducationHeader;
  }

  /** The Dissertation and Focus Areas lines appear exactly when the keys do. */
  lemma OptionalEducationLines(e: Education)
    requires EducationEntry(e).Ok?
    ensures var req := EducationLines(e.degree.value, e.institution.value, e.location.value, e.dates.value);
      (e.dissertation.None? && e.focusAreas.None? ==> EducationEntry(e).value == req + "\n")
      && (e.dissertation.Some? && e.focusAreas.None? ==>
            EducationEntry(e).value == req + "- **Dissertation:** " + e.dissertation.value + "\n" + "\n")
      && (e.dissertation.None? && e.focusAreas.Some? ==>
            EducationEntry(e).value == req + "- **Focus Areas:** " + Join(e.focusAreas.value, ", ") + "\n" + "\n")
      && (e.dissertation.Some? && e.focusAreas.Some? ==>
            EducationEntry(e).value == req + "- **Dissertation:** " + e.dissertation.value + "\n"
                                       + "- **Focus Areas:** " + Join(e.focusAreas.value, ", ") + "\n" + "\n")
  {
    var req := EducationLines(e.degree.value, e.institution.value, e.location.value, e.dates.value);
    assert req + "" == req;
    if e.dissertation.Some? && e.focusAreas.None? {
      var d := "- **Dissertation:** " + e.dissertation.value + "\n";
      assert EducationEntry(e).value == req + d + "" + "\n";
      assert req + d + "" == req + d;
      Assoc(req, "- **Dissertation:** " + e.dissertation.value, "\n");
    }
    if e.dissertation.None? && e.focusAreas.Some? {
      var f := "- **Focus Areas:** " + Join(e.focusAreas.value, ", ") + "\n";
      assert EducationEntry(e).value == req + "" + f + "\n";
      Assoc(req, "- **Focus Areas:** " + Join(e.focusAreas.value, ", "), "\n");
    }
    if e.dissertation.Some? && e.focusAreas.Some? {
      var d := "- **Dissertation:** " + e.dissertation.value + "\n";
      var f := "- **Focus Areas:** " + Join(e.focusAreas.value, ", ") + "\n";
      assert EducationEntry(e).value == req + d + f + "\n";
      var a := "- **Dissertation:** ";
      var b := "- **Focus Areas:** ";
      var j := Join(e.focusAreas.value, ", ");
      Assoc(req, a + e.dissertation.value, "\n");
      Assoc(req, a, e.dissertation.value);
      var x := req + a + e.dissertation.value + "\n";
      assert req + d == x;
      Assoc(x, b + j, "\n");
      Assoc(x, b, j);
      assert x + f == x + b + j + "\n";
    }
  }

  // ---------------------------------------------------------------------
  // render_employment

  const EmploymentHeader: string := "# Employment\n"

  /** One `"  - r\n"` line per responsibility, in order. */
  function Responsibilities(rs: seq<string>): string {
    Printed(seq(|rs|, i requires 0 <= i < |rs| => "  - " + rs[i]))
  }

  lemma ResponsibilitiesSnoc(rs: seq<string>, r: string)
    ensures Responsibilities(rs + [r]) == Responsibilities(rs) + "  - " + r + "\n"
  {
    var ls := seq(|rs|, i requires 0 <= i < |rs| => "  - " + rs[i]);
    assert seq(|rs| + 1, i requires 0 <= i < |rs| + 1 => "  - " + (rs + [r])[i]) == ls + ["  - " + r];
    PrintedSnoc(ls, "  - " + r);
  }

  /** The heading, location and dates lines; the location is `"N/A"` when the key is absent. */
  function JobLines(position: string, company: string, location: Option<string>, dates: string): string {
    "## " + position + " at " + company + "\n"
    + "- **Location:** " + GetOr(location, "N/A") + "\n"
    + "- **Dates:** " + dates + "\n"
  }

  /** One job, or the `KeyError` of the first key it lacks, in the order position, company, dates, responsibilities. */
  function JobEntry(job: Job): Result<string> {
    if job.position.None? then Err("position")
    else if job.company.None? then Err("company")
    else if job.dates.None? then Err("dates")
    else if job.responsibilities.None? then Err("responsibilities")
    else
      Ok(JobLines(job.position.value, job.company.value, job.location, job.dates.value)
         + "- **Responsibilities:**\n"
         + Responsibilities(job.responsibilities.value)
         + "\n")
  }

  function EmploymentMarkdown(employment: seq<Job>): Result<string> {
    PrefixWith(EmploymentHeader, ConcatMap(employment, JobEntry))
  }

  method RenderJob(job: Job) returns (entry: string)
    requires job.position.Some? && job.company.Some? && job.dates.Some? && job.responsibilities.Some?
    ensures Ok(entry) == JobEntry(job)
  {
    entry := "## " + job.position.value + " at " + job.company.value + "\n";
    entry := entry + "- **Location:** " + GetOr(job.location, "N/A") + "\n";
    entry := entry + "- **Dates:** " + job.dates.value + "\n";
    assert entry == JobLines(job.position.value, job.company.value, job.location, job.dates.value);
    entry := entry + "- **Responsibilities:**\n";
    var rs := job.responsibilities.value;
    var bullets := "";
    for k := 0 to |rs|
      invariant bullets == Responsibilities(rs[..k])
    {
      ResponsibilitiesSnoc(rs[..k], rs[k]);
      assert rs[..k + 1] == rs[..k] + [rs[k]];
      bullets := bullets + "  - " + rs[k] + "\n";
    }
    assert rs[..|rs|] == rs;
    entry := entry + bullets + "\n";
  }

  method RenderEmployment(employment: seq<Job>) returns (r: Result<string>)
    ensures r == EmploymentMarkdown(employment)
  {
    var md := EmploymentHeader;
    assert EmploymentHeader + "" == EmploymentHeader;
    for i := 0 to |employment|
      invariant PrefixWith(EmploymentHeader, ConcatMap(employment[..i], JobEntry)) == Ok(md)
    {
      var job := employment[i];
      if job.position.None? || job.company.None? || job.dates.None? || job.responsibilities.None? {
        ConcatMapStepErr(employment, JobEntry, i);
        return Err(JobEntry(job).missing);
      }
      var entry := RenderJob(job);
      PrefixStep(EmploymentHeader, employment, JobEntry, i, md);
      md := md + entry;
    }
    assert employment[..|employment|] == employment;
    return Ok(md);
  }

  /** An absent location is shown as `N/A`; a present one as it is, even when empty. */
  lemma LocationShown(job: Job)
    requires JobEntry(job).Ok?
    ensures StartsWith(JobEntry(job).value,
      "## " + job.position.value + " at " + job.company.value + "\n"
      + "- **Location:** " + (if job.location.Some? then job.location.value else "N/A") + "\n")
  {
    var h := "## " + job.position.value + " at " + job.company.value + "\n"
      + "- **Location:** " + GetOr(job.location, "N/A") + "\n";
    var t := JobEntry(job).value;
    var rest := "- **Dates:** " + job.dates.value + "\n" + "- **Responsibilities:**\n"
      + Responsibilities(job.responsibilities.value) + "\n";
    assert t == h + rest;
    assert t[..|h|] == h;
  }

  /** The responsibilities come out one line each, in order, between the title line and the blank line. */
  lemma OneLinePerResponsibility(rs: seq<string>)
    requires forall i :: 0 <= i < |rs| ==> forall j :: 0 <= j < |rs[i]| ==> !IsLineBreak(rs[i][j])
    ensures SplitLines(Responsibilities(rs)) == seq(|rs|, i requires 0 <= i < |rs| => "  - " + rs[i])
  {
    var ls := seq(|rs|, i requires 0 <= i < |rs| => "  - " + rs[i]);
    forall i | 0 <= i < |ls| ensures forall j :: 0 <= j < |ls[i]| ==> !IsLineBreak(ls[i][j]) {
      assert ls[i] == "  - " + rs[i];
    }
    PrintedLines(ls);
  }

  // ---------------------------------------------------------------------
  // render_publications

  const PublicationsHeader: string := "# Publications\n\n## Peer-Reviewed Publications\n\n"

  /** The citation count, whenever `citations` is present and positive. */
  function LegacySuffix(p: Publication): string {
    if p.citations.Some? && p.citations.value > 0 then CitedSuffix(p.citations.value) else ""
  }

  /** The citation of one entry: no emoji, Markdown emphasis, no `poster` template. */
  function LegacyCitation(p: Publication): Result<string> {
    if p.author.None? then Err("author")
    else
      match Body("", JoinAuthors(FormatAll(p.author.value)), p, Asterisks, false)
      case Err(k) => Err(k)
      case Ok(b) => Ok(b + LegacySuffix(p))
  }

  function LegacyItem(p: Publication): Result<string> {
    match LegacyCitation(p)
    case Err(k) => Err(k)
    case Ok(c) => Ok("- " + c + "\n")
  }

  function PublicationsMarkdown(publications: seq<Publication>): Result<string> {
    PrefixWith(PublicationsHeader, ConcatMap(SortDesc(publications, CitationsKey), LegacyItem))
  }

  method RenderCitation(pub: Publication) returns (r: Result<string>)
    ensures r == LegacyCitation(pub)
  {
    if pub.author.None? {
      return Err("author");
    }
    var authors := FormatAuthors(pub.author.value);
    assert authors == FormatAll(pub.author.value);
    var authorsText := JoinAuthors(authors);
    var citation := BuildBody("", authorsText, pub, Asterisks, false);
    if citation.Err? {
      return citation;
    }
    var suffix := "";
    if pub.citations.Some? && pub.citations.value > 0 {
      suffix := CitedSuffix(pub.citations.value);
    }
    return Ok(citation.value + suffix);
  }

  method RenderPublications(publications: seq<Publication>) returns (r: Result<string>)
    ensures r == PublicationsMarkdown(publications)
  {
    var sortedPublications := SortDesc(publications, CitationsKey);
    var md := PublicationsHeader;
    assert PublicationsHeader + "" == PublicationsHeader;
    for i := 0 to |sortedPublications|
      invariant PrefixWith(PublicationsHeader, ConcatMap(sortedPublications[..i], LegacyItem)) == Ok(md)
    {
      var pub := sortedPublications[i];
      var citation := RenderCitation(pub);
      if citation.Err? {
        ConcatMapStepErr(sortedPublications, LegacyItem, i);
        return Err(citation.missing);
      }
      var item := "- " + citation.value + "\n";
      assert LegacyItem(pub) == Ok(item);
      PrefixStep(PublicationsHeader, sortedPublications, LegacyItem, i, md);
      md := md + item;
    }
    assert sortedPublications[..|sortedPublications|] == sortedPublications;
    return Ok(md);
  }

  /**
   * The output is the fixed heading, then one item per entry, the entries
   * in non-increasing citation order, a permutation of the input, with
   * equal counts keeping their input order.
   */
  lemma PublicationsLayout(publications: seq<Publication>, k: int)
    requires PublicationsMarkdown(publications).Ok?
    ensures StartsWith(PublicationsMarkdown(publications).value, PublicationsHeader)
    ensures var sorted := SortDesc(publications, CitationsKey);
      SortedDesc(sorted, CitationsKey)
      && multiset(sorted) == multiset(publications)
      && WithKey(sorted, CitationsKey, k) == WithKey(publications, CitationsKey, k)
  {
    assert PublicationsMarkdown(publications).value[..|PublicationsHeader|] == PublicationsHeader;
    SortDescSorted(publications, CitationsKey);
    SortDescPermutation(publications, CitationsKey);
    SortDescStable(publications, CitationsKey, k);
  }

  /** `poster` has no template here: a poster renders as its citation count alone. */
  lemma PosterIsUnknown(p: Publication)
    requires PubType(p) == "poster" && p.author.Some?
    ensures LegacyCitation(p) == Ok(LegacySuffix(p))
  {
    assert "" + LegacySuffix(p) == LegacySuffix(p);
  }

  /** The count is shown exactly when `citations` is present and positive, "to appear" or not. */
  lemma LegacyCountShownIff(p: Publication)
    ensures LegacySuffix(p) != "" <==> p.citations.Some? && p.citations.value > 0
  {
  }

  // ---------------------------------------------------------------------
  // render

  /** What `render` prints for a parsed data file. */
  function RenderPrinted(data: Document): Result<string> {
    if data.education.Some? then PrintLine(EducationMarkdown(data.education.value))
    else if data.employment.Some? then PrintLine(EmploymentMarkdown(data.employment.value))
    else if data.publications.Some? then PrintLine(PublicationsMarkdown(data.publications.value))
    else Ok("Invalid data format.\n")
  }

  /**
   * The first key present in the order education, employment, publications
   * decides; the later keys are not looked at. A file with none of them
   * prints the fixed message.
   */
  lemma DispatchOrder(data: Document, employment: Option<seq<Job>>, publications: Option<seq<Publication>>)
    ensures data.education.Some? ==>
      RenderPrinted(data) == RenderPrinted(data.(employment := employment, publications := publications))
    ensures data.education.None? && data.employment.Some? ==>
      RenderPrinted(data) == RenderPrinted(data.(publications := publications))
    ensures data.education.None? && data.employment.None? && data.publications.None? ==>
      RenderPrinted(data) == Ok("Invalid data format.\n")
  {
  }
}
