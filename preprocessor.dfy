/**
 * `PyMdPreprocessor.run` (aicv/core/extensions.py): the line scanner that
 * finds ```` ```pymd ```` blocks, executes the code collected between the
 * fences and puts the lines the code printed in place of the block, while
 * the plain lines between blocks are buffered and flushed according to the
 * backend.
 *
 * Executing a snippet and converting Markdown to HTML are calls into code
 * outside the model; they are parameters. The snippet namespace is a fresh
 * dictionary for every block, so the executor sees only the code and the
 * preprocessor's render settings.
 */
module Preprocessor {
  import opened Strings

  /** The settings `render` is bound to inside a snippet. */
  datatype Settings = Settings(backend: string, emojis: bool)

  /** What executing a snippet does: the text it wrote to stdout, or an exception. */
  datatype Outcome = Printed(text: string) | Raised

  /** `exec(code, {**globals(), 'render': ...})` with stdout captured. */
  type Exec = (string, Settings) -> Outcome

  /** `markdown.Markdown(extensions=[]).convert` */
  type Convert = string -> string

  predicate IsOpenFence(line: string) {
    StartsWith(Strip(line), "```pymd")
  }

  predicate IsCloseFence(line: string) {
    Strip(line) == "```"
  }

  /** A closing fence is never an opening one: three backticks are too short for "```pymd". */
  lemma CloseIsNotOpen(line: string)
    requires IsCloseFence(line)
    ensures !IsOpenFence(line)
  {
  }

  /** The backends whose plain lines reach the output. */
  predicate Emits(s: Settings) {
    s.backend == "html" || s.backend == "markdown"
  }

  /** The loop variables of `run`: `new_lines`, `md_buffer`, `pymd_code`, `pymd_block`. */
  datatype ScanState = ScanState(out: seq<string>, buffer: seq<string>, code: seq<string>, inBlock: bool)

  const Start: ScanState := ScanState([], [], [], false)

  /** Flushing the plain-line buffer before a block and at the end. */
  function Flush(s: Settings, convert: Convert, st: ScanState): ScanState {
    if s.backend == "html" && st.buffer != [] then
      st.(out := st.out + SplitLines(convert(Join(st.buffer, "\n"))), buffer := [])
    else if s.backend == "markdown" && st.buffer != [] then
      st.(out := st.out + st.buffer, buffer := [])
    else st
  }

  /** One iteration of the loop over the lines; `None` when the snippet raised. */
  function Step(s: Settings, exec: Exec, convert: Convert, st: ScanState, line: string): Option<ScanState> {
    if IsOpenFence(line) then
      Some(Flush(s, convert, st).(inBlock := true, code := []))
    else if IsCloseFence(line) && st.inBlock then
      match exec(Join(st.code, "\n"), s)
      case Printed(o) => Some(st.(inBlock := false, out := st.out + SplitLines(o)))
      case Raised => None
    else if st.inBlock then
      Some(st.(code := st.code + [line]))
    else
      Some(st.(buffer := st.buffer + [line]))
  }

  /** The state after the loop has consumed `lines`, starting from `st`. */
  function Scan(s: Settings, exec: Exec, convert: Convert, st: ScanState, lines: seq<string>): Option<ScanState>
    decreases |lines|
  {
    if lines == [] then Some(st)
    else
      match Scan(s, exec, convert, st, lines[..|lines| - 1])
      case None => None
      case Some(t) => Step(s, exec, convert, t, lines[|lines| - 1])
  }

  /** The final flush and the returned list. */
  function Finish(s: Settings, convert: Convert, r: Option<ScanState>): Option<seq<string>> {
    match r
    case None => None
    case Some(t) => Some(Flush(s, convert, t).out)
  }

  function RunFrom(s: Settings, exec: Exec, convert: Convert, st: ScanState, lines: seq<string>): Option<seq<string>> {
    Finish(s, convert, Scan(s, exec, convert, st, lines))
  }

  /** What `run(lines)` returns; `None` stands for the exception a snippet raised. */
  function RunSpec(s: Settings, exec: Exec, convert: Convert, lines: seq<string>): Option<seq<string>> {
    RunFrom(s, exec, convert, Start, lines)
  }

  /** `run`, loop for loop. */
  method Run(s: Settings, exec: Exec, convert: Convert, lines: seq<string>) returns (r: Option<seq<string>>)
    ensures r == RunSpec(s, exec, convert, lines)
  {
    var newLines: seq<string> := [];
    var pymdBlock := false;
    var pymdCode: seq<string> := [];
    var mdBuffer: seq<string> := [];
    var i := 0;
    while i < |lines|
      invariant 0 <= i <= |lines|
      invariant Scan(s, exec, convert, Start, lines[..i]) == Some(ScanState(newLines, mdBuffer, pymdCode, pymdBlock))
    {
      var line := lines[i];
      assert lines[..i + 1][..i] == lines[..i];
      if StartsWith(Strip(line), "```pymd") {
        if s.backend == "html" && mdBuffer != [] {
          var html := convert(Join(mdBuffer, "\n"));
          newLines := newLines + SplitLines(html);
          mdBuffer := [];
        } else if s.backend == "markdown" && mdBuffer != [] {
          newLines := newLines + mdBuffer;
          mdBuffer := [];
        }
        pymdBlock := true;
        pymdCode := [];
      } else if Strip(line) == "```" && pymdBlock {
        pymdBlock := false;
        var outcome := exec(Join(pymdCode, "\n"), s);
        if outcome.Raised? {
          assert Scan(s, exec, convert, Start, lines[..i + 1]) == None;
          ScanAppend(s, exec, convert, Start, lines[..i + 1], lines[i + 1..]);
          assert lines[..i + 1] + lines[i + 1..] == lines;
          return None;
        }
        newLines := newLines + SplitLines(outcome.text);
      } else if pymdBlock {
        pymdCode := pymdCode + [line];
      } else {
        mdBuffer := mdBuffer + [line];
      }
      i := i + 1;
    }
    assert lines[..i] == lines;
    if s.backend == "html" && mdBuffer != [] {
      var html := convert(Join(mdBuffer, "\n"));
      newLines := newLines + SplitLines(html);
    } else if s.backend == "markdown" && mdBuffer != [] {
      newLines := newLines + mdBuffer;
    }
    return Some(newLines);
  }

  /** Scanning `xs + ys` is scanning `xs`, then `ys` from where that left off. */
  lemma {:induction false} ScanAppend(s: Settings, exec: Exec, convert: Convert, st: ScanState, xs: seq<string>, ys: seq<string>)
    ensures Scan(s, exec, convert, st, xs + ys) ==
            match Scan(s, exec, convert, st, xs)
            case None => None
            case Some(t) => Scan(s, exec, convert, t, ys)
    decreases |ys|
  {
    if ys == [] {
      assert xs + ys == xs;
    } else {
      var zs := ys[..|ys| - 1];
      assert (xs + ys)[..|xs + ys| - 1] == xs + zs;
      assert (xs + ys)[|xs + ys| - 1] == ys[|ys| - 1];
      ScanAppend(s, exec, convert, st, xs, zs);
    }
  }

  /** `p` prefixes the output of `st1` relative to `st2`, and everything else that matters agrees. */
  predicate Related(s: Settings, p: seq<string>, st1: ScanState, st2: ScanState) {
    st1.out == p + st2.out
    && st1.inBlock == st2.inBlock
    && (st1.inBlock ==> st1.code == st2.code)
    && (Emits(s) ==> st1.buffer == st2.buffer)
  }

  lemma StepRelated(s: Settings, exec: Exec, convert: Convert, p: seq<string>, st1: ScanState, st2: ScanState, line: string)
    requires Related(s, p, st1, st2)
    ensures Step(s, exec, convert, st1, line).Some? == Step(s, exec, convert, st2, line).Some?
    ensures Step(s, exec, convert, st1, line).Some? ==>
            Related(s, p, Step(s, exec, convert, st1, line).value, Step(s, exec, convert, st2, line).value)
  {
  }

  /**
   * The collected code outside a block, and for a backend that never emits
   * plain lines the buffer, have no effect on the output; a prefix of the
   * output stays a prefix.
   */
  lemma {:induction false} RunRelated(s: Settings, exec: Exec, convert: Convert, p: seq<string>, st1: ScanState, st2: ScanState, lines: seq<string>)
    requires Related(s, p, st1, st2)
    ensures Scan(s, exec, convert, st1, lines).Some? == Scan(s, exec, convert, st2, lines).Some?
    ensures Scan(s, exec, convert, st1, lines).Some? ==>
            Related(s, p, Scan(s, exec, convert, st1, lines).value, Scan(s, exec, convert, st2, lines).value)
    ensures RunFrom(s, exec, convert, st1, lines) == Prepend(p, RunFrom(s, exec, convert, st2, lines))
    decreases |lines|
  {
    if lines != [] {
      var init := lines[..|lines| - 1];
      RunRelated(s, exec, convert, p, st1, st2, init);
      if Scan(s, exec, convert, st1, init).Some? {
        StepRelated(s, exec, convert, p, Scan(s, exec, convert, st1, init).value,
                    Scan(s, exec, convert, st2, init).value, lines[|lines| - 1]);
      }
    }
    if Scan(s, exec, convert, st1, lines).Some? {
      FlushRelated(s, convert, p, Scan(s, exec, convert, st1, lines).value, Scan(s, exec, convert, st2, lines).value);
    }
  }

  lemma FlushRelated(s: Settings, convert: Convert, p: seq<string>, st1: ScanState, st2: ScanState)
    requires Related(s, p, st1, st2)
    ensures Flush(s, convert, st1).out == p + Flush(s, convert, st2).out
  {
    if s.backend == "html" && st1.buffer != [] {
      var x := SplitLines(convert(Join(st1.buffer, "\n")));
      assert (p + st2.out) + x == p + (st2.out + x);
    } else if s.backend == "markdown" && st1.buffer != [] {
      assert (p + st2.out) + st1.buffer == p + (st2.out + st1.buffer);
    }
  }

  function Prepend(p: seq<string>, r: Option<seq<string>>): Option<seq<string>> {
    match r
    case None => None
    case Some(x) => Some(p + x)
  }

  /** Lines with no opening fence, scanned outside a block, all go to the buffer. */
  lemma {:induction false} ScanPlain(s: Settings, exec: Exec, convert: Convert, st: ScanState, a: seq<string>)
    requires !st.inBlock
    requires forall i :: 0 <= i < |a| ==> !IsOpenFence(a[i])
    ensures Scan(s, exec, convert, st, a) == Some(st.(buffer := st.buffer + a))
    decreases |a|
  {
    if a != [] {
      var init := a[..|a| - 1];
      ScanPlain(s, exec, convert, st, init);
      assert init + [a[|a| - 1]] == a;
      assert (st.buffer + init) + [a[|a| - 1]] == st.buffer + a;
    } else {
      assert st.buffer + a == st.buffer;
    }
  }

  /** Lines with no fence at all, scanned inside a block, all go to the code. */
  lemma {:induction false} ScanCode(s: Settings, exec: Exec, convert: Convert, st: ScanState, c: seq<string>)
    requires st.inBlock
    requires forall i :: 0 <= i < |c| ==> !IsOpenFence(c[i]) && !IsCloseFence(c[i])
    ensures Scan(s, exec, convert, st, c) == Some(st.(code := st.code + c))
    decreases |c|
  {
    if c != [] {
      var init := c[..|c| - 1];
      ScanCode(s, exec, convert, st, init);
      assert init + [c[|c| - 1]] == c;
      assert (st.code + init) + [c[|c| - 1]] == st.code + c;
    } else {
      assert st.code + c == st.code;
    }
  }

  /** How a run of plain lines reaches the output: verbatim, converted as one HTML fragment, or not at all. */
  function PlainOut(s: Settings, convert: Convert, a: seq<string>): (r: seq<string>)
    ensures s.backend == "markdown" ==> r == a
    ensures s.backend == "html" ==> r == if a == [] then [] else SplitLines(convert(Join(a, "\n")))
    ensures !Emits(s) ==> r == []
  {
    Flush(s, convert, ScanState([], a, [], false)).out
  }

  /** Without an opening fence the whole input is one plain run. */
  lemma AllPlain(s: Settings, exec: Exec, convert: Convert, a: seq<string>)
    requires forall i :: 0 <= i < |a| ==> !IsOpenFence(a[i])
    ensures RunSpec(s, exec, convert, a) == Some(PlainOut(s, convert, a))
  {
    ScanPlain(s, exec, convert, Start, a);
    assert Start.buffer + a == a;
  }

  /** With the `markdown` backend and no opening fence, `run` returns its input. */
  lemma MarkdownNoFences(s: Settings, exec: Exec, convert: Convert, lines: seq<string>)
    requires s.backend == "markdown"
    requires forall i :: 0 <= i < |lines| ==> !IsOpenFence(lines[i])
    ensures RunSpec(s, exec, convert, lines) == Some(lines)
  {
    AllPlain(s, exec, convert, lines);
  }

  /** A backend other than `html` and `markdown` emits nothing for a document without blocks. */
  lemma OtherBackendNoFences(s: Settings, exec: Exec, convert: Convert, lines: seq<string>)
    requires !Emits(s)
    requires forall i :: 0 <= i < |lines| ==> !IsOpenFence(lines[i])
    ensures RunSpec(s, exec, convert, lines) == Some([])
  {
    AllPlain(s, exec, convert, lines);
  }

  /**
   * A document made of a plain run `a`, one terminated block with code `c`,
   * and a rest `b`: the output is the flushed plain run, then the lines the
   * snippet printed, then the output `b` would give on its own. Fence lines
   * do not appear, and the snippet output sits where the closing fence was.
   * A bare closing fence inside `a` is an ordinary plain line.
   */
  lemma Compose(s: Settings, exec: Exec, convert: Convert, a: seq<string>, open: string, c: seq<string>, close: string, b: seq<string>)
    requires forall i :: 0 <= i < |a| ==> !IsOpenFence(a[i])
    requires IsOpenFence(open) && IsCloseFence(close)
    requires forall i :: 0 <= i < |c| ==> !IsOpenFence(c[i]) && !IsCloseFence(c[i])
    ensures RunSpec(s, exec, convert, a + [open] + c + [close] + b) ==
            match exec(Join(c, "\n"), s)
            case Raised => None
            case Printed(o) => Prepend(PlainOut(s, convert, a) + SplitLines(o), RunSpec(s, exec, convert, b))
  {
    CloseIsNotOpen(close);
    ScanThroughBlock(s, exec, convert, a, open, c);
    var v := ScanState(PlainOut(s, convert, a), if Emits(s) then [] else a, c, true);
    ScanAppend(s, exec, convert, Start, a + [open] + c, [close]);
    ScanAppend(s, exec, convert, Start, a + [open] + c + [close], b);
    match exec(Join(c, "\n"), s)
    case Raised =>
    case Printed(o) =>
      var w := v.(inBlock := false, out := v.out + SplitLines(o));
      assert Scan(s, exec, convert, Start, a + [open] + c + [close]) == Some(w);
      assert Related(s, PlainOut(s, convert, a) + SplitLines(o), w, Start);
      RunRelated(s, exec, convert, PlainOut(s, convert, a) + SplitLines(o), w, Start, b);
  }

  /** The state on reaching the closing fence of the first block. */
  lemma ScanThroughBlock(s: Settings, exec: Exec, convert: Convert, a: seq<string>, open: string, c: seq<string>)
    requires forall i :: 0 <= i < |a| ==> !IsOpenFence(a[i])
    requires IsOpenFence(open)
    requires forall i :: 0 <= i < |c| ==> !IsOpenFence(c[i]) && !IsCloseFence(c[i])
    ensures Scan(s, exec, convert, Start, a + [open] + c) ==
            Some(ScanState(PlainOut(s, convert, a), if Emits(s) then [] else a, c, true))
  {
    ScanPlain(s, exec, convert, Start, a);
    assert Start.buffer + a == a;
    var u := Flush(s, convert, ScanState([], a, [], false)).(inBlock := true, code := []);
    assert (a + [open])[..|a|] == a;
    assert Scan(s, exec, convert, Start, a + [open]) == Some(u);
    ScanCode(s, exec, convert, u, c);
    assert [] + c == c;
    ScanAppend(s, exec, convert, Start, a + [open], c);
  }

  /** A block nobody closes is never executed, and none of its lines reach the output. */
  lemma Unterminated(s: Settings, exec: Exec, convert: Convert, a: seq<string>, open: string, c: seq<string>)
    requires IsOpenFence(open)
    requires forall i :: 0 <= i < |c| ==> !IsCloseFence(c[i])
    ensures RunSpec(s, exec, convert, a + [open] + c) == RunSpec(s, exec, convert, a)
  {
    ScanAppend(s, exec, convert, Start, a, [open] + c);
    assert a + [open] + c == a + ([open] + c);
    match Scan(s, exec, convert, Start, a)
    case None =>
    case Some(t) =>
      var u := Flush(s, convert, t).(inBlock := true, code := []);
      ScanAppend(s, exec, convert, t, [open], c);
      assert Scan(s, exec, convert, t, [open]) == Some(u);
      InBlockWithoutClose(s, exec, convert, u, c);
  }

  /** Inside a block, lines that are not closing fences change neither the output nor the buffer. */
  lemma {:induction false} InBlockWithoutClose(s: Settings, exec: Exec, convert: Convert, st: ScanState, c: seq<string>)
    requires st.inBlock
    requires Emits(s) ==> st.buffer == []
    requires forall i :: 0 <= i < |c| ==> !IsCloseFence(c[i])
    ensures Scan(s, exec, convert, st, c).Some?
    ensures Scan(s, exec, convert, st, c).value.out == st.out
    ensures Scan(s, exec, convert, st, c).value.buffer == st.buffer
    ensures Scan(s, exec, convert, st, c).value.inBlock
    ensures Flush(s, convert, Scan(s, exec, convert, st, c).value).out == st.out
    decreases |c|
  {
    if c != [] {
      InBlockWithoutClose(s, exec, convert, st, c[..|c| - 1]);
    }
  }

  /** The scan only reaches states where a block under an emitting backend has an empty buffer. */
  lemma {:induction false} BufferEmptyInBlock(s: Settings, exec: Exec, convert: Convert, lines: seq<string>)
    requires Scan(s, exec, convert, Start, lines).Some?
    ensures Scan(s, exec, convert, Start, lines).value.inBlock && Emits(s) ==> Scan(s, exec, convert, Start, lines).value.buffer == []
    decreases |lines|
  {
    if lines != [] {
      BufferEmptyInBlock(s, exec, convert, lines[..|lines| - 1]);
    }
  }

  /** An opening fence inside a block throws away the code collected so far and keeps collecting. */
  lemma Reopen(s: Settings, exec: Exec, convert: Convert, lines: seq<string>, open: string)
    requires IsOpenFence(open)
    requires Scan(s, exec, convert, Start, lines).Some? && Scan(s, exec, convert, Start, lines).value.inBlock
    ensures Scan(s, exec, convert, Start, lines + [open]) == Some(Scan(s, exec, convert, Start, lines).value.(code := []))
  {
    BufferEmptyInBlock(s, exec, convert, lines);
    assert (lines + [open])[..|lines|] == lines;
  }
}
