/**
 * `escape_latex` (aicv/utils/escape_latex.py): typographic dashes and
 * quotes are mapped to their LaTeX spellings, then a table of
 * replacements runs in declaration order, each one a `str.replace` of
 * every non-overlapping occurrence.
 */
module LatexEscape {
  import opened Strings

  /** Pattern/replacement pairs, applied in order. */
  type Table = seq<(string, string)>

  /** The six replacements applied one by one before the table. */
  const Typographic: Table := [
    ("\U{2013}", "--"),
    ("\U{2014}", "---"),
    ("\U{2018}", "`"),
    ("\U{2019}", "'"),
    ("\U{201c}", "``"),
    ("\U{201d}", "''")
  ]

  /** `replacements`, in declaration order. */
  const Replacements: Table := [
    ("&", "\\&"),
    ("%", "\\%"),
    ("$", "\\$"),
    ("#", "\\#"),
    ("_", "\\_"),
    ("{", "\\{"),
    ("}", "\\}"),
    ("~", "\\textasciitilde{}"),
    ("^", "\\textasciicircum{}"),
    ("-", "--"),
    ("<", "\\textless{}"),
    (">", "\\textgreater{}"),
    ("|", "\\textbar{}"),
    ("\" ", "'' "),
    (" \"", " ``")
  ]

  predicate NonEmptyPatterns(t: Table) {
    forall i :: 0 <= i < |t| ==> |t[i].0| > 0
  }

  /** The text after each pair of `t` has been applied, first pair first. */
  function ReplaceEach(s: string, t: Table): string
    requires NonEmptyPatterns(t)
    decreases |t|
  {
    if t == [] then s
    else ReplaceAll(ReplaceEach(s, t[..|t| - 1]), t[|t| - 1].0, t[|t| - 1].1)
  }

  /**
   * What `escape_latex(text)` returns for a string. Text without a double
   * quote is escaped character by character: the quote pairs never fire.
   */
  function EscapeLatex(text: string): (r: string)
    ensures '"' !in text ==> r == EscapeChars(text)
  {
    EscapeLatexChars(text);
    ReplaceEach(ReplaceEach(text, Typographic), Replacements)
  }

  /** `escape_latex`, statement for statement: the typographic stage, then the table loop. */
  method Escape(input: string) returns (text: string)
    ensures text == EscapeLatex(input)
  {
    text := ReplaceTypographic(input);
    ghost var start := text;
    assert NonEmptyPatterns(Replacements);
    for i := 0 to |Replacements|
      invariant NonEmptyPatterns(Replacements[..i])
      invariant text == ReplaceEach(start, Replacements[..i])
    {
      var (pattern, replacement) := Replacements[i];
      EachStep(start, Replacements, i);
      text := ReplaceAll(text, pattern, replacement);
    }
    assert Replacements[..|Replacements|] == Replacements;
    assert text == ReplaceEach(ReplaceEach(input, Typographic), Replacements);
  }

  /** The six typographic `replace` statements at the head of `escape_latex`. */
  method ReplaceTypographic(input: string) returns (text: string)
    ensures text == ReplaceEach(input, Typographic)
  {
    TypographicSteps(input);
    text := input;
    text := ReplaceAll(text, "\U{2013}", "--");
    text := ReplaceAll(text, "\U{2014}", "---");
    text := ReplaceAll(text, "\U{2018}", "`");
    text := ReplaceAll(text, "\U{2019}", "'");
    text := ReplaceAll(text, "\U{201c}", "``");
    text := ReplaceAll(text, "\U{201d}", "''");
  }

  /** The typographic stage, one `replace` after another. */
  lemma TypographicSteps(s: string)
    ensures ReplaceEach(s, Typographic) == ReplaceAll(ReplaceAll(ReplaceAll(ReplaceAll(ReplaceAll(ReplaceAll(s, "\U{2013}", "--"), "\U{2014}", "---"), "\U{2018}", "`"), "\U{2019}", "'"), "\U{201c}", "``"), "\U{201d}", "''")
  {
    assert Typographic[..0] == [];
    EachStep(s, Typographic, 0);
    EachStep(s, Typographic, 1);
    EachStep(s, Typographic, 2);
    EachStep(s, Typographic, 3);
    EachStep(s, Typographic, 4);
    EachStep(s, Typographic, 5);
    assert Typographic[..6] == Typographic;
  }

  /** One more pair of the table is one more `replace`. */
  lemma EachStep(s: string, t: Table, k: nat)
    requires NonEmptyPatterns(t) && k < |t|
    ensures NonEmptyPatterns(t[..k]) && NonEmptyPatterns(t[..k + 1])
    ensures ReplaceEach(s, t[..k + 1]) == ReplaceAll(ReplaceEach(s, t[..k]), t[k].0, t[k].1)
  {
    assert t[..k + 1][..k] == t[..k];
    assert t[..k + 1][k] == t[k];
  }

  /** Applying `t1 + t2` applies `t1`, then `t2`. */
  lemma {:induction false} ReplaceEachAppend(s: string, t1: Table, t2: Table)
    requires NonEmptyPatterns(t1) && NonEmptyPatterns(t2)
    ensures NonEmptyPatterns(t1 + t2)
    ensures ReplaceEach(s, t1 + t2) == ReplaceEach(ReplaceEach(s, t1), t2)
    decreases |t2|
  {
    var t := t1 + t2;
    assert NonEmptyPatterns(t) by {
      forall i | 0 <= i < |t| ensures |t[i].0| > 0 {
        if i >= |t1| {
          assert t[i] == t2[i - |t1|];
        }
      }
    }
    if t2 == [] {
      assert t == t1;
    } else {
      var init := t2[..|t2| - 1];
      assert NonEmptyPatterns(init) by {
        forall i | 0 <= i < |init| ensures |init[i].0| > 0 {
          assert init[i] == t2[i];
        }
      }
      ReplaceEachAppend(s, t1, init);
      assert t[..|t| - 1] == t1 + init;
      assert t[|t| - 1] == t2[|t2| - 1];
      assert ReplaceEach(s, t) == ReplaceAll(ReplaceEach(s, t1 + init), t2[|t2| - 1].0, t2[|t2| - 1].1);
    }
  }

  /** Pairs whose patterns do not occur leave the text alone. */
  lemma {:induction false} ReplaceEachAbsent(s: string, t: Table)
    requires NonEmptyPatterns(t)
    requires forall j :: 0 <= j < |t| ==> !Contains(s, t[j].0)
    ensures ReplaceEach(s, t) == s
    decreases |t|
  {
    if t != [] {
      ReplaceEachAbsent(s, t[..|t| - 1]);
      ReplaceAllAbsent(s, t[|t| - 1].0, t[|t| - 1].1);
    }
  }

  /** The characters that start a rewrite: the typographic ones, each table key, and the double quote. */
  const Special: set<char> := {
    '\U{2013}', '\U{2014}', '\U{2018}', '\U{2019}', '\U{201c}', '\U{201d}',
    '&', '%', '$', '#', '_', '{', '}', '~', '^', '-', '<', '>', '|', '"'
  }

  predicate Plain(s: string) {
    forall i :: 0 <= i < |s| ==> s[i] !in Special
  }

  /** The single-character pairs: the typographic six, then the first thirteen of the table. */
  const CharTable: Table := [
    ("\U{2013}", "--"),
    ("\U{2014}", "---"),
    ("\U{2018}", "`"),
    ("\U{2019}", "'"),
    ("\U{201c}", "``"),
    ("\U{201d}", "''"),
    ("&", "\\&"),
    ("%", "\\%"),
    ("$", "\\$"),
    ("#", "\\#"),
    ("_", "\\_"),
    ("{", "\\{"),
    ("}", "\\}"),
    ("~", "\\textasciitilde{}"),
    ("^", "\\textasciicircum{}"),
    ("-", "--"),
    ("<", "\\textless{}"),
    (">", "\\textgreater{}"),
    ("|", "\\textbar{}")
  ]

  /** The two pairs that rewrite a double quote next to a space. */
  function QuoteTable(): Table {
    Replacements[13..]
  }

  /** What one character becomes, read off the two tables in order. */
  function EscapeChar(c: char): string {
    match c
    case '\U{2013}' => "----"
    case '\U{2014}' => "------"
    case '\U{2018}' => "`"
    case '\U{2019}' => "'"
    case '\U{201c}' => "``"
    case '\U{201d}' => "''"
    case '&' => "\\&"
    case '%' => "\\%"
    case '$' => "\\$"
    case '#' => "\\#"
    case '_' => "\\_"
    case '{' => "\\{"
    case '}' => "\\}"
    case '~' => "\\textasciitilde{}"
    case '^' => "\\textasciicircum{}"
    case '-' => "--"
    case '<' => "\\textless{}"
    case '>' => "\\textgreater{}"
    case '|' => "\\textbar{}"
    case _ => [c]
  }

  /** No pattern of `t` starts with a character of `s`. */
  predicate KeysAbsent(s: string, t: Table) {
    forall i :: 0 <= i < |t| ==> |t[i].0| > 0 && t[i].0[0] !in s
  }

  lemma Skip(s: string, t: Table)
    requires KeysAbsent(s, t)
    ensures NonEmptyPatterns(t) && ReplaceEach(s, t) == s
  {
    forall j | 0 <= j < |t| ensures !Contains(s, t[j].0) {
      MissingChar(s, t[j].0, 0);
    }
    ReplaceEachAbsent(s, t);
  }

  /** Pairs from `j` up to `k` that cannot fire are passed over, pair `k` fires, and the rest follow. */
  lemma Through(s: string, t: Table, j: nat, k: nat)
    requires NonEmptyPatterns(t) && j <= k < |t|
    requires KeysAbsent(s, t[j..k])
    ensures ReplaceEach(s, t[j..]) == ReplaceEach(ReplaceAll(s, t[k].0, t[k].1), t[k + 1..])
  {
    assert t[j..] == t[j..k] + t[k..];
    ReplaceEachAppend(s, t[j..k], t[k..]);
    Skip(s, t[j..k]);
    assert t[k..] == [t[k]] + t[k + 1..];
    ReplaceEachAppend(s, [t[k]], t[k + 1..]);
    assert [t[k]][..0] == [];
  }

  /** A character meets its own pair after pairs that leave it alone, and what it becomes is left alone by the rest. */
  lemma CharThrough(c: char, t: Table, k: nat)
    requires NonEmptyPatterns(t) && k < |t| && t[k].0 == [c]
    requires forall i :: 0 <= i < k ==> t[i].0[0] != c
    requires KeysAbsent(t[k].1, t[k + 1..])
    ensures ReplaceEach([c], t) == t[k].1
  {
    var passed := t[..k];
    assert KeysAbsent([c], passed) by {
      forall i | 0 <= i < |passed| ensures passed[i].0[0] !in [c] {
        assert passed[i] == t[i];
      }
    }
    assert t[0..] == t && t[0..k] == passed;
    Through([c], t, 0, k);
    assert ReplaceAll([c], [c], t[k].1) == t[k].1 by {
      assert [c][..1] == [c] && [c][1..] == [];
    }
    Skip(t[k].1, t[k + 1..]);
  }

  /** Every hyphen is doubled. */
  lemma {:induction false} DoubleHyphens(h: string)
    requires forall i :: 0 <= i < |h| ==> h[i] == '-'
    ensures ReplaceAll(h, "-", "--") == h + h
    decreases |h|
  {
    if h != [] {
      assert h[..1] == "-";
      DoubleHyphens(h[1..]);
      assert h == "-" + h[1..];
      calc {
        ReplaceAll(h, "-", "--");
        "--" + ReplaceAll(h[1..], "-", "--");
        "--" + (h[1..] + h[1..]);
        ("-" + h[1..]) + ("-" + h[1..]);
      }
    }
  }

  /** Each pattern is one character, and only pair 15 rewrites a hyphen. */
  lemma CharKeys()
    ensures forall i :: 0 <= i < |CharTable| ==> |CharTable[i].0| == 1 && (CharTable[i].0[0] == '-' <==> i == 15)
  {
  }

  lemma CharKeysSpecial()
    ensures forall i :: 0 <= i < |CharTable| ==> |CharTable[i].0| == 1 && CharTable[i].0[0] in Special
  {
  }

  /** Pair 15 doubles a hyphen. */
  lemma HyphenPair()
    ensures CharTable[15].0 == "-" && CharTable[15].1 == "--"
  {
  }

  /** A run of hyphens meets one hyphen-doubling pair among pairs that leave it alone. */
  lemma HyphensThrough(h: string, t: Table, j: nat, k: nat)
    requires forall i :: 0 <= i < |h| ==> h[i] == '-'
    requires NonEmptyPatterns(t) && j <= k < |t| && t[k].0 == "-" && t[k].1 == "--"
    requires forall i :: j <= i < |t| && i != k ==> t[i].0[0] != '-'
    ensures ReplaceEach(h, t[j..]) == h + h
  {
    var passed := t[j..k];
    assert KeysAbsent(h, passed) by {
      forall i | 0 <= i < |passed| ensures passed[i].0[0] !in h {
        assert passed[i] == t[j + i];
      }
    }
    Through(h, t, j, k);
    DoubleHyphens(h);
    var rest := t[k + 1..];
    assert KeysAbsent(h + h, rest) by {
      forall i | 0 <= i < |rest| ensures rest[i].0[0] !in h + h {
        assert rest[i] == t[k + 1 + i];
      }
    }
    Skip(h + h, rest);
  }

  /** A typographic dash becomes hyphens, and then each hyphen is doubled. */
  lemma DashThrough(k: nat)
    requires k < 2
    ensures ReplaceEach(CharTable[k].0, CharTable) == CharTable[k].1 + CharTable[k].1
  {
    var t := CharTable;
    var c := t[k].0;
    assert t[0..] == t;
    assert KeysAbsent(c, t[0..k]);
    Through(c, t, 0, k);
    assert ReplaceAll(c, c, t[k].1) == t[k].1 by {
      assert c[..1] == c && c[1..] == [];
    }
    CharKeys();
    HyphenPair();
    HyphensThrough(t[k].1, t, k + 1, 15);
  }

  // One lemma per character of the table: the character passes the pairs
  // before its own, is rewritten once, and its replacement is left alone by
  // every later pair.

  lemma EscapeLeftSingleQuote()
    ensures ReplaceEach("\U{2018}", CharTable) == EscapeChar('\U{2018}')
  {
    CharThrough('\U{2018}', CharTable, 2);
  }

  lemma EscapeRightSingleQuote()
    ensures ReplaceEach("\U{2019}", CharTable) == EscapeChar('\U{2019}')
  {
    CharThrough('\U{2019}', CharTable, 3);
  }

  lemma EscapeLeftDoubleQuote()
    ensures ReplaceEach("\U{201c}", CharTable) == EscapeChar('\U{201c}')
  {
    CharThrough('\U{201c}', CharTable, 4);
  }

  lemma EscapeRightDoubleQuote()
    ensures ReplaceEach("\U{201d}", CharTable) == EscapeChar('\U{201d}')
  {
    CharThrough('\U{201d}', CharTable, 5);
  }

  lemma EscapeAmpersand()
    ensures ReplaceEach("&", CharTable) == EscapeChar('&')
  {
    CharThrough('&', CharTable, 6);
  }

  lemma EscapePercent()
    ensures ReplaceEach("%", CharTable) == EscapeChar('%')
  {
    CharThrough('%', CharTable, 7);
  }

  lemma EscapeDollar()
    ensures ReplaceEach("$", CharTable) == EscapeChar('$')
  {
    CharThrough('$', CharTable, 8);
  }

  lemma EscapeHash()
    ensures ReplaceEach("#", CharTable) == EscapeChar('#')
  {
    CharThrough('#', CharTable, 9);
  }

  lemma EscapeUnderscore()
    ensures ReplaceEach("_", CharTable) == EscapeChar('_')
  {
    CharThrough('_', CharTable, 10);
  }

  lemma EscapeOpenBrace()
    ensures ReplaceEach("{", CharTable) == EscapeChar('{')
  {
    CharThrough('{', CharTable, 11);
  }

  lemma EscapeCloseBrace()
    ensures ReplaceEach("}", CharTable) == EscapeChar('}')
  {
    CharThrough('}', CharTable, 12);
  }

  lemma EscapeTilde()
    ensures ReplaceEach("~", CharTable) == EscapeChar('~')
  {
    CharThrough('~', CharTable, 13);
  }

  lemma EscapeCaret()
    ensures ReplaceEach("^", CharTable) == EscapeChar('^')
  {
    CharThrough('^', CharTable, 14);
  }

  lemma EscapeHyphen()
    ensures ReplaceEach("-", CharTable) == EscapeChar('-')
  {
    CharThrough('-', CharTable, 15);
  }

  lemma EscapeLessThan()
    ensures ReplaceEach("<", CharTable) == EscapeChar('<')
  {
    CharThrough('<', CharTable, 16);
  }

  lemma EscapeGreaterThan()
    ensures ReplaceEach(">", CharTable) == EscapeChar('>')
  {
    CharThrough('>', CharTable, 17);
  }

  lemma EscapeBar()
    ensures ReplaceEach("|", CharTable) == EscapeChar('|')
  {
    CharThrough('|', CharTable, 18);
  }

  /** What the single-character pairs do to one character: `EscapeChar`. */
  lemma EscapeCharTable(c: char)
    ensures ReplaceEach([c], CharTable) == EscapeChar(c)
  {
    if c == '\U{2013}' {
      DashThrough(0);
    } else if c == '\U{2014}' {
      DashThrough(1);
    } else if c == '\U{2018}' {
      EscapeLeftSingleQuote();
    } else if c == '\U{2019}' {
      EscapeRightSingleQuote();
    } else if c == '\U{201c}' {
      EscapeLeftDoubleQuote();
    } else if c == '\U{201d}' {
      EscapeRightDoubleQuote();
    } else if c == '&' {
      EscapeAmpersand();
    } else if c == '%' {
      EscapePercent();
    } else if c == '$' {
      EscapeDollar();
    } else if c == '#' {
      EscapeHash();
    } else if c == '_' {
      EscapeUnderscore();
    } else if c == '{' {
      EscapeOpenBrace();
    } else if c == '}' {
      EscapeCloseBrace();
    } else if c == '~' {
      EscapeTilde();
    } else if c == '^' {
      EscapeCaret();
    } else if c == '-' {
      EscapeHyphen();
    } else if c == '<' {
      EscapeLessThan();
    } else if c == '>' {
      EscapeGreaterThan();
    } else if c == '|' {
      EscapeBar();
    } else {
      CharKeysSpecial();
      assert c !in Special || c == '"';
      Skip([c], CharTable);
    }
  }

  /** Reference definition: every character escaped on its own, in order. */
  function EscapeChars(s: string): string
    decreases |s|
  {
    if s == [] then "" else EscapeChar(s[0]) + EscapeChars(s[1..])
  }

  predicate SingleChars(t: Table) {
    forall i :: 0 <= i < |t| ==> |t[i].0| == 1
  }

  /** Single-character replacements act on the two halves of a text separately. */
  lemma {:induction false} ReplaceEachConcat(x: string, y: string, t: Table)
    requires SingleChars(t)
    ensures NonEmptyPatterns(t)
    ensures ReplaceEach(x + y, t) == ReplaceEach(x, t) + ReplaceEach(y, t)
    decreases |t|
  {
    if t != [] {
      var last := t[|t| - 1];
      ReplaceEachConcat(x, y, t[..|t| - 1]);
      assert last.0 == [last.0[0]];
      ReplaceCharConcat(ReplaceEach(x, t[..|t| - 1]), ReplaceEach(y, t[..|t| - 1]), last.0[0], last.1);
    }
  }

  lemma {:induction false} CharTableEscapes(s: string)
    ensures ReplaceEach(s, CharTable) == EscapeChars(s)
    decreases |s|
  {
    CharKeys();
    if s == [] {
      assert NonEmptyPatterns(CharTable);
      Skip(s, CharTable);
    } else {
      assert s == [s[0]] + s[1..];
      ReplaceEachConcat([s[0]], s[1..], CharTable);
      EscapeCharTable(s[0]);
      CharTableEscapes(s[1..]);
    }
  }

  /** The two stages of `escape_latex` are the single-character pairs followed by the two quote pairs. */
  lemma Stages(s: string)
    ensures NonEmptyPatterns(QuoteTable())
    ensures ReplaceEach(ReplaceEach(s, Typographic), Replacements) == ReplaceEach(ReplaceEach(s, CharTable), QuoteTable())
  {
    assert Replacements == Replacements[..13] + QuoteTable();
    assert CharTable == Typographic + Replacements[..13];
    ReplaceEachAppend(s, Typographic, Replacements);
    ReplaceEachAppend(s, Typographic, Replacements[..13]);
    ReplaceEachAppend(s, CharTable, QuoteTable());
    assert Typographic + Replacements == CharTable + QuoteTable();
  }

  lemma QuoteFree(c: char)
    requires c != '"'
    ensures '"' !in EscapeChar(c)
  {
  }

  /** Only a double quote escapes to text holding a double quote. */
  lemma {:induction false} NoQuoteIntroduced(s: string)
    requires '"' !in s
    ensures '"' !in EscapeChars(s)
    decreases |s|
  {
    if s != [] {
      assert s[0] in s;
      assert forall c :: c in s[1..] ==> c in s;
      QuoteFree(s[0]);
      NoQuoteIntroduced(s[1..]);
    }
  }

  /** Text without a double quote is escaped character by character. */
  lemma EscapeLatexChars(s: string)
    ensures '"' !in s ==> ReplaceEach(ReplaceEach(s, Typographic), Replacements) == EscapeChars(s)
  {
    if '"' !in s {
      Stages(s);
      CharTableEscapes(s);
      NoQuoteIntroduced(s);
      var q := QuoteTable();
      forall j | 0 <= j < |q| ensures !Contains(EscapeChars(s), q[j].0) {
        MissingChar(EscapeChars(s), q[j].0, if j == 0 then 0 else 1);
      }
      ReplaceEachAbsent(EscapeChars(s), q);
    }
  }

  /** Hyphens double, so escaping twice differs from escaping once: not idempotent. */
  lemma HyphenDoubling()
    ensures EscapeLatex("-") == "--"
    ensures EscapeLatex("--") == "----"
    ensures EscapeLatex("\U{2013}") == "----"
    ensures EscapeLatex("\U{2014}") == "------"
  {
    var h := "-";
    assert h[1..] == [] && EscapeChars(h) == "--";
    assert (h + h)[1..] == h && EscapeChars(h + h) == "----";
  }

  lemma {:induction false} EscapeCharsConcat(x: string, y: string)
    ensures EscapeChars(x + y) == EscapeChars(x) + EscapeChars(y)
    decreases |x|
  {
    if x != [] {
      assert (x + y)[0] == x[0] && (x + y)[1..] == x[1..] + y;
      EscapeCharsConcat(x[1..], y);
    } else {
      assert x + y == y;
    }
  }

  /** The quote stage is the closing pair, then the opening pair. */
  lemma QuoteSteps(s: string)
    ensures NonEmptyPatterns(QuoteTable())
    ensures ReplaceEach(s, QuoteTable()) == ReplaceAll(ReplaceAll(s, "\" ", "'' "), " \"", " ``")
  {
    var q := QuoteTable();
    assert q == [("\" ", "'' "), (" \"", " ``")];
    assert q[..1] == [q[0]] && q[..1][..0] == [];
  }

  lemma QuoteStage(x: string, y: string)
    requires '"' !in x && '"' !in y
    ensures NonEmptyPatterns(QuoteTable())
    ensures ReplaceEach(x + "\" " + y, QuoteTable()) == x + "'' " + y
  {
    QuoteSteps(x + "\" " + y);
    ReplaceAllSplit(x, "\" ", "'' ", y);
    MissingChar(y, "\" ", 0);
    ReplaceAllAbsent(y, "\" ", "'' ");
    var z := x + "'' " + y;
    assert '"' !in z;
    MissingChar(z, " \"", 1);
    ReplaceAllAbsent(z, " \"", " ``");
  }

  lemma QuoteSpaceChars()
    ensures EscapeChars("\" ") == "\" "
  {
    assert "\" "[1..] == " " && " "[1..] == "";
    assert EscapeChar('"') == "\"" && EscapeChar(' ') == " ";
  }

  /** A double quote followed by a space closes a quotation: `'' `. */
  lemma ClosingQuote(a: string, b: string)
    requires '"' !in a && '"' !in b
    ensures EscapeLatex(a + "\" " + b) == EscapeChars(a) + "'' " + EscapeChars(b)
  {
    var s := a + "\" " + b;
    Stages(s);
    CharTableEscapes(s);
    EscapeCharsConcat(a + "\" ", b);
    EscapeCharsConcat(a, "\" ");
    QuoteSpaceChars();
    NoQuoteIntroduced(a);
    NoQuoteIntroduced(b);
    QuoteStage(EscapeChars(a), EscapeChars(b));
  }

  /** The closing pair cannot occur where the only double quote precedes no space. */
  lemma NoClosingPair(x: string, y: string)
    requires '"' !in x && '"' !in y && (y == [] || y[0] != ' ')
    ensures !Contains(x + " \"" + y, "\" ")
  {
    var z := x + " \"" + y;
    forall k | 0 <= k < |z| - 1 ensures !(z[k] == '"' && z[k + 1] == ' ') {
      if k < |x| {
        assert z[k] == x[k];
      } else if k == |x| {
        assert z[k] == ' ';
      } else if k == |x| + 1 {
        assert z[k + 1] == y[0];
      } else {
        assert z[k] == y[k - |x| - 2];
      }
    }
    MissingPair(z, "\" ", 0);
  }

  /** The opening pair occurs first right after `x`. */
  lemma OpeningPairFirst(x: string, y: string)
    requires '"' !in x
    ensures forall j :: 0 <= j < |x| ==> !OccursAt(x + " \"" + y, " \"", j)
    ensures OccursAt(x + " \"" + y, " \"", |x|)
  {
    var z := x + " \"" + y;
    forall j | 0 <= j < |x| ensures !OccursAt(z, " \"", j) {
      if j + 1 < |x| {
        assert z[j + 1] == x[j + 1];
      } else {
        assert z[j + 1] == ' ';
      }
      assert z[j..j + 2][1] == z[j + 1];
    }
    assert z[|x|..|x| + 2] == " \"";
  }

  /** The quote pairs on a text whose only double quote follows a space and precedes no space. */
  lemma OpenQuoteStage(x: string, y: string)
    requires '"' !in x && '"' !in y && (y == [] || y[0] != ' ')
    ensures NonEmptyPatterns(QuoteTable())
    ensures ReplaceEach(x + " \"" + y, QuoteTable()) == x + " ``" + y
  {
    var z := x + " \"" + y;
    QuoteSteps(z);
    NoClosingPair(x, y);
    ReplaceAllAbsent(z, "\" ", "'' ");
    OpeningPairFirst(x, y);
    assert z[|x| + 2..] == y && z[..|x|] == x;
    MissingChar(y, " \"", 1);
    ReplaceOnce(z, " \"", " ``", |x|);
  }

  lemma SpaceQuoteChars()
    ensures EscapeChars(" \"") == " \""
  {
    assert " \""[1..] == "\"" && "\""[1..] == "";
    assert EscapeChar('"') == "\"" && EscapeChar(' ') == " ";
  }

  /** A text that starts with an ordinary character still starts with it once escaped. */
  lemma PlainHead(b: string)
    requires b != [] && b[0] !in Special
    ensures EscapeChars(b) != [] && EscapeChars(b)[0] == b[0]
  {
    PlainChar(b[0]);
    assert b == [b[0]] + b[1..];
    EscapeCharsConcat([b[0]], b[1..]);
    assert [b[0]][1..] == [];
    assert EscapeChars([b[0]]) == [b[0]];
  }

  /**
   * A space and a double quote before a character that is neither a space
   * nor special open a quotation as a space and two backticks.
   */
  lemma OpeningQuote(a: string, b: string)
    requires '"' !in a && '"' !in b && (b == [] || (b[0] !in Special && b[0] != ' '))
    ensures EscapeLatex(a + " \"" + b) == EscapeChars(a) + " ``" + EscapeChars(b)
  {
    var s := a + " \"" + b;
    Stages(s);
    CharTableEscapes(s);
    EscapeCharsConcat(a + " \"", b);
    EscapeCharsConcat(a, " \"");
    SpaceQuoteChars();
    NoQuoteIntroduced(a);
    NoQuoteIntroduced(b);
    if b != [] {
      PlainHead(b);
    }
    OpenQuoteStage(EscapeChars(a), EscapeChars(b));
  }

  lemma PlainChar(c: char)
    requires c !in Special
    ensures EscapeChar(c) == [c]
  {
  }

  lemma {:induction false} PlainChars(s: string)
    requires Plain(s)
    ensures EscapeChars(s) == s
    decreases |s|
  {
    if s != [] {
      PlainChar(s[0]);
      assert Plain(s[1..]) by {
        forall i | 0 <= i < |s[1..]| ensures s[1..][i] !in Special {
          assert s[1..][i] == s[i + 1];
        }
      }
      PlainChars(s[1..]);
      assert s == [s[0]] + s[1..];
    }
  }

  /** Text free of the characters in `Special` comes back unchanged; a backslash, for one, passes through. */
  lemma PlainUnchanged(s: string)
    requires Plain(s)
    ensures EscapeLatex(s) == s
  {
    assert '"' !in s by {
      forall i | 0 <= i < |s| ensures s[i] != '"' {
      }
    }
    PlainChars(s);
  }
}
