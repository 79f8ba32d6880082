/**
 * `EmojisFormatter` (aicv/backend/emojis.py): the section-heading emoji
 * resolver shared by the HTML and Markdown backends.
 *
 * The table values in that file are mojibake: the UTF-8 bytes of each emoji
 * read as Windows-1252 text, with the bytes that code page leaves undefined
 * dropped. They are kept here code point for code point and treated as
 * opaque strings.
 */
module Emojis {
  import opened Strings
  import Lookup

  const GraduationCap: string := "\U{f0}\U{178}\U{17d}\U{201c}"
  const Briefcase: string := "\U{f0}\U{178}\U{2019}\U{bc}"
  const Trophy: string := "\U{f0}\U{178}\U{2020}"
  const Wrench: string := "\U{f0}\U{178}\U{201d}\U{a7}"
  const Laptop: string := "\U{f0}\U{178}\U{2019}\U{bb}"
  const SpeakingHead: string := "\U{f0}\U{178}\U{2014}\U{a3}\U{ef}\U{b8}"
  const Books: string := "\U{f0}\U{178}\U{201c}\U{161}"
  const Microscope: string := "\U{f0}\U{178}\U{201d}\U{ac}"
  const Clipboard: string := "\U{f0}\U{178}\U{201c}\U{2039}"
  const HighVoltage: string := "\U{e2}\U{161}\U{a1}"
  const Memo: string := "\U{f0}\U{178}\U{201c}"
  const PageFacingUp: string := "\U{f0}\U{178}\U{201c}\U{201e}"
  const Medal: string := "\U{f0}\U{178}\U{2026}"
  const Handshake: string := "\U{f0}\U{178}\U{a4}"

  /** `EmojisFormatter.section_emojis`, in declaration order. */
  const SectionEmojis: Lookup.Table := [
    ("academic", GraduationCap),
    ("education", GraduationCap),
    ("professional", Briefcase),
    ("experience", Briefcase),
    ("employment", Briefcase),
    ("work", Briefcase),
    ("award", Trophy),
    ("skill", Wrench),
    ("competenc", Wrench),
    ("technolog", Laptop),
    ("language", SpeakingHead),
    ("publication", Books),
    ("research", Microscope),
    ("project", Clipboard),
    ("interest", HighVoltage),
    ("hobby", HighVoltage),
    ("phd", Memo),
    ("thesis", PageFacingUp),
    ("certification", Medal),
    ("volunteer", Handshake),
    ("achievement", Trophy)
  ]

  /** The value returned when no keyword occurs. */
  const DefaultEmoji: string := PageFacingUp

  /** `EmojisFormatter.find_emoji`: always the default or one of the table's values. */
  function FindEmoji(headingText: string): (r: string)
    ensures r == DefaultEmoji || exists i :: 0 <= i < |SectionEmojis| && r == SectionEmojis[i].1
  {
    Lookup.ResolveRange(SectionEmojis, Lower(headingText), DefaultEmoji);
    Lookup.Resolve(SectionEmojis, Lower(headingText), DefaultEmoji)
  }

  /**
   * The value of entry `i` is returned exactly when its keyword is the first,
   * in declaration order, to occur in the lower-cased heading.
   */
  lemma FindEmojiFirstMatch(headingText: string, i: nat)
    requires i < |SectionEmojis|
    requires Contains(Lower(headingText), SectionEmojis[i].0)
    requires forall j :: 0 <= j < i ==> !Contains(Lower(headingText), SectionEmojis[j].0)
    ensures FindEmoji(headingText) == SectionEmojis[i].1
  {
    Lookup.ResolvePriority(SectionEmojis, Lower(headingText), DefaultEmoji, i);
  }

  /** No keyword in the lower-cased heading: the default. */
  lemma FindEmojiDefault(headingText: string)
    requires forall j :: 0 <= j < |SectionEmojis| ==> !Contains(Lower(headingText), SectionEmojis[j].0)
    ensures FindEmoji(headingText) == DefaultEmoji
  {
    Lookup.ResolveDefault(SectionEmojis, Lower(headingText), DefaultEmoji);
  }

  /** The lookup ignores (ASCII) letter case. */
  lemma FindEmojiCaseInsensitive(headingText: string)
    ensures FindEmoji(headingText) == FindEmoji(Lower(headingText))
  {
    LowerIdempotent(headingText);
  }

  /**
   * Keywords `from` to `n - 1` cannot occur in a text written in `alphabet`
   * when each of them has a character outside it (at `pos[j]` in keyword `j`).
   */
  lemma KeywordsMissing(text: string, alphabet: set<char>, from: nat, n: nat, pos: seq<nat>)
    requires from <= n <= |SectionEmojis| && n <= |pos|
    requires forall i :: 0 <= i < |text| ==> text[i] in alphabet
    requires forall j :: from <= j < n ==> pos[j] < |SectionEmojis[j].0| && SectionEmojis[j].0[pos[j]] !in alphabet
    ensures forall j :: from <= j < n ==> !Contains(text, SectionEmojis[j].0)
  {
    forall j | from <= j < n ensures !Contains(text, SectionEmojis[j].0) {
      MissingChar(text, SectionEmojis[j].0, pos[j]);
    }
  }

  lemma LowerPhdThesis()
    ensures Lower("PhD Thesis") == "phd thesis"
  {
    var h := "phd thesis";
    assert LowerChar('P') == 'p' && LowerChar('D') == 'd' && LowerChar('T') == 't';
    forall i | 0 <= i < |h| ensures Lower("PhD Thesis")[i] == h[i] {
    }
  }

  lemma NoEarlierThanPhd(h: string)
    requires forall i :: 0 <= i < |h| ==> h[i] in {'p', 'h', 'd', ' ', 't', 'e', 's', 'i'}
    ensures forall j :: 0 <= j < 16 ==> !Contains(h, SectionEmojis[j].0)
  {
    KeywordsMissing(h, {'p', 'h', 'd', ' ', 't', 'e', 's', 'i'}, 0, 16, [0, 4, 1, 1, 1, 0, 0, 1, 0, 2, 0, 1, 0, 1, 1, 1]);
  }

  /** Table order beats position in the text: "thesis" is in the heading, but "phd" is declared first. */
  lemma PhdThesis()
    ensures FindEmoji("PhD Thesis") == Memo
  {
    var h := "phd thesis";
    LowerPhdThesis();
    NoEarlierThanPhd(h);
    assert OccursAt(h, "phd", 0);
    ContainsAt(h, "phd", 0);
    FindEmojiFirstMatch("PhD Thesis", 16);
  }

  /** The letters of "languages and technologies". */
  const TechnologiesLetters: set<char> := {'l', 'a', 'n', 'g', 'u', 'e', 's', ' ', 'd', 't', 'c', 'h', 'o', 'i'}

  lemma NoEarlierThanTechnolog(h: string)
    requires forall i :: 0 <= i < |h| ==> h[i] in TechnologiesLetters
    requires forall k :: 0 <= k < |h| - 1 ==> !(h[k] == 'e' && h[k + 1] == 'd')
    ensures forall j :: 0 <= j < 9 ==> !Contains(h, SectionEmojis[j].0)
  {
    KeywordsMissing(h, TechnologiesLetters, 0, 1, [5]);
    assert SectionEmojis[1].0 == "education";
    MissingPair(h, "education", 0);
    KeywordsMissing(h, TechnologiesLetters, 2, 9, [0, 0, 1, 1, 1, 0, 1, 1, 2]);
  }

  lemma LowerLanguages()
    ensures Lower("Languages and Technologies") == "languages and technologies"
  {
    var h := "languages and technologies";
    assert LowerChar('L') == 'l' && LowerChar('T') == 't';
    forall i | 0 <= i < |h| ensures Lower("Languages and Technologies")[i] == h[i] {
    }
  }

  /** "language" and "technolog" both occur; "technolog" is declared first and wins. */
  lemma LanguagesAndTechnologies()
    ensures FindEmoji("Languages and Technologies") == Laptop
  {
    var h := "languages and technologies";
    LowerLanguages();
    LanguagesText(h);
    NoEarlierThanTechnolog(h);
    assert SectionEmojis[9] == ("technolog", Laptop);
    FindEmojiFirstMatch("Languages and Technologies", 9);
  }

  lemma LanguagesText(h: string)
    requires h == "languages and technologies"
    ensures forall i :: 0 <= i < |h| ==> h[i] in TechnologiesLetters
    ensures forall k :: 0 <= k < |h| - 1 ==> !(h[k] == 'e' && h[k + 1] == 'd')
    ensures Contains(h, "technolog")
  {
    LanguagesLetters(h);
    LanguagesNoEd(h);
    TechnologAt("languages and ", "ies");
    assert h == "languages and " + "technolog" + "ies";
  }

  lemma LanguagesLetters(h: string)
    requires h == "languages and technologies"
    ensures forall i :: 0 <= i < |h| ==> h[i] in TechnologiesLetters
  {
  }

  lemma LanguagesNoEd(h: string)
    requires h == "languages and technologies"
    ensures forall k :: 0 <= k < |h| - 1 ==> !(h[k] == 'e' && h[k + 1] == 'd')
  {
  }

  lemma TechnologAt(x: string, y: string)
    ensures Contains(x + "technolog" + y, "technolog")
  {
    var h := x + "technolog" + y;
    assert h[|x|..|x| + 9] == "technolog";
    ContainsAt(h, "technolog", |x|);
  }

  /** Every character of the emoji text lies above the ASCII range (and above the no-break space). */
  predicate AboveAscii(e: string) {
    e != [] && forall i :: 0 <= i < |e| ==> e[i] >= '\U{a1}'
  }

  lemma ValuesAboveAscii()
    ensures forall i :: 0 <= i < |SectionEmojis| ==> AboveAscii(SectionEmojis[i].1)
  {
    forall i | 0 <= i < |SectionEmojis| ensures AboveAscii(SectionEmojis[i].1) {
      var e := SectionEmojis[i].1;
      assert forall j :: 0 <= j < |e| ==> e[j] >= '\U{a1}';
    }
  }

  /** Whatever the heading, the emoji is non-empty and holds no `<`, `#`, space or newline. */
  lemma FindEmojiAboveAscii(headingText: string)
    ensures AboveAscii(FindEmoji(headingText))
  {
    ValuesAboveAscii();
    assert AboveAscii(DefaultEmoji);
  }
}
