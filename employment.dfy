/**
 * `render_employment` (aicv/renderers/employment.py): one Markdown block
 * per job, with a job-title emoji chosen from an ordered keyword table.
 */
module EmploymentRenderer {
  import opened Strings
  import opened Records
  import Lookup

  const Laptop: string := "\U{1f4bb}"
  const HammerAndWrench: string := "\U{1f6e0}\U{fe0f}"
  const Microscope: string := "\U{1f52c}"
  const TestTube: string := "\U{1f9ea}"
  const Necktie: string := "\U{1f454}"
  const Crown: string := "\U{1f451}"
  const Rocket: string := "\U{1f680}"
  const Briefcase: string := "\U{1f4bc}"
  const MagnifyingGlass: string := "\U{1f50d}"
  const ClassicalBuilding: string := "\U{1f3db}\U{fe0f}"
  const GraduationCap: string := "\U{1f393}"
  const Clipboard: string := "\U{1f4cb}"
  const Seedling: string := "\U{1f331}"
  const BarChart: string := "\U{1f4ca}"
  const Palette: string := "\U{1f3a8}"

  /** `job_emojis`, in declaration order. */
  const JobEmojis: Lookup.Table := [
    ("developer", Laptop),
    ("engineer", HammerAndWrench),
    ("researcher", Microscope),
    ("scientist", TestTube),
    ("manager", Necktie),
    ("lead", Crown),
    ("founder", Rocket),
    ("ceo", Rocket),
    ("cto", Rocket),
    ("director", Crown),
    ("consultant", Briefcase),
    ("specialist", MagnifyingGlass),
    ("architect", ClassicalBuilding),
    ("professor", GraduationCap),
    ("teacher", GraduationCap),
    ("instructor", GraduationCap),
    ("assistant", Clipboard),
    ("intern", Seedling),
    ("analyst", BarChart),
    ("designer", Palette)
  ]

  /** The emoji a job gets when no keyword occurs in its position. */
  const DefaultEmoji: string := Briefcase

  /** The keyword loop with `break`: the value of the first keyword of the table found in `positionLower`. */
  method PositionEmoji(positionLower: string) returns (emoji: string)
    ensures emoji == Lookup.Resolve(JobEmojis, positionLower, DefaultEmoji)
  {
    emoji := DefaultEmoji;
    var k := 0;
    while k < |JobEmojis|
      invariant 0 <= k <= |JobEmojis|
      invariant Lookup.FirstMatchFrom(JobEmojis, positionLower, k) == Lookup.FirstMatch(JobEmojis, positionLower)
      invariant emoji == DefaultEmoji
    {
      var (keyword, value) := JobEmojis[k];
      if FindFrom(positionLower, keyword, 0).Some? {
        emoji := value;
        break;
      }
      k := k + 1;
    }
  }

  /** The emoji of a job heading: the briefcase or one of the table's values. */
  function JobEmoji(position: string): (r: string)
    ensures r == DefaultEmoji || exists i :: 0 <= i < |JobEmojis| && r == JobEmojis[i].1
  {
    Lookup.ResolveRange(JobEmojis, Lower(position), DefaultEmoji);
    Lookup.Resolve(JobEmojis, Lower(position), DefaultEmoji)
  }

  /**
   * The emoji of keyword `i` is chosen exactly when that keyword is the
   * first, in declaration order, found in the lower-cased position.
   */
  lemma JobEmojiFirstMatch(position: string, i: nat)
    requires i < |JobEmojis|
    requires Contains(Lower(position), JobEmojis[i].0)
    requires forall j :: 0 <= j < i ==> !Contains(Lower(position), JobEmojis[j].0)
    ensures JobEmoji(position) == JobEmojis[i].1
  {
    Lookup.ResolvePriority(JobEmojis, Lower(position), DefaultEmoji, i);
  }

  /** No keyword in the position: the briefcase. */
  lemma JobEmojiDefault(position: string)
    requires forall j :: 0 <= j < |JobEmojis| ==> !Contains(Lower(position), JobEmojis[j].0)
    ensures JobEmoji(position) == DefaultEmoji
  {
    Lookup.ResolveDefault(JobEmojis, Lower(position), DefaultEmoji);
  }

  lemma LowerDirector()
    ensures Lower("Director") == "director"
  {
    assert LowerChar('D') == 'd';
    forall i | 0 <= i < 8 ensures Lower("Director")[i] == "director"[i] {
    }
  }

  /** Table order beats the whole word: "Director" holds "cto", declared before "director", so it gets the rocket. */
  lemma DirectorGetsRocket()
    ensures JobEmoji("Director") == Rocket
  {
    LowerDirector();
    DirectorMissesEarlier("director");
    DirectorHasCto("director");
    JobEmojiFirstMatch("Director", 8);
  }

  /** None of the eight keywords before `cto` occurs in `director`. */
  lemma DirectorMissesEarlier(h: string)
    requires h == "director"
    ensures forall j :: 0 <= j < 8 ==> !Contains(h, JobEmojis[j].0)
  {
    var missing := "vghnmlf_";
    forall j | 0 <= j < 8 ensures !Contains(h, JobEmojis[j].0) {
      if j == 7 {
        MissingPair(h, "ceo", 0);
      } else {
        MissingChar(h, JobEmojis[j].0, IndexOf(JobEmojis[j].0, missing[j]));
      }
    }
  }

  lemma DirectorHasCto(h: string)
    requires h == "director"
    ensures Contains(h, "cto")
  {
    assert h[4..4 + 3] == "cto";
    ContainsAt(h, "cto", 4);
  }

  /** One `"    - r\n"` line per responsibility, in order. */
  function Bullets(responsibilities: seq<string>): string {
    Printed(seq(|responsibilities|, i requires 0 <= i < |responsibilities| => "    - " + responsibilities[i]))
  }

  lemma {:induction false} BulletsSnoc(rs: seq<string>, r: string)
    ensures Bullets(rs + [r]) == Bullets(rs) + "    - " + r + "\n"
    decreases |rs|
  {
    var ls := seq(|rs|, i requires 0 <= i < |rs| => "    - " + rs[i]);
    var ls2 := seq(|rs| + 1, i requires 0 <= i < |rs| + 1 => "    - " + (rs + [r])[i]);
    assert ls2 == ls + ["    - " + r];
    PrintedSnoc(ls, "    - " + r);
  }

  const RespTitle: string := "- <span class='resp-title'>**Responsibilities:**</span>\n\n"

  function LocationLine(job: Job): string {
    if Truthy(job.location) then "- **Location:** " + job.location.value + "\n" else ""
  }

  /** The heading line and the dates line that follows it. */
  function HeadingLines(emoji: string, position: string, company: string, dates: string): string {
    "## " + emoji + " <span class='job-header'>" + position + " at " + company + "</span>\n"
    + "*" + dates + "*\n\n"
  }

  /** The block for one job, or the `KeyError` of the first required key it lacks. */
  function JobMarkdown(job: Job): Result<string> {
    if job.position.None? then Err("position")
    else if job.company.None? then Err("company")
    else if job.dates.None? then Err("dates")
    else if job.responsibilities.None? then Err("responsibilities")
    else
      Ok(HeadingLines(JobEmoji(job.position.value), job.position.value, job.company.value, job.dates.value)
         + LocationLine(job)
         + RespTitle
         + Bullets(job.responsibilities.value)
         + "\n")
  }

  /** What `render_employment(employment)` returns. */
  function EmploymentMarkdown(employment: seq<Job>): Result<string> {
    ConcatMap(employment, JobMarkdown)
  }

  /** The body of the loop over the jobs: what one job adds to `md`. */
  method RenderJob(job: Job) returns (entry: string)
    requires job.position.Some? && job.company.Some? && job.dates.Some? && job.responsibilities.Some?
    ensures Ok(entry) == JobMarkdown(job)
  {
    var positionEmoji := PositionEmoji(Lower(job.position.value));
    entry := "## " + positionEmoji + " <span class='job-header'>" + job.position.value + " at " + job.company.value + "</span>\n";
    entry := entry + "*" + job.dates.value + "*\n\n";
    assert entry == HeadingLines(positionEmoji, job.position.value, job.company.value, job.dates.value);
    var location := "";
    if job.location.Some? && job.location.value != "" {
      location := "- **Location:** " + job.location.value + "\n";
    }
    var bullets := "";
    var rs := job.responsibilities.value;
    var k := 0;
    while k < |rs|
      invariant 0 <= k <= |rs|
      invariant bullets == Bullets(rs[..k])
    {
      BulletsSnoc(rs[..k], rs[k]);
      assert rs[..k + 1] == rs[..k] + [rs[k]];
      bullets := bullets + "    - " + rs[k] + "\n";
      k := k + 1;
    }
    assert rs[..k] == rs;
    entry := entry + location + RespTitle + bullets + "\n";
  }

  /** `render_employment`, loop for loop. */
  method RenderEmployment(employment: seq<Job>) returns (r: Result<string>)
    ensures r == EmploymentMarkdown(employment)
  {
    var md := "";
    var i := 0;
    while i < |employment|
      invariant 0 <= i <= |employment|
      invariant ConcatMap(employment[..i], JobMarkdown) == Ok(md)
    {
      var job := employment[i];
      if job.position.None? || job.company.None? || job.dates.None? || job.responsibilities.None? {
        ConcatMapStepErr(employment, JobMarkdown, i);
        return Err(JobMarkdown(job).missing);
      }
      var entry := RenderJob(job);
      ConcatMapStep(employment, JobMarkdown, i);
      md := md + entry;
      i := i + 1;
    }
    assert employment[..i] == employment;
    return Ok(md);
  }

  /** An empty list renders to the empty string. */
  lemma EmptyList()
    ensures EmploymentMarkdown([]) == Ok("")
  {
  }

  /** Jobs are rendered one after the other, in input order. */
  lemma InputOrder(xs: seq<Job>, job: Job)
    requires EmploymentMarkdown(xs).Ok? && JobMarkdown(job).Ok?
    ensures EmploymentMarkdown(xs + [job]) == Ok(EmploymentMarkdown(xs).value + JobMarkdown(job).value)
  {
    ConcatMapAppend(xs, [job], JobMarkdown);
    assert [job][..0] == [];
    var t := JobMarkdown(job).value;
    assert ConcatMap([job], JobMarkdown) == Ok("" + t);
    assert "" + t == t;
  }

  /** The list renders exactly when every job has a position, a company, dates and responsibilities. */
  lemma RendersIff(employment: seq<Job>)
    ensures EmploymentMarkdown(employment).Ok? <==>
            forall i :: 0 <= i < |employment| ==>
              employment[i].position.Some? && employment[i].company.Some?
              && employment[i].dates.Some? && employment[i].responsibilities.Some?
  {
    ConcatMapOk(employment, JobMarkdown);
  }

  /** The keys are read in the order position, company, dates, responsibilities. */
  lemma MissingKeyOrder(job: Job)
    ensures job.position.None? ==> JobMarkdown(job) == Err("position")
    ensures job.position.Some? && job.company.None? ==> JobMarkdown(job) == Err("company")
    ensures job.position.Some? && job.company.Some? && job.dates.None? ==> JobMarkdown(job) == Err("dates")
    ensures job.position.Some? && job.company.Some? && job.dates.Some? && job.responsibilities.None?
            ==> JobMarkdown(job) == Err("responsibilities")
  {
  }

  /**
   * Each job block opens with the heading line, then the dates line, and a
   * block without a (truthy) location goes straight on to the
   * responsibilities title.
   */
  lemma BlockLayout(job: Job)
    requires JobMarkdown(job).Ok?
    ensures StartsWith(JobMarkdown(job).value,
      HeadingLines(JobEmoji(job.position.value), job.position.value, job.company.value, job.dates.value))
    ensures !Truthy(job.location) ==>
      StartsWith(JobMarkdown(job).value,
        HeadingLines(JobEmoji(job.position.value), job.position.value, job.company.value, job.dates.value) + RespTitle)
  {
    var h := HeadingLines(JobEmoji(job.position.value), job.position.value, job.company.value, job.dates.value);
    var l := LocationLine(job);
    var b := Bullets(job.responsibilities.value);
    var t := JobMarkdown(job).value;
    assert t == h + l + RespTitle + b + "\n";
    Assoc(h, l, RespTitle);
    Assoc(h, l + RespTitle, b);
    Assoc(h, l + RespTitle + b, "\n");
    assert t == h + (l + RespTitle + b + "\n");
    assert t[..|h|] == h;
    if !Truthy(job.location) {
      assert l == "";
      assert h + l == h;
      Assoc(h + RespTitle, b, "\n");
      assert t == (h + RespTitle) + (b + "\n");
      assert t[..|h + RespTitle|] == h + RespTitle;
    }
  }

  /**
   * The responsibilities come out as one indented bullet line each, in
   * order: reading the bullets back line by line gives the bullet texts.
   */
  lemma OneLinePerResponsibility(rs: seq<string>)
    requires forall i :: 0 <= i < |rs| ==> forall j :: 0 <= j < |rs[i]| ==> !IsLineBreak(rs[i][j])
    ensures SplitLines(Bullets(rs)) == seq(|rs|, i requires 0 <= i < |rs| => "    - " + rs[i])
  {
    var ls := seq(|rs|, i requires 0 <= i < |rs| => "    - " + rs[i]);
    forall i | 0 <= i < |ls| ensures forall j :: 0 <= j < |ls[i]| ==> !IsLineBreak(ls[i][j]) {
      forall j | 0 <= j < |ls[i]| ensures !IsLineBreak(ls[i][j]) {
        if j >= 6 {
          assert ls[i][j] == rs[i][j - 6];
        }
      }
    }
    PrintedLines(ls);
  }
}
