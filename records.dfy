/**
 * The JSON records the section renderers read (one list per data file),
 * with one optional field per key the renderers look at. A field is `None`
 * when its key is absent from the object; a subscript on an absent key is
 * the `KeyError` that `Err` carries.
 */
module Records {
  import opened Strings

  /** A rendered value, or the `KeyError` for the first absent key the renderer subscripted. */
  datatype Result<T> = Ok(value: T) | Err(missing: string)

  /** One object of an `education` list. */
  datatype Education = Education(
    degree: Option<string>,
    dates: Option<string>,
    institution: Option<string>,
    location: Option<string>,
    dissertation: Option<string>,
    focusAreas: Option<seq<string>>)

  /** One object of an `employment` list. */
  datatype Job = Job(
    position: Option<string>,
    company: Option<string>,
    dates: Option<string>,
    location: Option<string>,
    responsibilities: Option<seq<string>>)

  /** One object of a `publications` list. */
  datatype Publication = Publication(
    author: Option<seq<string>>,
    pubType: Option<string>,
    year: Option<int>,
    title: Option<string>,
    journal: Option<string>,
    volume: Option<string>,
    number: Option<string>,
    pages: Option<string>,
    publisher: Option<string>,
    booktitle: Option<string>,
    organization: Option<string>,
    note: Option<string>,
    citations: Option<int>)

  /** A data file: the renderers dispatch on which of these keys it has. */
  datatype Document = Document(
    education: Option<seq<Education>>,
    employment: Option<seq<Job>>,
    publications: Option<seq<Publication>>)

  /** A personal-information value: a string, or an object such as `{"url": ...}`. */
  datatype Field = Str(text: string) | Dict(entries: map<string, string>)

  /** The `personal_info` object. */
  type PersonalInfo = map<string, Field>

  /** Python truthiness of a value: a non-empty string or a non-empty object. */
  predicate FieldTruthy(f: Field) {
    match f
    case Str(t) => t != ""
    case Dict(e) => e != map[]
  }

  /**
   * `str(value)` or `f"{value}"`: a string is printed as it is; an object
   * prints as its `repr`, which is the `repr` parameter wherever the model
   * needs it (a dict's `repr` follows its insertion order, which a `map`
   * does not keep).
   */
  function FieldText(f: Field, repr: map<string, string> -> string): string {
    match f
    case Str(t) => t
    case Dict(d) => repr(d)
  }

  /** `info.get(key, "")` */
  function Get(info: PersonalInfo, key: string): Field {
    if key in info then info[key] else Str("")
  }

  /** `d.get(key, "")` on an object of strings. */
  function DictGet(d: map<string, string>, key: string): string {
    if key in d then d[key] else ""
  }

  /** `key in obj and obj[key]` for a string value. */
  predicate Truthy(o: Option<string>) {
    o.Some? && o.value != ""
  }

  /** `obj.get(key, d)` */
  function GetOr<T>(o: Option<T>, d: T): T {
    if o.Some? then o.value else d
  }

  /** The text of `prefix + r`, or the error of `r`. */
  function PrefixWith(prefix: string, r: Result<string>): Result<string> {
    match r
    case Ok(s) => Ok(prefix + s)
    case Err(k) => Err(k)
  }

  /** `print(text)`: the text and a newline, or the exception that stopped it. */
  function PrintLine(r: Result<string>): Result<string> {
    match r
    case Err(k) => Err(k)
    case Ok(t) => Ok(t + "\n")
  }

  /**
   * The texts of `f` over `xs`, concatenated in order, as a loop that does
   * `md += f(x)` for each `x` builds them; the first entry that raises
   * decides the error.
   */
  function ConcatMap<T>(xs: seq<T>, f: T -> Result<string>): Result<string>
    decreases |xs|
  {
    if xs == [] then Ok("")
    else
      match ConcatMap(xs[..|xs| - 1], f)
      case Err(k) => Err(k)
      case Ok(s) =>
        match f(xs[|xs| - 1])
        case Err(k) => Err(k)
        case Ok(t) => Ok(s + t)
  }

  /** The texts come out in input order: rendering `xs + ys` renders `xs`, then `ys`. */
  lemma {:induction false} ConcatMapAppend<T>(xs: seq<T>, ys: seq<T>, f: T -> Result<string>)
    ensures ConcatMap(xs + ys, f) ==
            match ConcatMap(xs, f)
            case Err(k) => Err(k)
            case Ok(s) => PrefixWith(s, ConcatMap(ys, f))
    decreases |ys|
  {
    if ys == [] {
      assert xs + ys == xs;
      match ConcatMap(xs, f)
      case Err(k) =>
      case Ok(s) => assert s + "" == s;
    } else {
      var zs := ys[..|ys| - 1];
      assert (xs + ys)[..|xs + ys| - 1] == xs + zs;
      assert (xs + ys)[|xs + ys| - 1] == ys[|ys| - 1];
      ConcatMapAppend(xs, zs, f);
      match ConcatMap(xs, f)
      case Err(k) =>
      case Ok(s) =>
        match ConcatMap(zs, f)
        case Err(k) =>
        case Ok(u) =>
          match f(ys[|ys| - 1])
          case Err(k) =>
          case Ok(t) =>
            assert (s + u) + t == s + (u + t);
    }
  }

  /** The whole list renders exactly when every entry does. */
  lemma {:induction false} ConcatMapOk<T>(xs: seq<T>, f: T -> Result<string>)
    ensures ConcatMap(xs, f).Ok? <==> forall i :: 0 <= i < |xs| ==> f(xs[i]).Ok?
    decreases |xs|
  {
    if xs != [] {
      var init := xs[..|xs| - 1];
      ConcatMapOk(init, f);
      assert forall i :: 0 <= i < |init| ==> init[i] == xs[i];
    }
  }

  /** Reordering the entries does not change whether the list renders. */
  lemma ConcatMapOkPermutation<T>(xs: seq<T>, ys: seq<T>, f: T -> Result<string>)
    requires multiset(xs) == multiset(ys)
    ensures ConcatMap(xs, f).Ok? <==> forall i :: 0 <= i < |ys| ==> f(ys[i]).Ok?
  {
    ConcatMapOk(xs, f);
    forall x ensures x in xs <==> x in ys {
      assert x in xs <==> x in multiset(xs);
      assert x in ys <==> x in multiset(ys);
    }
    if forall i :: 0 <= i < |ys| ==> f(ys[i]).Ok? {
      forall i | 0 <= i < |xs| ensures f(xs[i]).Ok? {
        assert xs[i] in ys;
      }
    } else {
      var i :| 0 <= i < |ys| && !f(ys[i]).Ok?;
      assert ys[i] in xs;
    }
  }

  /** One more entry that renders: its text is appended. */
  lemma ConcatMapStep<T>(xs: seq<T>, f: T -> Result<string>, i: nat)
    requires i < |xs| && ConcatMap(xs[..i], f).Ok? && f(xs[i]).Ok?
    ensures ConcatMap(xs[..i + 1], f) == Ok(ConcatMap(xs[..i], f).value + f(xs[i]).value)
  {
    assert xs[..i + 1][..i] == xs[..i];
  }

  /** The same step for a loop that starts from a heading. */
  lemma PrefixStep<T>(header: string, xs: seq<T>, f: T -> Result<string>, i: nat, md: string)
    requires i < |xs| && PrefixWith(header, ConcatMap(xs[..i], f)) == Ok(md) && f(xs[i]).Ok?
    ensures PrefixWith(header, ConcatMap(xs[..i + 1], f)) == Ok(md + f(xs[i]).value)
  {
    ConcatMapStep(xs, f, i);
    Assoc(header, ConcatMap(xs[..i], f).value, f(xs[i]).value);
  }

  /** A loop that stops at the first entry that raises returns the error of the whole list. */
  lemma ConcatMapStepErr<T>(xs: seq<T>, f: T -> Result<string>, i: nat)
    requires i < |xs| && ConcatMap(xs[..i], f).Ok? && f(xs[i]).Err?
    ensures ConcatMap(xs, f) == Err(f(xs[i]).missing)
  {
    ConcatMapOk(xs[..i], f);
    assert forall j :: 0 <= j < i ==> xs[..i][j] == xs[j];
    ConcatMapFirstErr(xs, f, i);
  }

  /** The error is the one of the first entry that raises. */
  lemma ConcatMapFirstErr<T>(xs: seq<T>, f: T -> Result<string>, i: nat)
    requires i < |xs|
    requires forall j :: 0 <= j < i ==> f(xs[j]).Ok?
    requires f(xs[i]).Err?
    ensures ConcatMap(xs, f) == Err(f(xs[i]).missing)
  {
    ConcatMapOk(xs[..i], f);
    assert xs[..i + 1][..i] == xs[..i];
    assert ConcatMap(xs[..i + 1], f) == Err(f(xs[i]).missing);
    ConcatMapAppend(xs[..i + 1], xs[i + 1..], f);
    assert xs[..i + 1] + xs[i + 1..] == xs;
  }
}
