/**
 * `render(json_filename)` (aicv/renderers/__init__.py): find the data file,
 * falling back to the `example` directory shipped beside the package, then
 * print the rendering chosen by the first top-level key present.
 *
 * The file system and the JSON parser are parameters: `exists` answers
 * `os.path.exists`, and `load` gives the parsed document of an existing
 * file. Paths follow POSIX `os.path` rules.
 */
module RenderDispatch {
  import opened Strings
  import opened Records
  import EducationRenderer
  import EmploymentRenderer
  import PublicationsRenderer

  /** `os.path.basename(p)`: what follows the last slash. */
  function BaseName(p: string): string {
    p[LastIndex(p, '/') + 1..]
  }

  /** `os.path.dirname(p)`: up to the last slash, trailing slashes dropped unless the head is only slashes. */
  function DirName(p: string): string {
    var head := p[..LastIndex(p, '/') + 1];
    if head != "" && exists j :: 0 <= j < |head| && head[j] != '/' then RStripChars(head, {'/'}) else head
  }

  /** `os.path.join(a, b)` */
  function PathJoin(a: string, b: string): string {
    if StartsWith(b, "/") then b
    else if a == "" || EndsWith(a, "/") then a + b
    else a + "/" + b
  }

  /** Where `render` looks second: the data file's base name in the `example` directory two levels above the package. */
  function FallbackPath(packageFile: string, name: string): string {
    PathJoin(DirName(PathJoin(DirName(packageFile), "../../example/cv.md")), BaseName(name))
  }

  /**
   * The file `render` reads, or `None` when neither candidate exists: the
   * name as given when it exists, the fallback path otherwise.
   */
  function ResolvePath(exists_: string -> bool, packageFile: string, name: string): (r: Option<string>)
    ensures r.None? <==> !exists_(name) && !exists_(FallbackPath(packageFile, name))
    ensures r.Some? ==> exists_(r.value) && (r.value == name || r.value == FallbackPath(packageFile, name))
    ensures exists_(name) ==> r == Some(name)
  {
    var path := if exists_(name) then name else FallbackPath(packageFile, name);
    if exists_(path) then Some(path) else None
  }

  /**
   * The dispatch on the first key present; publications use the default
   * `"markdown"` backend. Whatever is printed ends with a newline, and a
   * document with none of the three keys gets the invalid-format line.
   */
  function Dispatch(data: Document): (r: Result<string>)
    ensures r.Ok? ==> EndsWith(r.value, "\n")
    ensures data.education.None? && data.employment.None? && data.publications.None? ==> r == Ok("Invalid data format.\n")
  {
    if data.education.Some? then PrintLine(EducationRenderer.EducationMarkdown(data.education.value))
    else if data.employment.Some? then PrintLine(EmploymentRenderer.EmploymentMarkdown(data.employment.value))
    else if data.publications.Some? then PrintLine(PublicationsRenderer.PublicationsOutput(data.publications.value, "markdown"))
    else Ok("Invalid data format.\n")
  }

  /**
   * Everything `render` prints; it returns nothing. The output ends with a
   * newline, and only a file that was found and read can raise.
   */
  function Render(exists_: string -> bool, load: string -> Document, packageFile: string, name: string): (r: Result<string>)
    ensures r.Ok? ==> EndsWith(r.value, "\n")
    ensures r.Err? ==> ResolvePath(exists_, packageFile, name).Some?
  {
    match ResolvePath(exists_, packageFile, name)
    case None =>
      var path := FallbackPath(packageFile, name);
      NotFoundLine(path);
      Ok("File " + path + " not found.\n")
    case Some(path) => Dispatch(load(path))
  }

  /** The not-found message ends with its newline. */
  lemma NotFoundLine(path: string)
    ensures EndsWith("File " + path + " not found.\n", "\n")
  {
    var m := "File " + path + " not found.\n";
    assert m[|m| - 1] == '\n';
    assert m[|m| - 1..] == "\n";
  }

  /** The base name holds no slash and ends the path. */
  lemma BaseNameSuffix(p: string)
    ensures '/' !in BaseName(p)
    ensures EndsWith(p, BaseName(p))
  {
    var b := BaseName(p);
    forall j | 0 <= j < |b| ensures b[j] != '/' {
      assert b[j] == p[LastIndex(p, '/') + 1 + j];
    }
  }

  /** The last slash of `x + "/" + y`, when `y` has none, is the one between them. */
  lemma LastSlashAfter(x: string, y: string)
    requires '/' !in y
    ensures LastIndex(x + "/" + y, '/') == |x|
  {
    var t := x + "/";
    var s := t + y;
    assert |t| == |x| + 1 && t[|x|] == '/';
    assert s[|x|] == '/';
    forall j | |t| <= j < |s| ensures s[j] != '/' {
      assert s[j] == y[j - |t|];
      assert y[j - |t|] in y;
    }
    LastIndexAt(s, '/', |x|);
  }

  /** No slash at all. */
  lemma LastSlashNone(y: string)
    requires '/' !in y
    ensures LastIndex(y, '/') == -1
  {
    forall j | 0 <= j < |y| ensures y[j] != '/' {
    }
  }

  lemma NoLeadingSlash(b: string)
    requires '/' !in b
    ensures !StartsWith(b, "/")
  {
    if |b| > 0 {
      assert b[0] in b;
      assert b[..1][0] == b[0];
    }
  }

  /** Joining a slash-free name onto any directory gives a path with that base name. */
  lemma BaseNameJoin(a: string, b: string)
    requires '/' !in b
    ensures BaseName(PathJoin(a, b)) == b
  {
    NoLeadingSlash(b);
    if a == "" {
      LastSlashNone(b);
    } else if EndsWith(a, "/") {
      var x := a[..|a| - 1];
      assert a + b == x + "/" + b;
      LastSlashAfter(x, b);
    } else {
      LastSlashAfter(a, b);
    }
  }

  /** The fallback keeps the base name of the requested file, directory part discarded. */
  lemma FallbackKeepsBaseName(packageFile: string, name: string)
    ensures BaseName(FallbackPath(packageFile, name)) == BaseName(name)
  {
    BaseNameSuffix(name);
    BaseNameJoin(DirName(PathJoin(DirName(packageFile), "../../example/cv.md")), BaseName(name));
  }

  /** The directory of `e/y`, for a slash-free `y` and an `e` not ending in a slash, is `e`. */
  lemma DirNameAfter(e: string, y: string)
    requires '/' !in y && e != [] && e[|e| - 1] != '/'
    ensures DirName(e + "/" + y) == e
  {
    var t := e + "/";
    LastSlashAfter(e, y);
    var head := (e + "/" + y)[..|e| + 1];
    assert head == t;
    assert head[|e| - 1] != '/';
    assert t[..|t| - 1] == e;
  }

  /** The directory of `d/../../example/cv.md`. */
  lemma ExampleDir(d: string)
    requires d != "" && !EndsWith(d, "/")
    ensures DirName(PathJoin(d, "../../example/cv.md")) == d + "/../../example"
  {
    var e := d + "/../../example";
    assert !StartsWith("../../example/cv.md", "/");
    assert PathJoin(d, "../../example/cv.md") == d + "/" + "../../example/cv.md";
    assert d + "/" + "../../example/cv.md" == e + "/" + "cv.md";
    assert e[|e| - 1] == 'e';
    DirNameAfter(e, "cv.md");
  }

  /** For a package file in directory `d`, the fallback is `d/../../example/<base name>`. */
  lemma FallbackLocation(packageFile: string, name: string)
    requires DirName(packageFile) != "" && !EndsWith(DirName(packageFile), "/")
    ensures FallbackPath(packageFile, name) == DirName(packageFile) + "/../../example/" + BaseName(name)
  {
    ExampleDir(DirName(packageFile));
    BaseNameSuffix(name);
    NoLeadingSlash(BaseName(name));
  }

  /** An existing file is read under its own name and nothing else is probed. */
  lemma ExistingFileRead(exists_: string -> bool, load: string -> Document, packageFile: string, name: string)
    requires exists_(name)
    ensures Render(exists_, load, packageFile, name) == Dispatch(load(name))
  {
  }

  /** A missing file is retried at the fallback path, and that file is what gets read. */
  lemma FallbackRead(exists_: string -> bool, load: string -> Document, packageFile: string, name: string)
    requires !exists_(name) && exists_(FallbackPath(packageFile, name))
    ensures Render(exists_, load, packageFile, name) == Dispatch(load(FallbackPath(packageFile, name)))
  {
  }

  /** When neither candidate exists, the only output is the message naming the fallback path, whatever any file would hold. */
  lemma NotFound(exists_: string -> bool, load: string -> Document, load': string -> Document, packageFile: string, name: string)
    requires !exists_(name) && !exists_(FallbackPath(packageFile, name))
    ensures Render(exists_, load, packageFile, name) == Ok("File " + FallbackPath(packageFile, name) + " not found.\n")
    ensures Render(exists_, load, packageFile, name) == Render(exists_, load', packageFile, name)
  {
  }

  /**
   * The first key present in the order education, employment, publications
   * decides, and the keys after it are not looked at; with none of them the
   * fixed message is printed.
   */
  lemma DispatchOrder(data: Document, employment: Option<seq<Job>>, publications: Option<seq<Publication>>)
    ensures data.education.Some? ==>
      Dispatch(data) == Dispatch(data.(employment := employment, publications := publications))
    ensures data.education.None? && data.employment.Some? ==>
      Dispatch(data) == Dispatch(data.(publications := publications))
    ensures data.education.None? && data.employment.None? && data.publications.None? ==>
      Dispatch(data) == Ok("Invalid data format.\n")
  {
  }
}
