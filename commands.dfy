/** The deterministic part of the compile commands (src/client/commands.ts):
    choosing the compiler executable, the output path and the argument list,
    grouping the compiler's reported problems by file, turning each into an
    editor diagnostic, keeping the editor's problem list in step with the
    latest compilation and choosing the final status line. */
module Commands {
  import opened Common
  import opened Types

  // -------------------------------------------------------------------------
  // Executable selection (`compileLocal`, lines 224-232)

  datatype SelectError = NoCompiler(dir: Path) | Ambiguous(dir: Path)

  /** `files.filter(file => file.startsWith('amxxpc'))`. */
  function Potential(files: seq<string>): (r: seq<string>)
    ensures |r| <= |files|
    ensures forall f :: f in r <==> f in files && StartsWith(f, "amxxpc")
  {
    if files == [] then []
    else (if StartsWith(files[0], "amxxpc") then [files[0]] else []) + Potential(files[1..])
  }

  /** Two names of `files`, at different positions, start with "amxxpc". */
  ghost predicate TwoCandidates(files: seq<string>) {
    exists i, j :: 0 <= i < j < |files| && StartsWith(files[i], "amxxpc") && StartsWith(files[j], "amxxpc")
  }

  lemma {:induction false} PairCounted(files: seq<string>, i: nat, j: nat)
    requires i < j < |files| && StartsWith(files[i], "amxxpc") && StartsWith(files[j], "amxxpc")
    ensures |Potential(files)| > 1
  {
    var rest := files[1..];
    assert files[j] == rest[j - 1];
    if i == 0 {
      assert rest[j - 1] in Potential(rest);
    } else {
      assert files[i] == rest[i - 1];
      PairCounted(rest, i - 1, j - 1);
    }
  }

  lemma {:induction false} ManyCounted(files: seq<string>)
    requires |Potential(files)| > 1
    ensures TwoCandidates(files)
  {
    var rest := files[1..];
    if StartsWith(files[0], "amxxpc") {
      var f := Potential(rest)[0];
      assert f in Potential(rest);
      var j :| 0 <= j < |rest| && rest[j] == f;
      assert files[j + 1] == f;
    } else {
      ManyCounted(rest);
      var i, j :| 0 <= i < j < |rest| && StartsWith(rest[i], "amxxpc") && StartsWith(rest[j], "amxxpc");
      assert files[i + 1] == rest[i] && files[j + 1] == rest[j];
    }
  }

  /** More than one candidate means two positions of the listing hold names
      starting with "amxxpc". */
  lemma PotentialTwo(files: seq<string>)
    ensures |Potential(files)| > 1 <==> TwoCandidates(files)
  {
    if |Potential(files)| > 1 {
      ManyCounted(files);
    }
    if TwoCandidates(files) {
      var i, j :| 0 <= i < j < |files| && StartsWith(files[i], "amxxpc") && StartsWith(files[j], "amxxpc");
      PairCounted(files, i, j);
    }
  }

  /** The executable `compileLocal` runs from the document's directory `dir`
      whose entries are `files`. */
  function SelectExecutable(dir: Path, files: seq<string>): (r: Result<Path, SelectError>)
    ensures r.Err? ==> r.error.dir == dir
    ensures r.Ok? ==> exists f :: f in files && StartsWith(f, "amxxpc") && r.value == Join(dir, f)
  {
    var potential := Potential(files);
    if "amxxpc.exe" in potential then Ok(Join(dir, "amxxpc.exe"))
    else if |potential| == 0 then Err(NoCompiler(dir))
    else if |potential| > 1 then Err(Ambiguous(dir))
    else Ok(Join(dir, potential[0]))
  }

  /** "amxxpc.exe" wins whenever the directory has it; otherwise no candidate
      is an error, two or more are ambiguous, and a single one is used. */
  lemma SelectionRules(dir: Path, files: seq<string>)
    ensures "amxxpc.exe" in files ==> SelectExecutable(dir, files) == Ok(Join(dir, "amxxpc.exe"))
    ensures SelectExecutable(dir, files) == Err(NoCompiler(dir)) <==>
              forall f :: f in files ==> !StartsWith(f, "amxxpc")
    ensures SelectExecutable(dir, files) == Err(Ambiguous(dir)) <==>
              "amxxpc.exe" !in files && TwoCandidates(files)
    ensures SelectExecutable(dir, files).Ok? ==>
              exists f :: f in files && StartsWith(f, "amxxpc") && SelectExecutable(dir, files).value == Join(dir, f)
  {
    var potential := Potential(files);
    assert StartsWith("amxxpc.exe", "amxxpc");
    PotentialTwo(files);
    if |potential| > 0 {
      assert potential[0] in potential;
    }
  }

  // -------------------------------------------------------------------------
  // Output path and arguments (`doCompile`, lines 31-50)

  /** The compiler settings `doCompile` reads. */
  datatype CompilerSettings = CompilerSettings(
    outputType: string,
    outputPath: string,
    options: seq<string>,
    includePaths: seq<string>)

  datatype CompileError = OutputPathMissing(path: string) | InvalidOutputType

  /** The plugin's file name: the input's base name without its extension,
      then ".amxx". */
  function OutputName(inputPath: Path): string {
    Stem(inputPath) + ".amxx"
  }

  /** Lines 31-43. `resolve` is `resolvePathVariables` for this workspace and
      input, and `existing` the paths `existsSync` finds. */
  function OutputPath(settings: CompilerSettings, inputPath: Path, resolve: string -> string, existing: set<Path>)
    : (r: Result<Path, CompileError>)
    ensures r.Ok? ==> EndsWith(r.value, OutputName(inputPath))
  {
    if settings.outputType == "path" then
      var resolved := resolve(settings.outputPath);
      if resolved == "" || resolved !in existing then Err(OutputPathMissing(resolved))
      else Ok(Join(resolved, OutputName(inputPath)))
    else if settings.outputType == "source" then Ok(Join(Dirname(inputPath), OutputName(inputPath)))
    else Err(InvalidOutputType)
  }

  /** Joining a directory and a plain name: the directory and the name are
      what `dirname` and `basename` give back. */
  lemma JoinSplits(dir: Path, name: string)
    requires dir != ""
    requires forall k :: 0 <= k < |name| ==> name[k] != '/'
    ensures Dirname(Join(dir, name)) == dir
    ensures Basename(Join(dir, name)) == name
  {
    var p := Join(dir, name);
    assert p[|dir|] == '/';
    forall k | |dir| < k < |p|
      ensures p[k] != '/'
    {
      assert p[k] == name[k - |dir| - 1];
    }
    assert LastIndexOf(p, '/') == Some(|dir|) by {
      LastIndexIs(p, '/', |dir|);
    }
  }

  lemma {:induction false} LastIndexIs(s: string, c: char, i: nat)
    requires i < |s| && s[i] == c
    requires forall k :: i < k < |s| ==> s[k] != c
    ensures LastIndexOf(s, c) == Some(i)
    decreases |s|
  {
    if s[|s| - 1] != c {
      LastIndexIs(s[..|s| - 1], c, i);
    }
  }

  /** A prefix of a slash-free string is slash-free. */
  lemma NoSlashPrefix(s: string, e: string)
    requires forall k :: 0 <= k < |s + e| ==> (s + e)[k] != '/'
    ensures forall k :: 0 <= k < |s| ==> s[k] != '/'
  {
    forall k | 0 <= k < |s|
      ensures s[k] != '/'
    {
      assert s[k] == (s + e)[k];
    }
  }

  /** A slash-free name stays slash-free when its extension is replaced by
      ".amxx". */
  lemma PlainName(stem: string, ext: string)
    requires forall k :: 0 <= k < |stem + ext| ==> (stem + ext)[k] != '/'
    ensures forall k :: 0 <= k < |stem + ".amxx"| ==> (stem + ".amxx")[k] != '/'
  {
    NoSlashPrefix(stem, ext);
    var name := stem + ".amxx";
    forall k | 0 <= k < |name|
      ensures name[k] != '/'
    {
      if k < |stem| {
        assert name[k] == stem[k];
      } else {
        assert name[k] == ".amxx"[k - |stem|];
      }
    }
  }

  /** The plugin name holds no slash. */
  lemma OutputNamePlain(inputPath: Path)
    ensures forall k :: 0 <= k < |OutputName(inputPath)| ==> OutputName(inputPath)[k] != '/'
  {
    var b, stem, ext := Basename(inputPath), Stem(inputPath), Extname(inputPath);
    assert b == stem + ext;
    PlainName(stem, ext);
  }

  /** `Path.extname` splits a source name at its last dot: in any directory,
      `stem.ext` has extension ".ext" and stem `stem`, so its plugin is
      `stem.amxx`. */
  lemma {:induction false} ExtOfName(dir: Path, stem: string, ext: string)
    requires dir != "" && stem != ""
    requires forall k :: 0 <= k < |stem| ==> stem[k] != '/'
    requires forall k :: 0 <= k < |ext| ==> ext[k] != '/' && ext[k] != '.'
    requires stem + "." + ext != ".."
    ensures Extname(Join(dir, stem + "." + ext)) == "." + ext
    ensures Stem(Join(dir, stem + "." + ext)) == stem
    ensures OutputName(Join(dir, stem + "." + ext)) == stem + ".amxx"
  {
    var name := stem + "." + ext;
    DottedNameSplits(stem, ext);
    JoinSplits(dir, name);
    ExtnameAt(Join(dir, name), |stem|);
  }

  /** `stem.ext` is slash-free and its last dot follows `stem`. */
  lemma DottedNameSplits(stem: string, ext: string)
    requires forall k :: 0 <= k < |stem| ==> stem[k] != '/'
    requires forall k :: 0 <= k < |ext| ==> ext[k] != '/' && ext[k] != '.'
    ensures forall k :: 0 <= k < |stem + "." + ext| ==> (stem + "." + ext)[k] != '/'
    ensures LastIndexOf(stem + "." + ext, '.') == Some(|stem|)
    ensures (stem + "." + ext)[|stem|..] == "." + ext && (stem + "." + ext)[..|stem|] == stem
  {
    var name := stem + "." + ext;
    forall k | 0 <= k < |name|
      ensures name[k] != '/'
      ensures k > |stem| ==> name[k] != '.'
    {
      if k < |stem| {
        assert name[k] == stem[k];
      } else if k > |stem| {
        assert name[k] == ext[k - |stem| - 1];
      }
    }
    LastIndexIs(name, '.', |stem|);
    assert name[|stem|..] == "." + ext;
    assert name[..|stem|] == stem;
  }

  /** The output path is the plugin name in the input's directory (`source`)
      or in the resolved directory, which must exist (`path`); any other
      output type is refused. */
  lemma OutputPathChoice(settings: CompilerSettings, inputPath: Path, resolve: string -> string, existing: set<Path>)
    ensures var r := OutputPath(settings, inputPath, resolve, existing);
            && (r.Ok? ==> Basename(r.value) == OutputName(inputPath))
            && (settings.outputType == "source" ==> r.Ok? && Dirname(r.value) == Dirname(inputPath))
            && (settings.outputType == "path" ==>
                  var resolved := resolve(settings.outputPath);
                  && (r.Ok? <==> resolved != "" && resolved in existing)
                  && (r.Ok? ==> Dirname(r.value) == resolved)
                  && (r.Err? ==> r.error == OutputPathMissing(resolved)))
            && (settings.outputType != "path" && settings.outputType != "source" ==> r == Err(InvalidOutputType))
  {
    OutputNamePlain(inputPath);
    if settings.outputType == "path" {
      var resolved := resolve(settings.outputPath);
      if resolved != "" && resolved in existing {
        JoinSplits(resolved, OutputName(inputPath));
      }
    } else if settings.outputType == "source" {
      JoinSplits(Dirname(inputPath), OutputName(inputPath));
    }
  }

  function Quoted(s: string): string {
    "\"" + s + "\""
  }

  /** Lines 45-50; `resolve` is `resolvePathVariables` as above. */
  function CompilerArgs(inputPath: Path, settings: CompilerSettings, resolve: string -> string, outputPath: Path)
    : (r: seq<string>)
    ensures |r| == |settings.options| + |settings.includePaths| + 2
  {
    var includes := settings.includePaths;
    [Quoted(inputPath)] + settings.options
    + seq(|includes|, k requires 0 <= k < |includes| => "-i" + Quoted(resolve(includes[k])))
    + ["-o" + Quoted(outputPath)]
  }

  /** The quoted input first, then the user's options in order, then one
      `-i` per include path in configured order, and `-o` last. */
  lemma ArgsLayout(inputPath: Path, settings: CompilerSettings, resolve: string -> string, outputPath: Path)
    ensures var args := CompilerArgs(inputPath, settings, resolve, outputPath);
            var n := |settings.options|;
            && |args| == n + |settings.includePaths| + 2
            && args[0] == "\"" + inputPath + "\""
            && (forall k :: 0 <= k < n ==> args[1 + k] == settings.options[k])
            && (forall k :: 0 <= k < |settings.includePaths| ==>
                  args[1 + n + k] == "-i\"" + resolve(settings.includePaths[k]) + "\"")
            && args[|args| - 1] == "-o\"" + outputPath + "\""
  {
    var args := CompilerArgs(inputPath, settings, resolve, outputPath);
    var n := |settings.options|;
    forall k | 0 <= k < |settings.includePaths|
      ensures args[1 + n + k] == "-i\"" + resolve(settings.includePaths[k]) + "\""
    {
      assert "-i" + Quoted(resolve(settings.includePaths[k])) == "-i\"" + resolve(settings.includePaths[k]) + "\"";
    }
    assert "-o" + Quoted(outputPath) == "-o\"" + outputPath + "\"";
  }

  // -------------------------------------------------------------------------
  // Grouping the compiler's matches (lines 88-103)

  /** The `(warning|error)` group of a match. */
  datatype Kind = WarningKind | ErrorKind

  /** One match of the output pattern: file, start line, optional end line,
      kind and message. */
  datatype CompilerMatch = CompilerMatch(file: Path, startLine: nat, endLine: Option<nat>, kind: Kind, message: string)

  /** The record pushed for a match (lines 98-102). */
  datatype OutputDiagnostic = OutputDiagnostic(kind: Kind, startLine: nat, endLine: Option<nat>, message: string)

  function Recorded(m: CompilerMatch): OutputDiagnostic {
    OutputDiagnostic(m.kind, m.startLine, m.endLine, m.message)
  }

  /** Reference definition: the files with a match, in order of first match. */
  function FilesOf(matches: seq<CompilerMatch>): seq<Path> {
    if matches == [] then []
    else
      var files := FilesOf(matches[..|matches| - 1]);
      var f := matches[|matches| - 1].file;
      if f in files then files else files + [f]
  }

  /** Reference definition: the records of the matches for `file`, in match order. */
  function DiagnosticsFor(matches: seq<CompilerMatch>, file: Path): seq<OutputDiagnostic> {
    if matches == [] then []
    else
      var last := matches[|matches| - 1];
      DiagnosticsFor(matches[..|matches| - 1], file) + (if last.file == file then [Recorded(last)] else [])
  }

  /** Some match has kind `kind`. */
  predicate AnyOf(matches: seq<CompilerMatch>, kind: Kind) {
    exists k :: 0 <= k < |matches| && matches[k].kind == kind
  }

  /** Some match is reported against `file`. */
  predicate Reported(matches: seq<CompilerMatch>, file: Path) {
    exists k :: 0 <= k < |matches| && matches[k].file == file
  }

  /** Every file with a match is listed once, and only those. */
  lemma {:induction false} FilesOfSpec(matches: seq<CompilerMatch>)
    ensures Distinct(FilesOf(matches))
    ensures forall f :: f in FilesOf(matches) <==> Reported(matches, f)
  {
    if matches != [] {
      var init := matches[..|matches| - 1];
      FilesOfSpec(init);
      forall f | Reported(matches, f) && f != matches[|matches| - 1].file
        ensures Reported(init, f)
      {
        var k :| 0 <= k < |matches| && matches[k].file == f;
        assert init[k] == matches[k];
      }
      forall f | Reported(init, f)
        ensures Reported(matches, f)
      {
        var k :| 0 <= k < |init| && init[k].file == f;
        assert matches[k] == init[k];
      }
      assert matches[|matches| - 1].file == matches[|matches| - 1].file;
    }
  }

  /** A record is in a file's list exactly when it is the record of a match
      against that file. */
  lemma {:induction false} DiagnosticsForMembers(matches: seq<CompilerMatch>, file: Path)
    ensures forall d :: d in DiagnosticsFor(matches, file) <==>
              exists k :: 0 <= k < |matches| && matches[k].file == file && d == Recorded(matches[k])
  {
    if matches != [] {
      var init := matches[..|matches| - 1];
      DiagnosticsForMembers(init, file);
      forall d | exists k :: 0 <= k < |matches| && matches[k].file == file && d == Recorded(matches[k])
        ensures d in DiagnosticsFor(matches, file)
      {
        var k :| 0 <= k < |matches| && matches[k].file == file && d == Recorded(matches[k]);
        if k < |init| {
          assert init[k] == matches[k];
        }
      }
      forall d | d in DiagnosticsFor(init, file)
        ensures exists k :: 0 <= k < |matches| && matches[k].file == file && d == Recorded(matches[k])
      {
        var k :| 0 <= k < |init| && init[k].file == file && d == Recorded(init[k]);
        assert matches[k] == init[k];
      }
    }
  }

  /** Appending one match extends the reference definitions by that match. */
  lemma GroupAppend(init: seq<CompilerMatch>, m: CompilerMatch)
    ensures FilesOf(init + [m]) == if m.file in FilesOf(init) then FilesOf(init) else FilesOf(init) + [m.file]
    ensures forall f :: DiagnosticsFor(init + [m], f) == DiagnosticsFor(init, f) + (if m.file == f then [Recorded(m)] else [])
    ensures forall kind :: AnyOf(init + [m], kind) <==> AnyOf(init, kind) || m.kind == kind
  {
    var next := init + [m];
    assert next[..|init|] == init;
    forall kind
      ensures AnyOf(next, kind) <==> AnyOf(init, kind) || m.kind == kind
    {
      if AnyOf(next, kind) {
        var k :| 0 <= k < |next| && next[k].kind == kind;
        if k < |init| {
          assert init[k] == next[k];
        }
      }
      if AnyOf(init, kind) {
        var k :| 0 <= k < |init| && init[k].kind == kind;
        assert next[k] == init[k];
      }
      assert next[|init|] == m;
    }
  }

  /** `files` is the key order of `outputData`, which maps each file to its
      records in `seen`, in match order. */
  ghost predicate Grouping(seen: seq<CompilerMatch>, files: seq<Path>, outputData: map<Path, seq<OutputDiagnostic>>) {
    && files == FilesOf(seen)
    && (forall f :: f in outputData <==> f in files)
    && (forall f :: f in outputData ==> outputData[f] == DiagnosticsFor(seen, f))
    && (forall f :: f !in outputData ==> DiagnosticsFor(seen, f) == [])
  }

  /** One iteration of the loop keeps `Grouping`: a new file gets an empty
      array and a key, then the match's record is pushed. */
  lemma GroupingStep(seen: seq<CompilerMatch>, m: CompilerMatch, files: seq<Path>,
                     outputData: map<Path, seq<OutputDiagnostic>>, files': seq<Path>,
                     created: map<Path, seq<OutputDiagnostic>>)
    requires Grouping(seen, files, outputData)
    requires files' == if m.file in outputData then files else files + [m.file]
    requires created == if m.file in outputData then outputData else outputData[m.file := []]
    ensures Grouping(seen + [m], files', created[m.file := created[m.file] + [Recorded(m)]])
  {
    GroupAppend(seen, m);
  }

  /** Extending a prefix by one element. */
  lemma PrefixStep<T>(s: seq<T>, i: nat)
    requires i < |s|
    ensures s[..i + 1] == s[..i] + [s[i]]
  {
  }

  /** The `while` loop over the matches (lines 88-103). */
  method GroupMatches(matches: seq<CompilerMatch>)
    returns (files: seq<Path>, outputData: map<Path, seq<OutputDiagnostic>>, hasErrors: bool, hasWarnings: bool)
    ensures files == FilesOf(matches)
    ensures forall f :: f in outputData <==> f in files
    ensures forall f :: f in outputData ==> outputData[f] == DiagnosticsFor(matches, f)
    ensures hasErrors <==> AnyOf(matches, ErrorKind)
    ensures hasWarnings <==> AnyOf(matches, WarningKind)
  {
    files, outputData, hasErrors, hasWarnings := [], map[], false, false;
    var i := 0;
    ghost var seen: seq<CompilerMatch> := [];
    while i < |matches|
      invariant 0 <= i <= |matches|
      invariant seen == matches[..i]
      invariant Grouping(seen, files, outputData)
      invariant hasErrors <==> AnyOf(seen, ErrorKind)
      invariant hasWarnings <==> AnyOf(seen, WarningKind)
    {
      var m := matches[i];
      GroupAppend(seen, m);
      ghost var files0, outputData0 := files, outputData;
      if m.file !in outputData {
        outputData := outputData[m.file := []];
        files := files + [m.file];
      }
      if m.kind == ErrorKind {
        hasErrors := true;
      }
      if m.kind == WarningKind {
        hasWarnings := true;
      }
      GroupingStep(seen, m, files0, outputData0, files, outputData);
      outputData := outputData[m.file := outputData[m.file] + [Recorded(m)]];
      PrefixStep(matches, i);
      seen := seen + [m];
      i := i + 1;
    }
    assert matches[..|matches|] == matches;
  }

  // -------------------------------------------------------------------------
  // Editor diagnostics (lines 124-131)

  /** `Number.MAX_VALUE`, (2 - 2^-52) * 2^1023, as an integer. */
  const NumberMaxValue: nat :=
    179769313486231570814527423731704356798070567525844996598917476803157260780028538760589558632766878171540458953514382464234321326889464182768467546703537516986049910576551282076245490090389328944075868508455133942304583236903222948165808559332123348274797826204144723168738177180919299881250404026184124858368

  datatype CompilerDiagnostic = CompilerDiagnostic(range: Range, message: string, severity: Severity)

  predicate Before(a: Position, b: Position) {
    a.line < b.line || (a.line == b.line && a.character < b.character)
  }

  /** The line the range ends on, one-based: `diag.endLine || diag.startLine`,
      where an end line of 0 counts as missing. */
  function LastLine(d: OutputDiagnostic): nat {
    if d.endLine.Some? && d.endLine.value != 0 then d.endLine.value else d.startLine
  }

  /** `new VSC.Range(startLine - 1, 0, lastLine - 1, Number.MAX_VALUE)`: the
      editor refuses a negative line (None) and puts the two ends in order. */
  function ToRange(d: OutputDiagnostic): (r: Option<Range>)
    ensures r.Some? <==> d.startLine > 0
    ensures r.Some? ==> Before(r.value.start, r.value.end)
  {
    if d.startLine == 0 || LastLine(d) == 0 then None
    else
      var start, end := Position(d.startLine - 1, 0), Position(LastLine(d) - 1, NumberMaxValue);
      if Before(start, end) then Some(Range(start, end)) else Some(Range(end, start))
  }

  /** One record as an editor diagnostic (`new VSC.Diagnostic(range, message,
      severity)`), None where the editor refuses it: `new VSC.Range` refuses
      the range, or `new VSC.Diagnostic` an empty message. */
  function ToDiagnostic(d: OutputDiagnostic): (r: Option<CompilerDiagnostic>)
    ensures r.Some? <==> d.startLine > 0 && d.message != ""
    ensures r.Some? ==> r.value.message == d.message && (r.value.severity == Error <==> d.kind == ErrorKind)
  {
    match ToRange(d)
    case None => None
    case Some(range) =>
      if d.message == "" then None
      else Some(CompilerDiagnostic(range, d.message, if d.kind == ErrorKind then Error else Warning))
  }

  /** A record becomes a diagnostic exactly when its start line is positive
      and its message is not empty;
      it is an error exactly when the match was one, otherwise a warning; it
      covers whole lines, from the start line to the end line (or the start
      line alone when there is none), counted from zero and in order. */
  lemma ToDiagnosticSpec(d: OutputDiagnostic)
    ensures ToDiagnostic(d).Some? <==> d.startLine > 0 && d.message != ""
    ensures ToDiagnostic(d).Some? ==>
              var r := ToDiagnostic(d).value;
              var first, last := d.startLine - 1, LastLine(d) - 1;
              && r.message == d.message
              && (r.severity == Error <==> d.kind == ErrorKind)
              && (r.severity == Warning <==> d.kind == WarningKind)
              && r.range.start.line == (if first <= last then first else last)
              && r.range.end.line == (if first <= last then last else first)
              && (first <= last ==> r.range.start.character == 0 && r.range.end.character == NumberMaxValue)
              && Before(r.range.start, r.range.end)
    ensures (d.endLine.None? || d.endLine == Some(0)) && d.startLine > 0 ==>
              ToRange(d) == Some(Range(Position(d.startLine - 1, 0), Position(d.startLine - 1, NumberMaxValue)))
  {
  }

  /** `data.diagnostics.forEach(...)`: the file's records in order, None
      when one of them is refused (the callback throws). */
  function ToDiagnostics(ds: seq<OutputDiagnostic>): (r: Option<seq<CompilerDiagnostic>>)
    ensures r.Some? ==> |r.value| == |ds|
  {
    if ds == [] then Some([])
    else match (ToDiagnostic(ds[0]), ToDiagnostics(ds[1..]))
      case (Some(x), Some(xs)) => Some([x] + xs)
      case _ => None
  }

  lemma {:induction false} ToDiagnosticsSpec(ds: seq<OutputDiagnostic>)
    ensures ToDiagnostics(ds).Some? <==> forall k :: 0 <= k < |ds| ==> ds[k].startLine > 0 && ds[k].message != ""
    ensures ToDiagnostics(ds).Some? ==> forall k :: 0 <= k < |ds| ==> Some(ToDiagnostics(ds).value[k]) == ToDiagnostic(ds[k])
  {
    if ds != [] {
      ToDiagnosticsSpec(ds[1..]);
      ToDiagnosticSpec(ds[0]);
      assert forall k :: 0 < k < |ds| ==> ds[k] == ds[1..][k - 1];
    }
  }

  // -------------------------------------------------------------------------
  // The editor's problem list (lines 24, 105-111 and 132)

  class DiagnosticCollection {
    /** The diagnostics the editor shows, by file. */
    var entries: map<Path, seq<CompilerDiagnostic>>

    constructor ()
      ensures entries == map[]
    {
      entries := map[];
    }

    /** `diagnosticCollection.clear()` (line 24). */
    method Clear()
      modifies this
      ensures entries == map[]
    {
      entries := map[];
    }

    /** `diagnosticCollection.set(uri, diagnostics)` (line 132). */
    method Set(path: Path, diagnostics: seq<CompilerDiagnostic>)
      modifies this
      ensures entries == old(entries)[path := diagnostics]
    {
      entries := entries[path := diagnostics];
    }

    /** Lines 106-111: every entry for a file outside `keep` is deleted; the
        others stay as they were. */
    method DeleteStale(keep: set<Path>)
      modifies this
      ensures forall u :: u in entries <==> u in old(entries) && u in keep
      ensures forall u :: u in entries ==> entries[u] == old(entries)[u]
    {
      var pending := entries.Keys;
      while pending != {}
        invariant pending <= old(entries).Keys
        invariant forall u :: u in entries <==> u in old(entries) && (u in pending || u in keep)
        invariant forall u :: u in entries ==> entries[u] == old(entries)[u]
        decreases |pending|
      {
        var u :| u in pending;
        if u !in keep {
          entries := entries - {u};
        }
        pending := pending - {u};
      }
    }
  }

  // -------------------------------------------------------------------------
  // The final status (lines 144-149)

  datatype Status = Failed | CompletedWithWarnings | Succeeded | Silent

  /** Errors mean failure; otherwise warnings mean completion with warnings;
      otherwise "Done." in the output means the success report; otherwise
      nothing is reported. */
  function FinalStatus(hasErrors: bool, hasWarnings: bool, stdout: string): (r: Status)
    ensures r == Failed <==> hasErrors
    ensures r == CompletedWithWarnings <==> !hasErrors && hasWarnings
    ensures r == Succeeded <==> !hasErrors && !hasWarnings && Contains(stdout, "Done.")
  {
    if hasErrors then Failed
    else if hasWarnings then CompletedWithWarnings
    else if Contains(stdout, "Done.") then Succeeded
    else Silent
  }

  /** In terms of the matches: one error fails the compilation; warnings
      alone complete it with warnings; the success report needs no match at
      all and "Done." in the output. */
  lemma StatusOfMatches(matches: seq<CompilerMatch>, stdout: string)
    ensures var s := FinalStatus(AnyOf(matches, ErrorKind), AnyOf(matches, WarningKind), stdout);
            && (s == Failed <==> AnyOf(matches, ErrorKind))
            && (s == CompletedWithWarnings <==> !AnyOf(matches, ErrorKind) && AnyOf(matches, WarningKind))
            && (s == Succeeded <==> matches == [] && Contains(stdout, "Done."))
            && (s == Silent <==> matches == [] && !Contains(stdout, "Done."))
  {
    if matches != [] {
      assert matches[0].kind == ErrorKind || matches[0].kind == WarningKind;
    }
  }

  /** Every record has a positive start line and a message, so the editor
      accepts it. */
  ghost predicate Accepted(ds: seq<OutputDiagnostic>) {
    forall k :: 0 <= k < |ds| ==> ds[k].startLine > 0 && ds[k].message != ""
  }

  /** The grouped records are all accepted exactly when every match has a
      positive start line and a message. */
  lemma AcceptedGrouped(matches: seq<CompilerMatch>, files: seq<Path>)
    requires forall f :: f in files <==> Reported(matches, f)
    ensures (forall f :: f in files ==> Accepted(DiagnosticsFor(matches, f)))
            <==> forall k :: 0 <= k < |matches| ==> matches[k].startLine > 0 && matches[k].message != ""
  {
    if forall f :: f in files ==> Accepted(DiagnosticsFor(matches, f)) {
      forall k | 0 <= k < |matches|
        ensures matches[k].startLine > 0 && matches[k].message != ""
      {
        var f := matches[k].file;
        DiagnosticsForMembers(matches, f);
        assert Recorded(matches[k]) in DiagnosticsFor(matches, f);
      }
    }
    if forall k :: 0 <= k < |matches| ==> matches[k].startLine > 0 && matches[k].message != "" {
      forall f | f in files
        ensures Accepted(DiagnosticsFor(matches, f))
      {
        DiagnosticsForMembers(matches, f);
        forall j | 0 <= j < |DiagnosticsFor(matches, f)|
          ensures DiagnosticsFor(matches, f)[j].startLine > 0 && DiagnosticsFor(matches, f)[j].message != ""
        {
          assert DiagnosticsFor(matches, f)[j] in DiagnosticsFor(matches, f);
        }
      }
    }
  }

  /** The first `i` files have been set from `outputData` on top of
      `before`; every other entry is as it was. */
  ghost predicate SetUpTo(files: seq<Path>, outputData: map<Path, seq<OutputDiagnostic>>,
                          before: map<Path, seq<CompilerDiagnostic>>, after: map<Path, seq<CompilerDiagnostic>>, i: int)
  {
    && 0 <= i <= |files|
    && (forall u :: u in after <==> u in before || u in files[..i])
    && (forall u :: u in after ==>
          if u in files[..i] then u in outputData && Some(after[u]) == ToDiagnostics(outputData[u])
          else after[u] == before[u])
  }

  /** The loop stopped at the `i`-th file: its records are refused, those
      of the files before it were accepted and set, and nothing else changed. */
  ghost predicate StoppedAt(files: seq<Path>, outputData: map<Path, seq<OutputDiagnostic>>,
                            before: map<Path, seq<CompilerDiagnostic>>, after: map<Path, seq<CompilerDiagnostic>>, i: int)
  {
    && 0 <= i < |files|
    && files[i] in outputData && !Accepted(outputData[files[i]])
    && (forall f :: f in files[..i] ==> f in outputData && Accepted(outputData[f]))
    && SetUpTo(files, outputData, before, after, i)
  }

  /** The `for ... of outputData.entries()` loop (lines 119-134): sets each
      file's diagnostics in key order; a refused record stops it there
      (`completed` false). */
  method SetReported(collection: DiagnosticCollection, files: seq<Path>, outputData: map<Path, seq<OutputDiagnostic>>)
    returns (completed: bool)
    requires forall f :: f in files ==> f in outputData
    modifies collection
    ensures completed <==> forall f :: f in files ==> Accepted(outputData[f])
    ensures completed ==> forall u :: u in collection.entries <==> u in old(collection.entries) || u in files
    ensures completed ==> forall u :: u in collection.entries ==>
              if u in files then Some(collection.entries[u]) == ToDiagnostics(outputData[u])
              else collection.entries[u] == old(collection.entries)[u]
    ensures !completed ==> exists i :: StoppedAt(files, outputData, old(collection.entries), collection.entries, i)
  {
    for i := 0 to |files|
      invariant forall f :: f in files[..i] ==> Accepted(outputData[f])
      invariant forall u :: u in collection.entries <==> u in old(collection.entries) || u in files[..i]
      invariant forall u :: u in collection.entries ==>
                  if u in files[..i] then Some(collection.entries[u]) == ToDiagnostics(outputData[u])
                  else collection.entries[u] == old(collection.entries)[u]
    {
      var f := files[i];
      var ds := ToDiagnostics(outputData[f]);
      ToDiagnosticsSpec(outputData[f]);
      if ds.None? {
        assert StoppedAt(files, outputData, old(collection.entries), collection.entries, i);
        return false;
      }
      collection.Set(f, ds.value);
      assert files[..i + 1] == files[..i] + [f];
    }
    assert files[..|files|] == files;
    return true;
  }

  /** The grouped records of every reported file. */
  ghost function Grouped(matches: seq<CompilerMatch>): map<Path, seq<OutputDiagnostic>> {
    map f | f in FilesOf(matches) :: DiagnosticsFor(matches, f)
  }

  /** The entries of `entries` for reported files: what deleting the stale
      ones (lines 106-111) leaves. */
  ghost function Kept(entries: map<Path, seq<CompilerDiagnostic>>, matches: seq<CompilerMatch>)
    : map<Path, seq<CompilerDiagnostic>>
  {
    map u | u in entries && Reported(matches, u) :: entries[u]
  }

  lemma GroupedIs(matches: seq<CompilerMatch>, files: seq<Path>, outputData: map<Path, seq<OutputDiagnostic>>)
    requires files == FilesOf(matches)
    requires forall f :: f in outputData <==> f in files
    requires forall f :: f in outputData ==> outputData[f] == DiagnosticsFor(matches, f)
    ensures outputData == Grouped(matches)
  {
  }

  lemma KeptIs(before: map<Path, seq<CompilerDiagnostic>>, after: map<Path, seq<CompilerDiagnostic>>,
               matches: seq<CompilerMatch>, files: seq<Path>)
    requires forall f :: f in files <==> Reported(matches, f)
    requires forall u :: u in after <==> u in before && u in (set f | f in files)
    requires forall u :: u in after ==> after[u] == before[u]
    ensures after == Kept(before, matches)
  {
  }

  /** The `close` handler's bookkeeping (lines 81-149) for the matches found
      in `stdout`: group them, drop stale entries, set each reported file's
      diagnostics in order of first match, then choose the status. A record
      the editor refuses stops the handler (None) where it is. */
  method ReportOutput(collection: DiagnosticCollection, matches: seq<CompilerMatch>, stdout: string)
    returns (status: Option<Status>)
    modifies collection
    ensures status.Some? <==> forall k :: 0 <= k < |matches| ==> matches[k].startLine > 0 && matches[k].message != ""
    ensures status.Some? ==>
              status.value == FinalStatus(AnyOf(matches, ErrorKind), AnyOf(matches, WarningKind), stdout)
    ensures status.Some? ==> forall u :: u in collection.entries <==> Reported(matches, u)
    ensures status.Some? ==> forall u :: u in collection.entries ==>
              Some(collection.entries[u]) == ToDiagnostics(DiagnosticsFor(matches, u))
    ensures status.None? ==>
              exists i :: StoppedAt(FilesOf(matches), Grouped(matches), Kept(old(collection.entries), matches), collection.entries, i)
  {
    var files, outputData, hasErrors, hasWarnings := GroupMatches(matches);
    FilesOfSpec(matches);
    AcceptedGrouped(matches, files);
    GroupedIs(matches, files, outputData);
    ghost var before := collection.entries;
    collection.DeleteStale(set f | f in files);
    KeptIs(before, collection.entries, matches, files);
    ghost var kept := collection.entries;
    var completed := SetReported(collection, files, outputData);
    if !completed {
      ghost var i :| StoppedAt(files, outputData, kept, collection.entries, i);
      assert StoppedAt(FilesOf(matches), Grouped(matches), Kept(before, matches), collection.entries, i);
      return None;
    }
    status := Some(FinalStatus(hasErrors, hasWarnings, stdout));
  }
}
