/**
 * `vcpkg format-manifest`: reformat `vcpkg.json` manifests in place and,
 * on request, convert legacy `CONTROL` files into `vcpkg.json`.
 *
 * The command first reads every file it was asked for, collecting the files
 * that parsed into a list of write jobs and remembering whether any read
 * failed; then it writes every job, checking that the reformatted manifest
 * parses back to the same port description; finally it exits with failure
 * exactly when some read failed.
 *
 * The file system, the JSON and CONTROL parsers and the manifest serializer
 * are collaborators: they appear as the functions of an `Env`. What the
 * command does to the file system is returned as a list of `Effect`s, and
 * each fatal exit is an `Aborted` exit carrying its reason.
 */
module FormatManifest {
  import opened Wrappers

  /** A file-system path: absolute or relative, as a list of components. */
  datatype Path = Path(absolute: bool, components: seq<string>)

  /** The last component (`Path::filename`), empty for a path without components. */
  function FileName(p: Path): string
  {
    if p.components == [] then "" else p.components[|p.components| - 1]
  }

  /** The path without its last component (`Path::parent_path`). */
  function ParentPath(p: Path): Path
  {
    if p.components == [] then p else Path(p.absolute, p.components[..|p.components| - 1])
  }

  /** `base / rel`: an absolute right-hand side replaces the base. */
  function Join(base: Path, rel: Path): (r: Path)
    ensures !rel.absolute ==> r.absolute == base.absolute && r.components == base.components + rel.components
    ensures rel.absolute ==> r == rel
  {
    if rel.absolute then rel else Path(base.absolute, base.components + rel.components)
  }

  /** `dir / name` for a single file name. */
  function Child(dir: Path, name: string): (r: Path)
    ensures FileName(r) == name && ParentPath(r) == dir
  {
    Join(dir, Path(false, [name]))
  }

  /** Stand-ins for the parsed forms; only their equality matters to this command. */
  datatype JsonObject = JsonObject(text: string)
  datatype JsonValue = ObjectValue(obj: JsonObject) | NonObjectValue
  datatype Paragraphs = Paragraphs(fields: seq<map<string, string>>)
  datatype SourceControlFile = SourceControlFile(portName: string, description: JsonObject)

  /** The collaborators the command consults, and the inputs it is given by the environment. */
  datatype Env = Env(
    readContents: Path -> string,
    parseJson: string -> Option<JsonValue>,
    parseManifestObject: JsonObject -> Option<SourceControlFile>,
    parseParagraphs: string -> Option<Paragraphs>,
    parseControlFile: Paragraphs -> Option<SourceControlFile>,
    serializeManifest: SourceControlFile -> JsonObject,
    fileExists: Path -> bool,
    writeSucceeds: Path -> bool,
    removeSucceeds: Path -> bool,
    portDirectories: seq<Path>,
    originalCwd: Path)

  /** One file to write: the parsed port, where to write it, and the file it came from. */
  datatype ToWrite = ToWrite(scf: SourceControlFile, fileToWrite: Path, originalPath: Path, originalSource: string)

  /** Why a file could not be read into a job (reported, then the command goes on). */
  datatype ReadError = JsonSyntaxError | JsonNotAnObject | InvalidManifest | InvalidParagraphs | InvalidControlFile

  type Read = Result<ToWrite, ReadError>

  /** Why the command stopped at once. */
  datatype Fatal =
    | MissingFileArgument
    | ControlAndManifestPresent(dir: Path)
    | SerializedUnparsable(portName: string)
    | SerializedDiffers(original: Path)
    | WriteFailed(path: Path)
    | RemoveFailed(path: Path)

  datatype Effect = Wrote(path: Path, contents: JsonObject) | Removed(path: Path)

  datatype Exit = ExitSuccess | ExitFailure | Aborted(reason: Fatal)

  /** What a run does: whether it warned about `--convert-control`, what it changed on disk, how it exits. */
  datatype Report = Report(warnedConvertWithoutAll: bool, effects: seq<Effect>, exit: Exit)

  datatype WriteResult = WriteResult(effects: seq<Effect>, fatal: Option<Fatal>)

  /** Reads a `vcpkg.json`: JSON, then an object, then a manifest; formatted in place. */
  function ReadManifest(env: Env, manifestPath: Path): (r: Read)
    ensures r.Ok? ==>
      && r.value.fileToWrite == manifestPath && r.value.originalPath == manifestPath
      && r.value.originalSource == env.readContents(manifestPath)
    ensures r.Ok? <==>
      && env.parseJson(env.readContents(manifestPath)).Some?
      && env.parseJson(env.readContents(manifestPath)).value.ObjectValue?
      && env.parseManifestObject(env.parseJson(env.readContents(manifestPath)).value.obj).Some?
  {
    var contents := env.readContents(manifestPath);
    match env.parseJson(contents)
    case None => Err(JsonSyntaxError)
    case Some(NonObjectValue) => Err(JsonNotAnObject)
    case Some(ObjectValue(obj)) =>
      match env.parseManifestObject(obj)
      case None => Err(InvalidManifest)
      case Some(scf) => Ok(ToWrite(scf, manifestPath, manifestPath, contents))
  }

  /** Reads a `CONTROL` file: paragraphs, then a port; converted into `vcpkg.json` beside it. */
  function ReadControlFile(env: Env, controlPath: Path): (r: Read)
    ensures r.Ok? ==>
      && r.value.fileToWrite == Child(ParentPath(controlPath), "vcpkg.json")
      && r.value.originalPath == controlPath
      && r.value.originalSource == env.readContents(controlPath)
    ensures r.Ok? <==>
      && env.parseParagraphs(env.readContents(controlPath)).Some?
      && env.parseControlFile(env.parseParagraphs(env.readContents(controlPath)).value).Some?
  {
    var manifestPath := Child(ParentPath(controlPath), "vcpkg.json");
    var contents := env.readContents(controlPath);
    match env.parseParagraphs(contents)
    case None => Err(InvalidParagraphs)
    case Some(paragraphs) =>
      match env.parseControlFile(paragraphs)
      case None => Err(InvalidControlFile)
      case Some(scf) => Ok(ToWrite(scf, manifestPath, controlPath, contents))
  }

  /** A command-line path, made absolute against the directory vcpkg was started in. */
  function ArgumentPath(cwd: Path, p: Path): (r: Path)
    ensures p.absolute ==> r == p
    ensures !p.absolute ==> r.absolute == cwd.absolute && r.components == cwd.components + p.components
  {
    if !p.absolute then Join(cwd, p) else p
  }

  /** A command-line file: read as a CONTROL file when its name is exactly `CONTROL`, else as a manifest. */
  function ReadArgument(env: Env, p: Path): (r: Read)
    ensures r.Ok? ==> r.value.originalPath == ArgumentPath(env.originalCwd, p)
    ensures r.Ok? && FileName(ArgumentPath(env.originalCwd, p)) == "CONTROL" ==>
      r.value.fileToWrite == Child(ParentPath(ArgumentPath(env.originalCwd, p)), "vcpkg.json")
    ensures r.Ok? && FileName(ArgumentPath(env.originalCwd, p)) != "CONTROL" ==>
      r.value.fileToWrite == ArgumentPath(env.originalCwd, p)
  {
    var path := ArgumentPath(env.originalCwd, p);
    if FileName(path) == "CONTROL" then ReadControlFile(env, path) else ReadManifest(env, path)
  }

  /** The reads of the command-line files, in order. */
  function ArgumentReads(env: Env, args: seq<Path>): (rs: seq<Read>)
    ensures |rs| == |args|
  {
    if args == [] then [] else ArgumentReads(env, args[..|args| - 1]) + [ReadArgument(env, args[|args| - 1])]
  }

  /** Both files in one port directory. */
  predicate HasBothFiles(env: Env, dir: Path)
  {
    env.fileExists(Child(dir, "vcpkg.json")) && env.fileExists(Child(dir, "CONTROL"))
  }

  /** The reads `--all` makes in one port directory that does not hold both files. */
  function DirectoryReads(env: Env, dir: Path, convertControl: bool): seq<Read>
  {
    (if env.fileExists(Child(dir, "vcpkg.json")) then [ReadManifest(env, Child(dir, "vcpkg.json"))] else [])
    + (if convertControl && env.fileExists(Child(dir, "CONTROL")) then [ReadControlFile(env, Child(dir, "CONTROL"))] else [])
  }

  /** The reads of `--all` over the port directories, or the first directory holding both files. */
  function PortReads(env: Env, dirs: seq<Path>, convertControl: bool): (r: Result<seq<Read>, Fatal>)
    ensures r.Err? ==> r.error.ControlAndManifestPresent? && r.error.dir in dirs && HasBothFiles(env, r.error.dir)
  {
    if dirs == [] then Ok([])
    else
      var last := dirs[|dirs| - 1];
      match PortReads(env, dirs[..|dirs| - 1], convertControl)
      case Err(f) => Err(f)
      case Ok(rs) =>
        if HasBothFiles(env, last) then Err(ControlAndManifestPresent(last))
        else Ok(rs + DirectoryReads(env, last, convertControl))
  }

  /** The jobs of the successful attempts, in read order (what `add_file` collects). */
  function Successes(attempts: seq<Read>): (jobs: seq<ToWrite>)
    ensures |jobs| <= |attempts|
  {
    if attempts == [] then []
    else
      var init, last := attempts[..|attempts| - 1], attempts[|attempts| - 1];
      assert attempts == init + [last];
      Successes(init) + (if last.Ok? then [last.value] else [])
  }

  predicate AnyFailed(attempts: seq<Read>)
  {
    exists k :: 0 <= k < |attempts| && attempts[k].Err?
  }

  /** Appending one attempt adds its job when it succeeded, or sets the failure flag when it failed. */
  lemma AppendAttempt(attempts: seq<Read>, read: Read)
    ensures Successes(attempts + [read]) == Successes(attempts) + (if read.Ok? then [read.value] else [])
    ensures AnyFailed(attempts + [read]) == (AnyFailed(attempts) || read.Err?)
  {
    assert (attempts + [read])[..|attempts|] == attempts;
    if AnyFailed(attempts) {
      var k :| 0 <= k < |attempts| && attempts[k].Err?;
      assert (attempts + [read])[k] == attempts[k];
    }
    if read.Err? {
      assert (attempts + [read])[|attempts|] == read;
    }
  }

  /** The port description the serialized manifest parses back to equals the original. */
  predicate RoundTrips(env: Env, scf: SourceControlFile)
  {
    env.parseManifestObject(env.serializeManifest(scf)) == Some(scf)
  }

  /**
   * Writes one job: serialize, parse back and compare (any difference is
   * fatal), write the target, and remove the original only when the target is
   * a different file, that is, when converting a CONTROL file.
   */
  function OpenForWrite(env: Env, data: ToWrite): (w: WriteResult)
    ensures w.effects != [] ==> RoundTrips(env, data.scf) && env.writeSucceeds(data.fileToWrite)
    ensures w.fatal.None? <==>
      && RoundTrips(env, data.scf)
      && env.writeSucceeds(data.fileToWrite)
      && (data.originalPath != data.fileToWrite ==> env.removeSucceeds(data.originalPath))
    ensures forall e :: e in w.effects ==>
      e == Wrote(data.fileToWrite, env.serializeManifest(data.scf))
      || (e == Removed(data.originalPath) && data.originalPath != data.fileToWrite)
    ensures w.fatal.None? ==> Wrote(data.fileToWrite, env.serializeManifest(data.scf)) in w.effects
    ensures w.fatal.None? && data.originalPath != data.fileToWrite ==> Removed(data.originalPath) in w.effects
  {
    var res := env.serializeManifest(data.scf);
    match env.parseManifestObject(res)
    case None => WriteResult([], Some(SerializedUnparsable(data.scf.portName)))
    case Some(check) =>
      if check != data.scf then WriteResult([], Some(SerializedDiffers(data.originalPath)))
      else if !env.writeSucceeds(data.fileToWrite) then WriteResult([], Some(WriteFailed(data.fileToWrite)))
      else if data.originalPath == data.fileToWrite then WriteResult([Wrote(data.fileToWrite, res)], None)
      else if !env.removeSucceeds(data.originalPath) then
        WriteResult([Wrote(data.fileToWrite, res)], Some(RemoveFailed(data.originalPath)))
      else WriteResult([Wrote(data.fileToWrite, res), Removed(data.originalPath)], None)
  }

  /** Writes the jobs in order, stopping at the first fatal error. */
  function WriteJobs(env: Env, jobs: seq<ToWrite>): (w: WriteResult)
    ensures |w.effects| <= 2 * |jobs|
    ensures w.fatal.Some? ==> !w.fatal.value.MissingFileArgument? && !w.fatal.value.ControlAndManifestPresent?
  {
    if jobs == [] then WriteResult([], None)
    else
      var prior := WriteJobs(env, jobs[..|jobs| - 1]);
      if prior.fatal.Some? then prior
      else
        var w := OpenForWrite(env, jobs[|jobs| - 1]);
        WriteResult(prior.effects + w.effects, w.fatal)
  }

  /** The whole command, as a function of its switches, its file arguments and the environment. */
  function Run(env: Env, args: seq<Path>, formatAll: bool, convertControl: bool): (r: Report)
    ensures r.warnedConvertWithoutAll == (!formatAll && convertControl)
    ensures r.exit == Aborted(MissingFileArgument) <==> !formatAll && args == []
    ensures r.exit.Aborted? && r.exit.reason.ControlAndManifestPresent? ==>
      && formatAll && r.effects == []
      && r.exit.reason.dir in env.portDirectories && HasBothFiles(env, r.exit.reason.dir)
  {
    var warned := !formatAll && convertControl;
    if !formatAll && args == [] then Report(warned, [], Aborted(MissingFileArgument))
    else
      match PortReads(env, if formatAll then env.portDirectories else [], convertControl)
      case Err(f) => Report(warned, [], Aborted(f))
      case Ok(portReads) =>
        var attempts := ArgumentReads(env, args) + portReads;
        var w := WriteJobs(env, Successes(attempts));
        Report(warned, w.effects,
               if w.fatal.Some? then Aborted(w.fatal.value)
               else if AnyFailed(attempts) then ExitFailure
               else ExitSuccess)
  }

  /** The job list and error flag the `add_file` lambda captures by reference. */
  class Planner {
    var toWrite: seq<ToWrite>
    var hasError: bool

    constructor ()
      ensures toWrite == [] && !hasError
    {
      toWrite, hasError := [], false;
    }

    /** Queues a successful read; a failed one sets the error flag, which nothing clears. */
    method AddFile(read: Read)
      modifies this
      ensures read.Ok? ==> toWrite == old(toWrite) + [read.value] && hasError == old(hasError)
      ensures read.Err? ==> toWrite == old(toWrite) && hasError
    {
      match read
      case Ok(job) => toWrite := toWrite + [job];
      case Err(_) => hasError := true;
    }
  }

  /** The loop over the command-line files, feeding `add_file`. */
  method ReadArgumentFiles(env: Env, args: seq<Path>, planner: Planner)
    requires planner.toWrite == [] && !planner.hasError
    modifies planner
    ensures planner.toWrite == Successes(ArgumentReads(env, args))
    ensures planner.hasError == AnyFailed(ArgumentReads(env, args))
  {
    ghost var attempts: seq<Read> := [];
    for i := 0 to |args|
      invariant attempts == ArgumentReads(env, args[..i])
      invariant planner.toWrite == Successes(attempts) && planner.hasError == AnyFailed(attempts)
    {
      assert args[..i + 1][..i] == args[..i];
      var read := ReadArgument(env, args[i]);
      planner.AddFile(read);
      AppendAttempt(attempts, read);
      attempts := attempts + [read];
    }
    assert args[..|args|] == args;
  }

  /**
   * One iteration of the `--all` loop: the conflict check, then the manifest
   * read and, with `--convert-control`, the CONTROL read, after the reads in `prior`.
   */
  method ReadPortDirectory(env: Env, dir: Path, convertControl: bool, planner: Planner, ghost prior: seq<Read>)
    returns (conflict: bool)
    requires planner.toWrite == Successes(prior) && planner.hasError == AnyFailed(prior)
    modifies planner
    ensures conflict == HasBothFiles(env, dir)
    ensures !conflict ==>
      && planner.toWrite == Successes(prior + DirectoryReads(env, dir, convertControl))
      && planner.hasError == AnyFailed(prior + DirectoryReads(env, dir, convertControl))
  {
    var manifestPath := Child(dir, "vcpkg.json");
    var controlPath := Child(dir, "CONTROL");
    var manifestExists := env.fileExists(manifestPath);
    var controlExists := env.fileExists(controlPath);
    if manifestExists && controlExists {
      return true;
    }
    ghost var done := prior;
    if manifestExists {
      var read := ReadManifest(env, manifestPath);
      planner.AddFile(read);
      AppendAttempt(done, read);
      done := done + [read];
    }
    if convertControl && controlExists {
      var read := ReadControlFile(env, controlPath);
      planner.AddFile(read);
      AppendAttempt(done, read);
      done := done + [read];
    }
    assert done == prior + DirectoryReads(env, dir, convertControl);
    return false;
  }

  /**
   * The `--all` loop over the port directories, feeding `add_file` after the
   * reads in `prior`; returns the fatal conflict if a directory holds both files.
   */
  method ReadPortDirectories(env: Env, dirs: seq<Path>, convertControl: bool, planner: Planner, ghost prior: seq<Read>)
    returns (conflict: Option<Fatal>)
    requires planner.toWrite == Successes(prior) && planner.hasError == AnyFailed(prior)
    modifies planner
    ensures PortReads(env, dirs, convertControl).Err? ==> conflict == Some(PortReads(env, dirs, convertControl).error)
    ensures PortReads(env, dirs, convertControl).Ok? ==>
      && conflict.None?
      && planner.toWrite == Successes(prior + PortReads(env, dirs, convertControl).value)
      && planner.hasError == AnyFailed(prior + PortReads(env, dirs, convertControl).value)
  {
    ghost var portReads: seq<Read> := [];
    assert prior + portReads == prior;
    for i := 0 to |dirs|
      invariant PortReads(env, dirs[..i], convertControl) == Ok(portReads)
      invariant planner.toWrite == Successes(prior + portReads)
      invariant planner.hasError == AnyFailed(prior + portReads)
    {
      var both := ReadPortDirectory(env, dirs[i], convertControl, planner, prior + portReads);
      PortReadsStep(env, dirs, i, convertControl);
      if both {
        PortReadsStopAtConflict(env, dirs, i + 1, convertControl);
        return Some(ControlAndManifestPresent(dirs[i]));
      }
      ghost var found := DirectoryReads(env, dirs[i], convertControl);
      assert prior + portReads + found == prior + (portReads + found);
      portReads := portReads + found;
    }
    assert dirs[..|dirs|] == dirs;
    return None;
  }

  /** The loop calling `open_for_write` on every job; a fatal error stops it. */
  method WriteAll(env: Env, jobs: seq<ToWrite>) returns (w: WriteResult)
    ensures w == WriteJobs(env, jobs)
  {
    var effects := [];
    for i := 0 to |jobs|
      invariant WriteJobs(env, jobs[..i]) == WriteResult(effects, None)
    {
      assert jobs[..i + 1][..i] == jobs[..i];
      var step := OpenForWrite(env, jobs[i]);
      effects := effects + step.effects;
      if step.fatal.Some? {
        WriteJobsStopAtFatal(env, jobs, i + 1);
        return WriteResult(effects, step.fatal);
      }
    }
    assert jobs[..|jobs|] == jobs;
    return WriteResult(effects, None);
  }

  /** The command as the source runs it: read loops feeding a planner, then the write loop. */
  method PerformAndExit(env: Env, args: seq<Path>, formatAll: bool, convertControl: bool) returns (report: Report)
    ensures report == Run(env, args, formatAll, convertControl)
  {
    var warned := !formatAll && convertControl;
    if !formatAll && |args| == 0 {
      return Report(warned, [], Aborted(MissingFileArgument));
    }

    var planner := new Planner();
    ReadArgumentFiles(env, args, planner);
    var dirs := if formatAll then env.portDirectories else [];
    var conflict := ReadPortDirectories(env, dirs, convertControl, planner, ArgumentReads(env, args));
    if conflict.Some? {
      return Report(warned, [], Aborted(conflict.value));
    }

    var w := WriteAll(env, planner.toWrite);
    if w.fatal.Some? {
      return Report(warned, w.effects, Aborted(w.fatal.value));
    }
    return Report(warned, w.effects, if planner.hasError then ExitFailure else ExitSuccess);
  }

  /** Scanning one more directory after a conflict-free prefix. */
  lemma PortReadsStep(env: Env, dirs: seq<Path>, i: nat, convertControl: bool)
    requires i < |dirs| && PortReads(env, dirs[..i], convertControl).Ok?
    ensures PortReads(env, dirs[..i + 1], convertControl) ==
      if HasBothFiles(env, dirs[i]) then Err(ControlAndManifestPresent(dirs[i]))
      else Ok(PortReads(env, dirs[..i], convertControl).value + DirectoryReads(env, dirs[i], convertControl))
  {
    assert dirs[..i + 1][..i] == dirs[..i];
  }

  /** Once a prefix of the directories hits a conflict, the whole scan reports that conflict. */
  lemma {:induction false} PortReadsStopAtConflict(env: Env, dirs: seq<Path>, n: nat, convertControl: bool)
    requires n <= |dirs| && PortReads(env, dirs[..n], convertControl).Err?
    ensures PortReads(env, dirs, convertControl) == PortReads(env, dirs[..n], convertControl)
  {
    if n < |dirs| {
      var init := dirs[..|dirs| - 1];
      assert init[..n] == dirs[..n];
      PortReadsStopAtConflict(env, init, n, convertControl);
    } else {
      assert dirs[..n] == dirs;
    }
  }

  /** Once a prefix of the jobs hits a fatal error, writing all the jobs ends with that prefix's result. */
  lemma {:induction false} WriteJobsStopAtFatal(env: Env, jobs: seq<ToWrite>, n: nat)
    requires n <= |jobs| && WriteJobs(env, jobs[..n]).fatal.Some?
    ensures WriteJobs(env, jobs) == WriteJobs(env, jobs[..n])
    decreases |jobs| - n
  {
    if n < |jobs| {
      assert jobs[..n + 1][..n] == jobs[..n];
      WriteJobsStopAtFatal(env, jobs, n + 1);
    } else {
      assert jobs[..n] == jobs;
    }
  }

  /** `add_file` keeps exactly the jobs of the successful reads. */
  lemma {:induction false} SuccessesAreTheOkReads(attempts: seq<Read>)
    ensures forall j :: j in Successes(attempts) <==> Ok(j) in attempts
  {
    if attempts != [] {
      var init, last := attempts[..|attempts| - 1], attempts[|attempts| - 1];
      SuccessesAreTheOkReads(init);
      assert attempts == init + [last];
    }
  }

  lemma {:induction false} ArgumentReadsAt(env: Env, args: seq<Path>, i: nat)
    requires i < |args|
    ensures ArgumentReads(env, args)[i] == ReadArgument(env, args[i])
  {
    if i < |args| - 1 {
      ArgumentReadsAt(env, args[..|args| - 1], i);
    }
  }

  /** When no write is fatal, every job is written, whatever happened to the other jobs. */
  lemma {:induction false} WriteJobsWritesEveryJob(env: Env, jobs: seq<ToWrite>)
    requires WriteJobs(env, jobs).fatal.None?
    ensures forall j :: j in jobs ==> Wrote(j.fileToWrite, env.serializeManifest(j.scf)) in WriteJobs(env, jobs).effects
  {
    if jobs != [] {
      var init, last := jobs[..|jobs| - 1], jobs[|jobs| - 1];
      WriteJobsWritesEveryJob(env, init);
      assert jobs == init + [last];
    }
  }

  /**
   * Every change on disk belongs to a job: its target, written with the
   * serialized port, or its original file, removed only when it differs from
   * the target.
   */
  lemma {:induction false} WriteJobsEffectsComeFromJobs(env: Env, jobs: seq<ToWrite>)
    ensures forall e :: e in WriteJobs(env, jobs).effects ==>
      exists j :: j in jobs &&
        (e == Wrote(j.fileToWrite, env.serializeManifest(j.scf))
         || (e == Removed(j.originalPath) && j.originalPath != j.fileToWrite))
  {
    if jobs != [] {
      var init, last := jobs[..|jobs| - 1], jobs[|jobs| - 1];
      WriteJobsEffectsComeFromJobs(env, init);
      assert jobs == init + [last];
      forall j | j in init ensures j in jobs { }
    }
  }

  /** `dirs[i]` is the first port directory holding both files. */
  predicate IsFirstConflict(env: Env, dirs: seq<Path>, i: nat)
  {
    i < |dirs| && HasBothFiles(env, dirs[i]) && forall k :: 0 <= k < i ==> !HasBothFiles(env, dirs[k])
  }

  /** The `--all` scan succeeds exactly when no port directory holds both files. */
  lemma {:induction false} PortReadsOkIffNoConflict(env: Env, dirs: seq<Path>, convertControl: bool)
    ensures PortReads(env, dirs, convertControl).Ok? <==> forall d :: d in dirs ==> !HasBothFiles(env, d)
  {
    if dirs != [] {
      var init, last := dirs[..|dirs| - 1], dirs[|dirs| - 1];
      PortReadsOkIffNoConflict(env, init, convertControl);
      assert dirs == init + [last];
    }
  }

  /** When the `--all` scan fails, it names the first port directory holding both files. */
  lemma {:induction false} PortReadsFirstConflict(env: Env, dirs: seq<Path>, convertControl: bool, i: nat)
    requires IsFirstConflict(env, dirs, i)
    ensures PortReads(env, dirs, convertControl) == Err(ControlAndManifestPresent(dirs[i]))
  {
    var init, last := dirs[..|dirs| - 1], dirs[|dirs| - 1];
    if i < |dirs| - 1 {
      assert IsFirstConflict(env, init, i);
      PortReadsFirstConflict(env, init, convertControl, i);
    } else {
      PortReadsOkIffNoConflict(env, init, convertControl);
      forall d | d in init ensures !HasBothFiles(env, d) {
        var k :| 0 <= k < |init| && init[k] == d;
        assert dirs[k] == d;
      }
    }
  }

  /**
   * `r` is a read the `--all` loop makes in directory `d`: the read of an
   * existing `vcpkg.json`, or, with `--convert-control`, of an existing `CONTROL`.
   */
  predicate IsPortRead(env: Env, d: Path, convertControl: bool, r: Read)
  {
    || (env.fileExists(Child(d, "vcpkg.json")) && r == ReadManifest(env, Child(d, "vcpkg.json")))
    || (convertControl && env.fileExists(Child(d, "CONTROL")) && r == ReadControlFile(env, Child(d, "CONTROL")))
  }

  /** Some read the `--all` loop makes in directory `d` fails. */
  predicate PortReadFails(env: Env, d: Path, convertControl: bool)
  {
    || (env.fileExists(Child(d, "vcpkg.json")) && ReadManifest(env, Child(d, "vcpkg.json")).Err?)
    || (convertControl && env.fileExists(Child(d, "CONTROL")) && ReadControlFile(env, Child(d, "CONTROL")).Err?)
  }

  /** The reads made in one directory are exactly its port reads. */
  lemma DirectoryReadsAreThePortReads(env: Env, d: Path, convertControl: bool)
    ensures forall r :: r in DirectoryReads(env, d, convertControl) <==> IsPortRead(env, d, convertControl, r)
  {
  }

  /** In `--all` mode every existing `vcpkg.json` is read, and every existing `CONTROL` when converting. */
  lemma {:induction false} PortReadsReadEveryPortFile(env: Env, dirs: seq<Path>, convertControl: bool)
    requires PortReads(env, dirs, convertControl).Ok?
    ensures forall d, r :: d in dirs && IsPortRead(env, d, convertControl, r) ==>
      r in PortReads(env, dirs, convertControl).value
  {
    if dirs != [] {
      var init, last := dirs[..|dirs| - 1], dirs[|dirs| - 1];
      PortReadsReadEveryPortFile(env, init, convertControl);
      DirectoryReadsAreThePortReads(env, last, convertControl);
      assert dirs == init + [last];
      var rs := PortReads(env, init, convertControl).value;
      assert PortReads(env, dirs, convertControl).value == rs + DirectoryReads(env, last, convertControl);
    }
  }

  /**
   * The `--all` loop reads nothing else: in particular, without
   * `--convert-control` no `CONTROL` file is read, so none can set the error flag.
   */
  lemma {:induction false} PortReadsReadOnlyPortFiles(env: Env, dirs: seq<Path>, convertControl: bool)
    requires PortReads(env, dirs, convertControl).Ok?
    ensures forall r :: r in PortReads(env, dirs, convertControl).value ==>
      exists d :: d in dirs && IsPortRead(env, d, convertControl, r)
  {
    if dirs != [] {
      var init, last := dirs[..|dirs| - 1], dirs[|dirs| - 1];
      PortReadsReadOnlyPortFiles(env, init, convertControl);
      DirectoryReadsAreThePortReads(env, last, convertControl);
      assert dirs == init + [last];
      forall d | d in init ensures d in dirs { }
      var rs := PortReads(env, init, convertControl).value;
      assert PortReads(env, dirs, convertControl).value == rs + DirectoryReads(env, last, convertControl);
    }
  }

  /** Without `--convert-control`, every read of the `--all` loop is a manifest formatted in place. */
  lemma PortReadsInPlaceWithoutConvert(env: Env, dirs: seq<Path>)
    requires PortReads(env, dirs, false).Ok?
    ensures forall r :: r in PortReads(env, dirs, false).value && r.Ok? ==> r.value.fileToWrite == r.value.originalPath
  {
    PortReadsReadOnlyPortFiles(env, dirs, false);
  }

  /** Some read of the `--all` loop fails exactly when some listed directory has a port file that fails to read. */
  lemma PortReadsFailIff(env: Env, dirs: seq<Path>, convertControl: bool)
    requires PortReads(env, dirs, convertControl).Ok?
    ensures AnyFailed(PortReads(env, dirs, convertControl).value) <==>
      exists d :: d in dirs && PortReadFails(env, d, convertControl)
  {
    if AnyFailed(PortReads(env, dirs, convertControl).value) {
      FailedPortReadHasItsDirectory(env, dirs, convertControl);
    }
    if exists d :: d in dirs && PortReadFails(env, d, convertControl) {
      var d :| d in dirs && PortReadFails(env, d, convertControl);
      FailingPortFileIsRead(env, dirs, convertControl, d);
    }
  }

  lemma FailedPortReadHasItsDirectory(env: Env, dirs: seq<Path>, convertControl: bool)
    requires PortReads(env, dirs, convertControl).Ok?
    requires AnyFailed(PortReads(env, dirs, convertControl).value)
    ensures exists d :: d in dirs && PortReadFails(env, d, convertControl)
  {
    var rs := PortReads(env, dirs, convertControl).value;
    PortReadsReadOnlyPortFiles(env, dirs, convertControl);
    var k :| 0 <= k < |rs| && rs[k].Err?;
    assert rs[k] in rs;
    var d :| d in dirs && IsPortRead(env, d, convertControl, rs[k]);
    assert PortReadFails(env, d, convertControl);
  }

  lemma FailingPortFileIsRead(env: Env, dirs: seq<Path>, convertControl: bool, d: Path)
    requires PortReads(env, dirs, convertControl).Ok?
    requires d in dirs && PortReadFails(env, d, convertControl)
    ensures AnyFailed(PortReads(env, dirs, convertControl).value)
  {
    var rs := PortReads(env, dirs, convertControl).value;
    PortReadsReadEveryPortFile(env, dirs, convertControl);
    var r := if env.fileExists(Child(d, "vcpkg.json")) && ReadManifest(env, Child(d, "vcpkg.json")).Err?
      then ReadManifest(env, Child(d, "vcpkg.json")) else ReadControlFile(env, Child(d, "CONTROL"));
    assert IsPortRead(env, d, convertControl, r) && r.Err?;
    var k :| 0 <= k < |rs| && rs[k] == r;
  }

  /** Without `--all`, no file arguments is fatal before anything is read. */
  lemma RunWithoutFilesOrAll(env: Env, convertControl: bool)
    ensures Run(env, [], false, convertControl) == Report(convertControl, [], Aborted(MissingFileArgument))
  {
  }

  /** Without `--all`, `--convert-control` only adds a warning. */
  lemma ConvertControlWithoutAllOnlyWarns(env: Env, args: seq<Path>)
    ensures !Run(env, args, false, false).warnedConvertWithoutAll
    ensures Run(env, args, false, true) == Run(env, args, false, false).(warnedConvertWithoutAll := true)
  {
  }

  /** A port directory holding both files aborts `--all` before anything is written. */
  lemma RunConflictAborts(env: Env, args: seq<Path>, convertControl: bool, i: nat)
    requires i < |env.portDirectories| && HasBothFiles(env, env.portDirectories[i])
    requires forall k :: 0 <= k < i ==> !HasBothFiles(env, env.portDirectories[k])
    ensures Run(env, args, true, convertControl)
         == Report(false, [], Aborted(ControlAndManifestPresent(env.portDirectories[i])))
  {
    PortReadsFirstConflict(env, env.portDirectories, convertControl, i);
  }

  /**
   * A run that is not aborted writes every command-line file that was read
   * successfully, even when other reads failed, and exits with failure exactly
   * when some read failed.
   */
  lemma RunWritesEveryReadArgument(env: Env, args: seq<Path>, formatAll: bool, convertControl: bool)
    requires !Run(env, args, formatAll, convertControl).exit.Aborted?
    ensures forall i :: 0 <= i < |args| && ReadArgument(env, args[i]).Ok? ==>
      Wrote(ReadArgument(env, args[i]).value.fileToWrite, env.serializeManifest(ReadArgument(env, args[i]).value.scf))
        in Run(env, args, formatAll, convertControl).effects
    ensures !formatAll ==>
      (Run(env, args, formatAll, convertControl).exit == ExitFailure
       <==> exists i :: 0 <= i < |args| && ReadArgument(env, args[i]).Err?)
  {
    var portReads := PortReads(env, if formatAll then env.portDirectories else [], convertControl).value;
    var attempts := ArgumentReads(env, args) + portReads;
    SuccessesAreTheOkReads(attempts);
    WriteJobsWritesEveryJob(env, Successes(attempts));
    forall i | 0 <= i < |args| && ReadArgument(env, args[i]).Ok?
      ensures ReadArgument(env, args[i]).value in Successes(attempts)
    {
      ArgumentReadsAt(env, args, i);
      assert attempts[i] == ReadArgument(env, args[i]);
    }
    if !formatAll {
      assert attempts == ArgumentReads(env, args);
      forall i | 0 <= i < |args| ensures attempts[i] == ReadArgument(env, args[i]) {
        ArgumentReadsAt(env, args, i);
      }
    }
  }

  /**
   * Formatting in place never removes a file: without `--convert-control`
   * and without a `CONTROL` argument, the only changes are writes.
   */
  lemma RunInPlaceRemovesNothing(env: Env, args: seq<Path>, formatAll: bool)
    requires forall i :: 0 <= i < |args| ==> FileName(ArgumentPath(env.originalCwd, args[i])) != "CONTROL"
    ensures forall e :: e in Run(env, args, formatAll, false).effects ==> e.Wrote?
  {
    var dirs := if formatAll then env.portDirectories else [];
    if (formatAll || args != []) && PortReads(env, dirs, false).Ok? {
      var portReads := PortReads(env, dirs, false).value;
      var attempts := ArgumentReads(env, args) + portReads;
      var jobs := Successes(attempts);
      PortReadsInPlaceWithoutConvert(env, dirs);
      SuccessesAreTheOkReads(attempts);
      forall j | j in jobs ensures j.fileToWrite == j.originalPath {
        var k :| 0 <= k < |attempts| && attempts[k] == Ok(j);
        if k < |args| {
          ArgumentReadsAt(env, args, k);
        } else {
          assert attempts[k] in portReads;
        }
      }
      WriteJobsEffectsComeFromJobs(env, jobs);
    }
  }

  /** Some read of the command-line files fails exactly when some argument fails to read. */
  lemma ArgumentReadsFailIff(env: Env, args: seq<Path>)
    ensures AnyFailed(ArgumentReads(env, args)) <==> exists i :: 0 <= i < |args| && ReadArgument(env, args[i]).Err?
  {
    forall i | 0 <= i < |args| ensures ArgumentReads(env, args)[i] == ReadArgument(env, args[i]) {
      ArgumentReadsAt(env, args, i);
    }
  }

  /** A run fails a read exactly when the argument reads or the port reads do. */
  lemma AnyFailedAppend(a: seq<Read>, b: seq<Read>)
    ensures AnyFailed(a + b) <==> AnyFailed(a) || AnyFailed(b)
  {
    if AnyFailed(a + b) {
      var k :| 0 <= k < |a + b| && (a + b)[k].Err?;
      if k >= |a| {
        assert b[k - |a|] == (a + b)[k];
      }
    }
    if AnyFailed(a) {
      var k :| 0 <= k < |a| && a[k].Err?;
      assert (a + b)[k] == a[k];
    }
    if AnyFailed(b) {
      var k :| 0 <= k < |b| && b[k].Err?;
      assert (a + b)[|a| + k] == b[k];
    }
  }

  /**
   * With `--all`, a run that is not aborted writes the manifest of every port
   * directory whose `vcpkg.json` parses, whatever happened to the other files.
   */
  lemma RunAllWritesEveryPortManifest(env: Env, args: seq<Path>, convertControl: bool)
    requires !Run(env, args, true, convertControl).exit.Aborted?
    ensures forall d :: d in env.portDirectories && env.fileExists(Child(d, "vcpkg.json"))
                        && ReadManifest(env, Child(d, "vcpkg.json")).Ok? ==>
      Wrote(Child(d, "vcpkg.json"), env.serializeManifest(ReadManifest(env, Child(d, "vcpkg.json")).value.scf))
        in Run(env, args, true, convertControl).effects
  {
    var portReads := PortReads(env, env.portDirectories, convertControl).value;
    var attempts := ArgumentReads(env, args) + portReads;
    OkReadsAreWritten(env, attempts);
    PortReadsReadEveryPortFile(env, env.portDirectories, convertControl);
    forall d | d in env.portDirectories && env.fileExists(Child(d, "vcpkg.json"))
      ensures ReadManifest(env, Child(d, "vcpkg.json")) in attempts
    {
      assert IsPortRead(env, d, convertControl, ReadManifest(env, Child(d, "vcpkg.json")));
    }
  }

  /** When no write is fatal, every successful read among the attempts has its target written. */
  lemma OkReadsAreWritten(env: Env, attempts: seq<Read>)
    requires WriteJobs(env, Successes(attempts)).fatal.None?
    ensures forall r :: r in attempts && r.Ok? ==>
      Wrote(r.value.fileToWrite, env.serializeManifest(r.value.scf)) in WriteJobs(env, Successes(attempts)).effects
  {
    SuccessesAreTheOkReads(attempts);
    WriteJobsWritesEveryJob(env, Successes(attempts));
  }

  /**
   * With `--all`, a run that is not aborted exits with failure exactly when a
   * command-line file or a port file it reads fails to read; without
   * `--convert-control` the port files are the existing manifests only.
   */
  lemma RunAllFailsIff(env: Env, args: seq<Path>, convertControl: bool)
    requires !Run(env, args, true, convertControl).exit.Aborted?
    ensures Run(env, args, true, convertControl).exit == ExitFailure <==>
      || (exists i :: 0 <= i < |args| && ReadArgument(env, args[i]).Err?)
      || (exists d :: d in env.portDirectories && PortReadFails(env, d, convertControl))
  {
    var portReads := PortReads(env, env.portDirectories, convertControl).value;
    AnyFailedAppend(ArgumentReads(env, args), portReads);
    ArgumentReadsFailIff(env, args);
    PortReadsFailIff(env, env.portDirectories, convertControl);
  }
}
