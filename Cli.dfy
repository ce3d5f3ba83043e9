/**
 * The per-file pipeline of the command line tool (`process_single_file`)
 * and the run over a directory (`process_files`), taken one file after the
 * other. The image source, the extractor and the answers at the
 * confirmation prompt are parameters; the directory tree is the state.
 */
module Cli {
  import opened Wrappers
  import opened PyText
  import opened Json
  import opened Models
  import opened Paths
  import opened Renamer

  type Bytes = seq<bv8>

  /** `ProcessResult`: what became of one file. */
  datatype ProcessResult = ProcessResult(
    filePath: FilePath,
    data: Option<ReceiptData>,
    newName: Option<string>,
    error: Option<string>,
    skippedReason: Option<string>)

  const FailedToRead: string := "failed to read file"
  const NotMedical: string := "not a medical receipt"
  const SkippedByUser: string := "skipped by user"

  /** An optional text that Python treats as true: present and not empty. */
  predicate Present(o: Option<string>) { o.Some? && o.value != [] }

  /** `ProcessResult(file_path=...)`: every other field at its default. */
  function Blank(file: FilePath): (r: ProcessResult)
    ensures r.filePath == file && r.data.None?
    ensures !Present(r.newName) && !Present(r.error) && !Present(r.skippedReason)
  {
    ProcessResult(file, None, None, None, None)
  }

  /** How many of the three outcome fields are set. */
  function Marks(r: ProcessResult): nat
  {
    (if Present(r.newName) then 1 else 0)
    + (if Present(r.skippedReason) then 1 else 0)
    + (if Present(r.error) then 1 else 0)
  }

  /** The result says one thing: renamed, skipped, or failed. */
  predicate Exclusive(r: ProcessResult) { Marks(r) == 1 }

  /** The exceptions that `process_single_file` lets through. */
  datatype Failure =
    /** `extractor.extract` raised. */
    | ExtractionFailed(reason: string)
    /** `generate_new_name` raised. */
    | NamingFailed(nameError: NameError)
    /** `resolve_conflict` raised. */
    | ConflictFailed(conflictError: ConflictError)
    /** `execute_rename` raised. */
    | RenameFailed(renameError: RenameError)
    /** `check_available` reported that the extraction service cannot be reached. */
    | ServiceUnavailable
    /** `ThreadPoolExecutor` raised `ValueError` for a worker count below 1. */
    | NoWorkers

  /** The answer at the prompt, stripped and lower-cased, is `n`. */
  predicate Declines(response: string)
  {
    LowerAll(Strip(response)) == "n"
  }

  /** One call of `process_single_file`: its outcome, the directory tree after it, and whether it ticked the progress counter. */
  datatype Step = Step(outcome: Result<ProcessResult, Failure>, dirs: map<Path, set<string>>, counted: bool)

  /**
   * `process_single_file` on the directory tree `dirs`: a file that cannot
   * be read fails, a record that is not a medical receipt is skipped, and a
   * receipt goes on to be named. Exceptions of the extractor propagate.
   */
  function SingleFile(dirs: map<Path, set<string>>, file: FilePath, image: Option<Bytes>,
                      extract: Bytes -> Result<ReceiptData, string>,
                      dryRun: bool, confirm: bool, response: string): Step
  {
    if image.None? then Step(Ok(Blank(file).(error := Some(FailedToRead))), dirs, true)
    else match extract(image.value)
      case Err(e) => Step(Err(ExtractionFailed(e)), dirs, false)
      case Ok(data) =>
        if !Truthy(data.isMedicalReceipt) then
          Step(Ok(Blank(file).(data := Some(data), skippedReason := Some(NotMedical))), dirs, true)
        else ReceiptStep(dirs, file, data, GenerateNewName(data, Suffix(file.name)), dryRun, confirm, response)
  }

  /**
   * The receipt branch, given what `generate_new_name` made of the record:
   * that name made unique in the file's directory. Exceptions of the renamer
   * propagate.
   */
  function ReceiptStep(dirs: map<Path, set<string>>, file: FilePath, data: ReceiptData,
                       proposed: Result<string, NameError>,
                       dryRun: bool, confirm: bool, response: string): Step
  {
    match proposed
    case Err(e) => Step(Err(NamingFailed(e)), dirs, false)
    case Ok(proposed) =>
      match ResolvedName(dirs, file.dir, proposed)
      case Err(e) => Step(Err(ConflictFailed(e)), dirs, false)
      case Ok(name) => NamedStep(dirs, file, data, name, dryRun, confirm, response)
  }

  /** Once the name is known: the user may decline it, a dry run stops there, otherwise the file is renamed. */
  function NamedStep(dirs: map<Path, set<string>>, file: FilePath, data: ReceiptData, name: string,
                     dryRun: bool, confirm: bool, response: string): Step
  {
    var named := Blank(file).(data := Some(data), newName := Some(name));
    if confirm && Declines(response) then
      Step(Ok(named.(skippedReason := Some(SkippedByUser), newName := None)), dirs, true)
    else if dryRun then Step(Ok(named), dirs, true)
    else
      var (renamed, after) := RenameEffect(dirs, file, name);
      if renamed.Err? then Step(Err(RenameFailed(renamed.error)), dirs, true)
      else Step(Ok(named), after, true)
  }

  /** The shared progress counter `counter['done']`. */
  class Counter {
    var done: nat

    constructor ()
      ensures done == 0
    {
      done := 0;
    }
  }

  /** `process_single_file`: fills in the result step by step and ticks the counter once the outcome is known. */
  method ProcessSingleFile(fs: FileSystem, counter: Counter, file: FilePath, image: Option<Bytes>,
                           extract: Bytes -> Result<ReceiptData, string>,
                           dryRun: bool, confirm: bool, response: string)
    returns (r: Result<ProcessResult, Failure>)
    modifies fs, counter
    ensures var s := SingleFile(old(fs.dirs), file, image, extract, dryRun, confirm, response);
      && r == s.outcome
      && fs.dirs == s.dirs
      && counter.done == old(counter.done) + (if s.counted then 1 else 0)
  {
    var result := Blank(file);
    if image.None? {
      result := result.(error := Some(FailedToRead));
      counter.done := counter.done + 1;
      return Ok(result);
    }
    var extracted := extract(image.value);
    if extracted.Err? {
      return Err(ExtractionFailed(extracted.error));
    }
    var data := extracted.value;
    result := result.(data := Some(data));
    if !Truthy(data.isMedicalReceipt) {
      result := result.(skippedReason := Some(NotMedical));
      counter.done := counter.done + 1;
      return Ok(result);
    }
    var proposed := GenerateNewName(data, Suffix(file.name));
    if proposed.Err? {
      return Err(NamingFailed(proposed.error));
    }
    var resolved := ResolveConflict(fs, file.dir, proposed.value);
    if resolved.Err? {
      return Err(ConflictFailed(resolved.error));
    }
    var newName := resolved.value;
    result := result.(newName := Some(newName));
    counter.done := counter.done + 1;
    if confirm && Declines(response) {
      result := result.(skippedReason := Some(SkippedByUser), newName := None);
      return Ok(result);
    }
    if !dryRun {
      var renamed := ExecuteRename(fs, file, newName);
      if renamed.Err? {
        return Err(RenameFailed(renamed.error));
      }
    }
    return Ok(result);
  }

  // ---------------------------------------------------------------------------
  // What one call of process_single_file does
  // ---------------------------------------------------------------------------

  /** A file without image bytes fails to read: nothing is extracted or renamed, and the counter ticks. */
  lemma UnreadableFileFails(dirs: map<Path, set<string>>, file: FilePath, image: Option<Bytes>,
                            extract: Bytes -> Result<ReceiptData, string>,
                            dryRun: bool, confirm: bool, response: string)
    requires image.None?
    ensures var s := SingleFile(dirs, file, image, extract, dryRun, confirm, response);
      && s.outcome == Ok(ProcessResult(file, None, None, Some(FailedToRead), None))
      && s.dirs == dirs
      && s.counted
  {
  }

  /** An exception of the extractor is not caught: it propagates, and the counter does not tick. */
  lemma ExtractionFailurePropagates(dirs: map<Path, set<string>>, file: FilePath, image: Option<Bytes>,
                                    extract: Bytes -> Result<ReceiptData, string>,
                                    dryRun: bool, confirm: bool, response: string)
    requires image.Some? && extract(image.value).Err?
    ensures var s := SingleFile(dirs, file, image, extract, dryRun, confirm, response);
      && s.outcome == Err(ExtractionFailed(extract(image.value).error))
      && s.dirs == dirs
      && !s.counted
  {
  }

  /** A record that is not a medical receipt is skipped with its data kept; nothing is renamed. */
  lemma NonReceiptSkipped(dirs: map<Path, set<string>>, file: FilePath, image: Option<Bytes>,
                          extract: Bytes -> Result<ReceiptData, string>,
                          dryRun: bool, confirm: bool, response: string, data: ReceiptData)
    requires image.Some? && extract(image.value) == Ok(data)
    requires !Truthy(data.isMedicalReceipt)
    ensures var s := SingleFile(dirs, file, image, extract, dryRun, confirm, response);
      && s.outcome == Ok(ProcessResult(file, Some(data), None, None, Some(NotMedical)))
      && s.dirs == dirs
      && s.counted
  {
  }

  /** For a receipt, the call goes on with what `generate_new_name` makes of the record. */
  lemma ReceiptBranch(dirs: map<Path, set<string>>, file: FilePath, image: Option<Bytes>,
                      extract: Bytes -> Result<ReceiptData, string>,
                      dryRun: bool, confirm: bool, response: string, data: ReceiptData)
    requires image.Some? && extract(image.value) == Ok(data)
    requires Truthy(data.isMedicalReceipt)
    ensures SingleFile(dirs, file, image, extract, dryRun, confirm, response)
      == ReceiptStep(dirs, file, data, GenerateNewName(data, Suffix(file.name)), dryRun, confirm, response)
  {
  }

  /** A naming or conflict failure propagates untouched and without a tick; otherwise the name is settled. */
  lemma ReceiptStepCases(dirs: map<Path, set<string>>, file: FilePath, data: ReceiptData,
                         proposed: Result<string, NameError>,
                         dryRun: bool, confirm: bool, response: string)
    ensures var s := ReceiptStep(dirs, file, data, proposed, dryRun, confirm, response);
      && (proposed.Err? ==> s == Step(Err(NamingFailed(proposed.error)), dirs, false))
      && (proposed.Ok? && ResolvedName(dirs, file.dir, proposed.value).Err? ==>
            s == Step(Err(ConflictFailed(ResolvedName(dirs, file.dir, proposed.value).error)), dirs, false))
      && (proposed.Ok? && ResolvedName(dirs, file.dir, proposed.value).Ok? ==>
            s == NamedStep(dirs, file, data, ResolvedName(dirs, file.dir, proposed.value).value, dryRun, confirm, response))
  {
  }

  /**
   * With the name settled the counter ticks; the result keeps the record;
   * a declining answer records the skip and renames nothing; a dry run
   * records the name and renames nothing; otherwise the file is renamed to
   * that name, and a refusal of the rename propagates.
   */
  lemma NamedStepCases(dirs: map<Path, set<string>>, file: FilePath, data: ReceiptData, name: string,
                       dryRun: bool, confirm: bool, response: string)
    ensures var s := NamedStep(dirs, file, data, name, dryRun, confirm, response);
      var renamed := RenameEffect(dirs, file, name);
      && s.counted
      && (confirm && Declines(response) ==>
            s == Step(Ok(ProcessResult(file, Some(data), None, None, Some(SkippedByUser))), dirs, true))
      && (!(confirm && Declines(response)) && dryRun ==>
            s == Step(Ok(ProcessResult(file, Some(data), Some(name), None, None)), dirs, true))
      && (!(confirm && Declines(response)) && !dryRun && renamed.0.Ok? ==>
            s == Step(Ok(ProcessResult(file, Some(data), Some(name), None, None)), renamed.1, true))
      && (!(confirm && Declines(response)) && !dryRun && renamed.0.Err? ==>
            s == Step(Err(RenameFailed(renamed.0.error)), dirs, true))
  {
  }

  /**
   * A receipt is given the generated name for the file's extension, made
   * unique in the file's directory, and the counter ticks once that name is
   * known; a failure of either step propagates without a tick.
   */
  lemma ReceiptNamed(dirs: map<Path, set<string>>, file: FilePath, image: Option<Bytes>,
                     extract: Bytes -> Result<ReceiptData, string>,
                     dryRun: bool, confirm: bool, response: string, data: ReceiptData)
    requires image.Some? && extract(image.value) == Ok(data)
    requires Truthy(data.isMedicalReceipt)
    ensures var s := SingleFile(dirs, file, image, extract, dryRun, confirm, response);
      var proposed := GenerateNewName(data, Suffix(file.name));
      && (proposed.Err? ==> s.outcome == Err(NamingFailed(proposed.error)) && !s.counted)
      && (proposed.Ok? && ResolvedName(dirs, file.dir, proposed.value).Err? ==>
            s.outcome == Err(ConflictFailed(ResolvedName(dirs, file.dir, proposed.value).error)) && !s.counted)
      && (proposed.Ok? && ResolvedName(dirs, file.dir, proposed.value).Ok? ==>
            && s.counted
            && (s.outcome.Ok? ==> s.outcome.value.data == Some(data))
            && (s.outcome.Ok? && !(confirm && Declines(response)) ==>
                  s.outcome.value.newName == Some(ResolvedName(dirs, file.dir, proposed.value).value)))
  {
    var proposed := GenerateNewName(data, Suffix(file.name));
    ReceiptBranch(dirs, file, image, extract, dryRun, confirm, response, data);
    ReceiptStepCases(dirs, file, data, proposed, dryRun, confirm, response);
    if proposed.Ok? && ResolvedName(dirs, file.dir, proposed.value).Ok? {
      NamedStepCases(dirs, file, data, ResolvedName(dirs, file.dir, proposed.value).value, dryRun, confirm, response);
    }
  }

  /** All that a call can do to the directory tree: leave it, or apply the rename of the file to the name in its result. */
  lemma Effects(dirs: map<Path, set<string>>, file: FilePath, image: Option<Bytes>,
                extract: Bytes -> Result<ReceiptData, string>,
                dryRun: bool, confirm: bool, response: string)
    ensures var s := SingleFile(dirs, file, image, extract, dryRun, confirm, response);
      || s.dirs == dirs
      || (&& !dryRun
          && s.outcome.Ok? && s.outcome.value.newName.Some?
          && RenameEffect(dirs, file, s.outcome.value.newName.value)
               == (Ok(JoinPath(file.dir, s.outcome.value.newName.value)), s.dirs))
  {
    if image.Some? && extract(image.value).Ok? && Truthy(extract(image.value).value.isMedicalReceipt) {
      var data := extract(image.value).value;
      var proposed := GenerateNewName(data, Suffix(file.name));
      ReceiptBranch(dirs, file, image, extract, dryRun, confirm, response, data);
      ReceiptStepCases(dirs, file, data, proposed, dryRun, confirm, response);
      if proposed.Ok? && ResolvedName(dirs, file.dir, proposed.value).Ok? {
        var name := ResolvedName(dirs, file.dir, proposed.value).value;
        NamedStepCases(dirs, file, data, name, dryRun, confirm, response);
      }
    }
  }

  /** Answering `n` at the prompt skips the receipt: no new name is recorded and nothing is renamed. */
  lemma UserDeclines(dirs: map<Path, set<string>>, file: FilePath, image: Option<Bytes>,
                     extract: Bytes -> Result<ReceiptData, string>,
                     dryRun: bool, response: string)
    requires Declines(response)
    ensures var s := SingleFile(dirs, file, image, extract, dryRun, true, response);
      && s.dirs == dirs
      && (s.outcome.Ok? && s.outcome.value.data.Some? && Truthy(s.outcome.value.data.value.isMedicalReceipt) ==>
            s.outcome.value.skippedReason == Some(SkippedByUser) && s.outcome.value.newName.None?)
  {
    Effects(dirs, file, image, extract, dryRun, true, response);
    if image.Some? && extract(image.value).Ok? && Truthy(extract(image.value).value.isMedicalReceipt) {
      var data := extract(image.value).value;
      var proposed := GenerateNewName(data, Suffix(file.name));
      ReceiptBranch(dirs, file, image, extract, dryRun, true, response, data);
      ReceiptStepCases(dirs, file, data, proposed, dryRun, true, response);
      if proposed.Ok? && ResolvedName(dirs, file.dir, proposed.value).Ok? {
        var name := ResolvedName(dirs, file.dir, proposed.value).value;
        NamedStepCases(dirs, file, data, name, dryRun, true, response);
      }
    }
  }

  /** A dry run leaves the directory tree as it was, whatever the file. */
  lemma DryRunLeavesTree(dirs: map<Path, set<string>>, file: FilePath, image: Option<Bytes>,
                         extract: Bytes -> Result<ReceiptData, string>,
                         confirm: bool, response: string)
    ensures SingleFile(dirs, file, image, extract, true, confirm, response).dirs == dirs
  {
    Effects(dirs, file, image, extract, true, confirm, response);
  }

  /**
   * Outside a dry run, a result that carries a new name means the file was
   * renamed exactly once, to `source.parent / new_name`.
   */
  lemma LiveRenameApplied(dirs: map<Path, set<string>>, file: FilePath, image: Option<Bytes>,
                          extract: Bytes -> Result<ReceiptData, string>,
                          confirm: bool, response: string)
    ensures var s := SingleFile(dirs, file, image, extract, false, confirm, response);
      s.outcome.Ok? && s.outcome.value.newName.Some? ==>
        RenameEffect(dirs, file, s.outcome.value.newName.value) == (Ok(JoinPath(file.dir, s.outcome.value.newName.value)), s.dirs)
  {
    if image.Some? && extract(image.value).Ok? && Truthy(extract(image.value).value.isMedicalReceipt) {
      var data := extract(image.value).value;
      var proposed := GenerateNewName(data, Suffix(file.name));
      ReceiptBranch(dirs, file, image, extract, false, confirm, response, data);
      ReceiptStepCases(dirs, file, data, proposed, false, confirm, response);
      if proposed.Ok? && ResolvedName(dirs, file.dir, proposed.value).Ok? {
        var name := ResolvedName(dirs, file.dir, proposed.value).value;
        NamedStepCases(dirs, file, data, name, false, confirm, response);
      }
    }
  }

  /** A generated name is never empty. */
  lemma GeneratedNameNonEmpty(data: ReceiptData, ext: string)
    ensures GenerateNewName(data, ext).Ok? ==> GenerateNewName(data, ext).value != []
  {
  }

  /**
   * Every result returned has exactly one of `new_name`, `skipped_reason`
   * and `error` set, and every call that returns a result ticks the counter.
   */
  lemma SingleFileExclusive(dirs: map<Path, set<string>>, file: FilePath, image: Option<Bytes>,
                            extract: Bytes -> Result<ReceiptData, string>,
                            dryRun: bool, confirm: bool, response: string)
    ensures var s := SingleFile(dirs, file, image, extract, dryRun, confirm, response);
      s.outcome.Ok? ==> s.counted && Exclusive(s.outcome.value)
  {
    if image.Some? && extract(image.value).Ok? && Truthy(extract(image.value).value.isMedicalReceipt) {
      var data := extract(image.value).value;
      var proposed := GenerateNewName(data, Suffix(file.name));
      ReceiptBranch(dirs, file, image, extract, dryRun, confirm, response, data);
      ReceiptStepCases(dirs, file, data, proposed, dryRun, confirm, response);
      if proposed.Ok? && ResolvedName(dirs, file.dir, proposed.value).Ok? {
        GeneratedNameNonEmpty(data, Suffix(file.name));
        ResolvedNameNonEmpty(dirs, file.dir, proposed.value);
        var name := ResolvedName(dirs, file.dir, proposed.value).value;
        NamedStepCases(dirs, file, data, name, dryRun, confirm, response);
      }
    }
  }

  /**
   * A live rename never replaces a file: the new name did not exist, and
   * the directory holds as many entries afterwards as before.
   */
  lemma LiveRenameReplacesNothing(dirs: map<Path, set<string>>, file: FilePath, image: Option<Bytes>,
                                  extract: Bytes -> Result<ReceiptData, string>,
                                  confirm: bool, response: string)
    ensures var s := SingleFile(dirs, file, image, extract, false, confirm, response);
      var d := Normalize(file.dir);
      s.outcome.Ok? && s.outcome.value.newName.Some? ==>
        && !PathExists(dirs, JoinPath(file.dir, s.outcome.value.newName.value))
        && d in dirs && d in s.dirs && |s.dirs[d]| == |dirs[d]|
  {
    var s := SingleFile(dirs, file, image, extract, false, confirm, response);
    if s.outcome.Ok? && s.outcome.value.newName.Some? {
      var data := extract(image.value).value;
      ReceiptNamed(dirs, file, image, extract, false, confirm, response, data);
      var proposed := GenerateNewName(data, Suffix(file.name));
      ResolvedNameIsFree(dirs, file.dir, proposed.value);
      LiveRenameApplied(dirs, file, image, extract, confirm, response);
      RenameToFreeNameKeepsCount(dirs, file, s.outcome.value.newName.value);
    }
  }

  // ---------------------------------------------------------------------------
  // process_files
  // ---------------------------------------------------------------------------

  /** The call results of a run over `files`, in order, with the tree and the counter after the last one. */
  datatype RunState = RunState(outcomes: seq<Result<ProcessResult, Failure>>, dirs: map<Path, set<string>>, done: nat)

  /** Every file handed to `process_single_file` in turn, each call seeing the tree the previous ones left. */
  function Run(dirs: map<Path, set<string>>, files: seq<FilePath>, images: FilePath -> Option<Bytes>,
               extract: Bytes -> Result<ReceiptData, string>,
               dryRun: bool, confirm: bool, respond: FilePath -> string): (run: RunState)
    ensures |run.outcomes| == |files|
    ensures run.done <= |files|
  {
    if files == [] then RunState([], dirs, 0)
    else
      var before := Run(dirs, files[..|files| - 1], images, extract, dryRun, confirm, respond);
      var file := files[|files| - 1];
      var s := SingleFile(before.dirs, file, images(file), extract, dryRun, confirm, respond(file));
      RunState(before.outcomes + [s.outcome], s.dirs, before.done + (if s.counted then 1 else 0))
  }

  /** `future.result()` for each call in turn: all the results, or the first exception raised. */
  function Collect(outcomes: seq<Result<ProcessResult, Failure>>): (r: Result<seq<ProcessResult>, Failure>)
    ensures r.Ok? ==> |r.value| == |outcomes| && forall i :: 0 <= i < |outcomes| ==> outcomes[i] == Ok(r.value[i])
    ensures r.Err? ==> exists i :: 0 <= i < |outcomes| && outcomes[i] == Err(r.error)
  {
    if outcomes == [] then Ok([])
    else
      var before :- Collect(outcomes[..|outcomes| - 1]);
      match outcomes[|outcomes| - 1]
      case Err(e) => Err(e)
      case Ok(result) => Ok(before + [result])
  }

  /** The three outcome fields of a result. */
  datatype Field = NewName | SkippedReason | Error

  function FieldOf(r: ProcessResult, f: Field): Option<string>
  {
    match f
    case NewName => r.newName
    case SkippedReason => r.skippedReason
    case Error => r.error
  }

  /** `sum(1 for r in results if r.<field>)`. */
  function Count(results: seq<ProcessResult>, f: Field): (n: nat)
    ensures n <= |results|
  {
    if results == [] then 0
    else Count(results[..|results| - 1], f) + (if Present(FieldOf(results[|results| - 1], f)) then 1 else 0)
  }

  /** `(processed_count, skipped_count, failed_count)`. */
  datatype Totals = Totals(processed: nat, skipped: nat, failed: nat)

  function TotalsOf(results: seq<ProcessResult>): Totals
  {
    Totals(Count(results, NewName), Count(results, SkippedReason), Count(results, Error))
  }

  /** What `process_files` returns once every call has finished. */
  function Summary(outcomes: seq<Result<ProcessResult, Failure>>): Result<Totals, Failure>
  {
    match Collect(outcomes)
    case Err(e) => Err(e)
    case Ok(results) => Ok(TotalsOf(results))
  }

  /**
   * `process_files` over the discovered `files`: stop when the extraction
   * service is unavailable, return zeros when there is nothing to do,
   * otherwise pool the calls (a single worker when every rename is to be
   * confirmed), hand every file to `process_single_file`, and count the
   * results. `pool` is the worker count the pool is made with, if one is made;
   * a count below 1 makes the pool refuse before any file is handled.
   */
  method ProcessFiles(fs: FileSystem, files: seq<FilePath>, available: bool,
                      images: FilePath -> Option<Bytes>, extract: Bytes -> Result<ReceiptData, string>,
                      dryRun: bool, workers: int, confirm: bool, respond: FilePath -> string)
    returns (r: Result<Totals, Failure>, pool: Option<int>)
    modifies fs
    ensures !available ==> r == Err(ServiceUnavailable) && pool.None? && fs.dirs == old(fs.dirs)
    ensures available && files == [] ==> r == Ok(Totals(0, 0, 0)) && pool.None? && fs.dirs == old(fs.dirs)
    ensures available && files != [] && !confirm && workers < 1 ==>
      r == Err(NoWorkers) && pool.None? && fs.dirs == old(fs.dirs)
    ensures available && files != [] && (confirm || workers >= 1) ==>
      var run := Run(old(fs.dirs), files, images, extract, dryRun, confirm, respond);
      && pool == Some(if confirm then 1 else workers)
      && fs.dirs == run.dirs
      && r == Summary(run.outcomes)
  {
    if !available {
      return Err(ServiceUnavailable), None;
    }
    if files == [] {
      return Ok(Totals(0, 0, 0)), None;
    }
    var maxWorkers := workers;
    if confirm {
      maxWorkers := 1;
    }
    if maxWorkers < 1 {
      return Err(NoWorkers), None;
    }
    var start := fs.dirs;
    var counter := new Counter();
    var outcomes: seq<Result<ProcessResult, Failure>> := [];
    for i := 0 to |files|
      invariant Run(start, files[..i], images, extract, dryRun, confirm, respond) == RunState(outcomes, fs.dirs, counter.done)
    {
      RunExtends(start, files, i, images, extract, dryRun, confirm, respond);
      var outcome := ProcessSingleFile(fs, counter, files[i], images(files[i]), extract, dryRun, confirm, respond(files[i]));
      outcomes := outcomes + [outcome];
    }
    assert files[..|files|] == files;
    var results: seq<ProcessResult> := [];
    for i := 0 to |outcomes|
      invariant Collect(outcomes[..i]) == Ok(results)
    {
      assert outcomes[..i + 1][..i] == outcomes[..i];
      match outcomes[i]
      case Err(e) =>
        CollectKeepsFailure(outcomes, i + 1);
        return Err(e), Some(maxWorkers);
      case Ok(result) =>
        results := results + [result];
    }
    assert outcomes[..|outcomes|] == outcomes;
    return Ok(TotalsOf(results)), Some(maxWorkers);
  }

  /** The run over one more file is the run so far followed by one call on the tree it left. */
  lemma RunExtends(dirs: map<Path, set<string>>, files: seq<FilePath>, i: nat, images: FilePath -> Option<Bytes>,
                   extract: Bytes -> Result<ReceiptData, string>,
                   dryRun: bool, confirm: bool, respond: FilePath -> string)
    requires i < |files|
    ensures var before := Run(dirs, files[..i], images, extract, dryRun, confirm, respond);
      var s := SingleFile(before.dirs, files[i], images(files[i]), extract, dryRun, confirm, respond(files[i]));
      Run(dirs, files[..i + 1], images, extract, dryRun, confirm, respond)
        == RunState(before.outcomes + [s.outcome], s.dirs, before.done + (if s.counted then 1 else 0))
  {
    assert files[..i + 1][..i] == files[..i];
  }

  /** Once a prefix of the calls has raised, collecting them all raises the same exception. */
  lemma {:induction false} CollectKeepsFailure(outcomes: seq<Result<ProcessResult, Failure>>, n: nat)
    requires n <= |outcomes| && Collect(outcomes[..n]).Err?
    ensures Collect(outcomes) == Collect(outcomes[..n])
    decreases |outcomes| - n
  {
    if n < |outcomes| {
      assert outcomes[..n + 1][..n] == outcomes[..n];
      CollectKeepsFailure(outcomes, n + 1);
    } else {
      assert outcomes[..n] == outcomes;
    }
  }

  /** A run whose calls all return results has collected them all. */
  lemma {:induction false} CollectSucceedsWhenAllDo(outcomes: seq<Result<ProcessResult, Failure>>)
    requires forall i :: 0 <= i < |outcomes| ==> outcomes[i].Ok?
    ensures Collect(outcomes).Ok?
  {
    if outcomes != [] {
      CollectSucceedsWhenAllDo(outcomes[..|outcomes| - 1]);
    }
  }

  /** Results that each say one thing are counted once each: the three totals add up to their number. */
  lemma {:induction false} TotalsPartition(results: seq<ProcessResult>)
    requires forall i :: 0 <= i < |results| ==> Exclusive(results[i])
    ensures var t := TotalsOf(results);
      t.processed + t.skipped + t.failed == |results|
  {
    if results != [] {
      var before := results[..|results| - 1];
      TotalsPartition(before);
      assert Exclusive(results[|results| - 1]);
    }
  }

  /** Every result of a run says one thing, and every call that returned a result ticked the counter. */
  lemma {:induction false} RunAccounting(dirs: map<Path, set<string>>, files: seq<FilePath>, images: FilePath -> Option<Bytes>,
                                          extract: Bytes -> Result<ReceiptData, string>,
                                          dryRun: bool, confirm: bool, respond: FilePath -> string)
    ensures var run := Run(dirs, files, images, extract, dryRun, confirm, respond);
      && (forall i :: 0 <= i < |files| && run.outcomes[i].Ok? ==> Exclusive(run.outcomes[i].value))
      && ((forall i :: 0 <= i < |files| ==> run.outcomes[i].Ok?) ==> run.done == |files|)
  {
    if files != [] {
      var n := |files| - 1;
      RunAccounting(dirs, files[..n], images, extract, dryRun, confirm, respond);
      var before := Run(dirs, files[..n], images, extract, dryRun, confirm, respond);
      var file := files[n];
      var s := SingleFile(before.dirs, file, images(file), extract, dryRun, confirm, respond(file));
      SingleFileExclusive(before.dirs, file, images(file), extract, dryRun, confirm, respond(file));
      RunExtends(dirs, files, n, images, extract, dryRun, confirm, respond);
      assert files[..n + 1] == files;
      var run := Run(dirs, files, images, extract, dryRun, confirm, respond);
      assert run == RunState(before.outcomes + [s.outcome], s.dirs, before.done + (if s.counted then 1 else 0));
      assert forall i :: 0 <= i < n ==> run.outcomes[i] == before.outcomes[i];
      assert run.outcomes[n] == s.outcome;
    }
  }

  /**
   * The three totals `process_files` returns partition the discovered files,
   * and the progress counter reaches the number of files.
   */
  lemma RunPartition(dirs: map<Path, set<string>>, files: seq<FilePath>, images: FilePath -> Option<Bytes>,
                     extract: Bytes -> Result<ReceiptData, string>,
                     dryRun: bool, confirm: bool, respond: FilePath -> string)
    ensures var run := Run(dirs, files, images, extract, dryRun, confirm, respond);
      Summary(run.outcomes).Ok? ==>
        var t := Summary(run.outcomes).value;
        && t.processed + t.skipped + t.failed == |files|
        && run.done == |files|
  {
    var run := Run(dirs, files, images, extract, dryRun, confirm, respond);
    RunAccounting(dirs, files, images, extract, dryRun, confirm, respond);
    match Collect(run.outcomes)
    case Err(_) =>
    case Ok(results) =>
      assert forall i :: 0 <= i < |results| ==> run.outcomes[i] == Ok(results[i]);
      TotalsPartition(results);
  }

  /** `process_files` fails exactly when one of its calls raised. */
  lemma RunFailsIffCallFails(outcomes: seq<Result<ProcessResult, Failure>>)
    ensures Summary(outcomes).Err? <==> exists i :: 0 <= i < |outcomes| && outcomes[i].Err?
  {
    if forall i :: 0 <= i < |outcomes| ==> outcomes[i].Ok? {
      CollectSucceedsWhenAllDo(outcomes);
    }
  }

  /** A dry run over any files leaves the directory tree as it was. */
  lemma {:induction false} DryRunKeepsTree(dirs: map<Path, set<string>>, files: seq<FilePath>, images: FilePath -> Option<Bytes>,
                                           extract: Bytes -> Result<ReceiptData, string>,
                                           confirm: bool, respond: FilePath -> string)
    ensures Run(dirs, files, images, extract, true, confirm, respond).dirs == dirs
  {
    if files != [] {
      var n := |files| - 1;
      DryRunKeepsTree(dirs, files[..n], images, extract, confirm, respond);
      var before := Run(dirs, files[..n], images, extract, true, confirm, respond);
      DryRunLeavesTree(before.dirs, files[n], images(files[n]), extract, confirm, respond(files[n]));
    }
  }
}
