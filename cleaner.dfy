/** The application state behind the window: the two content caches of the
    last run, the batch loop that fills them, undo, reset, save, and the
    enabled state of the save and undo buttons. The message queue to the
    interface is an event log; the files written by save are a map. */
module Cleaner {
  import opened Chars
  import opened Formatter
  import opened Pipeline
  import opened Discovery
  import opened Binary
  import opened Eol

  type Path = string

  /** What the save status line reports. */
  datatype StatusText = Saving(count: nat) | SaveSummary(saved: nat, failed: nat)

  /** A message to the interface, in the order it is queued: an error box
      with its title, the information box of a run that found no file, the
      progress bar, a list entry, the end of a run, the status line. */
  datatype Event =
    | ErrorAlert(title: string)
    | NoFiles(checked: nat)
    | ProgressMax(total: nat)
    | ProgressUpdate(increment: nat, filename: Option<string>)
    | AddListbox(path: Path, baseDir: Option<string>)
    | ProcessingDone(total: nat)
    | Status(text: StatusText)

  /** `os.path.basename` */
  function BaseName(p: Path): string
  {
    p[LastIndexOf(p, '/') + 1..]
  }

  /** The base name is the last component: a suffix without '/'. */
  lemma BaseNameIsLastComponent(p: Path)
    ensures '/' !in BaseName(p)
    ensures |BaseName(p)| <= |p| && p[|p| - |BaseName(p)|..] == BaseName(p)
  {
    var i := LastIndexOf(p, '/') + 1;
    LastIndexAfter(p, '/');
    assert forall k :: 0 <= k < |p[i..]| ==> p[i..][k] == p[i + k];
  }

  // ---------------------------------------------------------------------
  // The batch loop, as functions of the job list

  /** What the batch does with one job: the text read and the text
      produced, `None` where there is none. The batch below is stated for
      any step that, like `process_single_file`, produces a text only from
      a text it read; the worker runs it with `Processing`. */
  type Step = f: Job -> (Option<string>, Option<string>) | forall job :: f(job).1.Some? ==> f(job).0.Some?
    witness (job: Job) => (None, None)

  /** `process_single_file` with the chosen options, on the job's file. */
  function Processing(opts: Options, libs: Libraries): Step
  {
    (job: Job) => ProcessSingleFile(job.text, Ext(job.path), opts, libs)
  }

  /** The job produced text that differs from what was read. */
  predicate IsChange(job: Job, step: Step)
  {
    var o := step(job);
    o.1.Some? && o.0 != o.1
  }

  /** The messages one job queues: the progress label, the read-error alert
      if the file could not be read, the list entry if it changed, and the
      progress step. */
  function JobEvents(job: Job, step: Step, baseDir: Option<string>): seq<Event>
  {
    [ProgressUpdate(0, Some(BaseName(job.path)))] +
    (if job.text.None? then [ErrorAlert("Read Error")] else []) +
    (if IsChange(job, step) then [AddListbox(job.path, baseDir)] else []) +
    [ProgressUpdate(1, None)]
  }

  function BatchEvents(jobs: seq<Job>, step: Step, baseDir: Option<string>): seq<Event>
    decreases |jobs|
  {
    if jobs == [] then []
    else BatchEvents(jobs[..|jobs| - 1], step, baseDir) + JobEvents(jobs[|jobs| - 1], step, baseDir)
  }

  /** The texts read from the changed files, by path (a later job for the
      same path wins, as in a dict). */
  function ChangedOriginals(jobs: seq<Job>, step: Step): map<Path, string>
    decreases |jobs|
  {
    if jobs == [] then map[]
    else
      var last := jobs[|jobs| - 1];
      RecordOriginal(ChangedOriginals(jobs[..|jobs| - 1], step), last, step)
  }

  /** `local_originals` after one job. */
  function RecordOriginal(m: map<Path, string>, job: Job, step: Step): map<Path, string>
  {
    if IsChange(job, step) then m[job.path := step(job).0.value] else m
  }

  /** `local_processed` after one job. */
  function RecordProcessed(m: map<Path, string>, job: Job, step: Step): map<Path, string>
  {
    if IsChange(job, step) then m[job.path := step(job).1.value] else m
  }

  /** The processed texts of the changed files, by path. */
  function ChangedProcessed(jobs: seq<Job>, step: Step): map<Path, string>
    decreases |jobs|
  {
    if jobs == [] then map[]
    else
      var last := jobs[|jobs| - 1];
      RecordProcessed(ChangedProcessed(jobs[..|jobs| - 1], step), last, step)
  }

  function ChangedCount(jobs: seq<Job>, step: Step): nat
    decreases |jobs|
  {
    if jobs == [] then 0
    else ChangedCount(jobs[..|jobs| - 1], step) + (if IsChange(jobs[|jobs| - 1], step) then 1 else 0)
  }

  /** Both change maps cover the same files, and each holds a text read
      and a different text produced from it. */
  lemma {:induction false} ChangedMapsAgree(jobs: seq<Job>, step: Step)
    ensures ChangedOriginals(jobs, step).Keys == ChangedProcessed(jobs, step).Keys
    ensures forall p :: p in ChangedOriginals(jobs, step) ==>
              ChangedOriginals(jobs, step)[p] != ChangedProcessed(jobs, step)[p]
    decreases |jobs|
  {
    if jobs != [] {
      ChangedMapsAgree(jobs[..|jobs| - 1], step);
    }
  }

  /** Every changed file is one of the jobs, it did change, and both maps
      hold that job's two texts. */
  lemma {:induction false} ChangedAreJobs(jobs: seq<Job>, step: Step)
    ensures forall p :: p in ChangedProcessed(jobs, step) ==>
              exists k :: 0 <= k < |jobs| && jobs[k].path == p && IsChange(jobs[k], step) &&
                          ChangedProcessed(jobs, step)[p] == step(jobs[k]).1.value &&
                          p in ChangedOriginals(jobs, step) && ChangedOriginals(jobs, step)[p] == step(jobs[k]).0.value
    decreases |jobs|
  {
    if jobs != [] {
      var init, last := jobs[..|jobs| - 1], jobs[|jobs| - 1];
      ChangedAreJobs(init, step);
      ChangedMapsAgree(init, step);
      forall p | p in ChangedProcessed(jobs, step)
        ensures exists k :: 0 <= k < |jobs| && jobs[k].path == p && IsChange(jobs[k], step) &&
                            ChangedProcessed(jobs, step)[p] == step(jobs[k]).1.value &&
                            p in ChangedOriginals(jobs, step) && ChangedOriginals(jobs, step)[p] == step(jobs[k]).0.value
      {
        if IsChange(last, step) && p == last.path {
          assert jobs[|jobs| - 1] == last;
        } else {
          var k :| 0 <= k < |init| && init[k].path == p && IsChange(init[k], step) &&
                   ChangedProcessed(init, step)[p] == step(init[k]).1.value &&
                   p in ChangedOriginals(init, step) && ChangedOriginals(init, step)[p] == step(init[k]).0.value;
          assert jobs[k] == init[k];
        }
      }
    }
  }

  /** Conversely, every job that changed has its path in both maps. */
  lemma {:induction false} ChangedHoldsJobs(jobs: seq<Job>, step: Step)
    ensures forall k :: 0 <= k < |jobs| && IsChange(jobs[k], step) ==>
              jobs[k].path in ChangedOriginals(jobs, step) && jobs[k].path in ChangedProcessed(jobs, step)
    decreases |jobs|
  {
    if jobs != [] {
      var init := jobs[..|jobs| - 1];
      ChangedHoldsJobs(init, step);
      assert forall k :: 0 <= k < |init| ==> init[k] == jobs[k];
    }
  }

  /** A changed job that no later changed job shares a path with has its
      own two texts in the maps (so with distinct paths, as a walk yields
      them, every changed job does). */
  lemma {:induction false} LastChangeWins(jobs: seq<Job>, step: Step, k: nat)
    requires k < |jobs| && IsChange(jobs[k], step)
    requires forall j :: k < j < |jobs| && jobs[j].path == jobs[k].path ==> !IsChange(jobs[j], step)
    ensures jobs[k].path in ChangedOriginals(jobs, step) &&
            ChangedOriginals(jobs, step)[jobs[k].path] == step(jobs[k]).0.value
    ensures jobs[k].path in ChangedProcessed(jobs, step) &&
            ChangedProcessed(jobs, step)[jobs[k].path] == step(jobs[k]).1.value
    decreases |jobs|
  {
    if k < |jobs| - 1 {
      var init := jobs[..|jobs| - 1];
      assert init[k] == jobs[k];
      forall j | k < j < |init| && init[j].path == init[k].path
        ensures !IsChange(init[j], step)
      {
        assert init[j] == jobs[j];
      }
      LastChangeWins(init, step, k);
    }
  }

  /** The maps are empty exactly when the batch counted no change: undo is
      offered after a run exactly when the run changed a file. */
  lemma {:induction false} ChangedNoneIff(jobs: seq<Job>, step: Step)
    ensures ChangedOriginals(jobs, step) == map[] <==> ChangedCount(jobs, step) == 0
    ensures ChangedProcessed(jobs, step) == map[] <==> ChangedCount(jobs, step) == 0
    decreases |jobs|
  {
    if jobs != [] {
      var init, last := jobs[..|jobs| - 1], jobs[|jobs| - 1];
      ChangedNoneIff(init, step);
      if IsChange(last, step) {
        assert last.path in ChangedOriginals(jobs, step) && last.path in ChangedProcessed(jobs, step);
      }
    }
  }

  /** A file is read as text with newline translation, so the text holds no
      '\r'; when CRLF is chosen, every such text with a line break is
      reported changed. */
  lemma LfTextChangesUnderCrlf(job: Job, opts: Options, libs: Libraries)
    requires job.text.Some? && '\r' !in job.text.value && '\n' in job.text.value
    requires TargetEol(opts) == "CRLF"
    ensures IsChange(job, Processing(opts, libs))
  {
    var s := job.text.value;
    ProcessingChange(job, opts, libs);
    var i :| 0 <= i < |s| && s[i] == '\n';
    assert !CrlfAt(s, i) by {
      if i > 0 {
        assert s[i - 1] != '\r';
      }
    }
  }

  /** With the real step, a file that could not be read never changes, and
      a file read changes exactly when processing alters its text. */
  lemma ProcessingChange(job: Job, opts: Options, libs: Libraries)
    ensures job.text.None? ==> !IsChange(job, Processing(opts, libs))
    ensures job.text.Some? ==>
              (IsChange(job, Processing(opts, libs)) <==> ProcessText(job.text.value, Ext(job.path), opts, libs) != job.text.value)
    ensures IsChange(job, Processing(opts, libs)) ==>
              Processing(opts, libs)(job) == (job.text, Some(ProcessText(job.text.value, Ext(job.path), opts, libs)))
  {
  }

  /** Every text a run leaves to be saved has its line endings in the
      chosen form, and its original is the text read from that file. */
  lemma ChangedInTargetForm(jobs: seq<Job>, opts: Options, libs: Libraries)
    ensures forall p :: p in ChangedProcessed(jobs, Processing(opts, libs)) ==>
              (TargetEol(opts) == "CRLF" ==> CrlfForm(ChangedProcessed(jobs, Processing(opts, libs))[p])) &&
              (TargetEol(opts) != "CRLF" ==> '\r' !in ChangedProcessed(jobs, Processing(opts, libs))[p])
  {
    var step := Processing(opts, libs);
    ChangedAreJobs(jobs, step);
    forall p | p in ChangedProcessed(jobs, step)
      ensures TargetEol(opts) == "CRLF" ==> CrlfForm(ChangedProcessed(jobs, step)[p])
      ensures TargetEol(opts) != "CRLF" ==> '\r' !in ChangedProcessed(jobs, step)[p]
    {
      var k :| 0 <= k < |jobs| && jobs[k].path == p && IsChange(jobs[k], step) &&
               ChangedProcessed(jobs, step)[p] == step(jobs[k]).1.value &&
               p in ChangedOriginals(jobs, step) && ChangedOriginals(jobs, step)[p] == step(jobs[k]).0.value;
      ProcessingChange(jobs[k], opts, libs);
    }
  }

  /** Number of list entries among the messages. */
  function ListboxCount(es: seq<Event>): nat
    decreases |es|
  {
    if es == [] then 0 else (if es[0].AddListbox? then 1 else 0) + ListboxCount(es[1..])
  }

  lemma {:induction false} ListboxCountAppend(a: seq<Event>, b: seq<Event>)
    ensures ListboxCount(a + b) == ListboxCount(a) + ListboxCount(b)
    decreases |a|
  {
    if a == [] {
      assert a + b == b;
    } else {
      assert (a + b)[1..] == a[1..] + b;
      ListboxCountAppend(a[1..], b);
    }
  }

  /** The count reported when the batch ends is the number of list entries
      it queued. */
  lemma {:induction false} CountIsListboxEntries(jobs: seq<Job>, step: Step, baseDir: Option<string>)
    ensures ChangedCount(jobs, step) == ListboxCount(BatchEvents(jobs, step, baseDir))
    decreases |jobs|
  {
    if jobs != [] {
      var init, last := jobs[..|jobs| - 1], jobs[|jobs| - 1];
      CountIsListboxEntries(init, step, baseDir);
      ListboxCountAppend(BatchEvents(init, step, baseDir), JobEvents(last, step, baseDir));
      var read := if last.text.None? then [ErrorAlert("Read Error")] else [];
      var add := if IsChange(last, step) then [AddListbox(last.path, baseDir)] else [];
      var e0 := [ProgressUpdate(0, Some(BaseName(last.path)))];
      ListboxCountAppend(e0 + read + add, [ProgressUpdate(1, None)]);
      ListboxCountAppend(e0 + read, add);
      ListboxCountAppend(e0, read);
    }
  }

  /** Number of progress steps among the messages. */
  function StepCount(es: seq<Event>): nat
    decreases |es|
  {
    if es == [] then 0 else (if es[0].ProgressUpdate? && es[0].increment == 1 then 1 else 0) + StepCount(es[1..])
  }

  lemma {:induction false} StepCountAppend(a: seq<Event>, b: seq<Event>)
    ensures StepCount(a + b) == StepCount(a) + StepCount(b)
    decreases |a|
  {
    if a == [] {
      assert a + b == b;
    } else {
      assert (a + b)[1..] == a[1..] + b;
      StepCountAppend(a[1..], b);
    }
  }

  /** Every job advances the progress bar by exactly one step, so the bar
      reaches the maximum the batch announced. */
  lemma {:induction false} OneStepPerJob(jobs: seq<Job>, step: Step, baseDir: Option<string>)
    ensures StepCount(BatchEvents(jobs, step, baseDir)) == |jobs|
    decreases |jobs|
  {
    if jobs != [] {
      var init, last := jobs[..|jobs| - 1], jobs[|jobs| - 1];
      OneStepPerJob(init, step, baseDir);
      StepCountAppend(BatchEvents(init, step, baseDir), JobEvents(last, step, baseDir));
      var read := if last.text.None? then [ErrorAlert("Read Error")] else [];
      var add := if IsChange(last, step) then [AddListbox(last.path, baseDir)] else [];
      var e0 := [ProgressUpdate(0, Some(BaseName(last.path)))];
      StepCountAppend(e0 + read + add, [ProgressUpdate(1, None)]);
      StepCountAppend(e0 + read, add);
      StepCountAppend(e0, read);
    }
  }

  /** How the batch functions grow by one job. */
  lemma BatchStep(jobs: seq<Job>, i: nat, step: Step, baseDir: Option<string>)
    requires i < |jobs|
    ensures BatchEvents(jobs[..i + 1], step, baseDir) ==
            BatchEvents(jobs[..i], step, baseDir) + JobEvents(jobs[i], step, baseDir)
    ensures ChangedOriginals(jobs[..i + 1], step) == RecordOriginal(ChangedOriginals(jobs[..i], step), jobs[i], step)
    ensures ChangedProcessed(jobs[..i + 1], step) == RecordProcessed(ChangedProcessed(jobs[..i], step), jobs[i], step)
    ensures ChangedCount(jobs[..i + 1], step) == ChangedCount(jobs[..i], step) + (if IsChange(jobs[i], step) then 1 else 0)
  {
    assert jobs[..i + 1][..i] == jobs[..i] && jobs[..i + 1][i] == jobs[i];
  }

  // ---------------------------------------------------------------------
  // `save_files`, as functions of the paths

  /** The file contents after writing the cached text of each path in
      turn; a path without cached text, or whose write fails, is not
      written. */
  function Written(disk: map<Path, string>, cache: map<Path, string>, paths: seq<Path>, writeOk: Path -> bool): map<Path, string>
    decreases |paths|
  {
    if paths == [] then disk
    else
      var p := paths[|paths| - 1];
      var before := Written(disk, cache, paths[..|paths| - 1], writeOk);
      if p in cache && writeOk(p) then before[p := cache[p]] else before
  }

  function SavedCount(cache: map<Path, string>, paths: seq<Path>, writeOk: Path -> bool): nat
    decreases |paths|
  {
    if paths == [] then 0
    else
      var p := paths[|paths| - 1];
      SavedCount(cache, paths[..|paths| - 1], writeOk) + (if p in cache && writeOk(p) then 1 else 0)
  }

  /** One "Save Error" alert per failed write, in order. */
  function SaveAlerts(cache: map<Path, string>, paths: seq<Path>, writeOk: Path -> bool): seq<Event>
    decreases |paths|
  {
    if paths == [] then []
    else
      var p := paths[|paths| - 1];
      SaveAlerts(cache, paths[..|paths| - 1], writeOk) +
      (if p in cache && !writeOk(p) then [ErrorAlert("Save Error")] else [])
  }

  /** Every saved file holds its cached text verbatim, and every other file
      is untouched. */
  lemma {:induction false} WrittenVerbatim(disk: map<Path, string>, cache: map<Path, string>, paths: seq<Path>, writeOk: Path -> bool)
    ensures forall p :: p in paths && p in cache && writeOk(p) ==>
              p in Written(disk, cache, paths, writeOk) && Written(disk, cache, paths, writeOk)[p] == cache[p]
    ensures forall p :: !(p in paths && p in cache && writeOk(p)) ==>
              (p in Written(disk, cache, paths, writeOk) <==> p in disk) &&
              (p in disk ==> Written(disk, cache, paths, writeOk)[p] == disk[p])
    decreases |paths|
  {
    if paths != [] {
      var init := paths[..|paths| - 1];
      WrittenVerbatim(disk, cache, init, writeOk);
      assert forall p :: p in paths <==> p in init || p == paths[|paths| - 1];
    }
  }

  /** Saving every cached path with no write failing writes each cached
      text and raises no alert. */
  lemma {:induction false} SaveAllSucceeds(disk: map<Path, string>, cache: map<Path, string>, paths: seq<Path>, writeOk: Path -> bool)
    requires forall k :: 0 <= k < |paths| ==> paths[k] in cache && writeOk(paths[k])
    ensures SavedCount(cache, paths, writeOk) == |paths|
    ensures SaveAlerts(cache, paths, writeOk) == []
    decreases |paths|
  {
    if paths != [] {
      SaveAllSucceeds(disk, cache, paths[..|paths| - 1], writeOk);
    }
  }

  lemma AppendAssoc(a: seq<Event>, b: seq<Event>, c: seq<Event>)
    ensures a + b + c == a + (b + c)
  {
  }

  lemma EventsStep(start: seq<Event>, a: seq<Event>, b: seq<Event>, c: seq<Event>, d: seq<Event>)
    ensures start + a + b + c + d == start + (a + b + c + d)
  {
  }

  lemma EmptyUnion(m: map<Path, string>)
    ensures map[] + m == m
  {
  }

  /** Merging a pair of change maps into the processed cache keeps every
      original paired with a different processed text. */
  lemma CommitKeepsPairs(cache: map<Path, string>, originals: map<Path, string>, processeds: map<Path, string>)
    requires originals.Keys == processeds.Keys
    requires forall p :: p in originals ==> originals[p] != processeds[p]
    ensures forall p :: p in originals ==> p in cache + processeds && originals[p] != (cache + processeds)[p]
  {
  }

  // ---------------------------------------------------------------------
  // The application

  class App {
    /** The texts as read, of the files the last run changed. */
    var originalContent: map<Path, string>
    /** The texts to save, by path. */
    var processedContent: map<Path, string>
    /** The messages queued for the interface so far. */
    var events: seq<Event>
    /** The files' contents as written by save. */
    var disk: map<Path, string>

    /** Every file with an original text also has a processed text, and
        the two differ. */
    predicate Valid()
      reads this
    {
      forall p :: p in originalContent ==> p in processedContent && originalContent[p] != processedContent[p]
    }

    constructor(files: map<Path, string>)
      ensures originalContent == map[] && processedContent == map[]
      ensures events == [] && disk == files
      ensures Valid()
    {
      originalContent, processedContent := map[], map[];
      events, disk := [], files;
    }

    /** `update_button_states`: save is enabled when there is something to
        save, undo when the last run changed something, and neither while
        forced off. */
    function ButtonStates(forceDisable: bool): (r: (bool, bool))
      reads this
      ensures r.0 ==> !forceDisable && processedContent != map[]
      ensures r.1 ==> !forceDisable && originalContent != map[]
      ensures !forceDisable && processedContent != map[] ==> r.0
      ensures !forceDisable && originalContent != map[] ==> r.1
      ensures Valid() && r.1 ==> r.0
    {
      (|processedContent| > 0 && !forceDisable, |originalContent| > 0 && !forceDisable)
    }

    /** `get_content_from_cache`: no path (or an empty one) gives nothing;
        otherwise whatever the two caches hold for it. In a valid state an
        original text always comes with a different processed text. */
    function ContentFromCache(path: Option<Path>): (r: (Option<string>, Option<string>))
      reads this
      ensures path.None? || path == Some("") ==> r == (None, None)
      ensures r.0.Some? ==> path.Some? && path.value in originalContent && r.0.value == originalContent[path.value]
      ensures r.1.Some? ==> path.Some? && path.value in processedContent && r.1.value == processedContent[path.value]
      ensures Valid() && r.0.Some? ==> r.1.Some? && r.0 != r.1
      ensures path.Some? && path.value != "" && path.value in originalContent ==>
                r.0 == Some(originalContent[path.value])
      ensures path.Some? && path.value != "" && path.value in processedContent ==>
                r.1 == Some(processedContent[path.value])
    {
      match path
      case None => (None, None)
      case Some(p) =>
        if p == "" then (None, None)
        else
          (if p in originalContent then Some(originalContent[p]) else None,
           if p in processedContent then Some(processedContent[p]) else None)
    }

    /** The cache part of `reset_ui_state`: both caches emptied, after
        which both buttons are off. */
    method ResetCaches()
      modifies this
      ensures processedContent == map[] && originalContent == map[]
      ensures events == old(events) && disk == old(disk)
      ensures Valid()
      ensures ButtonStates(false) == (false, false)
    {
      processedContent := map[];
      originalContent := map[];
    }

    /** `undo_all_changes_action` once the dialog is answered: with nothing
        to undo or without confirmation nothing changes; otherwise the
        processed cache becomes exactly the texts as read, and the undo is
        spent. */
    method Undo(confirmed: bool)
      modifies this
      ensures old(originalContent) == map[] || !confirmed ==>
                originalContent == old(originalContent) && processedContent == old(processedContent)
      ensures old(originalContent) != map[] && confirmed ==>
                processedContent == old(originalContent) && originalContent == map[]
      ensures events == old(events) && disk == old(disk)
      ensures old(originalContent) != map[] && confirmed ==> Valid() && !ButtonStates(false).1
    {
      if originalContent == map[] {
        return;
      }
      if !confirmed {
        return;
      }
      processedContent := originalContent;
      originalContent := map[];
    }

    /** The call of `process_single_file` in the batch: a file that cannot
        be read raises the "Read Error" alert; the texts are the step's. */
    method ProcessFile(job: Job, step: Step) returns (original: Option<string>, processed: Option<string>)
      modifies this`events
      ensures (original, processed) == step(job)
      ensures events == old(events) + (if job.text.None? then [ErrorAlert("Read Error")] else [])
    {
      if job.text.None? {
        events := events + [ErrorAlert("Read Error")];
      }
      original, processed := step(job).0, step(job).1;
    }

    /** One pass of the batch loop: announce the file, process it, and
        record it in the local maps and list it if its text changed. */
    method VisitFile(job: Job, step: Step, baseDir: Option<string>,
                     originals: map<Path, string>, processeds: map<Path, string>, count: nat)
      returns (originals': map<Path, string>, processeds': map<Path, string>, count': nat)
      modifies this`events
      ensures events == old(events) + JobEvents(job, step, baseDir)
      ensures originals' == RecordOriginal(originals, job, step)
      ensures processeds' == RecordProcessed(processeds, job, step)
      ensures count' == count + (if IsChange(job, step) then 1 else 0)
    {
      ghost var start := old(events);
      ghost var read: seq<Event> := if job.text.None? then [ErrorAlert("Read Error")] else [];
      ghost var add: seq<Event> := if IsChange(job, step) then [AddListbox(job.path, baseDir)] else [];
      originals', processeds', count' := originals, processeds, count;
      events := events + [ProgressUpdate(0, Some(BaseName(job.path)))];
      var original, processed := ProcessFile(job, step);
      assert events == start + [ProgressUpdate(0, Some(BaseName(job.path)))] + read;
      if processed.Some? && original != processed {
        originals' := originals'[job.path := original.value];
        processeds' := processeds'[job.path := processed.value];
        events := events + [AddListbox(job.path, baseDir)];
        count' := count' + 1;
      }
      assert events == start + [ProgressUpdate(0, Some(BaseName(job.path)))] + read + add;
      events := events + [ProgressUpdate(1, None)];
      EventsStep(start, [ProgressUpdate(0, Some(BaseName(job.path)))], read, add, [ProgressUpdate(1, None)]);
    }

    /** The loop of the batch: every job visited in order, changes
        collected in local maps that the caches do not see yet. */
    method RunJobs(jobs: seq<Job>, step: Step, baseDir: Option<string>)
      returns (originals: map<Path, string>, processeds: map<Path, string>, count: nat)
      modifies this`events
      ensures events == old(events) + BatchEvents(jobs, step, baseDir)
      ensures originals == ChangedOriginals(jobs, step)
      ensures processeds == ChangedProcessed(jobs, step)
      ensures count == ChangedCount(jobs, step)
    {
      originals, processeds, count := map[], map[], 0;
      var i := 0;
      while i < |jobs|
        invariant 0 <= i <= |jobs|
        invariant events == old(events) + BatchEvents(jobs[..i], step, baseDir)
        invariant originals == ChangedOriginals(jobs[..i], step)
        invariant processeds == ChangedProcessed(jobs[..i], step)
        invariant count == ChangedCount(jobs[..i], step)
      {
        BatchStep(jobs, i, step, baseDir);
        AppendAssoc(old(events), BatchEvents(jobs[..i], step, baseDir), JobEvents(jobs[i], step, baseDir));
        originals, processeds, count := VisitFile(jobs[i], step, baseDir, originals, processeds, count);
        i := i + 1;
      }
      assert jobs[..i] == jobs;
    }

    /** The batch part of `processing_thread_worker`: one pass over the
        jobs, then one commit of the change maps. */
    method ProcessBatch(jobs: seq<Job>, step: Step, baseDir: Option<string>)
      modifies this
      requires jobs != []
      ensures events == old(events) + [ProgressMax(|jobs|)] + BatchEvents(jobs, step, baseDir) +
                        [ProcessingDone(ChangedCount(jobs, step))]
      ensures originalContent == ChangedOriginals(jobs, step)
      ensures processedContent == old(processedContent) + ChangedProcessed(jobs, step)
      ensures disk == old(disk)
      ensures Valid()
      ensures forall k :: 0 <= k < |jobs| && IsChange(jobs[k], step) ==>
                jobs[k].path in originalContent && jobs[k].path in processedContent
      ensures ButtonStates(false).1 <==> ChangedCount(jobs, step) > 0
    {
      events := events + [ProgressMax(|jobs|)];
      var originals, processeds, count := RunJobs(jobs, step, baseDir);
      ChangedMapsAgree(jobs, step);
      ChangedHoldsJobs(jobs, step);
      ChangedNoneIff(jobs, step);
      CommitKeepsPairs(processedContent, originals, processeds);
      originalContent := originals;
      processedContent := processedContent + processeds;
      events := events + [ProcessingDone(count)];
    }

    /** `processing_thread_worker`: discover the files, report an invalid
        selection or an empty result, or run the batch. */
    method Worker(target: Target, ignore: seq<string>, opts: Options, libs: Libraries, baseDir: Option<string>)
      modifies this
      ensures disk == old(disk)
      ensures old(Valid()) ==> Valid()
      ensures target.FileTarget? && !(Ext(target.path) in SupportedExtensions && !IsLikelyBinary(target.bytes)) ==>
                events == old(events) + [ErrorAlert("Selection Error"), ProcessingDone(0)] &&
                originalContent == old(originalContent) && processedContent == old(processedContent)
      ensures target.Missing? ==>
                events == old(events) + [NoFiles(0), ProcessingDone(0)] &&
                originalContent == old(originalContent) && processedContent == old(processedContent)
      ensures target.DirTarget? ==>
                var jobs := Jobs(target.root, Select(Walk(target.tree, [], DirNames(ignore)), DirNames(ignore), FileGlobs(ignore)));
                var checked := |Walk(target.tree, [], DirNames(ignore))|;
                if jobs == [] then
                  events == old(events) + [NoFiles(checked), ProcessingDone(0)] &&
                  originalContent == old(originalContent) && processedContent == old(processedContent)
                else
                  events == old(events) + [ProgressMax(|jobs|)] + BatchEvents(jobs, Processing(opts, libs), baseDir) +
                            [ProcessingDone(ChangedCount(jobs, Processing(opts, libs)))] &&
                  originalContent == ChangedOriginals(jobs, Processing(opts, libs)) &&
                  processedContent == old(processedContent) + ChangedProcessed(jobs, Processing(opts, libs))
      ensures target.FileTarget? && Ext(target.path) in SupportedExtensions && !IsLikelyBinary(target.bytes) ==>
                var jobs := [Job(target.path, target.text)];
                events == old(events) + [ProgressMax(1)] + BatchEvents(jobs, Processing(opts, libs), baseDir) +
                          [ProcessingDone(ChangedCount(jobs, Processing(opts, libs)))] &&
                originalContent == ChangedOriginals(jobs, Processing(opts, libs)) &&
                processedContent == old(processedContent) + ChangedProcessed(jobs, Processing(opts, libs))
    {
      var found := Discover(target, ignore);
      match found
      case InvalidSelection =>
        events := events + [ErrorAlert("Selection Error"), ProcessingDone(0)];
      case Found(jobs, checked) =>
        if jobs == [] {
          events := events + [NoFiles(checked), ProcessingDone(0)];
        } else {
          ProcessBatch(jobs, Processing(opts, libs), baseDir);
        }
    }

    /** `start_processing_action` with a selection: both caches are reset
        before the worker runs, so afterwards they hold exactly this run's
        changes. */
    method StartProcessing(target: Target, ignore: seq<string>, opts: Options, libs: Libraries)
      modifies this
      ensures disk == old(disk)
      ensures target.DirTarget? ==>
                var jobs := Jobs(target.root, Select(Walk(target.tree, [], DirNames(ignore)), DirNames(ignore), FileGlobs(ignore)));
                originalContent == ChangedOriginals(jobs, Processing(opts, libs)) &&
                processedContent == ChangedProcessed(jobs, Processing(opts, libs))
      ensures target.FileTarget? && Ext(target.path) in SupportedExtensions && !IsLikelyBinary(target.bytes) ==>
                originalContent == ChangedOriginals([Job(target.path, target.text)], Processing(opts, libs)) &&
                processedContent == ChangedProcessed([Job(target.path, target.text)], Processing(opts, libs))
      ensures target.Missing? || (target.FileTarget? && !(Ext(target.path) in SupportedExtensions && !IsLikelyBinary(target.bytes))) ==>
                originalContent == map[] && processedContent == map[]
      ensures Valid()
    {
      ResetCaches();
      var baseDir := if target.DirTarget? then Some(target.root) else None;
      Worker(target, ignore, opts, libs, baseDir);
      if target.FileTarget? {
        EmptyUnion(ChangedProcessed([Job(target.path, target.text)], Processing(opts, libs)));
      }
      if target.DirTarget? {
        var jobs := Jobs(target.root, Select(Walk(target.tree, [], DirNames(ignore)), DirNames(ignore), FileGlobs(ignore)));
        if jobs == [] {
          assert ChangedOriginals(jobs, Processing(opts, libs)) == map[] && ChangedProcessed(jobs, Processing(opts, libs)) == map[];
        } else {
          EmptyUnion(ChangedProcessed(jobs, Processing(opts, libs)));
        }
      }
    }

    /** `save_files`: write the cached text of each path, counting the
        writes that succeed and the paths that fail (no cached text, or
        the write raised). */
    method SaveFiles(paths: seq<Path>, writeOk: Path -> bool) returns (saved: nat, errors: nat)
      modifies this`disk, this`events
      ensures saved + errors == |paths|
      ensures saved == SavedCount(processedContent, paths, writeOk)
      ensures disk == Written(old(disk), processedContent, paths, writeOk)
      ensures events == old(events) + [Status(Saving(|paths|))] + SaveAlerts(processedContent, paths, writeOk) +
                        [Status(SaveSummary(saved, errors))]
    {
      saved, errors := 0, 0;
      events := events + [Status(Saving(|paths|))];
      ghost var start := events;
      var i := 0;
      while i < |paths|
        invariant 0 <= i <= |paths|
        invariant saved + errors == i
        invariant saved == SavedCount(processedContent, paths[..i], writeOk)
        invariant disk == Written(old(disk), processedContent, paths[..i], writeOk)
        invariant events == start + SaveAlerts(processedContent, paths[..i], writeOk)
      {
        var p := paths[i];
        assert paths[..i + 1][..i] == paths[..i] && paths[..i + 1][i] == p;
        if p !in processedContent {
          errors := errors + 1;
        } else if writeOk(p) {
          disk := disk[p := processedContent[p]];
          saved := saved + 1;
        } else {
          errors := errors + 1;
          events := events + [ErrorAlert("Save Error")];
        }
        i := i + 1;
      }
      assert paths[..i] == paths;
      events := events + [Status(SaveSummary(saved, errors))];
    }
  }
}
