/** The `Bugs` and `BugTracker` classes of `bugs.py`: the state the tool
    keeps while it updates or prints the bugs list of a repository. */
module BugsTool {
  import opened Wrappers
  import opened Text
  import opened Os
  import opened RepositoryRoot
  import opened FileWalk
  import opened BugScan

  /** A call made on the task list (the `t` library is not modelled). */
  datatype TaskCall =
    | Added(task: string)            // add_task(task)
    | Written(deleteIfEmpty: bool)   // write(delete_if_empty=...)
    | Printed(quiet: bool)           // print_list(quiet=...)

  /** Stand-in for `t.TaskDict`: remembers where it lives and the calls made on it. */
  class TaskDict {
    const taskdir: Option<string>
    const name: string
    var calls: seq<TaskCall>

    constructor(taskdir: Option<string>, name: string)
      ensures this.taskdir == taskdir && this.name == name && calls == []
    {
      this.taskdir := taskdir;
      this.name := name;
      calls := [];
    }

    method AddTask(task: string)
      modifies this
      ensures calls == old(calls) + [Added(task)]
    {
      calls := calls + [Added(task)];
    }

    method Write(deleteIfEmpty: bool)
      modifies this
      ensures calls == old(calls) + [Written(deleteIfEmpty)]
    {
      calls := calls + [Written(deleteIfEmpty)];
    }

    method PrintList(quiet: bool)
      modifies this
      ensures calls == old(calls) + [Printed(quiet)]
    {
      calls := calls + [Printed(quiet)];
    }
  }

  /** The `add_task` calls for a list of tasks, in order. */
  function Tasks(entries: seq<string>): (calls: seq<TaskCall>)
    ensures |calls| == |entries|
  {
    seq(|entries|, i requires 0 <= i < |entries| => Added(entries[i]))
  }

  /** The `i`-th call adds the `i`-th task. */
  lemma TasksAt(entries: seq<string>, i: nat)
    requires i < |entries|
    ensures Tasks(entries)[i] == Added(entries[i])
  {
  }

  /** The calls for two lists of tasks are those of each, in order. */
  lemma TasksAppend(a: seq<string>, b: seq<string>)
    ensures Tasks(a + b) == Tasks(a) + Tasks(b)
  {
  }

  /** The file `update` deletes before rebuilding the list. */
  /** The calls and warnings of report `a`, then those of report `b`, are
      those of `a` followed by `b`. */
  lemma CallsThen(c0: seq<TaskCall>, w0: seq<string>, a: ScanReport, b: ScanReport)
    ensures c0 + Tasks(a.entries) + Tasks(b.entries) == c0 + Tasks(Then(a, b).entries)
    ensures w0 + a.warnings + b.warnings == w0 + Then(a, b).warnings
  {
    TasksAppend(a.entries, b.entries);
    assert c0 + Tasks(a.entries) + Tasks(b.entries) == c0 + (Tasks(a.entries) + Tasks(b.entries));
    assert w0 + a.warnings + b.warnings == w0 + (a.warnings + b.warnings);
  }

  function BugsFile(root: string): string {
    root + "/bugs"
  }

  /** What the loop of `update` reaches for repository root `root`: an
      ignore file that fails to decode ends it before any file is read. */
  function UpdateReport(fs: FileSystem, root: string): (rep: ScanReport)
    ensures FileList(fs, Some(root)).Raise? ==> rep == ScanReport([], [], Some(FileList(fs, Some(root)).error))
  {
    match FileList(fs, Some(root))
    case Raise(e) => ScanReport([], [], Some(e))
    case Ok(files) => Scan(fs, files)
  }

  /** How `update` ends: `TypeError` outside a repository, otherwise the
      exception that stopped the loop, if any. */
  function UpdateResult(fs: FileSystem, gitDir: Option<string>): (r: Result<()>)
    ensures gitDir.None? ==> r == Raise(TypeError)
  {
    match gitDir
    case None => Raise(TypeError)
    case Some(root) =>
      var rep := UpdateReport(fs, root);
      if rep.failure.None? then Ok(()) else Raise(rep.failure.value)
  }

  /** The calls `update` makes on the fresh task list: one `add_task` per
      entry, then `write` when the loop ran to the end. */
  function UpdateCalls(rep: ScanReport): seq<TaskCall> {
    Tasks(rep.entries) + if rep.failure.None? then [Written(true)] else []
  }

  /** Inside a repository whose files all exist and whose ignore files
      decode, `update` succeeds, whatever files fail to decode. */
  lemma UpdateSucceeds(fs: FileSystem, root: string)
    requires FileList(fs, Some(root)).Ok?
    requires forall fn | fn in FileList(fs, Some(root)).value :: !fs.read(fn).Missing?
    ensures UpdateResult(fs, Some(root)) == Ok(())
    ensures UpdateCalls(UpdateReport(fs, root))[|UpdateCalls(UpdateReport(fs, root))| - 1] == Written(true)
  {
    ScanCompletesIff(fs, FileList(fs, Some(root)).value);
  }

  /** `update` fails on a missing file only when that file is in the list. */
  lemma UpdateFailureNamesListedFile(fs: FileSystem, root: string)
    requires FileList(fs, Some(root)).Ok?
    requires UpdateResult(fs, Some(root)).Raise?
    ensures exists fn | fn in FileList(fs, Some(root)).value ::
      UpdateResult(fs, Some(root)) == Raise(FileNotFoundError(fn))
  {
    ScanCompletesIff(fs, FileList(fs, Some(root)).value);
  }

  /** Every task `update` adds reads `fn: bug` for a listed file `fn` and a
      bug found in it. */
  lemma UpdateTaskOrigin(fs: FileSystem, root: string, task: string)
    requires Added(task) in UpdateCalls(UpdateReport(fs, root))
    ensures FileList(fs, Some(root)).Ok?
    ensures exists fn | fn in FileList(fs, Some(root)).value ::
      fs.read(fn).Decoded? && exists b | b in BugsIn(fs.read(fn).lines) :: task == fn + ": " + b
  {
    var rep := UpdateReport(fs, root);
    var i :| 0 <= i < |UpdateCalls(rep)| && UpdateCalls(rep)[i] == Added(task);
    assert i < |rep.entries|;
    TasksAt(rep.entries, i);
    ScanEntryOrigin(fs, FileList(fs, Some(root)).value, task);
  }

  /** The loop of `buildFileList` that grows the reject list: a rule
      holding `*` adds its glob expansion, any other rule itself. */
  method ExpandRejects(fs: FileSystem, rejectRegexes: seq<string>) returns (rejectFilenames: seq<string>)
    ensures rejectFilenames == BuiltinRejects + ExpandRules(fs, rejectRegexes)
  {
    rejectFilenames := BuiltinRejects;
    var i := 0;
    while i < |rejectRegexes|
      invariant 0 <= i <= |rejectRegexes|
      invariant rejectFilenames == BuiltinRejects + ExpandRules(fs, rejectRegexes[..i])
    {
      var regex := rejectRegexes[i];
      ghost var before := rejectFilenames;
      if '*' in regex {
        rejectFilenames := rejectFilenames + fs.glob(RulePattern(regex));
      } else {
        rejectFilenames := rejectFilenames + [regex];
      }
      assert rejectFilenames == before + ExpandRule(fs, regex);
      assert rejectRegexes[..i + 1][..i] == rejectRegexes[..i];
      assert ExpandRules(fs, rejectRegexes[..i + 1]) == ExpandRules(fs, rejectRegexes[..i]) + ExpandRule(fs, regex);
      i := i + 1;
    }
    assert rejectRegexes[..i] == rejectRegexes;
  }

  /** The inner loop of the walk in `buildFileList`: the `invalid` flag
      for one walked path. */
  method IsInvalid(fs: FileSystem, rejectFilenames: seq<string>, filename: string) returns (invalid: bool)
    ensures invalid <==> !Admitted(fs, rejectFilenames, filename)
  {
    invalid := false;
    var m := 0;
    while m < |rejectFilenames|
      invariant 0 <= m <= |rejectFilenames|
      invariant invalid <==> !Admitted(fs, rejectFilenames[..m], filename)
    {
      var regex := rejectFilenames[m];
      if IsSubstring(regex, filename) || regex == filename || fs.isDir(filename) {
        invalid := true;
      }
      assert rejectFilenames[..m + 1] == rejectFilenames[..m] + [regex];
      assert Admitted(fs, rejectFilenames[..m + 1], filename) <==>
        Admitted(fs, rejectFilenames[..m], filename) && !Hit(fs, regex, filename);
      m := m + 1;
    }
    assert rejectFilenames[..m] == rejectFilenames;
  }

  /** The outer loop of the walk in `buildFileList`. */
  method FilterWalk(fs: FileSystem, rejectFilenames: seq<string>, walk: seq<string>) returns (validPaths: seq<string>)
    ensures validPaths == ValidPaths(fs, rejectFilenames, walk)
  {
    validPaths := [];
    var j := 0;
    while j < |walk|
      invariant 0 <= j <= |walk|
      invariant validPaths == ValidPaths(fs, rejectFilenames, walk[..j])
    {
      var filename := walk[j];
      var invalid := IsInvalid(fs, rejectFilenames, filename);
      if !invalid {
        validPaths := validPaths + [filename];
      }
      assert walk[..j + 1][..j] == walk[..j];
      j := j + 1;
    }
    assert walk[..j] == walk;
  }

  /** The inner loop of `update`: one `add_task` per bug of file `fn`. */
  method AddTasks(dict: TaskDict, fn: string, found: seq<string>)
    modifies dict
    ensures dict.calls == old(dict.calls) + Tasks(Entries(fn, found))
  {
    var j := 0;
    while j < |found|
      invariant 0 <= j <= |found|
      invariant dict.calls == old(dict.calls) + Tasks(Entries(fn, found[..j]))
    {
      dict.AddTask(fn + ": " + found[j]);
      assert Entries(fn, found[..j + 1]) == Entries(fn, found[..j]) + [fn + ": " + found[j]];
      j := j + 1;
    }
    assert found[..j] == found;
  }

  /** The `Bugs` object: the repository root found at construction, the
      task list it (re)creates, and the effects on the world it has had. */
  class Bugs {
    const fs: FileSystem
    const gitDir: Option<string>
    var bugDict: TaskDict?
    /** Paths handed to `os.unlink`, in order. */
    var unlinked: seq<string>
    /** Files reported on stderr as undecodable, in order. */
    var warnings: seq<string>

    constructor(fs: FileSystem, pwd: string)
      requires ReachesRoot(fs, Up, pwd)
      ensures this.fs == fs && RootOutcome(fs, Up, pwd, gitDir)
      ensures bugDict == null && unlinked == [] && warnings == []
    {
      this.fs := fs;
      var root := FindRepositoryRoot(fs, pwd);
      gitDir := root;
      bugDict := null;
      unlinked := [];
      warnings := [];
    }

    /** `synchronizeBugDict(delete)`: delete the bugs file if asked (a
        missing one is fine, no repository is a `TypeError`), then start a
        fresh task list in the repository root. */
    method SynchronizeBugDict(delete: bool) returns (r: Result<()>)
      modifies this
      ensures warnings == old(warnings)
      ensures delete && gitDir.None? ==>
        r == Raise(TypeError) && bugDict == old(bugDict) && unlinked == old(unlinked)
      ensures !(delete && gitDir.None?) ==>
        && r == Ok(())
        && bugDict != null && fresh(bugDict)
        && bugDict.taskdir == gitDir && bugDict.name == "bugs" && bugDict.calls == []
        && unlinked == old(unlinked) + if delete then [BugsFile(gitDir.value)] else []
    {
      if delete {
        if gitDir.None? {
          return Raise(TypeError);
        }
        unlinked := unlinked + [BugsFile(gitDir.value)];
      }
      bugDict := new TaskDict(gitDir, "bugs");
      return Ok(());
    }

    /** `buildFileList`: the reject list from the built-ins and the two
        ignore files, then the walk filtered against it. */
    method BuildFileList() returns (r: Result<seq<string>>)
      ensures r == FileList(fs, gitDir)
    {
      if gitDir.None? {
        return Raise(TypeError);
      }
      var root := gitDir.value;
      var rejectRegexes: seq<string> := [];
      var bignore := ReadIgnoreFile(fs, root + "/.bignore");
      if bignore.Raise? {
        return Raise(bignore.error);
      }
      rejectRegexes := rejectRegexes + bignore.value.GetOr([]);
      var gitignore := ReadIgnoreFile(fs, root + "/.gitignore");
      if gitignore.Raise? {
        return Raise(gitignore.error);
      }
      rejectRegexes := rejectRegexes + gitignore.value.GetOr([]);
      ghost var b := bignore.value.GetOr([]);
      ghost var g := gitignore.value.GetOr([]);
      assert rejectRegexes == b + g;
      var rejectFilenames := ExpandRejects(fs, rejectRegexes);
      ExpandRulesAppend(fs, b, g);
      assert rejectFilenames == RejectList(fs, b, g);
      var validPaths := FilterWalk(fs, rejectFilenames, fs.glob(WalkPattern));
      return Ok(validPaths);
    }

    /** `update`: delete the old bugs file, start a fresh task list, add
        `fn: bug` for every bug of every listed file, warn about files that
        do not decode, and write the list out. */
    method Update() returns (r: Result<()>)
      modifies this
      ensures r == UpdateResult(fs, gitDir)
      ensures gitDir.None? ==>
        bugDict == old(bugDict) && unlinked == old(unlinked) && warnings == old(warnings)
      ensures gitDir.Some? ==>
        var rep := UpdateReport(fs, gitDir.value);
        && unlinked == old(unlinked) + [BugsFile(gitDir.value)]
        && bugDict != null && fresh(bugDict)
        && bugDict.taskdir == gitDir && bugDict.name == "bugs"
        && bugDict.calls == UpdateCalls(rep)
        && warnings == old(warnings) + rep.warnings
    {
      var s := SynchronizeBugDict(true);
      if s.Raise? {
        return s;
      }
      var root := gitDir.value;
      var dict := bugDict;
      var fileList := BuildFileList();
      if fileList.Raise? {
        return Raise(fileList.error);
      }
      var files := fileList.value;
      r := ScanFiles(dict, files);
      if r.Ok? {
        dict.Write(true);
      }
    }

    /** The loop of `update` over the file list: the tasks of each file go
        to `dict`, an undecodable file is warned about and skipped, and any
        other error leaves the loop (and `update`). */
    method ScanFiles(dict: TaskDict, files: seq<string>) returns (r: Result<()>)
      modifies this, dict
      ensures bugDict == old(bugDict) && unlinked == old(unlinked)
      ensures dict.calls == old(dict.calls) + Tasks(Scan(fs, files).entries)
      ensures warnings == old(warnings) + Scan(fs, files).warnings
      ensures r == if Scan(fs, files).failure.None? then Ok(()) else Raise(Scan(fs, files).failure.value)
    {
      var i := 0;
      while i < |files|
        invariant 0 <= i <= |files|
        invariant Scan(fs, files[..i]).failure.None?
        invariant bugDict == old(bugDict) && unlinked == old(unlinked)
        invariant dict.calls == old(dict.calls) + Tasks(Scan(fs, files[..i]).entries)
        invariant warnings == old(warnings) + Scan(fs, files[..i]).warnings
      {
        var stop := ScanNext(dict, files, i, old(dict.calls), old(warnings));
        if stop.Some? {
          ScanPrefixFailed(fs, files, i + 1);
          return Raise(stop.value);
        }
        i := i + 1;
      }
      assert files[..i] == files;
      return Ok(());
    }

    /** The loop of `update` from file `i` to file `i + 1`. */
    method ScanNext(dict: TaskDict, files: seq<string>, i: nat, ghost c0: seq<TaskCall>, ghost w0: seq<string>)
      returns (stop: Option<PyError>)
      requires i < |files| && Scan(fs, files[..i]).failure.None?
      requires dict.calls == c0 + Tasks(Scan(fs, files[..i]).entries)
      requires warnings == w0 + Scan(fs, files[..i]).warnings
      modifies this, dict
      ensures bugDict == old(bugDict) && unlinked == old(unlinked)
      ensures var rep := Scan(fs, files[..i + 1]);
        && stop == rep.failure
        && dict.calls == c0 + Tasks(rep.entries)
        && warnings == w0 + rep.warnings
    {
      ScanPrefixStep(fs, files, i);
      stop := ProcessFile(dict, files[i]);
      CallsThen(c0, w0, Scan(fs, files[..i]), FileOutcome(fs, files[i]));
    }

    /** One pass of the loop of `update`, for file `fn`: its tasks go to
        `dict`; if it does not decode it is warned about; any other error
        is handed back. */
    method ProcessFile(dict: TaskDict, fn: string) returns (stop: Option<PyError>)
      modifies this, dict
      ensures bugDict == old(bugDict) && unlinked == old(unlinked)
      ensures var o := FileOutcome(fs, fn);
        && stop == o.failure
        && dict.calls == old(dict.calls) + Tasks(o.entries)
        && warnings == old(warnings) + o.warnings
    {
      var bugs := GetBugs(fs, fn);
      if bugs.Raise? {
        if bugs.error.UnicodeDecodeError? {
          warnings := warnings + [fn];
          assert dict.calls == old(dict.calls) + Tasks([]);
          return None;
        }
        assert dict.calls == old(dict.calls) + Tasks([]);
        return Some(bugs.error);
      }
      AddTasks(dict, fn, bugs.value);
      assert warnings == old(warnings) + [];
      return None;
    }

    /** `printBugs`: open the task list of the repository and print it quietly. */
    method PrintBugs()
      modifies this
      ensures bugDict != null && fresh(bugDict)
      ensures bugDict.taskdir == gitDir && bugDict.name == "bugs"
      ensures bugDict.calls == [Printed(true)]
      ensures unlinked == old(unlinked) && warnings == old(warnings)
    {
      var _ := SynchronizeBugDict(false);
      bugDict.PrintList(true);
    }
  }

  /** The message `run` prints for a command it does not know. */
  const NotUnderstood: string := "fatal: command not understood"

  /** `BugTracker`: the parsed sub-command (absent when none was given)
      and the `Bugs` object it drives. */
  class BugTracker {
    const command: Option<string>
    const bugs: Bugs

    constructor(command: Option<string>, bugs: Bugs)
      ensures this.command == command && this.bugs == bugs
    {
      this.command := command;
      this.bugs := bugs;
    }

    /** `run`: `update` and `print` go to the `Bugs` object and give 0;
        anything else prints the fatal message and gives 1. */
    method Run() returns (r: Result<int>, message: Option<string>)
      modifies bugs
      ensures command == Some("update") ==>
        && message.None?
        && r == (match UpdateResult(bugs.fs, bugs.gitDir) case Ok(_) => Ok(0) case Raise(e) => Raise(e))
        && (bugs.gitDir.None? ==>
              bugs.bugDict == old(bugs.bugDict) && bugs.unlinked == old(bugs.unlinked) && bugs.warnings == old(bugs.warnings))
        && (bugs.gitDir.Some? ==>
              var rep := UpdateReport(bugs.fs, bugs.gitDir.value);
              && bugs.unlinked == old(bugs.unlinked) + [BugsFile(bugs.gitDir.value)]
              && bugs.bugDict != null && fresh(bugs.bugDict)
              && bugs.bugDict.taskdir == bugs.gitDir && bugs.bugDict.name == "bugs"
              && bugs.bugDict.calls == UpdateCalls(rep)
              && bugs.warnings == old(bugs.warnings) + rep.warnings)
      ensures command == Some("print") ==>
        && message.None? && r == Ok(0)
        && bugs.bugDict != null && fresh(bugs.bugDict)
        && bugs.bugDict.taskdir == bugs.gitDir && bugs.bugDict.name == "bugs"
        && bugs.bugDict.calls == [Printed(true)]
        && bugs.unlinked == old(bugs.unlinked) && bugs.warnings == old(bugs.warnings)
      ensures command != Some("update") && command != Some("print") ==>
        message == Some(NotUnderstood) && r == Ok(1) && unchanged(bugs)
    {
      if command == Some("update") {
        var u := bugs.Update();
        if u.Raise? {
          return Raise(u.error), None;
        }
      } else if command == Some("print") {
        bugs.PrintBugs();
      } else {
        return Ok(1), Some(NotUnderstood);
      }
      return Ok(0), None;
    }
  }
}
