# bugs — a verified model of the TODO scanner

`bugs` is a small command-line tool. Run inside a git repository, it finds
the repository root. It reads the ignore files `.bignore` and `.gitignore`
from that root, then walks the files under the working directory with
`glob('./**/*')`, which leaves out names starting with a dot. It skips
the paths that any entry of the ignore files, or `.git/` or `~`, occurs in.
On each line of each remaining file it takes the first `TODO:` comment
(`;;`, `%`, `#`, `/*` or `//` comments), if there is one. It stores each as a
task `file: text` in a `bugs` task list at the root.

This project models in Dafny the parts of the tool that decide what ends up
in that list:

- `bugs.py`: the repository-root walk, the ignore files, the file list, the
  `TODO` regular expression, the per-file scan, `update`, `printBugs` and the
  `run` dispatch;
- `src/BugDAO.py`: a reader and writer for a bugs file with a `#`
  configuration header, modelled as written;
- `src/BugFileTreeNode.py`: a file-tree node named by an absolute path.

The disk is a value of type `Os.FileSystem`. Its fields are oracle functions
for `os.path.abspath`, `is_dir`/`isdir`, `open(...).readlines()` (which can
answer "missing" or "does not decode"), `glob(..., recursive=True)` and
`os.listdir`. Exceptions become `Result` values carrying a `PyError`.
Effects that leave the process (unlinking the bugs file, stderr warnings,
the calls made on the external `t.TaskDict`) are kept as logs in the
objects' fields.

Modules, one per file:

- `Wrappers` (`wrappers.dfy`)
- `Text` (`text.dfy`): `in` on strings, `split`, `join`, `rstrip`, `readlines`
- `Os` (`os_model.dfy`): the filesystem oracles, `str(Path(...))`, `basename`
- `TodoPattern` (`todo_pattern.dfy`): the regular expression and `re.search`
- `RepositoryRoot` (`repository_root.dfy`): `findRepositoryRoot`
- `FileWalk` (`file_walk.dfy`): `readIgnoreFile` and the specification of
  `buildFileList`
- `BugScan` (`bug_scan.dfy`): `getBugs` and the scan loop of `update`
- `BugsTool` (`bugs_tool.dfy`): the `Bugs` and `BugTracker` classes
- `BugDao` (`bug_dao.dfy`)
- `FileTreeNode` (`file_tree_node.dfy`)

Each statement loop in the source is a Dafny `method` with a `while` loop.
Each such method is proved equal to a specification function (`FileList`,
`FileBugs`, `Scan`, `ParsedConfig`, `ReadOutcome`, ...), and the lemmas state
what the source promises about those functions. The list comprehension of
`readIgnoreFile` (bugs.py:125-127) computes a value without updating
anything, so it is the recursive function `FileWalk.IgnoreRules`.

## Model

| member | source | states |
|---|---|---|
| TodoPattern.LeaderAt | bugs.py:85 | the alternative of group 1 found at a position fits inside the line |
| TodoPattern.LeaderAtUnique | bugs.py:85 | group 1 matches alternative `x` at `i` exactly when `x`'s text occurs at `i`: the five alternatives exclude one another |
| TodoPattern.SkipSpace | bugs.py:85 | greedy `\s*` stops at the first non-space (or the end), with only spaces before it |
| TodoPattern.SkipSpaceUnique | bugs.py:85 | that stopping point is the only one with spaces before it and a non-space at it |
| TodoPattern.LineEnd | bugs.py:85 | greedy `(.*)` stops at the first newline or the end, with no newline before it |
| TodoPattern.LineEndUnique | bugs.py:85 | that stopping point is the only one with no newline before it and a newline (or the end) at it |
| TodoPattern.MatchAt | bugs.py:85 | a match attempted at `i` starts at `i`, its group 1 is the alternative at `i`, and its group 3 holds no newline |
| TodoPattern.MatchAfter | bugs.py:85 | after group 1, the rest of the attempt keeps start and leader and yields a newline-free group 3 |
| TodoPattern.Search | bugs.py:193 | `re.search` returns a match at the leftmost start position where one exists, and no earlier position matches |
| TodoPattern.MatchAtSound | bugs.py:85 | every match the attempt finds satisfies the declarative shape of the pattern |
| TodoPattern.MatchAfterSound | bugs.py:85 | the same for the part after group 1 |
| TodoPattern.MatchAtFrom | bugs.py:85 | a match of the declarative shape is the one the attempt at its start finds |
| TodoPattern.MatchAfterAt | bugs.py:85 | the attempt after group 1 ends where `\s*`, `TODO:`, `\s*` and `.*` stop |
| TodoPattern.MatchAtComplete | bugs.py:85 | every declarative match at `i` is found by the attempt at `i` |
| TodoPattern.MatchAtExact | bugs.py:85 | the attempt at `i` finds `(l, t)` exactly when `(l, t)` is a declarative match at `i` (both directions) |
| TodoPattern.TodoSearch | bugs.py:193 | `r_todo.search(line)` from position 0: a result is what the attempt at its start finds, and no attempt before it (or anywhere, when there is none) succeeds |
| TodoPattern.TodoSearchIsLeftmost | bugs.py:193 | `r_todo.search(line)` finds a match iff one exists; it then returns the leftmost, and no position before it matches |
| TodoPattern.BugText | bugs.py:196-199 | the recorded text is group 3, or group 3 less its last 3 characters exactly when group 2 is `*` and group 3 ends in ` */` |
| TodoPattern.LineBug | bugs.py:193-199 | the entry one line contributes never holds a newline |
| TodoPattern.LineBugIffMatch | bugs.py:193-194 | a line contributes an entry iff the pattern matches somewhere in it |
| TodoPattern.LineBugAt | bugs.py:193-199 | a line whose leftmost match is `(i, l, t)` contributes `BugText` of that match |
| TodoPattern.BugTextDropsCloser | bugs.py:196-197 | for a `/*` match with group 3 `b + " */"`, the entry is `b` |
| TodoPattern.CommentMatch | bugs.py:85 | a leader, ` TODO: ` and text starting with a non-space form a match whose group 3 runs to the end of the line |
| TodoPattern.BlockCommentBug | bugs.py:193-197 | `/* TODO: b */` records `b` |
| TodoPattern.LineCommentBug | bugs.py:191-199 | `// TODO: b` with its trailing newline records `b` |
| TodoPattern.HashCommentBug | bugs.py:191-199 | `# TODO: b` after code holding none of `#`, `%`, `;`, `/` records `b` |
| RepositoryRoot.FindRepositoryRoot | bugs.py:105-118 | the loop returns the walk's outcome: the first candidate in `pwd`, `pwd/..`, ... holding `.git` (as given, not normalised), or `None` once a candidate's absolute form is the root |
| RepositoryRoot.PassedNext | bugs.py:113-117 | a candidate that is neither the root nor holds `.git` is passed and the walk moves on |
| RepositoryRoot.OutcomeAt | bugs.py:113-118 | stopping at candidate `k` after passing the earlier ones is the walk's outcome |
| RepositoryRoot.RootOutcomeUnique | bugs.py:105-118 | the walk has one outcome |
| RepositoryRoot.FoundHoldsGit | bugs.py:113-115 | a returned root holds a `.git` directory and is not the filesystem root (the root is never tested for `.git`) |
| RepositoryRoot.GitInPwd | bugs.py:111-115 | when `pwd` holds `.git` and is not the root, `pwd` itself is returned unchanged |
| RepositoryRoot.CandidateShift | bugs.py:116 | walking `m` steps from the `j`-th candidate reaches the `(j + m)`-th |
| RepositoryRoot.PassedShift | bugs.py:113-117 | the candidates passed from `pwd` are passed again from a later candidate |
| RepositoryRoot.PassedBeforeStop | bugs.py:113-117 | the walk cannot pass the candidate it stops at |
| RepositoryRoot.StopsAtShift | bugs.py:113-118 | stopping at a candidate is stopping there when started from an earlier candidate |
| RepositoryRoot.SameOutcomeAlongChain | bugs.py:105-118 | starting the walk from any directory it passes through gives the same result |
| FileWalk.IgnoreRules | bugs.py:125-127 | the rules are at most one per line, each non-empty and without a trailing newline |
| FileWalk.IgnoreRulesAppend | bugs.py:125-127 | the rules keep file order: those of `a + b` are those of `a`, then those of `b` |
| FileWalk.IgnoreRulesMembers | bugs.py:125-127 | `r` is a rule iff it is non-empty and equals some line with its trailing newlines stripped |
| FileWalk.BlankLineIsRule | bugs.py:125 | a line of blanks is kept as a rule: only `''` is filtered |
| FileWalk.ReadIgnoreFile | bugs.py:120-129 | a missing file gives `None`, an undecodable one raises, and otherwise the result is the file's rules |
| FileWalk.ExpandRule | bugs.py:145-148 | a rule holding `*` contributes its glob expansion under `./**/`, any other rule itself |
| FileWalk.ExpandRules | bugs.py:144-148 | the entries the rules add to the reject list, rule after rule, each as `ExpandRule` gives them |
| FileWalk.ExpandRulesPlain | bugs.py:145-148 | every rule without `*` is an entry as it is, and a list of such rules is its own expansion |
| FileWalk.ExpandRulesAppend | bugs.py:144-148 | the expansion of `a + b` is that of `a`, then that of `b` |
| FileWalk.ExpandRulesMembers | bugs.py:144-148 | an entry comes from the rules iff some rule expands to it |
| FileWalk.RejectList | bugs.py:134-148 | the reject list is `['.git/', '~']`, then the `.bignore` entries, then the `.gitignore` entries |
| FileWalk.Admitted | bugs.py:153-158 | a walked path is kept when no reject entry occurs in it, equals it, or finds it to be a directory (the directory test sits inside the loop over entries) |
| FileWalk.AdmittedIff | bugs.py:153-158 | with a non-empty reject list, a walked path is kept iff it is not a directory and no reject entry occurs in it (equality being one occurrence) |
| FileWalk.ValidPaths | bugs.py:151-160 | the kept paths are no more than the walked ones |
| FileWalk.ValidPathsMembers | bugs.py:151-160 | a path is kept iff it was walked and admitted |
| FileWalk.ValidPathsSubsequence | bugs.py:151-160 | the kept paths are the walk with some paths left out, order preserved |
| FileWalk.BuiltinsDropped | bugs.py:134-158 | no kept path contains `~` or `.git/` |
| FileWalk.DirectoriesDropped | bugs.py:155-157 | no kept path is a directory |
| FileWalk.FileList | bugs.py:131-160 | outside a repository the call raises `TypeError`; inside one it raises (`UnicodeDecodeError`) iff an ignore file does not decode; otherwise the list is an order-preserving subsequence of the walk with no directory and no `~` path |
| FileWalk.IgnoreEntries | bugs.py:137-141 | `readIgnoreFile(...) or []`: the rules of a decoded ignore file, none for a missing one |
| FileWalk.FileListMembers | bugs.py:131-160 | a path is in the file list iff it was walked, is not a directory, and no entry of the reject list built from both ignore files occurs in it |
| FileWalk.NoIgnoreFiles | bugs.py:134-148 | with neither ignore file present, the walk is filtered by the built-in pair `.git/`, `~` alone |
| BugsTool.ExpandRejects | bugs.py:143-148 | the loop builds the built-ins followed by the rules' expansion |
| BugsTool.IsInvalid | bugs.py:153-157 | the `invalid` flag is set iff some reject entry throws the path out |
| BugsTool.FilterWalk | bugs.py:150-160 | the walk loop keeps exactly `ValidPaths` of the walk |
| BugsTool.Bugs.BuildFileList | bugs.py:131-160 | `buildFileList` returns `FileList`: the reject list from the built-ins and both ignore files, then the filtered walk |
| BugScan.BugsIn | bugs.py:189-200 | a file yields at most one entry per line |
| BugScan.BugsInNoNewline | bugs.py:191-199 | no recorded entry holds a newline |
| BugScan.BugsInAppend | bugs.py:191-199 | entries come in line order: those of `a + b` are those of `a`, then those of `b` |
| BugScan.BugsInOne | bugs.py:193-199 | one line yields its own entry, if any |
| BugScan.BugsInFromLines | bugs.py:191-199 | every entry comes from some line of the file |
| BugScan.LineBugRecorded | bugs.py:191-199 | every line with a match has its entry recorded |
| BugScan.FileBugs | bugs.py:186-200 | `getBugs` succeeds iff the file opens and decodes; it then gives the file's entries, and otherwise `FileNotFoundError` or `UnicodeDecodeError` |
| BugScan.GetBugs | bugs.py:186-200 | the line loop returns `FileBugs` |
| BugScan.Entries | bugs.py:173-175 | one task per bug |
| BugScan.EntriesAt | bugs.py:175 | each task reads `fn + ': ' + bug`: file name and bug can be read back off it |
| BugScan.FileOutcome | bugs.py:171-181 | one file ends the loop iff it is missing; it is warned about iff it does not decode; only a decoded file adds tasks |
| BugScan.Scan | bugs.py:170-181 | the loop over the file list, stopping at the first exception other than a decode error; it warns at most once per listed file |
| BugScan.ScanWarnings | bugs.py:176-181 | every warning names a listed file that does not decode |
| BugScan.ScanPrefixFailed | bugs.py:170-181 | once the files up to some point have raised, the loop's outcome is that of those files |
| BugScan.ScanPrefixStep | bugs.py:170-181 | one more file extends a running scan by that file's outcome |
| BugScan.ScanOne | bugs.py:170-181 | one file alone gives its tasks, or a warning for an undecodable file, or `FileNotFoundError` |
| BugScan.ScanStopsAtFailure | bugs.py:171-181 | after an exception other than a decode error, later files change nothing |
| BugScan.ThenAssoc | bugs.py:170-181 | file outcomes chain associatively |
| BugScan.ScanAppend | bugs.py:170-181 | without an exception in `a`, scanning `a + b` is scanning `a`, then `b`: tasks in file-then-line order |
| BugScan.UndecodableWarned | bugs.py:176-181 | an undecodable file only adds its warning |
| BugScan.UndecodableSkipped | bugs.py:176-181 | an undecodable file anywhere in the list changes neither the tasks nor how the loop ends |
| BugScan.UndecodableSkippedRunning | bugs.py:176-181 | the same while no exception has ended the loop |
| BugScan.ScanCompletesIff | bugs.py:170-181 | the loop runs to the end iff every listed file exists; otherwise it ends with `FileNotFoundError` for a listed file |
| BugScan.ScanEntryOrigin | bugs.py:170-175 | every task reads `fn: b` for a listed, decodable file `fn` and an entry `b` found in it |
| BugsTool.Tasks | bugs.py:173-175 | one `add_task` call per task |
| BugsTool.TasksAt | bugs.py:175 | the `i`-th call adds the `i`-th task |
| BugsTool.TasksAppend | bugs.py:170-175 | calls for two task lists come in order |
| BugsTool.UpdateReport | bugs.py:165-167 | an ignore file that does not decode ends `update` before any file is scanned |
| BugsTool.UpdateResult | bugs.py:162-165 | outside a repository `update` raises `TypeError` (`None + '/bugs'`) |
| BugsTool.UpdateSucceeds | bugs.py:162-184 | with decodable ignore files and every listed file present, `update` succeeds and its last call is `write(delete_if_empty=True)` |
| BugsTool.UpdateFailureNamesListedFile | bugs.py:170-181 | when `update` fails after the file list is built, it is `FileNotFoundError` for a listed file |
| BugsTool.UpdateTaskOrigin | bugs.py:170-175 | every task `update` adds reads `fn: b` for a listed file `fn` and an entry `b` found in it |
| BugsTool.AddTasks | bugs.py:173-175 | the inner loop adds `fn + ': ' + bug` for each bug, in order |
| BugsTool.TaskDict.constructor | bugs.py:103 | a fresh task list in the given directory under the name `bugs` |
| BugsTool.TaskDict.AddTask | bugs.py:175 | records one `add_task` call |
| BugsTool.TaskDict.Write | bugs.py:184 | records the `write` call |
| BugsTool.TaskDict.PrintList | bugs.py:207 | records the `print_list` call |
| BugsTool.Bugs.constructor | bugs.py:88-91 | the repository root is the walk's outcome from `pwd`, and there is no task list yet |
| BugsTool.Bugs.SynchronizeBugDict | bugs.py:93-103 | with `delete`, the bugs file at the root is unlinked (a missing one is not an error; no root raises `TypeError`); then a fresh, empty task list named `bugs` lives at the root |
| BugsTool.Bugs.Update | bugs.py:162-184 | the bugs file is unlinked; the fresh task list receives exactly `Tasks` of the scan's entries, then `write` when no exception ended the loop; undecodable files are warned about in order; the result is `UpdateResult` |
| BugsTool.Bugs.ScanFiles | bugs.py:170-181 | the file loop adds the scan's tasks, logs its warnings and ends as the scan does |
| BugsTool.Bugs.ScanNext | bugs.py:170-181 | one pass of the file loop advances the state from the scan of `files[..i]` to that of `files[..i + 1]` |
| BugsTool.Bugs.ProcessFile | bugs.py:171-181 | one file: its tasks are added, or it is warned about when undecodable, or its exception is handed back |
| BugsTool.Bugs.PrintBugs | bugs.py:202-207 | a fresh task list at the root receives the one call `print_list(quiet=True)` |
| BugsTool.BugTracker.constructor | bugs.py:35-37 | the tracker keeps the parsed sub-command and the `Bugs` object |
| BugsTool.BugTracker.Run | bugs.py:65-74 | `update` leaves the `Bugs` object as `Bugs.update` does (unlink, fresh task list holding the scan's tasks and the write, warnings; nothing changed outside a repository) and gives 0 unless it raises; `print` leaves a fresh task list at the root with one quiet print call, unlinks and warns about nothing, and gives 0; anything else prints the fatal message, changes nothing, and gives 1 |
| BugDao.Get | src/BugDAO.py:36 | a found value is stored under the key; no value means no entry has the key |
| BugDao.Put | src/BugDAO.py:36 | `config[k] = v` adds at most one entry and holds `(k, v)` afterwards |
| BugDao.PutKeepsOthers | src/BugDAO.py:36 | `config[k] = v` keeps every entry stored under another key |
| BugDao.Keys | src/BugDAO.py:45 | one key per entry of the configuration |
| BugDao.PutGet | src/BugDAO.py:36 | after `config[k] = v`, `k` maps to `v` and every other key keeps its value |
| BugDao.PutKeys | src/BugDAO.py:36 | `config[k] = v` keeps key order and adds a new key last |
| BugDao.PutKeysDistinct | src/BugDAO.py:36 | `config[k] = v` keeps every key unique |
| BugDao.PutAppendsNew | src/BugDAO.py:36 | for a new key, the entry is appended |
| BugDao.Serialized | src/BugDAO.py:42-47 | `key=value` per entry with nothing between entries, so at least one character per entry |
| BugDao.SerializedAppend | src/BugDAO.py:42-47 | the serialisation of `a + b` is that of `a` directly followed by that of `b`, with no separator |
| BugDao.SerializedEmptyIff | src/BugDAO.py:42-47 | only the empty configuration serialises to `''` |
| BugDao.SerializedPutNew | src/BugDAO.py:36-47 | a new key adds `key=value` at the end of the serialisation |
| BugDao.ApplyPairs | src/BugDAO.py:34-36 | the loop over the pieces ends normally or with `ValueError`, and the keys already present stay, in order |
| BugDao.ApplyPairsStops | src/BugDAO.py:34-36 | once a piece fails to unpack, the loop is over and later pieces change nothing |
| BugDao.ParsedConfig | src/BugDAO.py:32-36 | `parseConfig(s)` raises `IndexError` iff `s` is shorter than 3 characters; it raises nothing else but `ValueError`; present keys stay |
| BugDao.ParseConfigOutcome | src/BugDAO.py:32-36 | `parseConfig(s)` raises `IndexError` for fewer than 3 characters; it succeeds iff `s[2]` is `=`, storing key `''` with value `''`; otherwise it raises `ValueError` with the configuration untouched |
| BugDao.ReadOutcome | src/BugDAO.py:49-60 | `readBugFile` returns the lines after the first, or raises (`FileNotFoundError`, `UnicodeDecodeError`, `IndexError`, `ValueError`) with the configuration left as it was |
| BugDao.ReadBugFileIff | src/BugDAO.py:49-60 | reading succeeds iff the first line starts `#` and has `=` third; the configuration then gains `'' = ''` and the bugs are all the other lines; a first line not starting `#` raises `ValueError` |
| BugDao.Printed | src/BugDAO.py:62-65 | `print(line, file=...)` per bug: each bug followed by a newline, in order; its properties are stated by `PrintedEndsInNewline`, `PrintedAppend` and `PrintedLines` |
| BugDao.PrintedEndsInNewline | src/BugDAO.py:62-65 | the output is empty iff there are no bugs, and otherwise ends with a newline |
| BugDao.PrintedAppend | src/BugDAO.py:62-65 | one more bug prints one more line |
| BugDao.BugLines | src/BugDAO.py:64-65 | one printed line per bug |
| BugDao.BugLinesCons | src/BugDAO.py:64-65 | the first bug's line, then the others' |
| BugDao.PrintedLines | src/BugDAO.py:62-65 | newline-free bugs, printed and read back with `readlines`, give one line per bug, each with its newline |
| BugDao.WrittenText | src/BugDAO.py:67-71 | what `write` puts in the file starts with `# ` |
| BugDao.WrittenHeaderPasses | src/BugDAO.py:56-70 | what `write` writes passes the `#` header check of `readBugFile` |
| BugDao.WrittenTextSplit | src/BugDAO.py:67-71 | the header and the first bug come before the first newline of the written text |
| BugDao.WrittenLines | src/BugDAO.py:67-71 | read back with `readlines`, the header and the first bug share the first line; each later bug is a line of its own |
| BugDao.WriteThenRead | src/BugDAO.py:49-71 | reading back what `write` wrote succeeds iff the third character of the shared first line is `=`, and then yields only the bugs after the first |
| BugDao.BugDao.constructor | src/BugDAO.py:22-25 | the file name is stored and the configuration and bug list start empty |
| BugDao.BugDao.AddBug | src/BugDAO.py:28-30 | the bug goes at the end of the list; the configuration is unchanged |
| BugDao.BugDao.ParseConfig | src/BugDAO.py:32-36 | the loop leaves the configuration and result `ParsedConfig` gives, keeps the keys distinct, and leaves the bugs alone |
| BugDao.BugDao.SerializeConfig | src/BugDAO.py:42-47 | the loop builds `Serialized(config)` |
| BugDao.BugDao.ReadBugFile | src/BugDAO.py:49-60 | the configuration and result are those `ReadOutcome` gives for the file as read |
| BugDao.BugDao.PrintBugs | src/BugDAO.py:62-65 | the output is each bug followed by a newline, in order |
| BugDao.BugDao.Write | src/BugDAO.py:67-71 | the output is `'# '`, the serialised configuration, then the printed bugs |
| BugDao.Open | src/BugDAO.py:22-26 | a new object succeeds iff reading the file from an empty configuration succeeds; its configuration (distinct keys) and bugs are what reading gives |
| FileTreeNode.GetName | src/BugFileTreeNode.py:28-30 | the name is the part of the stored path after its last separator |
| FileTreeNode.RootDirectory | src/BugFileTreeNode.py:58-60 | the root directory is the prefix of the absolute path up to its first separator |
| FileTreeNode.GetParent | src/BugFileTreeNode.py:50-56 | as written, `None` only for a stored path holding no separator that is a prefix of its absolute form; `FileTreeNode.ParentNeverNone` shows that no absolute POSIX path is one |
| FileTreeNode.NameIsLastComponent | src/BugFileTreeNode.py:28-30 | the name is the last separator-delimited piece of the path |
| FileTreeNode.ParentDropsLastComponent | src/BugFileTreeNode.py:55-56 | the parent path has the path's pieces but the last (one fewer, before `abspath`); parent path, separator and name give the path back |
| FileTreeNode.GetChildren | src/BugFileTreeNode.py:41-48 | no children for a non-directory; otherwise one node per listing entry, in listing order, at `path + sep + name` |
| FileTreeNode.ChildParent | src/BugFileTreeNode.py:41-56 | a listed child has the entry as its name and the listing node as its parent (when `abspath` leaves both paths as they are) |
| FileTreeNode.RootDirectoryIsEmpty | src/BugFileTreeNode.py:58-60 | for an absolute POSIX path, the root directory is `''` |
| FileTreeNode.ParentNeverNone | src/BugFileTreeNode.py:50-56 | as written, `getParent` never returns `None` for an absolute POSIX path |
| FileTreeNode.RootParentIsWorkingDir | src/BugFileTreeNode.py:50-56 | as written, the parent of `/` is the node of `''`, whose absolute form is the working directory |
| FileTreeNode.TopLevelParentIsWorkingDir | src/BugFileTreeNode.py:50-56 | as written, the parent of a top-level entry `/name` is the node of `''` too, not `/` |
| FileTreeNode.ParentIntendedShrinks | src/BugFileTreeNode.py:50-56 | corrected, only `/` has no parent, and any other absolute path has an absolute parent that is a strictly shorter prefix of it |
| FileTreeNode.GetParentIntendedNoneIff | src/BugFileTreeNode.py:50-56 | corrected, `getParent` returns `None` exactly at `/` |
| FileTreeNode.RootwardWalk | src/BugFileTreeNode.py:50-56 | corrected, following parents from an absolute path ends at `/`, each step a strictly shorter prefix |
| Text.IsSubstring | bugs.py:155 | `regex in filename`: a substring is no longer than the string |
| Text.IsSubstringAt | bugs.py:155 | `regex in filename` holds iff `regex` is the slice of `filename` at some position |
| Text.Split | src/BugFileTreeNode.py:56 | `s.split(sep)` gives at least one piece, and no piece holds the separator |
| Text.JoinSplit | src/BugFileTreeNode.py:56 | `sep.join(s.split(sep)) == s` |
| Text.SplitJoin | src/BugFileTreeNode.py:56 | splitting a join of separator-free pieces gives the pieces back |
| Text.SplitFirstPrefix | src/BugFileTreeNode.py:60 | `s.split(sep)[0]` is the prefix of `s` up to its first separator |
| Text.RStrip | bugs.py:126 | `rstrip('\n')` keeps the longest prefix not ending in a newline and drops only newlines |
| Text.Lines | bugs.py:191 | `readlines` gives non-empty lines that concatenate back to the text |
| Text.LinesCons | src/BugDAO.py:55 | `readlines` of a newline-free line, a newline and more text gives that line, then the lines of the rest |
| Os.PurePathStr | bugs.py:111-117 | `str(Path(s))` is never empty, and keeps the leading separator of an absolute path |
| Os.PathParts | bugs.py:116 | `pathlib` keeps only the non-empty components other than `.` |
| Os.Basename | src/BugFileTreeNode.py:30 | `basename` is a separator-free suffix that follows a separator or is the whole path |

## Left out

- Argument parsing (`BugTracker.parseArgs`, bugs.py:40-63) and colour output (colorama): `BugTracker` takes the parsed sub-command as an `Option<string>`.
- The `t.TaskDict` library is not part of this model. `BugsTool.TaskDict` records the calls made on it (`add_task`, `write`, `print_list`) and nothing of what they do on disk.
- Printing to stderr and stdout is kept as data: the `warnings` log of `Bugs`, the `message` result of `BugTracker.Run`, and the output string of `BugDao.BugDao.PrintBugs` and `Write`.
- The disk does not change inside the model. `os.unlink` is recorded in `Bugs.unlinked`, and `BugDAO.write` returns the text it would write. Reads after these effects see the same `FileSystem` value.
- `os.path.abspath`, `is_dir`, `readlines` decoding, `glob` and `os.listdir` are oracles. `str(Path(...))` normalisation and `basename` are written out for POSIX paths only. Windows separators and drive letters are not modelled.
- `readlines` is modelled on text already decoded with `\n` line ends. Universal-newline translation of `\r\n` and `\r` is not modelled.
- Exceptions other than the ones the source names or provokes (`PermissionError`, `IsADirectoryError`, I/O errors) are not modelled. Only `FileNotFoundError`, `UnicodeDecodeError`, `TypeError`, `IndexError` and `ValueError` are.
- RepositoryRoot.FindRepositoryRoot: requires `ReachesRoot` (some candidate's absolute form is the filesystem root). On a real filesystem, going up with `..` always gets there; the oracle `abspath` does not promise it.
- `BugFileTreeNode.getContainingFileTree`, `BugDAO.makeDefaultConfig`, `src/BugFileTree.py`, `src/FilesystemDriver.py`, the interface and exception classes, `src/GitRepository.py` and `src/RepositoryFactory.py` are not part of this model. They either do not run as written or hold no logic.
- `BugFileTreeNode.__init__` and `getPath` are the definitions `FileTreeNode.Create` and `FileTreeNode.GetPath`. They store and return `abspath(path)` and carry no contract of their own; `GetChildren` and `ChildParent` state what the constructor is used for.
- There is no write-then-read round trip for the DAO, because the source does not have one. `BugDao.WriteThenRead` states what reading back actually gives.

## Findings

| source | as written | input that shows it | evidently intended | confidence | as-written member | corrected member |
|---|---|---|---|---|---|---|
| src/BugFileTreeNode.py:50-60 | `_getRootDirectory` is `abspath(path).split(sep)[0]`, which is `''` for every absolute POSIX path, so `getParent` never returns `None`; for the node `/` it returns the node of `''`, which `abspath` turns into the working directory; a top-level entry `/name` gets that node as its parent too | the node at `/` (or at `/usr`) | the root `/` has no parent; any other path's parent is its path without the last component (`/` for a top-level entry), so walking up ends at `/` | high, not executed | FileTreeNode.RootParentIsWorkingDir | FileTreeNode.RootwardWalk |
