/** `Bugs.getBugs` and the scan `Bugs.update` runs over the file list:
    one entry per matching line, `fn + ': ' + bug`, file after file,
    undecodable files skipped with a warning. */
module BugScan {
  import opened Wrappers
  import opened Os
  import opened TodoPattern

  /** The values `f` finds in `lines`, at most one per line, in line order. */
  function Present(f: string -> Option<string>, lines: seq<string>): (found: seq<string>)
    ensures |found| <= |lines|
    decreases |lines|
  {
    if lines == [] then []
    else
      var rest := Present(f, lines[..|lines| - 1]);
      match f(lines[|lines| - 1])
      case None => rest
      case Some(b) => rest + [b]
  }

  lemma {:induction false} PresentAppend(f: string -> Option<string>, a: seq<string>, b: seq<string>)
    ensures Present(f, a + b) == Present(f, a) + Present(f, b)
    decreases |b|
  {
    if b == [] {
      assert a + b == a;
    } else {
      var b' := b[..|b| - 1];
      assert (a + b)[..|a + b| - 1] == a + b';
      assert (a + b)[|a + b| - 1] == b[|b| - 1];
      PresentAppend(f, a, b');
    }
  }

  /** One more line of a prefix. */
  lemma PresentSnoc(f: string -> Option<string>, lines: seq<string>, i: nat)
    requires i < |lines|
    ensures Present(f, lines[..i + 1]) ==
      Present(f, lines[..i]) + match f(lines[i]) case None => [] case Some(b) => [b]
  {
    assert lines[..i + 1][..i] == lines[..i];
  }

  lemma {:induction false} PresentFrom(f: string -> Option<string>, lines: seq<string>, b: string)
    requires b in Present(f, lines)
    ensures exists l | l in lines :: f(l) == Some(b)
    decreases |lines|
  {
    var init := lines[..|lines| - 1];
    var last := lines[|lines| - 1];
    if b in Present(f, init) {
      PresentFrom(f, init, b);
      var l :| l in init && f(l) == Some(b);
      assert l in lines;
    } else {
      assert f(last) == Some(b) && last in lines;
    }
  }

  lemma {:induction false} PresentHas(f: string -> Option<string>, lines: seq<string>, l: string, b: string)
    requires l in lines && f(l) == Some(b)
    ensures b in Present(f, lines)
    decreases |lines|
  {
    var init := lines[..|lines| - 1];
    var last := lines[|lines| - 1];
    assert lines == init + [last];
    if l != last {
      assert l in init;
      PresentHas(f, init, l, b);
    }
  }

  /** The bugs of a file's lines: at most one per line, in line order,
      none holding a newline. */
  function BugsIn(lines: seq<string>): (bugs: seq<string>)
    ensures |bugs| <= |lines|
  {
    Present(LineBug, lines)
  }

  /** No recorded bug holds a newline. */
  lemma BugsInNoNewline(lines: seq<string>, b: string)
    requires b in BugsIn(lines)
    ensures '\n' !in b
  {
    PresentFrom(LineBug, lines, b);
  }

  /** The bugs of two stretches of lines are those of the whole, in order. */
  lemma BugsInAppend(a: seq<string>, b: seq<string>)
    ensures BugsIn(a + b) == BugsIn(a) + BugsIn(b)
  {
    PresentAppend(LineBug, a, b);
  }

  /** A single line yields its bug, if any. */
  lemma BugsInOne(line: string)
    ensures BugsIn([line]) == match LineBug(line) case None => [] case Some(b) => [b]
  {
    assert [line][..0] == [];
  }

  /** Every recorded bug comes from some line of the file. */
  lemma BugsInFromLines(lines: seq<string>, b: string)
    requires b in BugsIn(lines)
    ensures exists l | l in lines :: LineBug(l) == Some(b)
  {
    PresentFrom(LineBug, lines, b);
  }

  /** Every line that yields a bug has it recorded. */
  lemma LineBugRecorded(lines: seq<string>, l: string, b: string)
    requires l in lines && LineBug(l) == Some(b)
    ensures b in BugsIn(lines)
  {
    PresentHas(LineBug, lines, l, b);
  }

  /** What `getBugs(fn)` gives: the file's bugs, or the error opening or
      decoding it raises. */
  function FileBugs(fs: FileSystem, fn: string): (r: Result<seq<string>>)
    ensures r.Ok? <==> fs.read(fn).Decoded?
    ensures r.Ok? ==> r.value == BugsIn(fs.read(fn).lines)
    ensures fs.read(fn).Missing? ==> r == Raise(FileNotFoundError(fn))
    ensures fs.read(fn).Undecodable? ==> r == Raise(UnicodeDecodeError(fn))
  {
    match fs.read(fn)
    case Missing => Raise(FileNotFoundError(fn))
    case Undecodable => Raise(UnicodeDecodeError(fn))
    case Decoded(lines) => Ok(BugsIn(lines))
  }

  // `getBugs`: search each line once and keep group 3, less a trailing
  // space-star-slash when the leader opened a block comment.
  method GetBugs(fs: FileSystem, fileName: string) returns (r: Result<seq<string>>)
    ensures r == FileBugs(fs, fileName)
  {
    var input := fs.read(fileName);
    if input.Missing? {
      return Raise(FileNotFoundError(fileName));
    } else if input.Undecodable? {
      return Raise(UnicodeDecodeError(fileName));
    }
    var lines := input.lines;
    var bugs: seq<string> := [];
    var i := 0;
    while i < |lines|
      invariant 0 <= i <= |lines|
      invariant bugs == Present(LineBug, lines[..i])
    {
      var line := lines[i];
      PresentSnoc(LineBug, lines, i);
      var bug := TodoSearch(line);
      if bug.Some? {
        bugs := bugs + [BugText(bug.value)];
      }
      i := i + 1;
    }
    assert lines[..i] == lines;
    return Ok(bugs);
  }

  /** The tasks `update` adds for the bugs of file `fn`: `fn + ': ' + bug`
      each, in order. */
  function Entries(fn: string, bugs: seq<string>): (entries: seq<string>)
    ensures |entries| == |bugs|
  {
    seq(|bugs|, i requires 0 <= i < |bugs| => fn + ": " + bugs[i])
  }

  /** The file name and the bug can be read back off each entry. */
  lemma EntriesAt(fn: string, bugs: seq<string>, i: nat)
    requires i < |bugs|
    ensures var e := Entries(fn, bugs)[i];
      |e| == |fn| + 2 + |bugs[i]| && e[..|fn| + 2] == fn + ": " && e[|fn| + 2..] == bugs[i]
  {
    var e := Entries(fn, bugs)[i];
    assert e == fn + ": " + bugs[i];
    assert e[|fn| + 2..] == bugs[i];
  }

  /** Where the loop of `update` is after some files: the tasks added, the
      files warned about, and the exception that ended it, if any. */
  datatype ScanReport = ScanReport(entries: seq<string>, warnings: seq<string>, failure: Option<PyError>)

  /** What one file contributes: its entries; a warning and nothing else
      when it does not decode; the error that ends the loop otherwise. */
  function FileOutcome(fs: FileSystem, fn: string): (o: ScanReport)
    ensures o.failure.Some? <==> fs.read(fn).Missing?
    ensures o.warnings == if fs.read(fn).Undecodable? then [fn] else []
    ensures o.entries != [] ==> fs.read(fn).Decoded?
  {
    match fs.read(fn)
    case Missing => ScanReport([], [], Some(FileNotFoundError(fn)))
    case Undecodable => ScanReport([], [fn], None)
    case Decoded(lines) => ScanReport(Entries(fn, BugsIn(lines)), [], None)
  }

  /** Report `a` followed by report `b`, `a` not having stopped the loop. */
  function Then(a: ScanReport, b: ScanReport): ScanReport {
    ScanReport(a.entries + b.entries, a.warnings + b.warnings, b.failure)
  }

  /** The loop of `update` over `files`, stopping at the first error that
      is not a decoding error. */
  function Scan(fs: FileSystem, files: seq<string>): (rep: ScanReport)
    ensures |rep.warnings| <= |files|
    decreases |files|
  {
    if files == [] then ScanReport([], [], None)
    else
      var rep := Scan(fs, files[..|files| - 1]);
      if rep.failure.Some? then rep else Then(rep, FileOutcome(fs, files[|files| - 1]))
  }

  /** Every warning names a listed file that does not decode. */
  lemma {:induction false} ScanWarnings(fs: FileSystem, files: seq<string>, w: string)
    requires w in Scan(fs, files).warnings
    ensures w in files && fs.read(w).Undecodable?
    decreases |files|
  {
    var init := files[..|files| - 1];
    var rep := Scan(fs, init);
    if w in rep.warnings {
      ScanWarnings(fs, init, w);
      assert files == init + [files[|files| - 1]];
    }
  }

  /** One more file of the list, while the loop is still running. */
  lemma ScanPrefixStep(fs: FileSystem, files: seq<string>, i: nat)
    requires i < |files| && Scan(fs, files[..i]).failure.None?
    ensures Scan(fs, files[..i + 1]) == Then(Scan(fs, files[..i]), FileOutcome(fs, files[i]))
  {
    assert files[..i + 1][..i] == files[..i];
  }

  /** One file on its own: its entries, or a warning, or the error it raises. */
  lemma ScanOne(fs: FileSystem, fn: string)
    ensures Scan(fs, [fn]) == FileOutcome(fs, fn)
    ensures fs.read(fn).Decoded? ==>
      Scan(fs, [fn]) == ScanReport(Entries(fn, BugsIn(fs.read(fn).lines)), [], None)
    ensures fs.read(fn).Undecodable? ==> Scan(fs, [fn]) == ScanReport([], [fn], None)
    ensures fs.read(fn).Missing? ==> Scan(fs, [fn]) == ScanReport([], [], Some(FileNotFoundError(fn)))
  {
    assert [fn][..0] == [];
    var o := FileOutcome(fs, fn);
    assert [] + o.entries == o.entries && [] + o.warnings == o.warnings;
  }

  /** After an error the loop is over: later files change nothing. */
  lemma {:induction false} ScanStopsAtFailure(fs: FileSystem, a: seq<string>, b: seq<string>)
    requires Scan(fs, a).failure.Some?
    ensures Scan(fs, a + b) == Scan(fs, a)
    decreases |b|
  {
    if b == [] {
      assert a + b == a;
    } else {
      var b' := b[..|b| - 1];
      assert (a + b)[..|a + b| - 1] == a + b';
      ScanStopsAtFailure(fs, a, b');
    }
  }

  /** A prefix of the list that ended with an exception decides the whole scan. */
  lemma ScanPrefixFailed(fs: FileSystem, files: seq<string>, i: nat)
    requires i <= |files| && Scan(fs, files[..i]).failure.Some?
    ensures Scan(fs, files) == Scan(fs, files[..i])
  {
    assert files == files[..i] + files[i..];
    ScanStopsAtFailure(fs, files[..i], files[i..]);
  }

  /** Reports chain associatively. */
  lemma ThenAssoc(p: ScanReport, q: ScanReport, r: ScanReport)
    ensures Then(Then(p, q), r) == Then(p, Then(q, r))
  {
    assert p.entries + q.entries + r.entries == p.entries + (q.entries + r.entries);
    assert p.warnings + q.warnings + r.warnings == p.warnings + (q.warnings + r.warnings);
  }

  /** Without an error in `a`, scanning `a + b` is scanning `a` and then
      `b`: entries and warnings come file after file. */
  lemma {:induction false} ScanAppend(fs: FileSystem, a: seq<string>, b: seq<string>)
    requires Scan(fs, a).failure.None?
    ensures Scan(fs, a + b) == Then(Scan(fs, a), Scan(fs, b))
    decreases |b|
  {
    var ra := Scan(fs, a);
    if b == [] {
      assert a + b == a;
      assert ra.entries + [] == ra.entries && ra.warnings + [] == ra.warnings;
    } else {
      var b' := b[..|b| - 1];
      var x := b[|b| - 1];
      assert (a + b)[..|a + b| - 1] == a + b';
      assert (a + b)[|a + b| - 1] == x;
      ScanAppend(fs, a, b');
      var rb' := Scan(fs, b');
      if rb'.failure.None? {
        ThenAssoc(ra, rb', FileOutcome(fs, x));
      }
    }
  }

  /** An undecodable file after a running scan only adds its warning. */
  lemma UndecodableWarned(fs: FileSystem, a: seq<string>, u: string)
    requires fs.read(u).Undecodable? && Scan(fs, a).failure.None?
    ensures Scan(fs, a + [u]) == ScanReport(Scan(fs, a).entries, Scan(fs, a).warnings + [u], None)
  {
    var ra := Scan(fs, a);
    assert (a + [u])[..|a|] == a;
    assert FileOutcome(fs, u) == ScanReport([], [u], None);
    assert ra.entries + [] == ra.entries;
  }

  /** An undecodable file adds no task and does not stop the loop: the
      tasks and the outcome are those of the scan without it. */
  lemma UndecodableSkipped(fs: FileSystem, a: seq<string>, u: string, b: seq<string>)
    requires fs.read(u).Undecodable?
    ensures Scan(fs, a + [u] + b).entries == Scan(fs, a + b).entries
    ensures Scan(fs, a + [u] + b).failure == Scan(fs, a + b).failure
  {
    if Scan(fs, a).failure.Some? {
      ScanStopsAtFailure(fs, a, [u] + b);
      ScanStopsAtFailure(fs, a, b);
      assert a + [u] + b == a + ([u] + b);
    } else {
      UndecodableSkippedRunning(fs, a, u, b);
    }
  }

  lemma UndecodableSkippedRunning(fs: FileSystem, a: seq<string>, u: string, b: seq<string>)
    requires fs.read(u).Undecodable? && Scan(fs, a).failure.None?
    ensures Scan(fs, a + [u] + b).entries == Scan(fs, a + b).entries
    ensures Scan(fs, a + [u] + b).failure == Scan(fs, a + b).failure
  {
    var rb := Scan(fs, b);
    UndecodableWarned(fs, a, u);
    ScanAppend(fs, a + [u], b);
    ScanAppend(fs, a, b);
    assert Scan(fs, a + [u] + b) == Then(Scan(fs, a + [u]), rb);
    assert Scan(fs, a + b) == Then(Scan(fs, a), rb);
  }

  /** The loop only stops early at a file it cannot open: it runs to the end
      exactly when every file of the list exists. */
  lemma {:induction false} ScanCompletesIff(fs: FileSystem, files: seq<string>)
    ensures Scan(fs, files).failure.None? <==> forall fn | fn in files :: !fs.read(fn).Missing?
    ensures Scan(fs, files).failure.Some? ==> exists fn | fn in files :: Scan(fs, files).failure == Some(FileNotFoundError(fn))
    decreases |files|
  {
    if files != [] {
      var init := files[..|files| - 1];
      var last := files[|files| - 1];
      ScanCompletesIff(fs, init);
      assert files == init + [last];
      if Scan(fs, init).failure.Some? {
        var fn :| fn in init && Scan(fs, init).failure == Some(FileNotFoundError(fn));
        assert fn in files;
        var bad :| bad in init && fs.read(bad).Missing?;
        assert bad in files;
      } else if fs.read(last).Missing? {
        assert last in files;
      } else {
        forall fn | fn in files ensures !fs.read(fn).Missing? {
          if fn != last {
            assert fn in init;
          }
        }
      }
    }
  }

  /** Every task the loop adds names a listed, decodable file and one of the
      bugs found in it. */
  lemma {:induction false} ScanEntryOrigin(fs: FileSystem, files: seq<string>, e: string)
    requires e in Scan(fs, files).entries
    ensures exists fn | fn in files ::
      fs.read(fn).Decoded? && exists b | b in BugsIn(fs.read(fn).lines) :: e == fn + ": " + b
    decreases |files|
  {
    var init := files[..|files| - 1];
    var last := files[|files| - 1];
    assert files == init + [last];
    var rep := Scan(fs, init);
    if e in rep.entries {
      ScanEntryOrigin(fs, init, e);
      var fn :| fn in init &&
        fs.read(fn).Decoded? && exists b | b in BugsIn(fs.read(fn).lines) :: e == fn + ": " + b;
      assert fn in files;
    } else {
      var o := FileOutcome(fs, last);
      assert Scan(fs, files) == Then(rep, o);
      assert e in o.entries;
      var bugs := BugsIn(fs.read(last).lines);
      assert o.entries == Entries(last, bugs);
      var i :| 0 <= i < |bugs| && Entries(last, bugs)[i] == e;
      assert e == last + ": " + bugs[i] && bugs[i] in bugs;
      assert last in files;
    }
  }
}
