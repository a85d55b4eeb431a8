/** `Bugs.readIgnoreFile` and the specification of `Bugs.buildFileList`:
    the ignore rules, the reject list they expand to, and the walked paths
    that survive it. The method itself lives with the `Bugs` class. */
module FileWalk {
  import opened Wrappers
  import opened Text
  import opened Os

  /** The rules of an ignore file: each line without its trailing newlines,
      exactly-empty ones dropped, in file order. */
  function IgnoreRules(lines: seq<string>): (rules: seq<string>)
    ensures |rules| <= |lines|
    ensures forall r | r in rules :: r != [] && r[|r| - 1] != '\n'
    decreases |lines|
  {
    if lines == [] then []
    else
      var r := RStrip(lines[0], '\n');
      (if r == [] then [] else [r]) + IgnoreRules(lines[1..])
  }

  /** The rules of two stretches of a file are the rules of the whole, in order. */
  lemma {:induction false} IgnoreRulesAppend(a: seq<string>, b: seq<string>)
    ensures IgnoreRules(a + b) == IgnoreRules(a) + IgnoreRules(b)
    decreases |a|
  {
    if a != [] {
      assert (a + b)[0] == a[0];
      assert (a + b)[1..] == a[1..] + b;
      IgnoreRulesAppend(a[1..], b);
    } else {
      assert a + b == b;
    }
  }

  /** A rule is exactly a line of the file with its newlines stripped that
      is not empty; a line of blanks is a rule. */
  lemma {:induction false} IgnoreRulesMembers(lines: seq<string>, r: string)
    ensures r in IgnoreRules(lines) <==> r != [] && exists l | l in lines :: RStrip(l, '\n') == r
    decreases |lines|
  {
    if lines != [] {
      var h := RStrip(lines[0], '\n');
      var tail := lines[1..];
      IgnoreRulesMembers(tail, r);
      assert IgnoreRules(lines) == (if h == [] then [] else [h]) + IgnoreRules(tail);
      if r in IgnoreRules(lines) {
        if r in IgnoreRules(tail) {
          var l :| l in tail && RStrip(l, '\n') == r;
          assert l in lines;
        } else {
          assert r == h && lines[0] in lines;
        }
      }
      if r != [] && exists l | l in lines :: RStrip(l, '\n') == r {
        var l :| l in lines && RStrip(l, '\n') == r;
        if l != lines[0] {
          assert l in tail;
        }
      }
    }
  }

  /** A line of blanks is kept as a rule (only `''` is filtered out). */
  lemma BlankLineIsRule(spaces: string)
    requires spaces != [] && forall i | 0 <= i < |spaces| :: spaces[i] == ' '
    ensures IgnoreRules([spaces + "\n"]) == [spaces]
  {
    var l := spaces + "\n";
    assert RStrip(l, '\n') == RStrip(spaces, '\n');
    assert RStrip(spaces, '\n') == spaces;
    assert IgnoreRules([l]) == [RStrip(l, '\n')] + IgnoreRules([]);
  }

  /** `readIgnoreFile(path)`: `None` for a missing file, the rules otherwise;
      a file that does not decode raises out of it. */
  function ReadIgnoreFile(fs: FileSystem, path: string): (r: Result<Option<seq<string>>>)
    ensures r == Ok(None) <==> fs.read(path).Missing?
    ensures r.Raise? <==> fs.read(path).Undecodable?
    ensures r.Ok? && r.value.Some? ==> fs.read(path).Decoded? && r.value.value == IgnoreRules(fs.read(path).lines)
  {
    match fs.read(path)
    case Missing => Ok(None)
    case Undecodable => Raise(UnicodeDecodeError(path))
    case Decoded(lines) => Ok(Some(IgnoreRules(lines)))
  }

  /** The two entries rejected without any ignore file. */
  const BuiltinRejects: seq<string> := [".git/", "~"]

  // The pattern a rule holding a star is expanded with: the rule after
  // the recursive prefix `./**/`, given to `glob(..., recursive=True)`.
  function RulePattern(rule: string): string {
    "./**/" + rule
  }

  /** What one rule adds to the reject list. */
  function ExpandRule(fs: FileSystem, rule: string): (entries: seq<string>)
    ensures '*' !in rule ==> entries == [rule]
    ensures '*' in rule ==> entries == fs.glob(RulePattern(rule))
  {
    if '*' in rule then fs.glob(RulePattern(rule)) else [rule]
  }

  /** What a list of rules adds to the reject list, rule after rule. */
  function ExpandRules(fs: FileSystem, rules: seq<string>): seq<string>
    decreases |rules|
  {
    if rules == [] then []
    else ExpandRules(fs, rules[..|rules| - 1]) + ExpandRule(fs, rules[|rules| - 1])
  }

  /** Expanding two lists of rules expands each, in order. */
  lemma {:induction false} ExpandRulesAppend(fs: FileSystem, a: seq<string>, b: seq<string>)
    ensures ExpandRules(fs, a + b) == ExpandRules(fs, a) + ExpandRules(fs, b)
    decreases |b|
  {
    if b == [] {
      assert a + b == a;
    } else {
      var b' := b[..|b| - 1];
      assert (a + b)[..|a + b| - 1] == a + b';
      assert (a + b)[|a + b| - 1] == b[|b| - 1];
      ExpandRulesAppend(fs, a, b');
    }
  }

  /** Rules without `*` go to the reject list as they are: each such rule
      is an entry, and a list of them is its own expansion. */
  lemma {:induction false} ExpandRulesPlain(fs: FileSystem, rules: seq<string>)
    ensures forall r | r in rules && '*' !in r :: r in ExpandRules(fs, rules)
    ensures (forall r | r in rules :: '*' !in r) ==> ExpandRules(fs, rules) == rules
    decreases |rules|
  {
    if rules != [] {
      var init := rules[..|rules| - 1];
      var last := rules[|rules| - 1];
      ExpandRulesPlain(fs, init);
      assert rules == init + [last];
      forall r | r in rules && '*' !in r ensures r in ExpandRules(fs, rules) {
        if r != last {
          assert r in init;
        }
      }
    }
  }

  /** An entry comes from the rules exactly when some rule expands to it:
      a rule without `*` is its own entry. */
  lemma {:induction false} ExpandRulesMembers(fs: FileSystem, rules: seq<string>, x: string)
    ensures x in ExpandRules(fs, rules) <==> exists r | r in rules :: x in ExpandRule(fs, r)
    decreases |rules|
  {
    if rules != [] {
      var init := rules[..|rules| - 1];
      var last := rules[|rules| - 1];
      ExpandRulesMembers(fs, init, x);
      assert rules == init + [last];
      if x in ExpandRule(fs, last) {
        assert last in rules;
      } else if exists r | r in rules :: x in ExpandRule(fs, r) {
        var r :| r in rules && x in ExpandRule(fs, r);
        assert r in init;
      }
    }
  }

  /** The reject list: the built-ins, then the entries from the `.bignore`
      rules, then those from the `.gitignore` rules. */
  function RejectList(fs: FileSystem, bignore: seq<string>, gitignore: seq<string>): (reject: seq<string>)
    ensures |reject| >= 2 && reject[..2] == BuiltinRejects
    ensures reject == BuiltinRejects + ExpandRules(fs, bignore) + ExpandRules(fs, gitignore)
  {
    ExpandRulesAppend(fs, bignore, gitignore);
    BuiltinRejects + ExpandRules(fs, bignore + gitignore)
  }

  /** One reject entry throws `f` out: the entry occurs in it, equals it,
      or `f` is a directory (the test sits inside the loop over entries). */
  predicate Hit(fs: FileSystem, entry: string, f: string) {
    IsSubstring(entry, f) || entry == f || fs.isDir(f)
  }

  /** The walk keeps `f`: no entry of the reject list throws it out. */
  predicate Admitted(fs: FileSystem, reject: seq<string>, f: string) {
    forall e | e in reject :: !Hit(fs, e, f)
  }

  /** With a non-empty reject list, a path is kept exactly when it is not a
      directory and no entry occurs in it (equality being one occurrence). */
  lemma AdmittedIff(fs: FileSystem, reject: seq<string>, f: string)
    requires reject != []
    ensures Admitted(fs, reject, f) <==> !fs.isDir(f) && forall e | e in reject :: !IsSubstring(e, f)
  {
    assert reject[0] in reject;
    forall e | e in reject && e == f ensures IsSubstring(e, f) {
      SubstringOfItself(f);
    }
  }

  /** The walked paths the filter keeps, in walk order. */
  function ValidPaths(fs: FileSystem, reject: seq<string>, walk: seq<string>): (valid: seq<string>)
    ensures |valid| <= |walk|
    decreases |walk|
  {
    if walk == [] then []
    else
      var f := walk[|walk| - 1];
      ValidPaths(fs, reject, walk[..|walk| - 1]) + (if Admitted(fs, reject, f) then [f] else [])
  }

  /** A path is kept exactly when it was walked and admitted. */
  lemma {:induction false} ValidPathsMembers(fs: FileSystem, reject: seq<string>, walk: seq<string>, f: string)
    ensures f in ValidPaths(fs, reject, walk) <==> f in walk && Admitted(fs, reject, f)
    decreases |walk|
  {
    if walk != [] {
      var init := walk[..|walk| - 1];
      ValidPathsMembers(fs, reject, init, f);
      assert walk == init + [walk[|walk| - 1]];
    }
  }

  /** `a` is `b` with some elements left out, the rest in the same order. */
  predicate Subsequence<T(==)>(a: seq<T>, b: seq<T>)
    decreases |b|
  {
    a == [] ||
    (b != [] &&
      ((a[|a| - 1] == b[|b| - 1] && Subsequence(a[..|a| - 1], b[..|b| - 1])) ||
        Subsequence(a, b[..|b| - 1])))
  }

  /** The kept paths are the walk with some paths left out, order preserved. */
  lemma {:induction false} ValidPathsSubsequence(fs: FileSystem, reject: seq<string>, walk: seq<string>)
    ensures Subsequence(ValidPaths(fs, reject, walk), walk)
    decreases |walk|
  {
    if walk != [] {
      var init := walk[..|walk| - 1];
      var f := walk[|walk| - 1];
      var v := ValidPaths(fs, reject, init);
      ValidPathsSubsequence(fs, reject, init);
      assert walk[..|walk| - 1] == init;
      if Admitted(fs, reject, f) {
        var vf := v + [f];
        assert ValidPaths(fs, reject, walk) == vf;
        assert vf[..|vf| - 1] == v && vf[|vf| - 1] == f;
      } else {
        assert ValidPaths(fs, reject, walk) == v;
      }
    }
  }

  /** The filter never keeps a path holding `~` or `.git/`: both are
      built-in reject entries. */
  lemma BuiltinsDropped(fs: FileSystem, bignore: seq<string>, gitignore: seq<string>, walk: seq<string>, f: string)
    requires f in ValidPaths(fs, RejectList(fs, bignore, gitignore), walk)
    ensures '~' !in f
    ensures !IsSubstring(".git/", f)
  {
    var reject := RejectList(fs, bignore, gitignore);
    ValidPathsMembers(fs, reject, walk, f);
    assert reject[0] == ".git/" && reject[1] == "~";
    assert "~" in reject && ".git/" in reject;
    assert !Hit(fs, "~", f) && !Hit(fs, ".git/", f);
    if '~' in f {
      CharIsSubstring('~', f);
    }
  }

  /** The filter never keeps a directory. */
  lemma DirectoriesDropped(fs: FileSystem, bignore: seq<string>, gitignore: seq<string>, walk: seq<string>, f: string)
    requires f in ValidPaths(fs, RejectList(fs, bignore, gitignore), walk)
    ensures !fs.isDir(f)
  {
    var reject := RejectList(fs, bignore, gitignore);
    ValidPathsMembers(fs, reject, walk, f);
    assert reject[0] in reject;
  }

  // The pattern of the repository walk, given to `glob(..., recursive=True)`.
  const WalkPattern: string := "./**/*"

  /** What `buildFileList` returns for repository root `gitDir`: `None`
      for `gitDir` raises `TypeError` before anything is read, an ignore
      file that does not decode raises, and otherwise the kept paths of
      the walk. */
  function FileList(fs: FileSystem, gitDir: Option<string>): (r: Result<seq<string>>)
    ensures gitDir.None? ==> r == Raise(TypeError)
    ensures r.Ok? ==> Subsequence(r.value, fs.glob(WalkPattern))
    ensures r.Ok? ==> forall f | f in r.value :: !fs.isDir(f) && '~' !in f
    ensures gitDir.Some? ==>
      (r.Raise? <==> fs.read(gitDir.value + "/.bignore").Undecodable? || fs.read(gitDir.value + "/.gitignore").Undecodable?)
    ensures gitDir.Some? && r.Raise? ==> r.error.UnicodeDecodeError?
  {
    match gitDir
    case None => Raise(TypeError)
    case Some(root) =>
      match ReadIgnoreFile(fs, root + "/.bignore")
      case Raise(e) => Raise(e)
      case Ok(bignore) =>
        match ReadIgnoreFile(fs, root + "/.gitignore")
        case Raise(e) => Raise(e)
        case Ok(gitignore) =>
          var b := bignore.GetOr([]);
          var g := gitignore.GetOr([]);
          var walk := fs.glob(WalkPattern);
          ValidPathsSubsequence(fs, RejectList(fs, b, g), walk);
          forall f | f in ValidPaths(fs, RejectList(fs, b, g), walk)
            ensures !fs.isDir(f) && '~' !in f
          {
            BuiltinsDropped(fs, b, g, walk, f);
            DirectoriesDropped(fs, b, g, walk, f);
          }
          Ok(ValidPaths(fs, RejectList(fs, b, g), walk))
  }

  /** The rules an ignore file contributes to `buildFileList`: none when it
      is missing (`readIgnoreFile(...) or []`). */
  function IgnoreEntries(fs: FileSystem, path: string): (rules: seq<string>)
    ensures fs.read(path).Decoded? ==> rules == IgnoreRules(fs.read(path).lines)
    ensures !fs.read(path).Decoded? ==> rules == []
  {
    match ReadIgnoreFile(fs, path)
    case Ok(Some(rules)) => rules
    case _ => []
  }

  /** A walked path is in the file list exactly when it is not a directory
      and no entry of the reject list built from both ignore files occurs
      in it. */
  lemma FileListMembers(fs: FileSystem, root: string, f: string)
    requires FileList(fs, Some(root)).Ok?
    ensures var reject := RejectList(fs, IgnoreEntries(fs, root + "/.bignore"), IgnoreEntries(fs, root + "/.gitignore"));
      f in FileList(fs, Some(root)).value <==>
        f in fs.glob(WalkPattern) && !fs.isDir(f) && forall e | e in reject :: !IsSubstring(e, f)
  {
    var reject := RejectList(fs, IgnoreEntries(fs, root + "/.bignore"), IgnoreEntries(fs, root + "/.gitignore"));
    assert FileList(fs, Some(root)) == Ok(ValidPaths(fs, reject, fs.glob(WalkPattern)));
    ValidPathsMembers(fs, reject, fs.glob(WalkPattern), f);
    AdmittedIff(fs, reject, f);
  }

  /** With neither ignore file present, only the built-in pair is rejected. */
  lemma NoIgnoreFiles(fs: FileSystem, root: string)
    requires fs.read(root + "/.bignore").Missing? && fs.read(root + "/.gitignore").Missing?
    ensures FileList(fs, Some(root)) == Ok(ValidPaths(fs, BuiltinRejects, fs.glob(WalkPattern)))
  {
    assert RejectList(fs, [], []) == BuiltinRejects;
  }
}
