/** `Bugs.findRepositoryRoot`: walk upwards through `pwd`, `pwd/..`,
    `pwd/../..`, ... and stop at the first directory holding a `.git`
    directory, or give up once the absolute form of the candidate is the
    filesystem root. */
module RepositoryRoot {
  import opened Wrappers
  import opened Os

  /** `Path(c + '/..')`: the step upwards, whose string form pathlib
      normalises. */
  function Up(c: string): string {
    PurePathStr(c + "/..")
  }

  /** The `k`-th directory a walk with step `up` tries: `pwd` itself as
      given, then each time the step applied to the one before. The source
      walks with `Up`; the facts about the walk below hold for any step. */
  function Candidate(up: string -> string, pwd: string, k: nat): string
    decreases k
  {
    if k == 0 then pwd else up(Candidate(up, pwd, k - 1))
  }

  /** `os.path.abspath(os.sep)`. */
  function RootDir(fs: FileSystem): string {
    fs.abspath([Sep])
  }

  /** The loop condition fails: the candidate's absolute form is the root. */
  predicate AtRoot(fs: FileSystem, c: string) {
    fs.abspath(c) == RootDir(fs)
  }

  /** `Path(c + '/.git').is_dir()`. */
  predicate GitHere(fs: FileSystem, c: string) {
    fs.isDir(PurePathStr(c + "/.git"))
  }

  /** The walk ends: some candidate's absolute form is the root. Going up
      with `..` always gets there on a real filesystem; the loop in the
      source has no other way out when no `.git` is found. */
  ghost predicate ReachesRoot(fs: FileSystem, up: string -> string, pwd: string) {
    exists n: nat :: AtRoot(fs, Candidate(up, pwd, n))
  }

  /** The walk went past the first `k` candidates: none was the root and
      none held a `.git` directory. */
  ghost predicate Passed(fs: FileSystem, up: string -> string, pwd: string, k: nat) {
    forall j: nat | j < k :: !AtRoot(fs, Candidate(up, pwd, j)) && !GitHere(fs, Candidate(up, pwd, j))
  }

  /** What the walk returns when it stops at candidate `k`: `None` at the
      root (which is never tested for `.git`), the candidate itself when
      it holds `.git`. */
  predicate StopsAt(fs: FileSystem, up: string -> string, pwd: string, k: nat, r: Option<string>) {
    StopsHere(fs, Candidate(up, pwd, k), r)
  }

  /** What the walk returns when it stops at directory `c`. */
  predicate StopsHere(fs: FileSystem, c: string, r: Option<string>) {
    if AtRoot(fs, c) then r == None else GitHere(fs, c) && r == Some(c)
  }

  /** `r` is what `findRepositoryRoot(pwd)` returns. */
  ghost predicate RootOutcome(fs: FileSystem, up: string -> string, pwd: string, r: Option<string>) {
    exists k: nat :: Passed(fs, up, pwd, k) && StopsAt(fs, up, pwd, k, r)
  }

  /** Stopping at candidate `k` after passing the ones before it is an outcome. */
  lemma OutcomeAt(fs: FileSystem, up: string -> string, pwd: string, k: nat, r: Option<string>)
    requires Passed(fs, up, pwd, k) && StopsAt(fs, up, pwd, k, r)
    ensures RootOutcome(fs, up, pwd, r)
  {
  }

  /** The upward walk of the source, loop for loop. */
  method FindRepositoryRoot(fs: FileSystem, pwd: string) returns (r: Option<string>)
    requires ReachesRoot(fs, Up, pwd)
    ensures RootOutcome(fs, Up, pwd, r)
  {
    ghost var n: nat :| AtRoot(fs, Candidate(Up, pwd, n));
    ghost var k: nat := 0;
    var cur := pwd;
    var gitHere := PurePathStr(cur + "/.git");
    var rootDir := fs.abspath([Sep]);
    while fs.abspath(cur) != rootDir
      invariant k <= n
      invariant cur == Candidate(Up, pwd, k)
      invariant gitHere == PurePathStr(cur + "/.git")
      invariant Passed(fs, Up, pwd, k)
      decreases n - k
    {
      if fs.isDir(gitHere) {
        OutcomeAt(fs, Up, pwd, k, Some(cur));
        return Some(cur);
      }
      PassedNext(fs, Up, pwd, k);
      if k == n {
        assert false;
      }
      cur := Up(cur);
      gitHere := PurePathStr(cur + "/.git");
      k := k + 1;
    }
    OutcomeAt(fs, Up, pwd, k, None);
    return None;
  }

  /** Going past one more candidate. */
  lemma PassedNext(fs: FileSystem, up: string -> string, pwd: string, k: nat)
    requires Passed(fs, up, pwd, k)
    requires !AtRoot(fs, Candidate(up, pwd, k)) && !GitHere(fs, Candidate(up, pwd, k))
    ensures Passed(fs, up, pwd, k + 1)
  {
  }

  /** The walk has a single outcome: the first stopping candidate decides it. */
  lemma RootOutcomeUnique(fs: FileSystem, up: string -> string, pwd: string, r1: Option<string>, r2: Option<string>)
    requires RootOutcome(fs, up, pwd, r1) && RootOutcome(fs, up, pwd, r2)
    ensures r1 == r2
  {
    var k1: nat :| Passed(fs, up, pwd, k1) && StopsAt(fs, up, pwd, k1, r1);
    var k2: nat :| Passed(fs, up, pwd, k2) && StopsAt(fs, up, pwd, k2, r2);
    assert k1 == k2;
  }

  /** A repository found by the walk holds a `.git` directory and is not the root. */
  lemma FoundHoldsGit(fs: FileSystem, up: string -> string, pwd: string, root: string)
    requires RootOutcome(fs, up, pwd, Some(root))
    ensures GitHere(fs, root) && !AtRoot(fs, root)
  {
    var k: nat :| Passed(fs, up, pwd, k) && StopsAt(fs, up, pwd, k, Some(root));
  }

  /** When `pwd` itself holds `.git` and is not the root, it is returned
      as given, without normalisation. */
  lemma GitInPwd(fs: FileSystem, up: string -> string, pwd: string)
    requires !AtRoot(fs, pwd) && GitHere(fs, pwd)
    ensures RootOutcome(fs, up, pwd, Some(pwd))
  {
    assert Passed(fs, up, pwd, 0);
    assert StopsAt(fs, up, pwd, 0, Some(pwd));
  }

  /** Starting the walk at the `j`-th candidate continues the same chain. */
  lemma {:induction false} CandidateShift(up: string -> string, pwd: string, j: nat, m: nat, k: nat)
    requires j + m == k
    ensures Candidate(up, Candidate(up, pwd, j), m) == Candidate(up, pwd, k)
    decreases m
  {
    if m > 0 {
      CandidateShift(up, pwd, j, m - 1, k - 1);
    }
  }

  /** Candidates the walk passed from `pwd` are passed again from a later start. */
  lemma PassedShift(fs: FileSystem, up: string -> string, pwd: string, j: nat, k: nat)
    requires j <= k && Passed(fs, up, pwd, k)
    ensures Passed(fs, up, Candidate(up, pwd, j), k - j)
  {
    forall i: nat | i < k - j
      ensures !AtRoot(fs, Candidate(up, Candidate(up, pwd, j), i)) && !GitHere(fs, Candidate(up, Candidate(up, pwd, j), i))
    {
      CandidateShift(up, pwd, j, i, j + i);
    }
  }

  /** The walk cannot pass the candidate it stops at. */
  lemma PassedBeforeStop(fs: FileSystem, up: string -> string, pwd: string, j: nat, k: nat, r: Option<string>)
    requires Passed(fs, up, pwd, j) && StopsAt(fs, up, pwd, k, r)
    ensures j <= k
  {
  }

  /** Stopping at a candidate is stopping there from a later start. */
  lemma StopsAtShift(fs: FileSystem, up: string -> string, pwd: string, j: nat, k: nat, r: Option<string>)
    requires j <= k && StopsAt(fs, up, pwd, k, r)
    ensures StopsAt(fs, up, Candidate(up, pwd, j), k - j, r)
  {
    CandidateShift(up, pwd, j, k - j, k);
  }

  /** Walking up from a directory the walk passed through finds the same
      repository (or the same absence of one) as walking from `pwd`. */
  lemma SameOutcomeAlongChain(fs: FileSystem, up: string -> string, pwd: string, j: nat, r: Option<string>)
    requires Passed(fs, up, pwd, j)
    requires RootOutcome(fs, up, pwd, r)
    ensures RootOutcome(fs, up, Candidate(up, pwd, j), r)
  {
    var k: nat :| Passed(fs, up, pwd, k) && StopsAt(fs, up, pwd, k, r);
    PassedBeforeStop(fs, up, pwd, j, k, r);
    PassedShift(fs, up, pwd, j, k);
    StopsAtShift(fs, up, pwd, j, k, r);
    OutcomeAt(fs, up, Candidate(up, pwd, j), k - j, r);
  }
}
