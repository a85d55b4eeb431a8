/** The TODO regular expression of bugs.py, `(;;|%|#|/(\*|/))\s*TODO:\s*(.*)`,
    applied with `re.search` to one line.

    Python's matcher tries the start positions left to right and, at each,
    the alternatives of group 1 in order, backtracking on failure. For this
    pattern the alternatives exclude one another (they differ in their first
    two characters), `\s*` before the literal `TODO:` can only stop at the
    `T`, and both the second `\s*` and `(.*)` take as much as they can, since
    nothing after them has to match. `MatchAt` is that procedure for one
    start position; `Matches` says declaratively what a match is. */
module TodoPattern {
  import opened Wrappers

  /** `\s` in a `str` pattern: the characters for which `str.isspace()` holds. */
  predicate IsSpace(c: char) {
    || ('\t' <= c <= '\r')
    || ('\U{1C}' <= c <= ' ')
    || c == '\U{85}' || c == '\U{A0}' || c == '\U{1680}'
    || ('\U{2000}' <= c <= '\U{200A}')
    || c == '\U{2028}' || c == '\U{2029}' || c == '\U{202F}' || c == '\U{205F}'
    || c == '\U{3000}'
  }

  /** `line[a..b]` is all whitespace. */
  predicate SpacesBetween(line: string, a: nat, b: nat)
    requires a <= b <= |line|
  {
    forall m | a <= m < b :: IsSpace(line[m])
  }

  /** `line[a..b]` holds no newline. */
  predicate NoNewlineBetween(line: string, a: nat, b: nat)
    requires a <= b <= |line|
  {
    forall m | a <= m < b :: line[m] != '\n'
  }

  /** `t` occurs in `line` at position `i`. */
  predicate StartsAt(line: string, i: nat, t: string) {
    i + |t| <= |line| && forall m | 0 <= m < |t| :: line[i + m] == t[m]
  }

  /** The alternatives of group 1, in the order the matcher tries them. */
  datatype Leader = DoubleSemicolon | Percent | Hash | BlockOpen | LineOpen

  function LeaderText(l: Leader): string {
    match l
    case DoubleSemicolon => ";;"
    case Percent => "%"
    case Hash => "#"
    case BlockOpen => "/*"
    case LineOpen => "//"
  }

  /** Group 2, `(\*|/)`: it takes part only after a `/`. */
  function Group2(l: Leader): Option<char> {
    match l
    case BlockOpen => Some('*')
    case LineOpen => Some('/')
    case _ => None
  }

  /** The alternative of group 1 that matches at `i`, if any. The
      alternatives are told apart by their first two characters. */
  function LeaderAt(line: string, i: nat): (l: Option<Leader>)
    ensures l.Some? ==> i + |LeaderText(l.value)| <= |line|
  {
    if i >= |line| then None
    else if line[i] == ';' then
      if i + 1 < |line| && line[i + 1] == ';' then Some(DoubleSemicolon) else None
    else if line[i] == '%' then Some(Percent)
    else if line[i] == '#' then Some(Hash)
    else if line[i] == '/' && i + 1 < |line| && line[i + 1] == '*' then Some(BlockOpen)
    else if line[i] == '/' && i + 1 < |line| && line[i + 1] == '/' then Some(LineOpen)
    else None
  }

  /** The leader found at `i` is exactly the one whose text occurs there. */
  lemma LeaderAtUnique(line: string, i: nat, x: Leader)
    ensures LeaderAt(line, i) == Some(x) <==> StartsAt(line, i, LeaderText(x))
  {
    if i + 1 <= |line| {
      assert line[i..i + 1] == [line[i]];
    }
    if i + 2 <= |line| {
      assert line[i..i + 2] == [line[i], line[i + 1]];
    }
  }

  /** Where a greedy `\s*` started at `p` stops: the first non-space at or after `p`. */
  function SkipSpace(line: string, p: nat): (q: nat)
    requires p <= |line|
    ensures p <= q <= |line|
    ensures forall m | p <= m < q :: IsSpace(line[m])
    ensures q == |line| || !IsSpace(line[q])
    decreases |line| - p
  {
    if p < |line| && IsSpace(line[p]) then SkipSpace(line, p + 1) else p
  }

  /** Where a greedy `.*` started at `p` stops: the first newline, or the end. */
  function LineEnd(line: string, p: nat): (e: nat)
    requires p <= |line|
    ensures p <= e <= |line|
    ensures forall m | p <= m < e :: line[m] != '\n'
    ensures e == |line| || line[e] == '\n'
    decreases |line| - p
  {
    if p < |line| && line[p] != '\n' then LineEnd(line, p + 1) else p
  }

  /** The only stopping point with whitespace before it and none at it is `SkipSpace`'s. */
  lemma SkipSpaceUnique(line: string, p: nat, q: nat)
    requires p <= q <= |line|
    requires SpacesBetween(line, p, q)
    requires q == |line| || !IsSpace(line[q])
    ensures SkipSpace(line, p) == q
  {
  }

  /** Likewise for `LineEnd`. */
  lemma LineEndUnique(line: string, p: nat, e: nat)
    requires p <= e <= |line|
    requires NoNewlineBetween(line, p, e)
    requires e == |line| || line[e] == '\n'
    ensures LineEnd(line, p) == e
  {
  }

  /** A successful search: where it starts, group 1, and group 3. */
  datatype TodoMatch = TodoMatch(start: nat, leader: Leader, text: string)

  /** The match attempted at start position `i`. */
  function MatchAt(line: string, i: nat): (m: Option<TodoMatch>)
    requires i <= |line|
    ensures m.Some? ==> m.value.start == i && LeaderAt(line, i) == Some(m.value.leader)
    ensures m.Some? ==> '\n' !in m.value.text
  {
    match LeaderAt(line, i)
    case None => None
    case Some(l) => MatchAfter(line, i, l)
  }

  /** The rest of the attempt at `i` once group 1 has matched `l`. */
  function MatchAfter(line: string, i: nat, l: Leader): (m: Option<TodoMatch>)
    requires i + |LeaderText(l)| <= |line|
    ensures m.Some? ==> m.value.start == i && m.value.leader == l && '\n' !in m.value.text
  {
    var j := SkipSpace(line, i + |LeaderText(l)|);
    if StartsAt(line, j, "TODO:") then
      var k := SkipSpace(line, j + 5);
      var e := LineEnd(line, k);
      assert forall m | 0 <= m < e - k :: line[k..e][m] == line[k + m];
      assert forall c | c in line[k..e] :: c != '\n';
      Some(TodoMatch(i, l, line[k..e]))
    else None
  }

  /** `re.search` from position `i`: the leftmost start position that matches. */
  function Search(line: string, i: nat): (m: Option<TodoMatch>)
    requires i <= |line|
    ensures m.Some? ==> i <= m.value.start <= |line| && MatchAt(line, m.value.start) == m
    ensures forall j | i <= j <= |line| && (m.None? || j < m.value.start) :: MatchAt(line, j).None?
    decreases |line| - i
  {
    var here := MatchAt(line, i);
    if here.Some? || i == |line| then here else Search(line, i + 1)
  }

  /** `r_todo.search(line)`. */
  function TodoSearch(line: string): (m: Option<TodoMatch>)
    ensures m.Some? ==> m.value.start <= |line| && MatchAt(line, m.value.start) == m
    ensures forall j | 0 <= j <= |line| && (m.None? || j < m.value.start) :: MatchAt(line, j).None?
  {
    Search(line, 0)
  }

  /** The pattern matches `line` at `i` with group 1 `l` and group 3 `t`,
      the first `\s*` ending at `j`, the second at `k`, and `.*` at `e`. */
  ghost predicate MatchShape(line: string, i: nat, l: Leader, t: string, j: nat, k: nat, e: nat) {
    && StartsAt(line, i, LeaderText(l))
    && i + |LeaderText(l)| <= j
    && j + 5 <= k <= e <= |line|
    && SpacesBetween(line, i + |LeaderText(l)|, j)
    && StartsAt(line, j, "TODO:")
    && SpacesBetween(line, j + 5, k)
    && (k == |line| || !IsSpace(line[k]))    // the second `\s*` is greedy
    && NoNewlineBetween(line, k, e)            // `.` does not match a newline
    && (e == |line| || line[e] == '\n')         // `.*` is greedy
    && t == line[k..e]
  }

  ghost predicate Matches(line: string, i: nat, l: Leader, t: string) {
    exists j: nat, k: nat, e: nat :: MatchShape(line, i, l, t, j, k, e)
  }

  /** What the attempt at `i` finds is a match in the declarative sense. */
  lemma MatchAtSound(line: string, i: nat)
    requires i <= |line|
    requires MatchAt(line, i).Some?
    ensures var m := MatchAt(line, i).value; Matches(line, i, m.leader, m.text)
  {
    var l := MatchAt(line, i).value.leader;
    LeaderAtUnique(line, i, l);
    assert MatchAt(line, i) == MatchAfter(line, i, l);
    MatchAfterSound(line, i, l);
  }

  lemma MatchAfterSound(line: string, i: nat, l: Leader)
    requires StartsAt(line, i, LeaderText(l))
    requires MatchAfter(line, i, l).Some?
    ensures Matches(line, i, l, MatchAfter(line, i, l).value.text)
  {
    var n := |LeaderText(l)|;
    var j := SkipSpace(line, i + n);
    assert StartsAt(line, j, "TODO:");
    var k := SkipSpace(line, j + 5);
    var e := LineEnd(line, k);
    MatchAfterAt(line, i, l, j, k, e);
    assert SpacesBetween(line, i + n, j);
    assert SpacesBetween(line, j + 5, k);
    assert NoNewlineBetween(line, k, e);
    assert MatchShape(line, i, l, line[k..e], j, k, e);
  }

  /** A match of the given shape is the one the attempt at `i` finds. */
  lemma MatchAtFrom(line: string, i: nat, l: Leader, t: string, j: nat, k: nat, e: nat)
    requires MatchShape(line, i, l, t, j, k, e)
    ensures i <= |line| && MatchAt(line, i) == Some(TodoMatch(i, l, t))
  {
    var a := i + |LeaderText(l)|;
    LeaderAtUnique(line, i, l);
    assert line[j + 0] == "TODO:"[0];
    SkipSpaceUnique(line, a, j);
    SkipSpaceUnique(line, j + 5, k);
    LineEndUnique(line, k, e);
    MatchAfterAt(line, i, l, j, k, e);
  }

  /** The attempt after group 1 stops where `\s*`, `TODO:`, `\s*` and `.*` do. */
  lemma MatchAfterAt(line: string, i: nat, l: Leader, j: nat, k: nat, e: nat)
    requires i + |LeaderText(l)| <= |line|
    requires SkipSpace(line, i + |LeaderText(l)|) == j && StartsAt(line, j, "TODO:")
    requires SkipSpace(line, j + 5) == k && LineEnd(line, k) == e
    ensures MatchAfter(line, i, l) == Some(TodoMatch(i, l, line[k..e]))
  {
  }

  /** Every declarative match at `i` is the one the attempt at `i` finds. */
  lemma MatchAtComplete(line: string, i: nat, l: Leader, t: string)
    requires Matches(line, i, l, t)
    ensures i <= |line| && MatchAt(line, i) == Some(TodoMatch(i, l, t))
  {
    var j: nat, k: nat, e: nat :| MatchShape(line, i, l, t, j, k, e);
    MatchAtFrom(line, i, l, t, j, k, e);
  }

  /** The attempt at `i` finds exactly the match the declarative reading describes. */
  lemma MatchAtExact(line: string, i: nat, l: Leader, t: string)
    requires i <= |line|
    ensures MatchAt(line, i) == Some(TodoMatch(i, l, t)) <==> Matches(line, i, l, t)
  {
    if MatchAt(line, i) == Some(TodoMatch(i, l, t)) {
      MatchAtSound(line, i);
    }
    if Matches(line, i, l, t) {
      MatchAtComplete(line, i, l, t);
    }
  }

  /** `TodoSearch` returns the leftmost match, and none when no position matches. */
  lemma TodoSearchIsLeftmost(line: string)
    ensures TodoSearch(line).Some? ==>
      var m := TodoSearch(line).value;
      && Matches(line, m.start, m.leader, m.text)
      && forall i: nat, l, t | i < m.start :: !Matches(line, i, l, t)
    ensures TodoSearch(line).None? ==> forall i: nat, l, t | i <= |line| :: !Matches(line, i, l, t)
  {
    var r := TodoSearch(line);
    if r.Some? {
      MatchAtSound(line, r.value.start);
    }
    forall i: nat, l, t | i <= |line| && (r.None? || i < r.value.start)
      ensures !Matches(line, i, l, t)
    {
      MatchAtExact(line, i, l, t);
    }
  }

  // What `getBugs` records for a match: group 3, less a trailing ` */`
  // when group 2 is `*` (the leader was `/*`).
  function BugText(m: TodoMatch): (b: string)
    ensures b <= m.text
    ensures b != m.text <==>
      Group2(m.leader) == Some('*') && |m.text| >= 3 && m.text[|m.text| - 3..] == " */"
    ensures b != m.text ==> |b| == |m.text| - 3
  {
    var t := m.text;
    if Group2(m.leader) == Some('*') && |t| >= 3 && t[|t| - 3..] == " */" then t[..|t| - 3] else t
  }

  /** The entry one line contributes to `getBugs`, never holding a newline. */
  function LineBug(line: string): (b: Option<string>)
    ensures b.Some? ==> '\n' !in b.value
  {
    match TodoSearch(line)
    case None => None
    case Some(m) => Some(BugText(m))
  }

  /** A line contributes an entry exactly when the pattern matches somewhere in it. */
  lemma LineBugIffMatch(line: string)
    ensures LineBug(line).Some? <==> exists i: nat, l, t | i <= |line| :: Matches(line, i, l, t)
  {
    TodoSearchIsLeftmost(line);
    var r := TodoSearch(line);
    if r.Some? {
      var m := r.value;
      assert m.start <= |line| && Matches(line, m.start, m.leader, m.text);
    }
  }

  /** A line whose first match starts at `i` contributes the bug text of that match. */
  lemma LineBugAt(line: string, i: nat, l: Leader, t: string)
    requires Matches(line, i, l, t)
    requires forall p: nat, l', t' | p < i :: !Matches(line, p, l', t')
    ensures LineBug(line) == Some(BugText(TodoMatch(i, l, t)))
  {
    MatchAtComplete(line, i, l, t);
    TodoSearchIsLeftmost(line);
    var r := TodoSearch(line);
    assert r.Some?;
    var m := r.value;
    assert m.start == i;
    assert MatchAt(line, m.start) == Some(m);
    assert m == TodoMatch(i, l, t);
  }

  /** For a `/*` match, a trailing ` */` is cut off the recorded text. */
  lemma BugTextDropsCloser(i: nat, b: string, t: string)
    requires t == b + " */"
    ensures BugText(TodoMatch(i, BlockOpen, t)) == b
  {
    assert t[|t| - 3..] == " */";
    assert t[..|t| - 3] == b;
  }

  /** After the leader `lead` (two characters or one) at position `i`, the
      text ` TODO: ` followed by `b` makes a match with group 3 `b + post`,
      provided `b` starts with a non-space and neither part holds a newline. */
  lemma CommentMatch(code: string, lead: string, l: Leader, b: string, post: string)
    requires lead == LeaderText(l)
    requires b != [] && !IsSpace(b[0]) && '\n' !in b + post
    ensures var i := |code|;
      var line := code + (lead + " TODO: ") + (b + post);
      MatchShape(line, i, l, b + post, i + |lead| + 1, i + |lead| + 7, |line|)
  {
    var i := |code|;
    var n := |lead|;
    var head := lead + " TODO: ";
    var t := b + post;
    var line := code + head + t;
    assert forall m | 0 <= m < n + 7 :: line[i + m] == head[m];
    assert forall m | 0 <= m < |t| :: line[i + n + 7 + m] == t[m];
    assert StartsAt(line, i + n + 1, "TODO:") by {
      assert forall m | 0 <= m < 5 :: head[n + 1 + m] == "TODO:"[m];
    }
    assert line[i + n + 7..] == t;
    assert NoNewlineBetween(line, i + n + 7, |line|) by {
      forall m | i + n + 7 <= m < |line| ensures line[m] != '\n' {
        assert line[m] == t[m - i - n - 7];
      }
    }
  }

  /** `/* TODO: b */` records `b`: the closer is dropped. */
  lemma BlockCommentBug(b: string)
    requires b != [] && !IsSpace(b[0]) && '\n' !in b
    ensures LineBug("/* TODO: " + b + " */") == Some(b)
  {
    var line := "/* TODO: " + b + " */";
    CommentMatch([], "/*", BlockOpen, b, " */");
    assert line == [] + ("/*" + " TODO: ") + (b + " */");
    LineBugAt(line, 0, BlockOpen, b + " */");
    BugTextDropsCloser(0, b, b + " */");
  }

  /** `// TODO: b` followed by the newline `readlines` keeps records `b`. */
  lemma LineCommentBug(b: string)
    requires b != [] && !IsSpace(b[0]) && '\n' !in b
    ensures LineBug("// TODO: " + b + "\n") == Some(b)
  {
    var line := "// TODO: " + b + "\n";
    var e := |line| - 1;
    CommentMatch([], "//", LineOpen, b, []);
    var shorter := [] + ("//" + " TODO: ") + (b + []);
    assert line == shorter + "\n";
    assert MatchShape(line, 0, LineOpen, b, 3, 9, e) by {
      assert line[..e] == shorter;
      assert forall m | 0 <= m < e :: line[m] == shorter[m];
      assert b + [] == b;
    }
    LineBugAt(line, 0, LineOpen, b);
  }

  /** `# TODO: b` records `b`, whatever code without a comment leader precedes it. */
  lemma HashCommentBug(code: string, b: string)
    requires forall c | c in code :: c != '#' && c != '%' && c != ';' && c != '/'
    requires b != [] && !IsSpace(b[0]) && '\n' !in b
    ensures LineBug(code + "# TODO: " + b) == Some(b)
  {
    var line := code + "# TODO: " + b;
    var i := |code|;
    CommentMatch(code, "#", Hash, b, []);
    assert b + [] == b;
    assert line == code + ("#" + " TODO: ") + (b + []);
    assert MatchShape(line, i, Hash, b, i + 2, i + 8, |line|);
    forall p: nat, l, t | p < i ensures !Matches(line, p, l, t) {
      assert line[p] == code[p] && code[p] in code;
      assert LeaderAt(line, p).None?;
      MatchAtExact(line, p, l, t);
    }
    LineBugAt(line, i, Hash, b);
  }
}
