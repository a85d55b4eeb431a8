/** The Python `str` operations the scanner relies on, on `seq<char>`. */
module Text {

  /** Python's `sub in s`: `sub` occurs in `s` at some position. */
  predicate IsSubstring(sub: string, s: string)
    ensures IsSubstring(sub, s) ==> |sub| <= |s|
    decreases |s|
  {
    (|sub| <= |s| && s[..|sub|] == sub) || (|s| > 0 && IsSubstring(sub, s[1..]))
  }

  /** `sub` is the slice of `s` starting at position `i`. */
  predicate OccursAt(sub: string, s: string, i: nat) {
    i + |sub| <= |s| && s[i..i + |sub|] == sub
  }

  /** `sub in s` holds exactly when `sub` occurs in `s` at some position. */
  lemma {:induction false} IsSubstringAt(sub: string, s: string)
    ensures IsSubstring(sub, s) <==> exists i: nat :: OccursAt(sub, s, i)
    decreases |s|
  {
    if IsSubstring(sub, s) {
      if |sub| <= |s| && s[..|sub|] == sub {
        assert OccursAt(sub, s, 0);
      } else {
        var t := s[1..];
        IsSubstringAt(sub, t);
        var i: nat :| OccursAt(sub, t, i);
        assert s[i + 1..i + 1 + |sub|] == t[i..i + |sub|];
        assert OccursAt(sub, s, i + 1);
      }
    }
    if exists i: nat :: OccursAt(sub, s, i) {
      var i: nat :| OccursAt(sub, s, i);
      if i > 0 {
        var t := s[1..];
        assert t[i - 1..i - 1 + |sub|] == s[i..i + |sub|];
        assert OccursAt(sub, t, i - 1);
        IsSubstringAt(sub, t);
      } else {
        assert s[..|sub|] == s[0..0 + |sub|];
      }
    }
  }

  /** Every string occurs in itself (so `r == f` implies `r in f`). */
  lemma SubstringOfItself(s: string)
    ensures IsSubstring(s, s)
  {
    assert s[..|s|] == s;
  }

  /** A string holding the character `c` has the one-character string `[c]` as a substring. */
  lemma {:induction false} CharIsSubstring(c: char, s: string)
    requires c in s
    ensures IsSubstring([c], s)
  {
    if s[0] != c {
      assert c in s[1..];
      CharIsSubstring(c, s[1..]);
    }
  }

  /** Python's `s.split(sep)` for a one-character separator: the pieces
      between the separators, at least one of them, none holding `sep`. */
  function Split(s: string, sep: char): (parts: seq<string>)
    ensures |parts| >= 1
    ensures forall p | p in parts :: sep !in p
    decreases |s|
  {
    if s == [] then [[]]
    else
      var rest := Split(s[1..], sep);
      if s[0] == sep then [[]] + rest
      else [[s[0]] + rest[0]] + rest[1..]
  }

  /** Python's `sep.join(parts)`. */
  function Join(parts: seq<string>, sep: char): string
    decreases |parts|
  {
    if parts == [] then []
    else if |parts| == 1 then parts[0]
    else parts[0] + [sep] + Join(parts[1..], sep)
  }

  /** Joining the pieces of a split gives the string back. */
  lemma {:induction false} JoinSplit(s: string, sep: char)
    ensures Join(Split(s, sep), sep) == s
  {
    if s != [] {
      var rest := Split(s[1..], sep);
      JoinSplit(s[1..], sep);
      if s[0] == sep {
        assert Split(s, sep) == [[]] + rest;
        assert Join([[]] + rest, sep) == [] + [sep] + Join(rest, sep);
      } else if |rest| == 1 {
        assert Split(s, sep) == [[s[0]] + rest[0]];
      } else {
        var parts := Split(s, sep);
        assert parts == [[s[0]] + rest[0]] + rest[1..];
        assert Join(rest, sep) == rest[0] + [sep] + Join(rest[1..], sep);
        assert parts[1..] == rest[1..];
        assert Join(parts, sep) == [s[0]] + rest[0] + [sep] + Join(rest[1..], sep);
      }
    }
  }

  /** Splitting a join of separator-free pieces gives the pieces back. */
  lemma {:induction false} SplitJoin(parts: seq<string>, sep: char)
    requires |parts| >= 1
    requires forall p | p in parts :: sep !in p
    ensures Split(Join(parts, sep), sep) == parts
    decreases |parts|
  {
    if |parts| == 1 {
      assert parts[0] in parts;
      SplitNoSep(parts[0], sep);
    } else {
      var init := parts[..|parts| - 1];
      var x := parts[|parts| - 1];
      forall p | p in init ensures sep !in p {
        assert p in parts;
      }
      assert x in parts;
      SplitJoin(init, sep);
      JoinLast(parts, sep);
      SplitSnoc(Join(init, sep), x, sep);
      assert init + [x] == parts;
    }
  }

  /** Python's `s.rstrip(c)`: the longest prefix of `s` not ending in `c`;
      everything it drops is `c`. */
  function RStrip(s: string, c: char): (r: string)
    ensures r <= s
    ensures r == [] || r[|r| - 1] != c
    ensures forall i | |r| <= i < |s| :: s[i] == c
    decreases |s|
  {
    if s != [] && s[|s| - 1] == c then RStrip(s[..|s| - 1], c) else s
  }

  /** The strings of `ss` one after the other. */
  function Concat(ss: seq<string>): string
    decreases |ss|
  {
    if ss == [] then [] else ss[0] + Concat(ss[1..])
  }

  /** Concatenating a string in front of more strings. */
  lemma ConcatCons(a: string, rest: seq<string>)
    ensures Concat([a] + rest) == a + Concat(rest)
  {
    assert ([a] + rest)[1..] == rest;
  }

  /** The length of the first line of `text`, its newline included. */
  function FirstLineEnd(text: string): (e: nat)
    requires text != []
    ensures 1 <= e <= |text|
    ensures forall i | 0 <= i < e - 1 :: text[i] != '\n'
    ensures e == |text| || text[e - 1] == '\n'
    decreases |text|
  {
    if text[0] == '\n' || |text| == 1 then 1 else 1 + FirstLineEnd(text[1..])
  }

  /** Python's `readlines()` on decoded text: non-empty lines, each
      ending in a newline except possibly the last, that concatenate to the text. */
  function Lines(text: string): (lines: seq<string>)
    ensures Concat(lines) == text
    ensures forall l | l in lines :: l != []
    decreases |text|
  {
    if text == [] then []
    else
      var e := FirstLineEnd(text);
      var rest := Lines(text[e..]);
      LinesStep(text, e, rest);
      [text[..e]] + rest
  }

  /** The first line put before the lines of the rest gives the text back. */
  lemma LinesStep(text: string, e: nat, rest: seq<string>)
    requires e <= |text| && Concat(rest) == text[e..]
    ensures Concat([text[..e]] + rest) == text
  {
    ConcatCons(text[..e], rest);
    assert text[..e] + text[e..] == text;
  }

  /** The first line of `l + "\n" + t`, for `l` without a newline, ends
      just after `l`. */
  lemma {:induction false} FirstLineEndAt(l: string, t: string)
    requires '\n' !in l
    ensures FirstLineEnd(l + "\n" + t) == |l| + 1
    decreases |l|
  {
    if l != [] {
      var s := l + "\n" + t;
      assert s[1..] == l[1..] + "\n" + t;
      assert l[0] in l;
      FirstLineEndAt(l[1..], t);
    }
  }

  /** `readlines` of a line without newline, a newline and more text: that
      line, then the lines of the rest. */
  lemma LinesCons(l: string, t: string)
    requires '\n' !in l
    ensures Lines(l + ("\n" + t)) == [l + "\n"] + Lines(t)
  {
    var s := l + ("\n" + t);
    assert s == l + "\n" + t;
    FirstLineEndAt(l, t);
    assert s[..|l| + 1] == l + "\n";
    assert s[|l| + 1..] == t;
  }

  /** Splitting a one-character string. */
  lemma SplitOne(c: char, sep: char)
    ensures Split([c], sep) == if c == sep then [[], []] else [[c]]
  {
    var rest := Split([c][1..], sep);
    assert [c][1..] == [];
    assert rest == [[]];
    assert [c] + rest[0] == [c] && rest[1..] == [];
  }

  /** A string without the separator splits into itself. */
  lemma {:induction false} SplitNoSep(x: string, sep: char)
    requires sep !in x
    ensures Split(x, sep) == [x]
    decreases |x|
  {
    if x != [] {
      assert x[0] in x;
      assert forall c | c in x[1..] :: c in x;
      SplitNoSep(x[1..], sep);
      assert [x[0]] + x[1..] == x;
    }
  }

  /** Appending a separator and a last piece appends that piece to the split. */
  lemma {:induction false} SplitSnoc(a: string, x: string, sep: char)
    requires sep !in x
    ensures Split(a + [sep] + x, sep) == Split(a, sep) + [x]
    decreases |a|
  {
    var s := a + [sep] + x;
    if a == [] {
      assert s == [sep] + x && s[1..] == x;
      SplitNoSep(x, sep);
    } else {
      assert s[0] == a[0];
      assert s[1..] == a[1..] + [sep] + x;
      SplitSnoc(a[1..], x, sep);
    }
  }

  /** Joining at least two pieces: the join of all but the last, the
      separator, the last. */
  lemma {:induction false} JoinLast(parts: seq<string>, sep: char)
    requires |parts| >= 2
    ensures Join(parts, sep) == Join(parts[..|parts| - 1], sep) + [sep] + parts[|parts| - 1]
    decreases |parts|
  {
    var n := |parts|;
    if n == 2 {
      assert parts[1..] == [parts[1]];
      assert parts[..1] == [parts[0]];
    } else {
      JoinLast(parts[1..], sep);
      assert parts[..n - 1][1..] == parts[1..][..n - 2];
      assert parts[..n - 1][0] == parts[0];
    }
  }

  /** The first piece of a split is a prefix of the string, ending at its
      end or at the first separator. */
  lemma {:induction false} SplitFirstPrefix(s: string, sep: char)
    ensures var p := Split(s, sep)[0];
      p <= s && (|p| == |s| || s[|p|] == sep)
    decreases |s|
  {
    if s != [] && s[0] != sep {
      var rest := Split(s[1..], sep);
      SplitFirstPrefix(s[1..], sep);
      assert Split(s, sep)[0] == [s[0]] + rest[0];
      assert s == [s[0]] + s[1..];
    }
  }

  /** When the separator occurs, the first piece of the split is not the
      whole string. */
  lemma SplitFirstNotWhole(s: string, sep: char)
    requires sep in s
    ensures Split(s, sep)[0] != s
  {
    assert Split(s, sep)[0] in Split(s, sep);
  }

  /** A string with the separator is the join of all its pieces but the
      last, the separator, and the last piece. */
  lemma SplitLast(s: string, sep: char)
    requires |Split(s, sep)| >= 2
    ensures var parts := Split(s, sep);
      s == Join(parts[..|parts| - 1], sep) + [sep] + parts[|parts| - 1]
  {
    JoinSplit(s, sep);
    JoinLast(Split(s, sep), sep);
  }
}
