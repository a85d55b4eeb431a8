/** `src/BugDAO.py`: a reader and writer for a bugs file whose first line
    is a `#` header carrying a configuration and whose other lines are the
    bugs. Modelled as written, header parser included. */
module BugDao {
  import opened Wrappers
  import opened Text
  import opened Os

  /** A Python `dict` of strings, as its pairs in insertion order. */
  type Config = seq<(string, string)>

  /** The keys of a configuration, in insertion order. */
  function Keys(cfg: Config): (keys: seq<string>)
    ensures |keys| == |cfg|
  {
    seq(|cfg|, i requires 0 <= i < |cfg| => cfg[i].0)
  }

  /** A dictionary holds each key once. */
  predicate KeysDistinct(cfg: Config) {
    forall i, j | 0 <= i < j < |cfg| :: cfg[i].0 != cfg[j].0
  }

  /** `d.get(k)`. */
  function Get(cfg: Config, k: string): (r: Option<string>)
    ensures r.Some? ==> (k, r.value) in cfg
    ensures r.None? ==> forall p | p in cfg :: p.0 != k
    decreases |cfg|
  {
    if cfg == [] then None
    else if cfg[0].0 == k then Some(cfg[0].1)
    else Get(cfg[1..], k)
  }

  /** `d[k] = v`: a key already present keeps its place and takes the new
      value; a new key goes last. */
  function Put(cfg: Config, k: string, v: string): (r: Config)
    ensures |cfg| <= |r| <= |cfg| + 1
    ensures (k, v) in r
    decreases |cfg|
  {
    if cfg == [] then [(k, v)]
    else if cfg[0].0 == k then [(k, v)] + cfg[1..]
    else [cfg[0]] + Put(cfg[1..], k, v)
  }

  /** `d[k] = v` keeps every entry stored under another key. */
  lemma {:induction false} PutKeepsOthers(cfg: Config, k: string, v: string, p: (string, string))
    requires p in cfg && p.0 != k
    ensures p in Put(cfg, k, v)
    decreases |cfg|
  {
    if cfg[0] != p {
      assert p in cfg[1..];
      if cfg[0].0 != k {
        PutKeepsOthers(cfg[1..], k, v, p);
      }
    }
  }

  /** After `d[k] = v`, `k` maps to `v` and every other key to what it did. */
  lemma {:induction false} PutGet(cfg: Config, k: string, v: string, k': string)
    ensures Get(Put(cfg, k, v), k') == if k' == k then Some(v) else Get(cfg, k')
    decreases |cfg|
  {
    if cfg != [] && cfg[0].0 != k {
      PutGet(cfg[1..], k, v, k');
      assert Put(cfg, k, v)[1..] == Put(cfg[1..], k, v);
    }
  }

  /** `d[k] = v` keeps the key order, adding `k` at the end when it is new. */
  lemma {:induction false} PutKeys(cfg: Config, k: string, v: string)
    ensures Keys(Put(cfg, k, v)) == if k in Keys(cfg) then Keys(cfg) else Keys(cfg) + [k]
    decreases |cfg|
  {
    if cfg == [] {
    } else if cfg[0].0 == k {
      assert k in Keys(cfg) by { assert Keys(cfg)[0] == k; }
      assert Keys(Put(cfg, k, v)) == Keys(cfg);
    } else {
      PutKeys(cfg[1..], k, v);
      assert Keys(cfg) == [cfg[0].0] + Keys(cfg[1..]);
      assert Keys(Put(cfg, k, v)) == [cfg[0].0] + Keys(Put(cfg[1..], k, v));
      assert k in Keys(cfg) <==> k in Keys(cfg[1..]);
    }
  }

  /** `d[k] = v` keeps the keys of a dictionary distinct. */
  lemma {:induction false} PutKeysDistinct(cfg: Config, k: string, v: string)
    requires KeysDistinct(cfg)
    ensures KeysDistinct(Put(cfg, k, v))
    decreases |cfg|
  {
    if cfg != [] && cfg[0].0 != k {
      var rest := Put(cfg[1..], k, v);
      assert KeysDistinct(cfg[1..]) by {
        forall i, j | 0 <= i < j < |cfg| - 1 ensures cfg[1..][i].0 != cfg[1..][j].0 {
          assert cfg[1..][i] == cfg[i + 1] && cfg[1..][j] == cfg[j + 1];
        }
      }
      PutKeysDistinct(cfg[1..], k, v);
      assert cfg[0].0 !in Keys(rest) by {
        PutKeys(cfg[1..], k, v);
        forall m | 0 <= m < |cfg| - 1 ensures Keys(cfg[1..])[m] != cfg[0].0 {
          assert Keys(cfg[1..])[m] == cfg[m + 1].0;
        }
      }
      var r := Put(cfg, k, v);
      assert r == [cfg[0]] + rest;
      forall i, j | 0 <= i < j < |r| ensures r[i].0 != r[j].0 {
        assert r[j] == rest[j - 1];
        if i == 0 {
          assert r[j].0 == Keys(rest)[j - 1];
        } else {
          assert r[i] == rest[i - 1];
        }
      }
    }
  }

  /** What `serializeConfig` builds: `key=value` for each entry, in order,
      with nothing between entries. */
  function Serialized(cfg: Config): (s: string)
    ensures |s| >= |cfg|
    decreases |cfg|
  {
    if cfg == [] then ""
    else
      var last := cfg[|cfg| - 1];
      Serialized(cfg[..|cfg| - 1]) + last.0 + "=" + last.1
  }

  /** Serialising entries in two runs is serialising them all. */
  lemma {:induction false} SerializedAppend(a: Config, b: Config)
    ensures Serialized(a + b) == Serialized(a) + Serialized(b)
    decreases |b|
  {
    if b == [] {
      assert a + b == a;
    } else {
      var b' := b[..|b| - 1];
      var x := b[|b| - 1];
      var tail := x.0 + "=" + x.1;
      assert (a + b)[..|a + b| - 1] == a + b';
      assert (a + b)[|a + b| - 1] == x;
      SerializedAppend(a, b');
      assert Serialized(a + b) == Serialized(a + b') + tail;
      assert Serialized(b) == Serialized(b') + tail;
      assert Serialized(a) + Serialized(b') + tail == Serialized(a) + (Serialized(b') + tail);
    }
  }

  /** Only the empty configuration serialises to the empty string: each
      entry contributes at least its `=`. */
  lemma SerializedEmptyIff(cfg: Config)
    ensures Serialized(cfg) == "" <==> cfg == []
  {
    if cfg != [] {
      var last := cfg[|cfg| - 1];
      assert |Serialized(cfg)| >= |last.0 + "=" + last.1| >= 1;
    }
  }

  /** A new key adds its `key=value` at the end of the serialisation. */
  lemma SerializedPutNew(cfg: Config, k: string, v: string)
    requires k !in Keys(cfg)
    ensures Serialized(Put(cfg, k, v)) == Serialized(cfg) + k + "=" + v
  {
    PutAppendsNew(cfg, k, v);
    SerializedAppend(cfg, [(k, v)]);
    assert [(k, v)][..0] == [];
  }

  /** `d[k] = v` for a new key appends the entry. */
  lemma {:induction false} PutAppendsNew(cfg: Config, k: string, v: string)
    requires k !in Keys(cfg)
    ensures Put(cfg, k, v) == cfg + [(k, v)]
    decreases |cfg|
  {
    if cfg != [] {
      assert Keys(cfg)[0] == cfg[0].0;
      assert Keys(cfg[1..]) == Keys(cfg)[1..];
      PutAppendsNew(cfg[1..], k, v);
      assert cfg == [cfg[0]] + cfg[1..];
    }
  }

  /** The loop of `parseConfig` over the pieces `pairs`: each piece must
      split on `=` into exactly a key and a value (otherwise unpacking raises
      `ValueError` and the loop ends); the entries already stored stay. */
  function ApplyPairs(cfg: Config, pairs: seq<string>): (r: (Config, Result<()>))
    ensures r.1.Ok? || r.1 == Raise(ValueError)
    ensures Keys(cfg) <= Keys(r.0)
    decreases |pairs|
  {
    if pairs == [] then (cfg, Ok(()))
    else
      var (c, res) := ApplyPairs(cfg, pairs[..|pairs| - 1]);
      if res.Raise? then (c, res)
      else
        var kv := Split(pairs[|pairs| - 1], '=');
        if |kv| != 2 then (c, Raise(ValueError))
        else
          PutKeys(c, kv[0], kv[1]);
          (Put(c, kv[0], kv[1]), Ok(()))
  }

  /** Once a piece fails, later pieces change nothing. */
  lemma {:induction false} ApplyPairsStops(cfg: Config, a: seq<string>, b: seq<string>)
    requires ApplyPairs(cfg, a).1.Raise?
    ensures ApplyPairs(cfg, a + b) == ApplyPairs(cfg, a)
    decreases |b|
  {
    if b == [] {
      assert a + b == a;
    } else {
      assert (a + b)[..|a + b| - 1] == a + b[..|b| - 1];
      ApplyPairsStops(cfg, a, b[..|b| - 1]);
    }
  }

  /** What `parseConfig(s)` does to the configuration and how it ends: only
      `s[2]` is read; a string shorter than three characters raises
      `IndexError`; the one character splits on `' '` into one piece, or two
      empty ones for a space, and each piece must split on `=` in two. */
  function ParsedConfig(cfg: Config, s: string): (r: (Config, Result<()>))
    ensures r.1 == Raise(IndexError) <==> |s| < 3
    ensures r.1.Ok? || r.1 == Raise(IndexError) || r.1 == Raise(ValueError)
    ensures Keys(cfg) <= Keys(r.0)
  {
    if |s| < 3 then (cfg, Raise(IndexError)) else ApplyPairs(cfg, Split([s[2]], ' '))
  }

  /** `parseConfig` succeeds exactly when the third character is `=`, and
      then it stores the empty key with the empty value; on failure the
      configuration is untouched. */
  lemma ParseConfigOutcome(cfg: Config, s: string)
    ensures ParsedConfig(cfg, s) ==
      if |s| < 3 then (cfg, Raise(IndexError))
      else if s[2] == '=' then (Put(cfg, "", ""), Ok(()))
      else (cfg, Raise(ValueError))
  {
    if |s| >= 3 {
      var c := s[2];
      var pieces := Split([c], ' ');
      SplitOne(c, ' ');
      SplitOne(c, '=');
      assert Split([], '=') == [[]];
      assert pieces[..1][..0] == [];
      if c == ' ' {
        assert pieces[..1] == [[]];
        assert ApplyPairs(cfg, pieces[..1]) == (cfg, Raise(ValueError));
        assert pieces == pieces[..1] + pieces[1..];
        ApplyPairsStops(cfg, pieces[..1], pieces[1..]);
      } else {
        assert pieces == [[c]] && pieces[..0] == [];
        assert ApplyPairs(cfg, pieces[..0]) == (cfg, Ok(()));
        var kv := Split(pieces[0], '=');
        assert kv == Split([c], '=');
      }
    }
  }

  /** What `readBugFile` does, from configuration `cfg`, with file `fn`
      read as `f`: the configuration after it, and the bug lines or the
      exception raised. An empty file or an empty first line raise
      `IndexError`; a first line not starting with `#` raises `ValueError`;
      otherwise the header goes to `parseConfig` and the bugs are all the
      other lines, newlines kept. */
  function ReadOutcome(cfg: Config, fn: string, f: FileRead): (r: (Config, Result<seq<string>>))
    ensures r.1.Ok? ==> f.Decoded? && |f.lines| >= 1 && r.1.value == f.lines[1..]
    ensures r.1.Raise? ==> r.0 == cfg
    ensures f.Missing? ==> r.1 == Raise(FileNotFoundError(fn))
    ensures f.Undecodable? ==> r.1 == Raise(UnicodeDecodeError(fn))
  {
    match f
    case Missing => (cfg, Raise(FileNotFoundError(fn)))
    case Undecodable => (cfg, Raise(UnicodeDecodeError(fn)))
    case Decoded(lines) =>
      if lines == [] || lines[0] == [] then (cfg, Raise(IndexError))
      else if lines[0][0] != '#' then (cfg, Raise(ValueError))
      else
        ParseConfigOutcome(cfg, lines[0]);
        var (c, res) := ParsedConfig(cfg, lines[0]);
        if res.Raise? then (c, Raise(res.error)) else (c, Ok(lines[1..]))
  }

  /** A bugs file is read exactly when its first line starts `#`, has `=`
      as third character, and the bugs are then all the other lines. */
  lemma ReadBugFileIff(cfg: Config, fn: string, lines: seq<string>)
    ensures ReadOutcome(cfg, fn, Decoded(lines)).1.Ok? <==>
      |lines| >= 1 && |lines[0]| >= 3 && lines[0][0] == '#' && lines[0][2] == '='
    ensures ReadOutcome(cfg, fn, Decoded(lines)).1.Ok? ==>
      ReadOutcome(cfg, fn, Decoded(lines)) == (Put(cfg, "", ""), Ok(lines[1..]))
    ensures |lines| >= 1 && |lines[0]| >= 1 && lines[0][0] != '#' ==>
      ReadOutcome(cfg, fn, Decoded(lines)).1 == Raise(ValueError)
  {
    if |lines| >= 1 && |lines[0]| >= 1 {
      ParseConfigOutcome(cfg, lines[0]);
    }
  }

  /** What `printBugs` prints: each bug on a line of its own. */
  function Printed(bugs: seq<string>): string
    decreases |bugs|
  {
    if bugs == [] then "" else bugs[0] + "\n" + Printed(bugs[1..])
  }

  /** One more bug prints one more line. */
  lemma {:induction false} PrintedAppend(bugs: seq<string>, b: string)
    ensures Printed(bugs + [b]) == Printed(bugs) + b + "\n"
    decreases |bugs|
  {
    if bugs == [] {
      assert [b][1..] == [];
    } else {
      assert (bugs + [b])[1..] == bugs[1..] + [b];
      PrintedAppend(bugs[1..], b);
    }
  }

  /** Something is printed exactly when there are bugs, and the output
      ends with a newline. */
  lemma {:induction false} PrintedEndsInNewline(bugs: seq<string>)
    ensures Printed(bugs) == [] <==> bugs == []
    ensures bugs != [] ==> Printed(bugs)[|Printed(bugs)| - 1] == '\n'
    decreases |bugs|
  {
    if bugs != [] {
      PrintedEndsInNewline(bugs[1..]);
      var rest := Printed(bugs[1..]);
      assert Printed(bugs) == bugs[0] + "\n" + rest;
      if rest != [] {
        assert Printed(bugs)[|Printed(bugs)| - 1] == rest[|rest| - 1];
      }
    }
  }

  /** Each bug with its newline, as `readlines` gives the lines back. */
  function BugLines(bugs: seq<string>): (lines: seq<string>)
    ensures |lines| == |bugs|
  {
    seq(|bugs|, i requires 0 <= i < |bugs| => bugs[i] + "\n")
  }

  /** The first bug's line, then the others'. */
  lemma BugLinesCons(bugs: seq<string>)
    requires bugs != []
    ensures BugLines(bugs) == [bugs[0] + "\n"] + BugLines(bugs[1..])
  {
    var r := [bugs[0] + "\n"] + BugLines(bugs[1..]);
    forall i | 0 <= i < |bugs| ensures BugLines(bugs)[i] == r[i] {
      if i > 0 {
        assert r[i] == BugLines(bugs[1..])[i - 1];
      }
    }
  }

  /** Printed bugs without newlines read back as one line per bug. */
  lemma {:induction false} PrintedLines(bugs: seq<string>)
    requires forall b | b in bugs :: '\n' !in b
    ensures Lines(Printed(bugs)) == BugLines(bugs)
    decreases |bugs|
  {
    if bugs != [] {
      assert bugs[0] in bugs;
      assert forall b | b in bugs[1..] :: b in bugs;
      PrintedLines(bugs[1..]);
      assert Printed(bugs) == bugs[0] + ("\n" + Printed(bugs[1..]));
      LinesCons(bugs[0], Printed(bugs[1..]));
      BugLinesCons(bugs);
    }
  }

  /** What `write` puts in the file: `# `, the serialised configuration
      with no newline after it, then the printed bugs. */
  function WrittenText(cfg: Config, bugs: seq<string>): (text: string)
    ensures |text| >= 2 && text[..2] == "# "
  {
    "# " + Serialized(cfg) + Printed(bugs)
  }

  /** What `write` writes passes the header check of `readBugFile`: its
      first line starts with `#`. */
  lemma WrittenHeaderPasses(cfg: Config, bugs: seq<string>)
    ensures var lines := Lines(WrittenText(cfg, bugs));
      |lines| >= 1 && |lines[0]| >= 1 && lines[0][0] == '#'
  {
    var t := WrittenText(cfg, bugs);
    assert t[0] == '#';
    var e := FirstLineEnd(t);
    assert Lines(t)[0] == t[..e];
  }

  /** With no newline in the configuration or the bugs, the header and the
      first bug share the first line of what `write` writes; each other bug
      is a line of its own. */
  lemma WrittenLines(cfg: Config, bugs: seq<string>)
    requires bugs != []
    requires '\n' !in Serialized(cfg)
    requires forall b | b in bugs :: '\n' !in b
    ensures Lines(WrittenText(cfg, bugs)) == ["# " + Serialized(cfg) + bugs[0] + "\n"] + BugLines(bugs[1..])
  {
    var l := "# " + Serialized(cfg) + bugs[0];
    var rest := Printed(bugs[1..]);
    WrittenTextSplit(cfg, bugs);
    assert bugs[0] in bugs;
    assert '\n' !in l;
    LinesCons(l, rest);
    assert forall b | b in bugs[1..] :: b in bugs;
    PrintedLines(bugs[1..]);
  }

  /** The text `write` writes: header and first bug, a newline, the rest. */
  lemma WrittenTextSplit(cfg: Config, bugs: seq<string>)
    requires bugs != []
    ensures WrittenText(cfg, bugs) == ("# " + Serialized(cfg) + bugs[0]) + ("\n" + Printed(bugs[1..]))
  {
    var h := "# " + Serialized(cfg);
    var rest := Printed(bugs[1..]);
    assert Printed(bugs) == bugs[0] + "\n" + rest;
    assert h + (bugs[0] + "\n" + rest) == (h + bugs[0]) + ("\n" + rest);
  }

  /** So reading back what `write` wrote keeps only the bugs after the
      first, each with its newline, and succeeds only when the third
      character of the shared first line is `=`. */
  lemma WriteThenRead(cfg: Config, bugs: seq<string>, fn: string)
    requires bugs != []
    requires '\n' !in Serialized(cfg)
    requires forall b | b in bugs :: '\n' !in b
    ensures var header := "# " + Serialized(cfg) + bugs[0] + "\n";
      var r := ReadOutcome([], fn, Decoded(Lines(WrittenText(cfg, bugs)))).1;
      && (r.Ok? <==> header[2] == '=')
      && (r.Ok? ==> r.value == BugLines(bugs[1..]))
  {
    WrittenLines(cfg, bugs);
    ReadBugFileIff([], fn, Lines(WrittenText(cfg, bugs)));
  }

  /** `BugDAO`: the file it reads and writes, its configuration and its
      bug list. */
  class BugDao {
    const filename: string
    var config: Config
    var bugs: seq<string>

    /** The fields as `__init__` sets them before reading the file. */
    constructor(filename: string)
      ensures this.filename == filename && config == [] && bugs == []
    {
      this.filename := filename;
      config := [];
      bugs := [];
    }

    /** The configuration is a dictionary. */
    predicate Valid()
      reads this
    {
      KeysDistinct(config)
    }

    /** `addBug`: the bug goes at the end of the list. */
    method AddBug(bug: string)
      modifies this
      ensures bugs == old(bugs) + [bug] && config == old(config)
    {
      bugs := bugs + [bug];
    }

    /** `parseConfig(s)`, loop for loop. */
    method ParseConfig(s: string) returns (r: Result<()>)
      modifies this
      ensures (config, r) == ParsedConfig(old(config), s)
      ensures bugs == old(bugs)
      ensures old(Valid()) ==> Valid()
    {
      if |s| < 3 {
        return Raise(IndexError);
      }
      var pairs := Split([s[2]], ' ');
      var i := 0;
      while i < |pairs|
        invariant 0 <= i <= |pairs|
        invariant ApplyPairs(old(config), pairs[..i]) == (config, Ok(()))
        invariant bugs == old(bugs)
        invariant old(Valid()) ==> Valid()
      {
        var kv := Split(pairs[i], '=');
        assert pairs[..i + 1][..i] == pairs[..i];
        if |kv| != 2 {
          assert ApplyPairs(old(config), pairs[..i + 1]) == (config, Raise(ValueError));
          assert pairs == pairs[..i + 1] + pairs[i + 1..];
          ApplyPairsStops(old(config), pairs[..i + 1], pairs[i + 1..]);
          return Raise(ValueError);
        }
        if Valid() {
          PutKeysDistinct(config, kv[0], kv[1]);
        }
        config := Put(config, kv[0], kv[1]);
        i := i + 1;
      }
      assert pairs[..i] == pairs;
      return Ok(());
    }

    /** `serializeConfig`, loop for loop. */
    method SerializeConfig() returns (s: string)
      ensures s == Serialized(config)
    {
      s := "";
      var i := 0;
      while i < |config|
        invariant 0 <= i <= |config|
        invariant s == Serialized(config[..i])
      {
        var (key, value) := config[i];
        assert config[..i + 1][..i] == config[..i];
        s := s + key + "=" + value;
        i := i + 1;
      }
      assert config[..i] == config;
    }

    /** `readBugFile`: read the file, check and parse the header, hand back
        the other lines. */
    method ReadBugFile(fs: FileSystem) returns (r: Result<seq<string>>)
      modifies this
      ensures (config, r) == ReadOutcome(old(config), filename, fs.read(filename))
      ensures bugs == old(bugs)
    {
      var input := fs.read(filename);
      if input.Missing? {
        return Raise(FileNotFoundError(filename));
      } else if input.Undecodable? {
        return Raise(UnicodeDecodeError(filename));
      }
      var lines := input.lines;
      if |lines| == 0 || |lines[0]| == 0 {
        return Raise(IndexError);
      }
      if lines[0][0] != '#' {
        return Raise(ValueError);
      }
      var p := ParseConfig(lines[0]);
      if p.Raise? {
        return Raise(p.error);
      }
      return Ok(lines[1..]);
    }

    /** `printBugs`: each bug on a line of its own. */
    method PrintBugs() returns (out: string)
      ensures out == Printed(bugs)
    {
      out := "";
      var i := 0;
      while i < |bugs|
        invariant 0 <= i <= |bugs|
        invariant out == Printed(bugs[..i])
      {
        PrintedAppend(bugs[..i], bugs[i]);
        assert bugs[..i + 1] == bugs[..i] + [bugs[i]];
        out := out + bugs[i] + "\n";
        i := i + 1;
      }
      assert bugs[..i] == bugs;
    }

    /** `write`: the text it puts in the file. */
    method Write() returns (out: string)
      ensures out == WrittenText(config, bugs)
    {
      var header := SerializeConfig();
      var printed := PrintBugs();
      out := "# " + header + printed;
    }
  }

  /** `BugDAO(filename)`: a fresh object whose configuration and bugs are
      what `readBugFile` gives from the empty configuration, or the
      exception that reading raised. */
  method Open(fs: FileSystem, filename: string) returns (r: Result<BugDao>)
    ensures var (cfg, res) := ReadOutcome([], filename, fs.read(filename));
      && (r.Ok? <==> res.Ok?)
      && (r.Raise? ==> r.error == res.error)
      && (r.Ok? ==> fresh(r.value) && r.value.filename == filename
                    && r.value.config == cfg && r.value.bugs == res.value && r.value.Valid())
  {
    var dao := new BugDao(filename);
    var b := dao.ReadBugFile(fs);
    if b.Raise? {
      return Raise(b.error);
    }
    ReadBugFileIff([], filename, fs.read(filename).lines);
    dao.bugs := b.value;
    return Ok(dao);
  }
}
