/** `src/BugFileTreeNode.py`: a node of a file tree, named by the absolute
    form of its path, with its name, its parent and its children. The path
    is never reassigned, so a node is a value. */
module FileTreeNode {
  import opened Wrappers
  import opened Text
  import opened Os

  datatype BugFileTreeNode = BugFileTreeNode(path: string)

  /** `BugFileTreeNode(p)`: the node stores `os.path.abspath(p)`. */
  function Create(fs: FileSystem, p: string): BugFileTreeNode {
    BugFileTreeNode(fs.abspath(p))
  }

  /** `getPath`. */
  function GetPath(n: BugFileTreeNode): string {
    n.path
  }

  /** `getName`: `os.path.basename` of the stored path, the part of it
      after its last separator. */
  function GetName(n: BugFileTreeNode): (name: string)
    ensures |name| <= |n.path| && n.path[|n.path| - |name|..] == name
    ensures Sep !in name
    ensures |name| == |n.path| || n.path[|n.path| - |name| - 1] == Sep
  {
    Basename(n.path)
  }

  /** `_getRootDirectory`: the first separator-delimited piece of the
      absolute form of the stored path, which runs up to the first
      separator of that form, or is all of it. */
  function RootDirectory(fs: FileSystem, n: BugFileTreeNode): (root: string)
    ensures var a := fs.abspath(n.path);
      root <= a && Sep !in root && (|root| == |a| || a[|root|] == Sep)
  {
    var a := fs.abspath(n.path);
    SplitFirstPrefix(a, Sep);
    assert Split(a, Sep)[0] in Split(a, Sep);
    Split(a, Sep)[0]
  }

  /** The string `getParent` hands to the constructor: the pieces of `p`
      but the last, joined with the separator. */
  function ParentPath(p: string): string {
    var parts := Split(p, Sep);
    Join(parts[..|parts| - 1], Sep)
  }

  /** `getParent`: none when the stored path is the root directory,
      otherwise the node of the parent path. */
  function GetParent(fs: FileSystem, n: BugFileTreeNode): (parent: Option<BugFileTreeNode>)
    ensures parent.None? ==> Sep !in n.path && n.path <= fs.abspath(n.path)
  {
    if n.path == RootDirectory(fs, n) then None else Some(Create(fs, ParentPath(n.path)))
  }

  /** `basename` of a string ending in a separator and a piece without one
      is that piece. */
  lemma {:induction false} BasenameAfterSep(a: string, x: string)
    requires Sep !in x
    ensures Basename(a + [Sep] + x) == x
    decreases |x|
  {
    var p := a + [Sep] + x;
    if x != [] {
      assert p[|p| - 1] == x[|x| - 1];
      assert x[|x| - 1] in x;
      assert p[..|p| - 1] == a + [Sep] + x[..|x| - 1];
      assert forall c | c in x[..|x| - 1] :: c in x;
      BasenameAfterSep(a, x[..|x| - 1]);
      assert x[..|x| - 1] + [x[|x| - 1]] == x;
    }
  }

  /** `basename` of a string without a separator is the string. */
  lemma {:induction false} BasenameNoSep(x: string)
    requires Sep !in x
    ensures Basename(x) == x
    decreases |x|
  {
    if x != [] {
      assert x[|x| - 1] in x;
      assert forall c | c in x[..|x| - 1] :: c in x;
      BasenameNoSep(x[..|x| - 1]);
      assert x[..|x| - 1] + [x[|x| - 1]] == x;
    }
  }

  /** The name of a node is the last separator-delimited piece of its path. */
  lemma NameIsLastComponent(n: BugFileTreeNode)
    ensures var parts := Split(n.path, Sep);
      GetName(n) == parts[|parts| - 1]
  {
    if |Split(n.path, Sep)| == 1 {
      BasenameOnePiece(n.path);
    } else {
      BasenameLastPiece(n.path);
    }
  }

  lemma BasenameOnePiece(p: string)
    requires |Split(p, Sep)| == 1
    ensures Basename(p) == Split(p, Sep)[0]
  {
    var parts := Split(p, Sep);
    JoinSplit(p, Sep);
    assert p == parts[0];
    assert parts[0] in parts;
    BasenameNoSep(p);
  }

  lemma BasenameLastPiece(p: string)
    requires |Split(p, Sep)| >= 2
    ensures var parts := Split(p, Sep);
      Basename(p) == parts[|parts| - 1]
  {
    var parts := Split(p, Sep);
    var x := parts[|parts| - 1];
    SplitLast(p, Sep);
    assert x in parts;
    BasenameAfterSep(Join(parts[..|parts| - 1], Sep), x);
  }

  /** The parent path has the pieces of the path but the last (one piece
      fewer, before `abspath` normalises it); the parent path, a separator
      and the name give the path back. */
  lemma ParentDropsLastComponent(p: string)
    requires |Split(p, Sep)| >= 2
    ensures var parts := Split(p, Sep);
      Split(ParentPath(p), Sep) == parts[..|parts| - 1]
    ensures ParentPath(p) + [Sep] + Basename(p) == p
  {
    var parts := Split(p, Sep);
    var k := |parts|;
    var init := parts[..k - 1];
    assert ParentPath(p) == Join(init, Sep);
    forall x | x in init ensures Sep !in x {
      assert x in parts;
    }
    SplitJoin(init, Sep);
    SplitLast(p, Sep);
    NameIsLastComponent(BugFileTreeNode(p));
    assert GetName(BugFileTreeNode(p)) == Basename(p);
  }

  /** `getChildren`: nothing for a path that is not a directory; otherwise
      one node per listing entry, in listing order, at the path, a
      separator and the entry. */
  method GetChildren(fs: FileSystem, n: BugFileTreeNode) returns (children: seq<BugFileTreeNode>)
    ensures !fs.isDir(n.path) ==> children == []
    ensures fs.isDir(n.path) ==>
      && |children| == |fs.listdir(n.path)|
      && forall i | 0 <= i < |children| :: children[i] == Create(fs, n.path + [Sep] + fs.listdir(n.path)[i])
  {
    children := [];
    if !fs.isDir(n.path) {
      return;
    }
    var names := fs.listdir(n.path);
    var i := 0;
    while i < |names|
      invariant 0 <= i <= |names|
      invariant |children| == i
      invariant forall j | 0 <= j < i :: children[j] == Create(fs, n.path + [Sep] + names[j])
    {
      children := children + [Create(fs, n.path + [Sep] + names[i])];
      i := i + 1;
    }
  }

  /** A child named by a plain entry has that entry as its name and the
      node it was listed under as its parent, when `abspath` leaves both
      paths as they are. */
  lemma ChildParent(fs: FileSystem, n: BugFileTreeNode, name: string)
    requires Sep !in name && n.path != []
    requires fs.abspath(n.path) == n.path
    requires fs.abspath(n.path + [Sep] + name) == n.path + [Sep] + name
    ensures GetName(Create(fs, n.path + [Sep] + name)) == name
    ensures GetParent(fs, Create(fs, n.path + [Sep] + name)) == Some(n)
  {
    var c := n.path + [Sep] + name;
    BasenameAfterSep(n.path, name);
    assert c[|n.path|] == Sep;
    SplitFirstNotWhole(c, Sep);
    SplitSnoc(n.path, name, Sep);
    var parts := Split(c, Sep);
    assert parts[..|parts| - 1] == Split(n.path, Sep);
    JoinSplit(n.path, Sep);
  }

  /** As written, the root directory of a node whose absolute path starts
      with the separator is the empty first piece of that path. */
  lemma RootDirectoryIsEmpty(fs: FileSystem, n: BugFileTreeNode)
    requires fs.abspath(n.path) != [] && fs.abspath(n.path)[0] == Sep
    ensures RootDirectory(fs, n) == ""
  {
  }

  /** As written, `getParent` never answers `None` for a node built by the
      constructor on POSIX: the stored path is never empty. */
  lemma ParentNeverNone(fs: FileSystem, n: BugFileTreeNode)
    requires n.path != []
    requires fs.abspath(n.path) != [] && fs.abspath(n.path)[0] == Sep
    ensures GetParent(fs, n).Some?
  {
    RootDirectoryIsEmpty(fs, n);
  }

  /** As written, the parent of the root directory `/` is the node of the
      empty path, whose absolute form is the working directory. */
  lemma RootParentIsWorkingDir(fs: FileSystem)
    requires fs.abspath([Sep]) == [Sep]
    ensures GetParent(fs, BugFileTreeNode([Sep])) == Some(Create(fs, ""))
  {
    var parts := Split([Sep], Sep);
    SplitOne(Sep, Sep);
    assert parts[..1] == [[]];
  }

  /** As written, the parent of a top-level entry `/name` is the node of
      the empty path too, not the root `/`. */
  lemma TopLevelParentIsWorkingDir(fs: FileSystem, name: string)
    requires Sep !in name
    requires fs.abspath([Sep] + name) == [Sep] + name
    ensures GetParent(fs, BugFileTreeNode([Sep] + name)) == Some(Create(fs, ""))
  {
    var p := [Sep] + name;
    RootDirectoryIsEmpty(fs, BugFileTreeNode(p));
    SplitSnoc([], name, Sep);
    assert [] + [Sep] + name == p;
    var parts := Split(p, Sep);
    assert parts == [[], name];
    assert parts[..|parts| - 1] == [[]];
  }

  /** The parent path `getParent` evidently means for an absolute path: none
      for the root `/`, the root for a path of one piece, otherwise the path
      without its last piece. */
  function ParentPathIntended(p: string): Option<string> {
    if p == [Sep] then None
    else
      var q := ParentPath(p);
      Some(if q == [] then [Sep] else q)
  }

  /** `getParent` as evidently meant. */
  function GetParentIntended(fs: FileSystem, n: BugFileTreeNode): Option<BugFileTreeNode> {
    match ParentPathIntended(n.path)
    case None => None
    case Some(q) => Some(Create(fs, q))
  }

  /** Corrected, only the root has no parent, and every other absolute path
      has an absolute parent that is a strictly shorter prefix of it. */
  lemma ParentIntendedShrinks(p: string)
    requires |p| >= 1 && p[0] == Sep
    ensures ParentPathIntended(p).None? <==> p == [Sep]
    ensures ParentPathIntended(p).Some? ==>
      var q := ParentPathIntended(p).value;
      |q| >= 1 && q[0] == Sep && |q| < |p| && q <= p
  {
    if p != [Sep] {
      var parts := Split(p, Sep);
      assert p == [p[0]] + p[1..];
      assert |parts| >= 2;
      SplitLast(p, Sep);
      var q := ParentPath(p);
      assert p == q + [Sep] + parts[|parts| - 1];
      assert q <= p;
      if q == [] {
        assert |p| >= 2;
      } else {
        assert q[0] == p[0];
      }
    }
  }

  /** Corrected, walking up parent by parent from an absolute path ends at
      the root `/`, every step an absolute prefix of the one before. */
  function RootwardWalk(p: string): (walk: seq<string>)
    requires |p| >= 1 && p[0] == Sep
    ensures |walk| >= 1 && walk[0] == p && walk[|walk| - 1] == [Sep]
    ensures forall i | 0 <= i < |walk| - 1 :: |walk[i + 1]| < |walk[i]| && walk[i + 1] <= walk[i]
    decreases |p|
  {
    ParentIntendedShrinks(p);
    match ParentPathIntended(p)
    case None => [p]
    case Some(q) => [p] + RootwardWalk(q)
  }

  /** Corrected, `getParent` of a node at an absolute path is `None`
      exactly at the root. */
  lemma GetParentIntendedNoneIff(fs: FileSystem, n: BugFileTreeNode)
    requires |n.path| >= 1 && n.path[0] == Sep
    ensures GetParentIntended(fs, n).None? <==> n.path == [Sep]
  {
    ParentIntendedShrinks(n.path);
  }
}
