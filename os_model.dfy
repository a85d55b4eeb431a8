/** The operating system as the scanner sees it. The calls that consult the
    disk are oracles (fields of `FileSystem`); the purely lexical path
    operations of `pathlib` and `posixpath` are written out. POSIX paths. */
module Os {
  import opened Text

  /** `os.sep` / `os.path.sep` on POSIX. */
  const Sep: char := '/'

  /** What `open(path, 'r').readlines()` gives. */
  datatype FileRead =
    | Missing                        // FileNotFoundError
    | Undecodable                    // UnicodeDecodeError while decoding the bytes
    | Decoded(lines: seq<string>)    // the lines, newlines kept

  /** The disk, as the answers of the calls that consult it. */
  datatype FileSystem = FileSystem(
    abspath: string -> string,          // os.path.abspath
    isDir: string -> bool,              // Path(p).is_dir() and os.path.isdir(p)
    read: string -> FileRead,           // open(p, 'r').readlines()
    glob: string -> seq<string>,        // glob(pattern, recursive=True)
    listdir: string -> seq<string>      // os.listdir(p)
  )

  /** The anchor `pathlib.PurePosixPath` keeps: exactly two leading slashes
      stay `//`, one or three or more become `/`. */
  function PathRoot(s: string): string {
    if |s| >= 2 && s[0] == '/' && s[1] == '/' && (|s| == 2 || s[2] != '/') then "//"
    else if |s| >= 1 && s[0] == '/' then "/"
    else ""
  }

  /** The components `pathlib` keeps: empty and `.` components are dropped. */
  function PathParts(pieces: seq<string>): (parts: seq<string>)
    ensures forall p | p in parts :: p in pieces && p != "" && p != "."
    decreases |pieces|
  {
    if pieces == [] then []
    else if pieces[0] == "" || pieces[0] == "." then PathParts(pieces[1..])
    else [pieces[0]] + PathParts(pieces[1..])
  }

  /** `str(Path(s))`: pathlib's lexical normalisation (`..` is kept). */
  function PurePathStr(s: string): (r: string)
    ensures r != []
    ensures |s| >= 1 && s[0] == Sep ==> r[0] == Sep
  {
    var root := PathRoot(s);
    var parts := PathParts(Split(s, Sep));
    assert parts != [] ==> parts[0] in parts;
    if root == "" && parts == [] then "." else root + Join(parts, Sep)
  }

  /** `os.path.basename(p)`: what follows the last separator. */
  function Basename(p: string): (b: string)
    ensures |b| <= |p| && p[|p| - |b|..] == b
    ensures Sep !in b
    ensures |b| == |p| || p[|p| - |b| - 1] == Sep
    decreases |p|
  {
    if p == [] || p[|p| - 1] == Sep then []
    else Basename(p[..|p| - 1]) + [p[|p| - 1]]
  }
}
