/*
 * The part of System.IO the generator uses, over a disk held as a map from
 * full paths ('/'-separated) to entries.  Each operation is a function that
 * gives the new map or the exception .NET would throw; the class Disk holds
 * the map and applies one operation per method call, as the source's
 * statements do.
 */
module FileSystem {
  import opened Common

  datatype Node = Directory | File(content: string)

  type Entries = map<string, Node>

  /** The exceptions the operations can raise, by cause. */
  datatype IoError =
      /** DirectoryNotFoundException / FileNotFoundException: the source is not there. */
    | SourceMissing(path: string)
      /** DirectoryNotFoundException: the folder that should hold the destination is not there. */
    | ParentMissing(path: string)
      /** IOException: something already exists at the destination. */
    | DestinationExists(path: string)
      /** IOException: a folder moved onto itself or into its own subtree. */
    | MoveIntoItself(path: string)
      /** IOException / UnauthorizedAccessException: a file stands where a folder is needed, or the reverse. */
    | WrongKind(path: string)
      /** ArgumentException: an empty path. */
    | EmptyPath

  /** p lies strictly below the folder dir. */
  predicate Under(p: string, dir: string) {
    |dir| < |p| && p[..|dir|] == dir && p[|dir|] == '/'
  }

  /** p is dir or lies below it: the subtree a folder move carries. */
  predicate Within(p: string, dir: string) {
    p == dir || Under(p, dir)
  }

  predicate IsDir(e: Entries, p: string) {
    p in e && e[p] == Directory
  }

  predicate IsFile(e: Entries, p: string) {
    p in e && e[p].File?
  }

  /** Every folder that holds an entry is itself a folder on the disk. */
  ghost predicate WellFormed(e: Entries) {
    forall p, d :: p in e && Under(p, d) && d != [] ==> IsDir(e, d)
  }

  /** A folder path ready to have a name appended: with a trailing separator unless it is empty or has one. */
  function WithSeparator(dir: string): string {
    if dir == [] || dir[|dir| - 1] == '/' then dir else dir + "/"
  }

  /**
   * Path.Combine with '/' as the separator: a rooted second part stands
   * alone, an empty part adds nothing, and a separator is put between
   * the parts unless the first already ends in one.
   */
  function PathCombine(dir: string, name: string): (r: string)
    ensures name != [] && name[0] == '/' ==> r == name
    ensures name == [] ==> r == dir
    ensures dir == [] ==> r == name
    ensures dir != [] && dir[|dir| - 1] != '/' && name != [] && name[0] != '/' ==> r == dir + "/" + name
    ensures dir != [] && dir[|dir| - 1] == '/' && name != [] && name[0] != '/' ==> r == dir + name
    ensures name != [] && name[0] != '/' ==> r == WithSeparator(dir) + name
    ensures EndsWith(r, name)
  {
    if name != [] && name[0] == '/' then name
    else if dir == [] then name
    else if name == [] then dir
    else if dir[|dir| - 1] == '/' then
      assert (dir + name)[|dir + name| - |name|..] == name;
      dir + name
    else
      assert (dir + "/" + name)[|dir + "/" + name| - |name|..] == name;
      dir + "/" + name
  }

  /** Path.GetDirectoryName: the text before the last separator, or empty when there is none. */
  function ParentOf(p: string): (d: string)
    ensures d == [] || Under(p, d)
    ensures d != [] ==> forall j :: |d| < j < |p| ==> p[j] != '/'
  {
    if p == [] then []
    else if p[|p| - 1] == '/' then p[..|p| - 1]
    else
      var d := ParentOf(p[..|p| - 1]);
      assert d != [] ==> p[..|d|] == p[..|p| - 1][..|d|];
      d
  }

  /** Where an entry of the subtree src lands when src is moved to dst. */
  function Relocate(p: string, src: string, dst: string): string
    requires Within(p, src)
  {
    dst + p[|src|..]
  }

  /** The entry at r after the move: the one whose relocated path r is. */
  function Origin(r: string, src: string, dst: string): string
    requires |dst| <= |r|
  {
    src + r[|dst|..]
  }

  /** The disk after the subtree src has been moved to dst; entries outside src stay as they are. */
  function Relocated(e: Entries, src: string, dst: string): Entries {
    var targets := set p | p in e && Within(p, src) :: Relocate(p, src, dst);
    var moved := map r | r in targets && |dst| <= |r| && Origin(r, src, dst) in e :: e[Origin(r, src, dst)];
    var kept := map p | p in e && !Within(p, src) :: e[p];
    moved + kept
  }

  /** Directory.Move: the source must exist, the destination must not, and its folder must. */
  function DirectoryMove(e: Entries, src: string, dst: string): (r: Result<Entries, IoError>)
    ensures r.Ok? ==> src in e && dst !in e && !Within(dst, src)
    ensures r.Ok? ==> forall p :: p in e && !Within(p, src) ==> p in r.value && r.value[p] == e[p]
  {
    if src == dst then Err(MoveIntoItself(dst))
    else if src !in e then Err(SourceMissing(src))
    else if dst in e then Err(DestinationExists(dst))
    else if ParentOf(dst) != [] && !IsDir(e, ParentOf(dst)) then Err(ParentMissing(dst))
    else if Under(dst, src) then Err(MoveIntoItself(dst))
    else Ok(Relocated(e, src, dst))
  }

  /** File.Move without overwrite. */
  function FileMove(e: Entries, src: string, dst: string): (r: Result<Entries, IoError>)
    ensures r.Ok? ==> IsFile(e, src) && dst !in e
    ensures r.Ok? ==> r.value.Keys == e.Keys - {src} + {dst} && r.value[dst] == e[src]
    ensures r.Ok? ==> forall p :: p in e && p != src ==> r.value[p] == e[p]
  {
    if !IsFile(e, src) then Err(SourceMissing(src))
    else if dst in e then Err(DestinationExists(dst))
    else if ParentOf(dst) != [] && !IsDir(e, ParentOf(dst)) then Err(ParentMissing(dst))
    else Ok(e - {src} + map[dst := e[src]])
  }

  /** File.Delete: a missing file is not an error. */
  function FileDelete(e: Entries, p: string): (r: Result<Entries, IoError>)
    ensures r.Ok? ==> p !in r.value && forall q :: q in e && q != p ==> q in r.value && r.value[q] == e[q]
  {
    if IsDir(e, p) then Err(WrongKind(p))
    else Ok(e - {p})
  }

  /** The folder p and every folder on the way to it. */
  function Ancestry(p: string): set<string> {
    set k | 0 < k <= |p| && (k == |p| || p[k] == '/') :: p[..k]
  }

  /** Directory.CreateDirectory: creates p and its missing ancestors; a file in the way is an error. */
  function CreateDirectory(e: Entries, p: string): (r: Result<Entries, IoError>)
    ensures r.Ok? ==> IsDir(r.value, p)
    ensures r.Ok? ==> forall q :: q in e ==> q in r.value && r.value[q] == e[q]
    ensures r.Ok? ==> forall q :: q in r.value && q !in e ==> r.value[q] == Directory && q in Ancestry(p)
  {
    if p == [] then Err(EmptyPath)
    else if exists a :: a in Ancestry(p) && IsFile(e, a) then Err(WrongKind(p))
    else
      assert p == p[..|p|] && p in Ancestry(p);
      Ok(e + map a | a in Ancestry(p) && a !in e :: Directory)
  }

  /** File.ReadAllText. */
  function ReadAllText(e: Entries, p: string): (r: Result<string, IoError>)
    ensures r.Ok? ==> IsFile(e, p) && r.value == e[p].content
  {
    if IsFile(e, p) then Ok(e[p].content) else Err(SourceMissing(p))
  }

  /** File.WriteAllText: creates or replaces the file; its folder must exist. */
  function WriteAllText(e: Entries, p: string, content: string): (r: Result<Entries, IoError>)
    ensures r.Ok? ==> r.value == e[p := File(content)]
  {
    if p == [] then Err(EmptyPath)
    else if IsDir(e, p) then Err(WrongKind(p))
    else if ParentOf(p) != [] && !IsDir(e, ParentOf(p)) then Err(ParentMissing(p))
    else Ok(e[p := File(content)])
  }

  /** Directory.Delete(p, recursive: true): the folder and everything below it go. */
  function DeleteTree(e: Entries, p: string): (r: Result<Entries, IoError>)
    ensures r.Ok? ==> IsDir(e, p)
    ensures r.Ok? ==> forall q :: q in r.value <==> q in e && !Within(q, p)
    ensures r.Ok? ==> forall q :: q in r.value ==> r.value[q] == e[q]
  {
    if !IsDir(e, p) then Err(SourceMissing(p))
    else Ok(map q | q in e && !Within(q, p) :: e[q])
  }

  /** The folders strictly below root (Directory.GetDirectories with AllDirectories). */
  function DirectoriesUnder(e: Entries, root: string): set<string> {
    set p | p in e && Under(p, root) && e[p] == Directory
  }

  /** The files strictly below root (Directory.GetFiles with AllDirectories). */
  function FilesUnder(e: Entries, root: string): set<string> {
    set p | p in e && Under(p, root) && e[p].File?
  }

  /** ps lists the set s, each element once, in some order. */
  predicate IsListing(ps: seq<string>, s: set<string>) {
    (forall i, j :: 0 <= i < j < |ps| ==> ps[i] != ps[j]) && (set p | p in ps) == s
  }

  /** Where a sequence of operations stopped: the disk, and the exception that ended it, if any. */
  datatype Run = Run(entries: Entries, failure: Option<IoError>)

  /** One operation applied to e: its new disk when it succeeded, e and its exception when it threw. */
  function Step(r: Result<Entries, IoError>, e: Entries): Run {
    match r
    case Ok(e') => Run(e', None)
    case Err(x) => Run(e, Some(x))
  }

  // ---------------------------------------------------------------------
  // What the operations promise.

  /** A relocated path lies in dst's subtree and leads back to the entry it came from. */
  lemma RelocateRoundTrip(p: string, src: string, dst: string)
    requires Within(p, src)
    ensures Within(Relocate(p, src, dst), dst)
    ensures Origin(Relocate(p, src, dst), src, dst) == p
  {
    var r := Relocate(p, src, dst);
    assert r[|dst|..] == p[|src|..];
    assert p == src + p[|src|..];
    assert p != src ==> r[..|dst|] == dst && r[|dst|] == p[|src|];
  }

  /**
   * Every entry of the moved subtree lands at its relocated path, unchanged,
   * when nothing outside src was in dst's subtree.
   */
  lemma MoveCarries(e: Entries, src: string, dst: string, p: string)
    requires DirectoryMove(e, src, dst).Ok?
    requires p in e && Within(p, src)
    requires forall q :: q in e && !Within(q, src) ==> !Within(q, dst)
    ensures Relocate(p, src, dst) in DirectoryMove(e, src, dst).value
    ensures DirectoryMove(e, src, dst).value[Relocate(p, src, dst)] == e[p]
  {
    RelocateRoundTrip(p, src, dst);
    var r := Relocate(p, src, dst);
    assert r !in (map q | q in e && !Within(q, src) :: e[q]);
  }

  /** On a well-formed disk nothing lies below a folder that does not exist. */
  lemma NothingUnderAbsent(e: Entries, dst: string, q: string)
    requires WellFormed(e) && dst != [] && dst !in e && q in e
    ensures !Within(q, dst)
  {
  }

  /** A path relocated from src to dst is not in src's subtree when neither folder holds the other. */
  lemma RelocatedLeavesSource(q: string, src: string, dst: string)
    requires Within(q, src) && src != dst && !Under(dst, src) && !Under(src, dst)
    ensures !Within(Relocate(q, src, dst), src)
  {
    var r := Relocate(q, src, dst);
    var x := q[|src|..];
    assert r == dst + x && r[..|dst|] == dst;
    assert q == src + x;
    assert x == [] || x[0] == '/';
    assert |r| > |dst| ==> r[|dst|] == x[0];
    assert |dst| <= |src| <= |r| ==> r[..|src|][..|dst|] == dst;
    assert |src| < |dst| <= |r| ==> r[..|src|] == dst[..|src|] && r[|src|] == dst[|src|];
  }

  /**
   * After a successful move on a well-formed disk no entry is left at or
   * below the old folder: the whole subtree has gone to its new place.
   */
  lemma MoveLeavesNothingBehind(e: Entries, src: string, dst: string, p: string)
    requires WellFormed(e) && DirectoryMove(e, src, dst).Ok? && dst != []
    requires Within(p, src)
    ensures p !in DirectoryMove(e, src, dst).value
  {
    assert !Under(src, dst);
    forall q | q in e && Within(q, src)
      ensures Relocate(q, src, dst) != p
    {
      RelocatedLeavesSource(q, src, dst);
    }
  }

  /** Being below a folder carries over: what lies in d's subtree, with d in f's, lies in f's. */
  lemma WithinTransitive(p: string, d: string, f: string)
    requires Within(p, d) && Within(d, f)
    ensures Within(p, f)
  {
    if p != d && d != f {
      assert p[..|f|] == p[..|d|][..|f|];
      assert p[|f|] == p[..|d|][|f|];
    }
  }

  /** Two folders holding the same path are one inside the other. */
  lemma WithinComparable(p: string, a: string, b: string)
    requires Within(p, a) && Within(p, b)
    ensures Within(a, b) || Within(b, a)
  {
    if |a| <= |b| {
      assert b[..|a|] == p[..|b|][..|a|] == a;
      assert |a| < |b| ==> b[|a|] == p[|a|];
    } else {
      assert a[..|b|] == p[..|a|][..|b|] == b;
      assert a[|b|] == p[|b|];
    }
  }

  /** Deleting a folder with its subtree leaves a well-formed disk well formed. */
  lemma DeleteTreeKeepsWellFormed(e: Entries, p: string)
    requires WellFormed(e) && DeleteTree(e, p).Ok?
    ensures WellFormed(DeleteTree(e, p).value)
  {
    var r := DeleteTree(e, p).value;
    forall q, d | q in r && Under(q, d) && d != []
      ensures IsDir(r, d)
    {
      if Within(d, p) {
        WithinTransitive(q, d, p);
      }
    }
  }

  // ---------------------------------------------------------------------
  // The disk as the program sees it: one mutable map.

  class Disk {
    var entries: Entries

    constructor (initial: Entries)
      ensures entries == initial
    {
      entries := initial;
    }

    predicate DirectoryExists(p: string)
      reads this
    {
      IsDir(entries, p)
    }

    predicate FileExists(p: string)
      reads this
    {
      IsFile(entries, p)
    }

    /** File.ReadAllText. */
    method ReadText(p: string) returns (content: string, err: Option<IoError>)
      ensures ReadAllText(entries, p) == if err.None? then Ok(content) else Err(err.value)
    {
      var r := ReadAllText(entries, p);
      if r.Ok? {
        content, err := r.value, None;
      } else {
        content, err := [], Some(r.error);
      }
    }

    method MoveDirectory(src: string, dst: string) returns (err: Option<IoError>)
      modifies this
      ensures Run(entries, err) == Step(DirectoryMove(old(entries), src, dst), old(entries))
    {
      var r := DirectoryMove(entries, src, dst);
      if r.Ok? {
        entries := r.value;
        err := None;
      } else {
        err := Some(r.error);
      }
    }

    method MoveFile(src: string, dst: string) returns (err: Option<IoError>)
      modifies this
      ensures Run(entries, err) == Step(FileMove(old(entries), src, dst), old(entries))
    {
      var r := FileMove(entries, src, dst);
      if r.Ok? {
        entries := r.value;
        err := None;
      } else {
        err := Some(r.error);
      }
    }

    method DeleteFile(p: string) returns (err: Option<IoError>)
      modifies this
      ensures Run(entries, err) == Step(FileDelete(old(entries), p), old(entries))
    {
      var r := FileDelete(entries, p);
      if r.Ok? {
        entries := r.value;
        err := None;
      } else {
        err := Some(r.error);
      }
    }

    method CreateFolder(p: string) returns (err: Option<IoError>)
      modifies this
      ensures Run(entries, err) == Step(CreateDirectory(old(entries), p), old(entries))
    {
      var r := CreateDirectory(entries, p);
      if r.Ok? {
        entries := r.value;
        err := None;
      } else {
        err := Some(r.error);
      }
    }

    method DeleteFolder(p: string) returns (err: Option<IoError>)
      modifies this
      ensures Run(entries, err) == Step(DeleteTree(old(entries), p), old(entries))
    {
      var r := DeleteTree(entries, p);
      if r.Ok? {
        entries := r.value;
        err := None;
      } else {
        err := Some(r.error);
      }
    }

    method WriteText(p: string, content: string) returns (err: Option<IoError>)
      modifies this
      ensures Run(entries, err) == Step(WriteAllText(old(entries), p, content), old(entries))
    {
      var r := WriteAllText(entries, p, content);
      if r.Ok? {
        entries := r.value;
        err := None;
      } else {
        err := Some(r.error);
      }
    }

    /** The members of a set of paths in whatever order the disk returns them. */
    method ListOf(s: set<string>) returns (ps: seq<string>)
      ensures IsListing(ps, s)
    {
      ps := [];
      var rest := s;
      while rest != {}
        invariant forall i, j :: 0 <= i < j < |ps| ==> ps[i] != ps[j]
        invariant (set p | p in ps) !! rest && (set p | p in ps) + rest == s
        decreases |rest|
      {
        var p :| p in rest;
        assert p !in (set q | q in ps);
        ps := ps + [p];
        rest := rest - {p};
      }
    }

    method GetDirectories(root: string) returns (ps: seq<string>)
      ensures IsListing(ps, DirectoriesUnder(entries, root))
    {
      ps := ListOf(DirectoriesUnder(entries, root));
    }

    method GetFiles(root: string) returns (ps: seq<string>)
      ensures IsListing(ps, FilesUnder(entries, root))
    {
      ps := ListOf(FilesUnder(entries, root));
    }
  }
}
