/** An in-memory file tree and the operating-system calls the ingest code
    makes on it (os.path.exists, os.makedirs, os.rename, os.remove,
    open(..., "w"), zipfile's extractall, shutil.move, shutil.rmtree).
    Each call either succeeds with a new tree or fails with the error the
    Python call raises; a failed call leaves the tree as it was, except
    extractall, which keeps the members written before the failing one. */
module FileSystem {
  import opened Paths

  /** A stored file: plain bytes, or a zip archive whose members, in archive
      order, are relative paths with their contents. */
  datatype Node = Data(content: seq<bv8>) | Zip(entries: seq<Entry>)
  datatype Entry = Entry(name: Path, node: Node)

  /** Files by path, and the set of directories. The root [] is always a
      directory. */
  datatype Tree = Tree(files: map<Path, Node>, dirs: set<Path>)

  datatype OsError =
    | FileNotFound(path: Path)
    | IsADirectory(path: Path)
    | NotADirectory(path: Path)
    | FileExists(path: Path)
    | BadZipFile(path: Path)
    | DestinationExists(path: Path)
    | RecursionLimit

  /** The text Python prints for the exception. */
  function Describe(e: OsError): string
  {
    match e
    case FileNotFound(p) => "[Errno 2] No such file or directory: '" + Render(p) + "'"
    case IsADirectory(p) => "[Errno 21] Is a directory: '" + Render(p) + "'"
    case NotADirectory(p) => "[Errno 20] Not a directory: '" + Render(p) + "'"
    case FileExists(p) => "[Errno 17] File exists: '" + Render(p) + "'"
    case BadZipFile(_) => "File is not a zip file"
    case DestinationExists(p) => "Destination path '" + Render(p) + "' already exists"
    case RecursionLimit => "maximum recursion depth exceeded"
  }

  /** The tree after a call, and the error if the call raised. */
  datatype Option<T> = None | Some(value: T)

  datatype FsResult = Ok(tree: Tree) | Err(tree: Tree, error: OsError)

  predicate IsDir(t: Tree, p: Path)
  {
    p == [] || p in t.dirs
  }

  /** os.path.exists */
  predicate Exists(t: Tree, p: Path)
  {
    p in t.files || IsDir(t, p)
  }

  /** Some folder strictly above p is in fact a file. */
  predicate FileAbove(t: Tree, p: Path)
  {
    exists i :: 1 <= i < |p| && p[..i] in t.files
  }

  function Prefixes(p: Path): set<Path>
  {
    set i | 1 <= i <= |p| :: p[..i]
  }

  function StrictPrefixes(p: Path): set<Path>
  {
    set i | 1 <= i < |p| :: p[..i]
  }

  /** The files a walk of `dir` finds, in the order the model visits them. */
  function Walk(t: Tree, dir: Path): (r: seq<Path>)
    ensures forall i :: 0 <= i < |r| ==> r[i] in t.files && Under(r[i], dir)
    ensures forall p :: p in t.files && Under(p, dir) ==> p in r
    ensures forall i, j :: 0 <= i < j < |r| ==> r[i] != r[j]
  {
    var s := set p | p in t.files && Under(p, dir);
    var r := Sorted(s);
    assert forall i :: 0 <= i < |r| ==> r[i] in s by {
      forall i | 0 <= i < |r| ensures r[i] in s { assert r[i] in r; }
    }
    r
  }

  /** os.makedirs(p, exist_ok=True) */
  function MakeDirs(t: Tree, p: Path): (r: FsResult)
    ensures r.Ok? <==> p !in t.files && !FileAbove(t, p)
    ensures r.Ok? ==> r.tree.files == t.files && t.dirs <= r.tree.dirs && IsDir(r.tree, p)
    ensures r.Ok? ==> forall q :: q in r.tree.dirs ==> q in t.dirs || q in Prefixes(p)
    // every folder on the way to p exists afterwards
    ensures r.Ok? ==> Prefixes(p) <= r.tree.dirs
    ensures r.Err? ==> r.tree == t
  {
    if p in t.files then Err(t, FileExists(p))
    else if FileAbove(t, p) then Err(t, NotADirectory(p))
    else
      assert p != [] ==> p[..|p|] == p && p[..|p|] in Prefixes(p);
      Ok(Tree(t.files, t.dirs + Prefixes(p)))
  }

  /** os.remove(p) */
  function Remove(t: Tree, p: Path): (r: FsResult)
    ensures r.Ok? <==> p in t.files
    ensures r.Ok? ==> r.tree == Tree(t.files - {p}, t.dirs)
    ensures r.Err? ==> r.tree == t
  {
    if p in t.files then Ok(Tree(t.files - {p}, t.dirs))
    else if IsDir(t, p) then Err(t, IsADirectory(p))
    else Err(t, FileNotFound(p))
  }

  /** os.rename(src, dst) for a file src (POSIX: an existing file at dst is
      replaced). A source that is not a file fails as missing. */
  function Rename(t: Tree, src: Path, dst: Path): (r: FsResult)
    ensures r.Ok? <==> src in t.files && !IsDir(t, dst) && IsDir(t, Parent(dst))
    ensures r.Ok? ==> r.tree.dirs == t.dirs && dst in r.tree.files && r.tree.files[dst] == t.files[src]
    ensures r.Ok? && src != dst ==> src !in r.tree.files
    ensures r.Ok? ==> r.tree.files == (t.files - {src})[dst := t.files[src]]
    ensures r.Ok? ==> forall q :: q != src && q != dst ==>
              (q in r.tree.files <==> q in t.files) && (q in t.files ==> r.tree.files[q] == t.files[q])
    ensures r.Err? ==> r.tree == t
  {
    if src !in t.files then Err(t, FileNotFound(src))
    else if IsDir(t, dst) then Err(t, IsADirectory(dst))
    else if !IsDir(t, Parent(dst)) then Err(t, FileNotFound(dst))
    else Ok(Tree((t.files - {src})[dst := t.files[src]], t.dirs))
  }

  /** open(p, "w"): creates or truncates a file in an existing folder. */
  function OpenForWrite(t: Tree, p: Path): (r: FsResult)
    ensures r.Ok? <==> !IsDir(t, p) && IsDir(t, Parent(p))
    ensures r.Ok? ==> r.tree == Tree(t.files[p := Data([])], t.dirs)
    ensures r.Err? ==> r.tree == t
  {
    if IsDir(t, p) then Err(t, IsADirectory(p))
    else if !IsDir(t, Parent(p)) then
      Err(t, if Parent(p) in t.files then NotADirectory(p) else FileNotFound(p))
    else Ok(Tree(t.files[p := Data([])], t.dirs))
  }

  /** Writing one archive member: missing folders above it are created. */
  function ExtractMember(t: Tree, p: Path, n: Node): (r: FsResult)
    ensures r.Ok? <==> !IsDir(t, p) && !FileAbove(t, p)
    ensures r.Ok? ==> r.tree.files == t.files[p := n] && t.dirs <= r.tree.dirs
    ensures r.Err? ==> r.tree == t
  {
    if IsDir(t, p) then Err(t, IsADirectory(p))
    else if FileAbove(t, p) then Err(t, NotADirectory(p))
    else Ok(Tree(t.files[p := n], t.dirs + StrictPrefixes(p)))
  }

  /** No member after the i-th has its name, so extraction leaves the i-th's data there. */
  predicate LastOfName(es: seq<Entry>, i: int)
  {
    0 <= i < |es| && forall j :: i < j < |es| ==> es[j].name != es[i].name
  }

  /** ZipFile.extractall(dest): members written one by one in archive order;
      a later member with the same name overwrites an earlier one. */
  function ExtractAll(t: Tree, dest: Path, es: seq<Entry>): (r: FsResult)
    // nothing is removed
    ensures forall q :: q in t.files ==> q in r.tree.files
    // files no member is written to keep their contents
    ensures forall q :: q in t.files && (forall i :: 0 <= i < |es| ==> q != dest + es[i].name) ==>
              r.tree.files[q] == t.files[q]
    // the only new files are members
    ensures forall q :: q in r.tree.files && q !in t.files ==>
              exists i :: 0 <= i < |es| && q == dest + es[i].name
    // on success every member is there
    ensures r.Ok? ==> forall i :: 0 <= i < |es| ==> dest + es[i].name in r.tree.files
    // on success each member holds its data, unless a later member has its name
    ensures r.Ok? ==> forall i :: 0 <= i < |es| && LastOfName(es, i) ==>
              dest + es[i].name in r.tree.files && r.tree.files[dest + es[i].name] == es[i].node
    ensures t.dirs <= r.tree.dirs
    decreases |es|
  {
    if es == [] then Ok(t)
    else
      match ExtractMember(t, dest + es[0].name, es[0].node)
      case Err(t1, e) => Err(t1, e)
      case Ok(t1) =>
        var r := ExtractAll(t1, dest, es[1..]);
        ExtractAllFrame(t, t1, r, dest, es);
        if r.Ok? then ExtractAllStep(t1, r.tree, dest, es); r else r
  }

  /** Writing the first member and then the rest keeps the frame of ExtractAll. */
  lemma ExtractAllFrame(t: Tree, t1: Tree, r: FsResult, dest: Path, es: seq<Entry>)
    requires es != []
    requires t1.files == t.files[dest + es[0].name := es[0].node] && t.dirs <= t1.dirs
    requires forall q :: q in t1.files ==> q in r.tree.files
    requires forall q :: q in t1.files && (forall i :: 0 <= i < |es[1..]| ==> q != dest + es[1..][i].name) ==>
               r.tree.files[q] == t1.files[q]
    requires forall q :: q in r.tree.files && q !in t1.files ==>
               exists i :: 0 <= i < |es[1..]| && q == dest + es[1..][i].name
    requires r.Ok? ==> forall i :: 0 <= i < |es[1..]| ==> dest + es[1..][i].name in r.tree.files
    requires t1.dirs <= r.tree.dirs
    ensures forall q :: q in t.files ==> q in r.tree.files
    ensures forall q :: q in t.files && (forall i :: 0 <= i < |es| ==> q != dest + es[i].name) ==>
              r.tree.files[q] == t.files[q]
    ensures forall q :: q in r.tree.files && q !in t.files ==>
              exists i :: 0 <= i < |es| && q == dest + es[i].name
    ensures r.Ok? ==> forall i :: 0 <= i < |es| ==> dest + es[i].name in r.tree.files
    ensures t.dirs <= r.tree.dirs
  {
    assert forall i :: 1 <= i < |es| ==> es[i] == es[1..][i - 1];
  }

  /** The last member written under a name is what that name holds, given
      that this is so for the members after the first. */
  lemma ExtractAllStep(t1: Tree, r: Tree, dest: Path, es: seq<Entry>)
    requires es != []
    requires dest + es[0].name in t1.files && t1.files[dest + es[0].name] == es[0].node
    requires forall q :: q in t1.files ==> q in r.files
    requires forall q :: q in t1.files && (forall i :: 0 <= i < |es[1..]| ==> q != dest + es[1..][i].name) ==>
               r.files[q] == t1.files[q]
    requires forall i :: 0 <= i < |es[1..]| && LastOfName(es[1..], i) ==>
               dest + es[1..][i].name in r.files && r.files[dest + es[1..][i].name] == es[1..][i].node
    ensures forall i :: 0 <= i < |es| && LastOfName(es, i) ==>
              dest + es[i].name in r.files && r.files[dest + es[i].name] == es[i].node
  {
    forall i | 0 <= i < |es| && LastOfName(es, i)
      ensures dest + es[i].name in r.files && r.files[dest + es[i].name] == es[i].node
    {
      if i == 0 {
        FirstMemberKept(dest, es);
      } else {
        assert es[i] == es[1..][i - 1];
        LaterMemberLast(es, i);
      }
    }
  }

  /** No later member overwrites the first when none has its name. */
  lemma FirstMemberKept(dest: Path, es: seq<Entry>)
    requires es != [] && LastOfName(es, 0)
    ensures forall j :: 0 <= j < |es[1..]| ==> dest + es[0].name != dest + es[1..][j].name
  {
    forall j | 0 <= j < |es[1..]|
      ensures dest + es[0].name != dest + es[1..][j].name
    {
      assert es[1..][j] == es[j + 1];
      assert (dest + es[0].name)[|dest|..] == es[0].name;
      assert (dest + es[1..][j].name)[|dest|..] == es[1..][j].name;
    }
  }

  /** A member after the first that is the last of its name stays so in the tail. */
  lemma LaterMemberLast(es: seq<Entry>, i: nat)
    requires 0 < i < |es| && LastOfName(es, i)
    ensures LastOfName(es[1..], i - 1)
  {
    forall j | i - 1 < j < |es[1..]|
      ensures es[1..][j].name != es[1..][i - 1].name
    {
      assert es[1..][j] == es[j + 1];
    }
  }

  /** shutil.rmtree(p) */
  function RmTree(t: Tree, p: Path): (r: FsResult)
    ensures r.Ok? <==> p !in t.files && IsDir(t, p)
    ensures r.Ok? ==> forall q :: q in r.tree.files <==> q in t.files && !Under(q, p)
    ensures r.Ok? ==> forall q :: q in r.tree.files ==> r.tree.files[q] == t.files[q]
    ensures r.Ok? ==> !(p in r.tree.dirs) && forall d :: d in r.tree.dirs ==> d in t.dirs && !Under(d, p)
    // every other folder survives
    ensures r.Ok? ==> r.tree.dirs == set d | d in t.dirs && d != p && !Under(d, p)
    ensures r.Err? ==> r.tree == t
  {
    if p in t.files then Err(t, NotADirectory(p))
    else if !IsDir(t, p) then Err(t, FileNotFound(p))
    else Ok(Tree(map q | q in t.files && !Under(q, p) :: t.files[q],
                 set d | d in t.dirs && d != p && !Under(d, p)))
  }

  /** shutil.move(src, dst) for a file src: into dst when dst is a folder. */
  function Move(t: Tree, src: Path, dst: Path): (r: FsResult)
    ensures !IsDir(t, dst) ==> r == Rename(t, src, dst)
    ensures IsDir(t, dst) && !Exists(t, dst + [Basename(src)]) ==> r == Rename(t, src, dst + [Basename(src)])
    ensures IsDir(t, dst) && Exists(t, dst + [Basename(src)]) ==> r == Err(t, DestinationExists(dst + [Basename(src)]))
    ensures r.Err? ==> r.tree == t
  {
    if IsDir(t, dst) then
      var inside := dst + [Basename(src)];
      if Exists(t, inside) then Err(t, DestinationExists(inside)) else Rename(t, src, inside)
    else Rename(t, src, dst)
  }

  /** zipfile.ZipFile(p): the members of the archive stored at p. */
  datatype Opened = Opened(entries: seq<Entry>) | OpenFailed(error: OsError)

  function OpenZip(t: Tree, p: Path): (r: Opened)
    ensures r.Opened? <==> p in t.files && t.files[p].Zip?
    ensures r.Opened? ==> t.files[p] == Zip(r.entries)
  {
    if p in t.files then
      match t.files[p]
      case Zip(es) => Opened(es)
      case Data(_) => OpenFailed(BadZipFile(p))
    else if IsDir(t, p) then OpenFailed(IsADirectory(p))
    else OpenFailed(FileNotFound(p))
  }

  // ---------------------------------------------------------------- sizes

  /** Number of nodes in a stored file, counting every nested member. */
  function Size(n: Node): (s: nat)
    ensures s >= 1
    decreases n
  {
    match n
    case Data(_) => 1
    case Zip(es) => 1 + EntriesSize(es)
  }

  function EntriesSize(es: seq<Entry>): nat
    decreases es
  {
    if es == [] then 0 else Size(es[0].node) + EntriesSize(es[1..])
  }

  /** Total size of the files of a map. */
  ghost function MapSize(m: map<Path, Node>): nat
    decreases |m|
  {
    if m == map[] then 0
    else
      var k :| k in m;
      Size(m[k]) + MapSize(m - {k})
  }

  lemma {:induction false} MapSizeRemove(m: map<Path, Node>, k: Path)
    requires k in m
    ensures MapSize(m) == Size(m[k]) + MapSize(m - {k})
    decreases |m|
  {
    var j :| j in m && MapSize(m) == Size(m[j]) + MapSize(m - {j});
    if j != k {
      assert (m - {j}) - {k} == (m - {k}) - {j};
      MapSizeRemove(m - {j}, k);
      MapSizeRemove(m - {k}, j);
    }
  }

  /** Storing v at k adds at most the size of v. */
  lemma MapSizeUpdate(m: map<Path, Node>, k: Path, v: Node)
    ensures MapSize(m[k := v]) <= MapSize(m) + Size(v)
    ensures k in m ==> MapSize(m[k := v]) == MapSize(m) - Size(m[k]) + Size(v)
  {
    MapSizeRemove(m[k := v], k);
    assert m[k := v] - {k} == m - {k};
    if k in m {
      MapSizeRemove(m, k);
    } else {
      assert m - {k} == m;
    }
  }

  /** The part of a file map whose paths satisfy `keep`. */
  ghost function Restrict(m: map<Path, Node>, keep: Path -> bool): map<Path, Node>
  {
    map p | p in m && keep(p) :: m[p]
  }

  lemma RestrictStore(m: map<Path, Node>, keep: Path -> bool, k: Path, v: Node)
    ensures keep(k) ==> Restrict(m[k := v], keep) == Restrict(m, keep)[k := v]
    ensures !keep(k) ==> Restrict(m[k := v], keep) == Restrict(m, keep)
  {
  }

  lemma RestrictRemove(m: map<Path, Node>, keep: Path -> bool, k: Path)
    ensures keep(k) ==> Restrict(m - {k}, keep) == Restrict(m, keep) - {k}
    ensures !keep(k) ==> Restrict(m - {k}, keep) == Restrict(m, keep)
  {
  }

  lemma RestrictStoreExcept(m: map<Path, Node>, keep: Path -> bool, k: Path, v: Node, except: Path)
    ensures Restrict(m[k := v], keep) - {except} == Restrict(m, keep) - {except}
         || Restrict(m[k := v], keep) - {except} == (Restrict(m, keep) - {except})[k := v]
  {
    if k != except && keep(k) {
      assert Restrict(m[k := v], keep) - {except} == (Restrict(m, keep) - {except})[k := v];
    } else {
      assert Restrict(m[k := v], keep) - {except} == Restrict(m, keep) - {except};
    }
  }

  /** Extracting members adds at most their sizes to any part of the tree
      (leaving the path `except` out of the count). */
  lemma {:induction false} ExtractAllRestrictSize(t: Tree, dest: Path, es: seq<Entry>,
                                                  keep: Path -> bool, except: Path)
    ensures MapSize(Restrict(ExtractAll(t, dest, es).tree.files, keep) - {except})
            <= MapSize(Restrict(t.files, keep) - {except}) + EntriesSize(es)
    decreases |es|
  {
    if es != [] {
      var q := dest + es[0].name;
      var n := es[0].node;
      var m := ExtractMember(t, q, n);
      if m.Ok? {
        assert ExtractAll(t, dest, es) == ExtractAll(m.tree, dest, es[1..]);
        ExtractAllRestrictSize(m.tree, dest, es[1..], keep, except);
        RestrictStoreExcept(t.files, keep, q, n, except);
        MapSizeUpdate(Restrict(t.files, keep) - {except}, q, n);
      }
    }
  }
}
