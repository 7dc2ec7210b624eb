/** What NSEBOT/App.py's ingest step guarantees, proved about the functions
    of NseBotSpec. */
module NseBotProps {
  import opened Paths
  import opened FileSystem
  import opened NseBotSpec

  // ---------------------------------------------------------------- buckets

  /** A file's bucket is base_folder plus its extension without the dot,
      upper-cased; a name without an extension, or whose extension is a bare
      dot, stays in base_folder itself. */
  lemma BucketOfName(base: Path, name: Name)
    ensures |Ext(name)| > 1 ==> Bucket(base, ExtKey(name)) == base + [Upper(Ext(name)[1..])]
    ensures |Ext(name)| <= 1 ==> Bucket(base, ExtKey(name)) == base
  {
    StrippedExt(name);
    if |Ext(name)| > 1 {
      UpperOfLower(Ext(name)[1..]);
    }
  }

  /** The ext_folders cache maps every extension seen to its bucket. */
  predicate Cached(base: Path, folders: map<string, Path>)
  {
    forall k :: k in folders ==> folders[k] == Bucket(base, k)
  }

  /** App.py:76-78: a file whose extension was seen before goes to the
      cached folder, and the tree is not touched before it is classified. */
  lemma PlaceUsesCache(base: Path, p: Path, t: Tree, folders: map<string, Path>)
    requires Cached(base, folders)
    requires ExtKey(Basename(p)) in folders
    ensures Place(base, p, t, folders)
            == Placed(Classify(t, p, Bucket(base, ExtKey(Basename(p))) + [Basename(p)]), folders)
  {
  }

  /** App.py:78-79: on the first file with an extension its bucket is
      created; only that makedirs can make the file's turn raise, and after
      it the bucket exists and no file has changed. */
  lemma PlaceCreatesBucket(base: Path, p: Path, t: Tree, folders: map<string, Path>)
    requires ExtKey(Basename(p)) !in folders
    ensures var ext := ExtKey(Basename(p)); var r := Place(base, p, t, folders);
      && (r.Failed? <==> MakeDirs(t, Bucket(base, ext)).Err?)
      && (r.Placed? ==>
            && r.folders == folders[ext := Bucket(base, ext)]
            && exists t1: Tree :: (t1.files == t.files && IsDir(t1, Bucket(base, ext))
                                   && r.step == Classify(t1, p, Bucket(base, ext) + [Basename(p)])))
  {
    var b := Bucket(base, ExtKey(Basename(p)));
    var m := MakeDirs(t, b);
    if m.Ok? {
      assert m.tree.files == t.files && IsDir(m.tree, b);
    }
  }

  /** The cache stays exact and gains exactly the file's extension. */
  lemma PlaceKeepsCache(base: Path, p: Path, t: Tree, folders: map<string, Path>)
    requires Cached(base, folders)
    ensures var r := Place(base, p, t, folders);
      r.Placed? ==> Cached(base, r.folders) && r.folders.Keys == folders.Keys + {ExtKey(Basename(p))}
  {
    var ext := ExtKey(Basename(p));
    PlaceFolders(base, p, t, folders);
    CachedStore(base, folders, ext);
  }

  /** Caching an extension's own bucket keeps the cache exact. */
  lemma CachedStore(base: Path, folders: map<string, Path>, ext: string)
    requires Cached(base, folders)
    ensures Cached(base, folders[ext := Bucket(base, ext)])
  {
    var folders1 := folders[ext := Bucket(base, ext)];
    forall k | k in folders1
      ensures folders1[k] == Bucket(base, k)
    {
      if k != ext {
        assert folders1[k] == folders[k];
      }
    }
  }

  /** The cache after placing a file: unchanged for a known extension,
      otherwise extended with the extension's bucket. */
  lemma PlaceFolders(base: Path, p: Path, t: Tree, folders: map<string, Path>)
    ensures var ext := ExtKey(Basename(p));
            var r := Place(base, p, t, folders);
            r.Placed? ==> r.folders == if ext in folders then folders else folders[ext := Bucket(base, ext)]
  {
    var file := Basename(p);
    var ext := ExtKey(file);
    var b := Bucket(base, ext);
    if ext !in folders {
      var m := MakeDirs(t, b);
      if m.Ok? {
        assert Place(base, p, t, folders) == Placed(Classify(m.tree, p, b + [file]), folders[ext := b]);
      }
    }
  }

  // ---------------------------------------------------------------- classification

  /** App.py:81-89: when the target name is free the file is renamed there:
      afterwards it is at the target and not at its old path, and every
      other file is as it was. A failed rename changes nothing and logs one
      error entry. */
  lemma ClassifyMoves(t: Tree, p: Path, target: Path)
    requires !Exists(t, target)
    ensures var c := Classify(t, p, target);
      if p in t.files && IsDir(t, Parent(target)) then
        && target in c.tree.files && c.tree.files[target] == t.files[p]
        && p !in c.tree.files
        && (forall q :: q != p && q != target ==>
              (q in c.tree.files <==> q in t.files)
              && (q in t.files ==> c.tree.files[q] == t.files[q]))
        && c.line == MovedMsg(Basename(p), target)
      else
        c.tree == t && exists e :: c.line == MoveErrorMsg(Basename(p), e)
  {
    var m := Rename(t, p, target);
    if m.Err? {
      assert Classify(t, p, target).line == MoveErrorMsg(Basename(p), m.error);
    }
  }

  /** App.py:90-97: when the target name is taken the file is deleted as a
      duplicate and the file already there is kept, whatever either holds:
      the check is by name only. A failed delete changes nothing and logs
      one error entry. */
  lemma ClassifyDuplicate(t: Tree, p: Path, target: Path)
    requires Exists(t, target)
    ensures var c := Classify(t, p, target);
      && (p in t.files ==>
            c.tree.files == t.files - {p} && c.line == DuplicateMsg(Basename(p)))
      && (p in t.files && p != target ==>
            Exists(c.tree, target)
            && (target in t.files ==> c.tree.files[target] == t.files[target]))
      && (p !in t.files ==>
            c.tree == t && exists e :: c.line == DuplicateErrorMsg(Basename(p), e))
  {
    var m := Remove(t, p);
    if m.Err? {
      assert Classify(t, p, target).line == DuplicateErrorMsg(Basename(p), m.error);
    }
  }

  /** App.py:82 does not exclude target_path == file_path: a file that
      already sits in its bucket when a pass visits it is deleted as its own
      duplicate. */
  lemma FileInItsBucketIsDeleted(base: Path, p: Path, t: Tree, folders: map<string, Path>)
    requires Cached(base, folders)
    requires p in t.files
    requires p == Bucket(base, ExtKey(Basename(p))) + [Basename(p)]
    ensures var r := Place(base, p, t, folders);
      r.Placed? ==> r.step.tree.files == t.files - {p} && r.step.line == DuplicateMsg(Basename(p))
  {
    var r := Place(base, p, t, folders);
    if ExtKey(Basename(p)) in folders {
      PlaceUsesCache(base, p, t, folders);
      ClassifyDuplicate(t, p, p);
    } else if r.Placed? {
      PlaceCreatesBucket(base, p, t, folders);
      var t1: Tree :| t1.files == t.files && IsDir(t1, Bucket(base, ExtKey(Basename(p))))
                && r.step == Classify(t1, p, p);
      ClassifyDuplicate(t1, p, p);
    }
  }

  /** The file already sits at the path its bucket would give it. */
  predicate InOwnBucket(base: Path, p: Path)
  {
    p == Bucket(base, ExtKey(Basename(p))) + [Basename(p)]
  }

  /** One duplicate entry per file, in walk order. */
  function DuplicateLines(todo: seq<Path>): (r: seq<string>)
    ensures |r| == |todo|
    ensures forall i :: 0 <= i < |todo| ==> r[i] == DuplicateMsg(Basename(todo[i]))
  {
    if todo == [] then [] else [DuplicateMsg(Basename(todo[0]))] + DuplicateLines(todo[1..])
  }

  /** One step of the walk on a file in its own bucket: unless the walk
      aborts, the file is deleted, one duplicate entry is logged and the
      walk goes on with the rest of the snapshot. */
  lemma AdvanceInOwnBucket(base: Path, todo: seq<Path>, st: State, folders: map<string, Path>, bound: nat)
    requires ZipWeight(st.tree) <= bound && Cached(base, folders)
    requires todo != [] && !IsZipPath(todo[0]) && todo[0] in st.tree.files && InOwnBucket(base, todo[0])
    ensures var pl := Place(base, todo[0], st.tree, folders);
      SegregateWalk(base, todo, st, folders, bound).Done? ==>
        && pl.Placed?
        && pl.step.tree.files == st.tree.files - {todo[0]}
        && pl.step.line == DuplicateMsg(Basename(todo[0]))
        && Cached(base, pl.folders)
        && ZipWeight(pl.step.tree) <= bound
        && SegregateWalk(base, todo, st, folders, bound)
           == SegregateWalk(base, todo[1..], State(pl.step.tree, st.log + [pl.step.line]), pl.folders, bound)
  {
    assert SegregateWalk(base, todo, st, folders, bound) == Advance(base, todo, st, folders, bound);
    FileInItsBucketIsDeleted(base, todo[0], st.tree, folders);
    PlaceKeepsCache(base, todo[0], st.tree, folders);
    PlaceKeepsArchives(base, todo[0], st.tree, folders);
  }

  /** App.py:62-94 over a whole snapshot whose files all sit in their own
      buckets, as in a pass restarted after a completed one: a walk that
      completes deletes every one of them as its own duplicate and logs one
      duplicate entry each, in order; nothing else changes. */
  lemma {:induction false} WalkDeletesFilesInBuckets(base: Path, todo: seq<Path>, st: State,
                                                     folders: map<string, Path>, bound: nat)
    requires ZipWeight(st.tree) <= bound
    requires Cached(base, folders)
    requires forall i :: 0 <= i < |todo| ==>
               !IsZipPath(todo[i]) && todo[i] in st.tree.files && InOwnBucket(base, todo[i])
    requires forall i, j :: 0 <= i < j < |todo| ==> todo[i] != todo[j]
    ensures var r := SegregateWalk(base, todo, st, folders, bound);
      r.Done? ==>
        && r.st.tree.files == st.tree.files - Listed(todo)
        && r.st.log == st.log + DuplicateLines(todo)
    decreases |todo|
  {
    var r := SegregateWalk(base, todo, st, folders, bound);
    if todo == [] {
      assert st.tree.files - Listed(todo) == st.tree.files;
    } else if r.Done? {
      var p := todo[0];
      var rest := todo[1..];
      AdvanceInOwnBucket(base, todo, st, folders, bound);
      var pl := Place(base, p, st.tree, folders);
      var st1 := State(pl.step.tree, st.log + [pl.step.line]);
      BucketFilesTail(base, st.tree.files, todo);
      WalkDeletesFilesInBuckets(base, rest, st1, pl.folders, bound);
      RemoveHeadOfSet(st.tree.files, todo);
      DuplicateLinesHead(st.log, todo);
    }
  }

  /** The rest of the snapshot still qualifies once its first file is gone. */
  lemma BucketFilesTail<V>(base: Path, m: map<Path, V>, todo: seq<Path>)
    requires todo != []
    requires forall i :: 0 <= i < |todo| ==> !IsZipPath(todo[i]) && todo[i] in m && InOwnBucket(base, todo[i])
    requires forall i, j :: 0 <= i < j < |todo| ==> todo[i] != todo[j]
    ensures var rest := todo[1..];
      && (forall i :: 0 <= i < |rest| ==>
            !IsZipPath(rest[i]) && rest[i] in m - {todo[0]} && InOwnBucket(base, rest[i]))
      && (forall i, j :: 0 <= i < j < |rest| ==> rest[i] != rest[j])
  {
    var rest := todo[1..];
    forall i | 0 <= i < |rest|
      ensures !IsZipPath(rest[i]) && rest[i] in m - {todo[0]} && InOwnBucket(base, rest[i])
    {
      assert rest[i] == todo[i + 1] && todo[0] != todo[i + 1];
    }
    forall i, j | 0 <= i < j < |rest|
      ensures rest[i] != rest[j]
    {
      assert rest[i] == todo[i + 1] && rest[j] == todo[j + 1];
    }
  }

  lemma DuplicateLinesHead(log: seq<string>, todo: seq<Path>)
    requires todo != []
    ensures log + DuplicateLines(todo) == (log + [DuplicateMsg(Basename(todo[0]))]) + DuplicateLines(todo[1..])
  {
  }

  /** Removing the first path and then the others is removing them all. */
  lemma RemoveHeadOfSet<V>(m: map<Path, V>, todo: seq<Path>)
    requires todo != []
    ensures m - Listed(todo) == (m - {todo[0]}) - Listed(todo[1..])
  {
    assert Listed(todo) == {todo[0]} + Listed(todo[1..]);
  }

  /** The paths of a snapshot, as a set. */
  function Listed(todo: seq<Path>): set<Path>
  {
    set p | p in todo
  }

  // ---------------------------------------------------------------- nested archives

  /** App.py:67-72: a nested archive is unpacked into base_folder and then
      deleted; the run stops only if it cannot be opened or extracted. */
  lemma UnpackNestedResult(base: Path, p: Path, st: State)
    ensures var u := UnpackNested(base, p, st); var o := OpenZip(st.tree, p);
      && (u.Done? <==> o.Opened? && ExtractAll(st.tree, base, o.entries).Ok?)
      && (u.Done? ==>
            && p !in u.st.tree.files
            && u.st.log == st.log + [NestedMsg(Basename(p))]
            && forall i :: 0 <= i < |o.entries| && base + o.entries[i].name != p ==>
                 base + o.entries[i].name in u.st.tree.files)
      && (u.Aborted? ==> u.st.log == st.log)
  {
  }

  // ---------------------------------------------------------------- frame of a pass

  /** Every file outside `dir` is in both trees or in neither, with the same
      contents. */
  ghost predicate SameOutside(t1: Tree, t2: Tree, dir: Path)
  {
    forall q :: !Within(q, dir) ==>
      (q in t1.files <==> q in t2.files) && (q in t1.files ==> t1.files[q] == t2.files[q])
  }

  /** Extracting into a folder changes nothing outside it. */
  lemma ExtractAllStaysWithin(t: Tree, base: Path, es: seq<Entry>)
    ensures SameOutside(ExtractAll(t, base, es).tree, t, base)
  {
    forall i | 0 <= i < |es|
      ensures Within(base + es[i].name, base)
    {
      assert (base + es[i].name)[..|base|] == base;
    }
  }

  lemma SameOutsideTrans(t1: Tree, t2: Tree, t3: Tree, dir: Path)
    requires SameOutside(t1, t2, dir) && SameOutside(t2, t3, dir)
    ensures SameOutside(t1, t3, dir)
  {
  }

  lemma BucketIsWithin(base: Path, ext: string, file: Name)
    ensures Within(Bucket(base, ext) + [file], base)
  {
    var q := Bucket(base, ext) + [file];
    assert q[..|base|] == base;
  }

  lemma ClassifyStaysWithin(base: Path, t: Tree, p: Path, target: Path)
    requires Within(p, base) && Within(target, base)
    ensures SameOutside(Classify(t, p, target).tree, t, base)
  {
  }

  lemma PlaceStaysWithin(base: Path, p: Path, t: Tree, folders: map<string, Path>)
    requires Cached(base, folders) && Within(p, base)
    ensures var r := Place(base, p, t, folders);
      r.Placed? ==> SameOutside(r.step.tree, t, base)
  {
    var file := Basename(p);
    var ext := ExtKey(file);
    BucketIsWithin(base, ext, file);
    if ext in folders {
      PlaceUsesCache(base, p, t, folders);
      ClassifyStaysWithin(base, t, p, Bucket(base, ext) + [file]);
    } else {
      var m := MakeDirs(t, Bucket(base, ext));
      if m.Ok? {
        ClassifyStaysWithin(base, m.tree, p, Bucket(base, ext) + [file]);
      }
    }
  }

  lemma UnpackStaysWithin(base: Path, p: Path, st: State)
    requires Within(p, base)
    ensures SameOutside(UnpackNested(base, p, st).st.tree, st.tree, base)
  {
    var o := OpenZip(st.tree, p);
    if o.Opened? {
      var x := ExtractAll(st.tree, base, o.entries);
      forall i | 0 <= i < |o.entries|
        ensures Within(base + o.entries[i].name, base)
      {
        assert (base + o.entries[i].name)[..|base|] == base;
      }
    }
  }

  /** process_and_segregate_files(base_folder) creates, moves, extracts and
      deletes only below base_folder, whether it finishes or raises. */
  lemma SegregateStaysWithin(base: Path, st: State)
    ensures SameOutside(Segregate(base, st).st.tree, st.tree, base)
    decreases ZipWeight(st.tree), 1, 0, 0
  {
    var p := base + [LogName];
    assert p[..|base|] == base;
    match OpenForWrite(st.tree, p)
    case Err(_, _) =>
    case Ok(t1) =>
      LogNameIsNotArchive();
      RestrictStore(st.tree.files, IsZipPath, p, Data([]));
      WalkStaysWithin(base, Walk(t1, base), State(t1, st.log), map[], ZipWeight(t1));
  }

  lemma WalkStaysWithin(base: Path, todo: seq<Path>, st: State, folders: map<string, Path>,
                        bound: nat)
    requires ZipWeight(st.tree) <= bound
    requires Cached(base, folders)
    requires forall i :: 0 <= i < |todo| ==> Under(todo[i], base)
    ensures SameOutside(SegregateWalk(base, todo, st, folders, bound).st.tree, st.tree, base)
    decreases bound, 0, |todo|, 2
  {
    if todo == [] {
    } else if IsZipPath(todo[0]) {
      RestartStaysWithin(base, todo, st, folders, bound);
    } else {
      AdvanceStaysWithin(base, todo, st, folders, bound);
    }
  }

  lemma AdvanceStaysWithin(base: Path, todo: seq<Path>, st: State, folders: map<string, Path>,
                           bound: nat)
    requires todo != [] && !IsZipPath(todo[0])
    requires ZipWeight(st.tree) <= bound
    requires Cached(base, folders)
    requires forall i :: 0 <= i < |todo| ==> Under(todo[i], base)
    ensures SameOutside(Advance(base, todo, st, folders, bound).st.tree, st.tree, base)
    decreases bound, 0, |todo|, 1
  {
    match Place(base, todo[0], st.tree, folders)
    case Failed(_) =>
    case Placed(c, folders1) =>
      PlaceKeepsArchives(base, todo[0], st.tree, folders);
      PlaceKeepsCache(base, todo[0], st.tree, folders);
      PlaceStaysWithin(base, todo[0], st.tree, folders);
      UnderTail(base, todo);
      WalkStaysWithin(base, todo[1..], State(c.tree, st.log + [c.line]), folders1, bound);
  }

  lemma RestartStaysWithin(base: Path, todo: seq<Path>, st: State, folders: map<string, Path>,
                           bound: nat)
    requires todo != [] && IsZipPath(todo[0])
    requires ZipWeight(st.tree) <= bound
    requires Cached(base, folders)
    requires forall i :: 0 <= i < |todo| ==> Under(todo[i], base)
    ensures SameOutside(Restart(base, todo, st, folders, bound).st.tree, st.tree, base)
    decreases bound, 0, |todo|, 1
  {
    UnpackStaysWithin(base, todo[0], st);
    var u := UnpackNested(base, todo[0], st);
    if u.Done? {
      UnpackLowersWeight(base, todo[0], st);
      RestartTailStaysWithin(base, todo, u.st, folders, bound);
    }
    RestartCompose(base, todo, st, folders, bound);
  }

  /** The new pass and the rest of the snapshot after an archive was
      unpacked each stay within base_folder. */
  lemma RestartTailStaysWithin(base: Path, todo: seq<Path>, st: State, folders: map<string, Path>,
                               bound: nat)
    requires todo != [] && ZipWeight(st.tree) < bound
    requires Cached(base, folders)
    requires forall i :: 0 <= i < |todo| ==> Under(todo[i], base)
    ensures SameOutside(Segregate(base, st).st.tree, st.tree, base)
    ensures var s := Segregate(base, st);
            s.Done? ==> SameOutside(SegregateWalk(base, todo[1..], s.st, folders, bound).st.tree, s.st.tree, base)
    decreases bound, 0, |todo|, 0
  {
    SegregateStaysWithin(base, st);
    var s := Segregate(base, st);
    if s.Done? {
      UnderTail(base, todo);
      WalkStaysWithin(base, todo[1..], s.st, folders, bound);
    }
  }

  lemma UnderTail(base: Path, todo: seq<Path>)
    requires todo != []
    requires forall i :: 0 <= i < |todo| ==> Under(todo[i], base)
    ensures forall i :: 0 <= i < |todo[1..]| ==> Under(todo[1..][i], base)
  {
  }

  /** The three stages of Restart each stay within base_folder, so the whole
      does. */
  lemma RestartCompose(base: Path, todo: seq<Path>, st: State, folders: map<string, Path>,
                       bound: nat)
    requires todo != [] && IsZipPath(todo[0])
    requires ZipWeight(st.tree) <= bound
    requires var u := UnpackNested(base, todo[0], st);
      && SameOutside(u.st.tree, st.tree, base)
      && (u.Done? ==> ZipWeight(u.st.tree) < ZipWeight(st.tree))
      && (u.Done? ==> SameOutside(Segregate(base, u.st).st.tree, u.st.tree, base))
      && (u.Done? && Segregate(base, u.st).Done? ==>
            SameOutside(SegregateWalk(base, todo[1..], Segregate(base, u.st).st, folders, bound).st.tree,
                        Segregate(base, u.st).st.tree, base))
    ensures SameOutside(Restart(base, todo, st, folders, bound).st.tree, st.tree, base)
  {
    var u := UnpackNested(base, todo[0], st);
    if u.Done? {
      var s := Segregate(base, u.st);
      SameOutsideTrans(s.st.tree, u.st.tree, st.tree, base);
      if s.Done? {
        var w := SegregateWalk(base, todo[1..], s.st, folders, bound);
        SameOutsideTrans(w.st.tree, s.st.tree, st.tree, base);
      }
    }
  }

  // ---------------------------------------------------------------- find_and_process_zip

  /** App.py:31-35: without the archive in the downloads folder nothing
      changes but one log entry, and the caller is told it was not found;
      with it the archive is always acted on. */
  lemma FindWithoutArchive(downloads: Path, today: Name, st: State)
    ensures var r := FindAndProcess(downloads, today, st);
      && (r.NotFound? <==> !Exists(st.tree, ArchivePath(downloads)))
      && (r.NotFound? ==> r.st == State(st.tree, st.log + [NotFoundMsg(downloads)]))
  {
  }

  /** App.py:37-48: a run that returns True has deleted the downloaded
      archive and, since extraction and segregation work inside the date
      folder, left every other file outside it as it was. */
  lemma FindProcessedFiles(downloads: Path, today: Name, st: State)
    ensures var r := FindAndProcess(downloads, today, st);
      var zip := ArchivePath(downloads); var base := DateFolder(downloads, today);
      r.Processed? ==>
        && zip !in r.st.tree.files
        && (forall q :: q != zip && !Within(q, base) ==>
              (q in r.st.tree.files <==> q in st.tree.files)
              && (q in st.tree.files ==> r.st.tree.files[q] == st.tree.files[q]))
  {
    var r := FindAndProcess(downloads, today, st);
    var zip := ArchivePath(downloads);
    var base := DateFolder(downloads, today);
    if r.Processed? {
      var log2 := st.log + [WaitingMsg] + [ExtractedMsg(base)];
      assert Exists(st.tree, zip);
      assert MakeDirs(st.tree, base).Ok?;
      var t1 := MakeDirs(st.tree, base).tree;
      assert OpenZip(t1, zip).Opened?;
      var es := OpenZip(t1, zip).entries;
      assert ExtractAll(t1, base, es).Ok?;
      var t2 := ExtractAll(t1, base, es).tree;
      assert Remove(t2, zip).Ok?;
      var t3 := Remove(t2, zip).tree;
      var s := Segregate(base, State(t3, log2));
      assert s.Done?;
      assert r == Processed(Validate(base, s.st));
      ExtractAllStaysWithin(t1, base, es);
      assert !Within(zip, base);
      SegregateStaysWithin(base, State(t3, log2));
    }
  }

  /** App.py:37-52: the log of a run that returns True holds the waiting and
      the extraction entries, then the segregation entries, and ends with
      one validation entry per file of the final date folder. */
  lemma FindProcessedLog(downloads: Path, today: Name, st: State)
    ensures var r := FindAndProcess(downloads, today, st); var base := DateFolder(downloads, today);
      r.Processed? ==>
        && |st.log| + 2 <= |r.st.log|
        && r.st.log[..|st.log| + 2] == st.log + [WaitingMsg, ExtractedMsg(base)]
        && var v := ValidateLines(base, r.st.tree, Walk(r.st.tree, base));
           |v| <= |r.st.log| && r.st.log[|r.st.log| - |v|..] == v
  {
    var r := FindAndProcess(downloads, today, st);
    var zip := ArchivePath(downloads);
    var base := DateFolder(downloads, today);
    if r.Processed? {
      var log2 := st.log + [WaitingMsg] + [ExtractedMsg(base)];
      assert Exists(st.tree, zip);
      assert MakeDirs(st.tree, base).Ok?;
      var t1 := MakeDirs(st.tree, base).tree;
      assert OpenZip(t1, zip).Opened?;
      var es := OpenZip(t1, zip).entries;
      assert ExtractAll(t1, base, es).Ok?;
      var t2 := ExtractAll(t1, base, es).tree;
      assert Remove(t2, zip).Ok?;
      var t3 := Remove(t2, zip).tree;
      var s := Segregate(base, State(t3, log2));
      assert s.Done?;
      assert r == Processed(Validate(base, s.st));
      assert s.st.log[..|log2|] == log2;
    }
  }

  // ---------------------------------------------------------------- validate_files

  /** The entry for one file that has an extension: "correctly moved" when
      the file is in the folder named after its extension, "not moved"
      otherwise. */
  function Report(base: Path, t: Tree, p: Path): string
  {
    var file := Basename(p);
    var ext := ExtKey(file);
    if Exists(t, Bucket(base, ext) + [file]) then CorrectMsg(file, BucketText(base, ext))
    else NotMovedMsg(file, BucketText(base, ext))
  }

  lemma ValidateLineReports(base: Path, t: Tree, p: Path)
    ensures Ext(Basename(p)) == [] ==> ValidateLine(base, t, p) == []
    ensures Ext(Basename(p)) != [] ==> ValidateLine(base, t, p) == [Report(base, t, p)]
  {
    LowerSpec(Ext(Basename(p)));
  }

  /** validate_files (App.py:102-113) writes exactly one entry per file that
      has an extension, in walk order, and nothing for the others. */
  lemma {:induction false} ValidateReportsChecked(base: Path, t: Tree, files: seq<Path>)
    ensures var lines := ValidateLines(base, t, files); var c := Checked(files);
      |lines| == |c| && forall i :: 0 <= i < |c| ==> lines[i] == Report(base, t, c[i])
  {
    if files != [] {
      var init := files[..|files| - 1];
      var last := files[|files| - 1];
      ValidateReportsChecked(base, t, init);
      ValidateLineReports(base, t, last);
      var l0 := ValidateLines(base, t, init);
      var c0 := Checked(init);
      assert ValidateLines(base, t, files) == l0 + ValidateLine(base, t, last);
      if Ext(Basename(last)) == [] {
        assert l0 + [] == l0;
      } else {
        assert Checked(files) == c0 + [last];
        ReportsAppend(base, t, l0, c0, last);
      }
    }
  }

  /** Reporting one more checked file keeps reports and files in step. */
  lemma ReportsAppend(base: Path, t: Tree, l0: seq<string>, c0: seq<Path>, p: Path)
    requires |l0| == |c0| && forall i :: 0 <= i < |c0| ==> l0[i] == Report(base, t, c0[i])
    ensures var lines := l0 + [Report(base, t, p)]; var c := c0 + [p];
      |lines| == |c| && forall i :: 0 <= i < |c| ==> lines[i] == Report(base, t, c[i])
  {
    var lines := l0 + [Report(base, t, p)];
    var c := c0 + [p];
    forall i | 0 <= i < |c|
      ensures lines[i] == Report(base, t, c[i])
    {
      if i < |c0| {
        assert lines[i] == l0[i] && c[i] == c0[i];
      }
    }
  }

  // ---------------------------------------------------------------- download_nse_reports

  /** The "Starting download attempt" entries of a log, in order. */
  function AttemptLines(log: seq<string>): (r: seq<string>)
    ensures |r| <= |log|
  {
    if log == [] then []
    else
      var init := AttemptLines(log[..|log| - 1]);
      if IsAttemptLine(log[|log| - 1]) then init + [log[|log| - 1]] else init
  }

  lemma {:induction false} AttemptLinesAppend(a: seq<string>, b: seq<string>)
    ensures AttemptLines(a + b) == AttemptLines(a) + AttemptLines(b)
    decreases |b|
  {
    if b == [] {
      assert a + b == a;
    } else {
      var init := b[..|b| - 1];
      assert (a + b)[..|a + b| - 1] == a + init;
      AttemptLinesAppend(a, init);
    }
  }

  lemma {:induction false} QuietHasNoAttempts(log: seq<string>)
    requires Quiet(log, 0)
    ensures AttemptLines(log) == []
  {
    if log != [] {
      QuietHasNoAttempts(log[..|log| - 1]);
    }
  }

  /** A log that grew from `prefix` holds the same attempt entries. */
  lemma GrowsKeepsAttempts(log: seq<string>, prefix: seq<string>)
    requires Grows(log, prefix)
    ensures AttemptLines(log) == AttemptLines(prefix)
  {
    var rest := log[|prefix|..];
    assert log == prefix + rest;
    QuietHasNoAttempts(rest);
    AttemptLinesAppend(prefix, rest);
    assert prefix + [] == prefix;
  }

  lemma AttemptMsgIsAttemptLine(n: nat)
    ensures IsAttemptLine(AttemptMsg(n))
  {
    assert (AttemptPrefix + (NatText(n) + "/3..."))[..|AttemptPrefix|] == AttemptPrefix;
    assert AttemptMsg(n) == AttemptPrefix + (NatText(n) + "/3...");
  }

  /** One pass of the loop body logs its own attempt entry and no other. */
  lemma RunAttemptLog(downloads: Path, today: Name, st: State, k: nat, a: Attempt)
    ensures Grows(RunAttempt(downloads, today, st, k, a).st.log, st.log + [AttemptMsg(k + 1)])
  {
    var log0 := st.log + [AttemptMsg(k + 1)];
    var body := TryAttempt(downloads, today, st, k, a);
    TryAttemptLog(downloads, today, st, k, a);
    if a.quit.QuitRaises? {
      GrowsAppend(body.st.log, log0, QuitErrorMsg(a.quit.message));
    }
  }

  /** The try and except clauses log the attempt entry and no other. */
  lemma TryAttemptLog(downloads: Path, today: Name, st: State, k: nat, a: Attempt)
    ensures Grows(TryAttempt(downloads, today, st, k, a).st.log, st.log + [AttemptMsg(k + 1)])
  {
    var log0 := st.log + [AttemptMsg(k + 1)];
    var log1 := WithProgress(log0, a.browser);
    ProgressGrows(log0, a.browser);
    var t1 := if Clicked(a.browser) then Arrive(st.tree, downloads, a.arrival) else st.tree;
    match a.browser {
      case Raised(_, e) =>
        GrowsAppend(log1, log0, DownloadErrorMsg(e));
      case Completed =>
        var f := FindAndProcess(downloads, today, State(t1, log1));
        GrowsTrans(f.st.log, log1, log0);
        match f {
          case NotFound(s) => GrowsAppend(s.log, log0, RetryMsg);
          case Processed(s) => GrowsAppend(s.log, log0, SuccessMsg);
          case FindRaised(s, e) => GrowsAppend(s.log, log0, DownloadErrorMsg(Describe(e)));
        }
    }
  }

  /** The browser's progress entries are not attempt entries. */
  lemma ProgressGrows(log0: seq<string>, b: Browser)
    ensures Grows(WithProgress(log0, b), log0)
  {
    assert SelectedMsg[0] == ClickedMsg[0] == '\U{2714}';
    GrowsRefl(log0);
    if !(b.Raised? && b.at == Opening) {
      GrowsAppend(log0, log0, SelectedMsg);
    }
    if Clicked(b) {
      GrowsAppend(log0 + [SelectedMsg], log0, ClickedMsg);
    }
  }

  /** AttemptMsg(k + 1), ..., AttemptMsg(n). */
  function Numbered(k: nat, n: nat): (r: seq<string>)
    requires k <= n
    ensures |r| == n - k
    decreases n - k
  {
    if k == n then [] else [AttemptMsg(k + 1)] + Numbered(k + 1, n)
  }

  /** download_nse_reports (App.py:115-160) makes at most three attempts,
      at least one, and all three unless one succeeds. */
  lemma {:induction false} DownloadTries(downloads: Path, today: Name, st: State,
                                         attempts: seq<Attempt>, k: nat)
    requires |attempts| == MaxAttempts && k <= MaxAttempts
    ensures var r := Download(downloads, today, st, attempts, k);
      && k <= r.tries <= MaxAttempts
      && (k < MaxAttempts ==> k < r.tries)
      && (!r.ok ==> r.tries == MaxAttempts)
    decreases MaxAttempts - k
  {
    if k < MaxAttempts {
      var a := RunAttempt(downloads, today, st, k, attempts[k]);
      if !a.ok {
        DownloadTries(downloads, today, a.st, attempts, k + 1);
      }
    }
  }

  /** App.py:159-160: when no attempt succeeds the last entry is "All
      download attempts failed.". */
  lemma {:induction false} DownloadGivesUp(downloads: Path, today: Name, st: State,
                                           attempts: seq<Attempt>, k: nat)
    requires |attempts| == MaxAttempts && k <= MaxAttempts
    ensures var r := Download(downloads, today, st, attempts, k);
      !r.ok ==> |r.st.log| > 0 && r.st.log[|r.st.log| - 1] == AllFailedMsg
    decreases MaxAttempts - k
  {
    if k < MaxAttempts {
      var a := RunAttempt(downloads, today, st, k, attempts[k]);
      if !a.ok {
        assert Download(downloads, today, st, attempts, k) == Download(downloads, today, a.st, attempts, k + 1);
        DownloadGivesUp(downloads, today, a.st, attempts, k + 1);
      }
    } else {
      var log1 := st.log + [AllFailedMsg];
      assert Download(downloads, today, st, attempts, k).st.log == log1;
      assert log1[|log1| - 1] == AllFailedMsg;
    }
  }

  /** The log only grows, and its attempt entries are numbered 1, 2, ... up
      to the number of attempts made: one per attempt, in order. */
  lemma {:induction false} DownloadLogsAttempts(downloads: Path, today: Name, st: State,
                                                attempts: seq<Attempt>, k: nat)
    requires |attempts| == MaxAttempts && k <= MaxAttempts
    ensures var r := Download(downloads, today, st, attempts, k);
      && k <= r.tries
      && Extends(r.st.log, st.log)
      && AttemptLines(r.st.log) == AttemptLines(st.log) + Numbered(k, r.tries)
    decreases MaxAttempts - k
  {
    var r := Download(downloads, today, st, attempts, k);
    if k >= MaxAttempts {
      GiveUpLog(st.log);
    } else {
      var a := RunAttempt(downloads, today, st, k, attempts[k]);
      AttemptStep(downloads, today, st, k, attempts[k]);
      if a.ok {
        assert r.tries == k + 1 && r.st == a.st;
        assert Numbered(k, k + 1) == [AttemptMsg(k + 1)];
      } else {
        assert r == Download(downloads, today, a.st, attempts, k + 1);
        DownloadLogsAttempts(downloads, today, a.st, attempts, k + 1);
        ExtendsTrans(r.st.log, a.st.log, st.log);
        AppendAssoc(AttemptLines(st.log), [AttemptMsg(k + 1)], Numbered(k + 1, r.tries));
      }
    }
  }

  /** Giving up adds one entry, not an attempt entry. */
  lemma GiveUpLog(log: seq<string>)
    ensures Extends(log + [AllFailedMsg], log)
    ensures AttemptLines(log + [AllFailedMsg]) == AttemptLines(log)
  {
    assert AllFailedMsg[0] == '\U{274C}';
    GrowsRefl(log);
    GrowsAppend(log, log, AllFailedMsg);
    GrowsKeepsAttempts(log + [AllFailedMsg], log);
  }

  /** One attempt extends the log by its own numbered entry and no other
      attempt entry. */
  lemma AttemptStep(downloads: Path, today: Name, st: State, k: nat, a: Attempt)
    ensures var r := RunAttempt(downloads, today, st, k, a);
            Extends(r.st.log, st.log)
            && AttemptLines(r.st.log) == AttemptLines(st.log) + [AttemptMsg(k + 1)]
  {
    var r := RunAttempt(downloads, today, st, k, a);
    var log0 := st.log + [AttemptMsg(k + 1)];
    RunAttemptLog(downloads, today, st, k, a);
    GrowsKeepsAttempts(r.st.log, log0);
    AttemptLinesAppend(st.log, [AttemptMsg(k + 1)]);
    AttemptMsgIsAttemptLine(k + 1);
    assert AttemptLines([AttemptMsg(k + 1)]) == [AttemptMsg(k + 1)];
    assert r.st.log[..|st.log|] == log0[..|st.log|] == st.log;
  }

  lemma ExtendsTrans(a: seq<string>, b: seq<string>, c: seq<string>)
    requires Extends(a, b) && Extends(b, c)
    ensures Extends(a, c)
  {
    assert a[..|c|] == a[..|b|][..|c|];
  }

  /** The state before attempt number i + 1 when every earlier attempt
      failed. */
  function Before(downloads: Path, today: Name, st: State, attempts: seq<Attempt>, i: nat): State
    requires |attempts| == MaxAttempts && i <= MaxAttempts
  {
    if i == 0 then st
    else RunAttempt(downloads, today, Before(downloads, today, st, attempts, i - 1), i - 1, attempts[i - 1]).st
  }

  /** Attempt number i + 1 succeeds when reached. */
  predicate Succeeds(downloads: Path, today: Name, st: State, attempts: seq<Attempt>, i: nat)
    requires |attempts| == MaxAttempts && i < MaxAttempts
  {
    RunAttempt(downloads, today, Before(downloads, today, st, attempts, i), i, attempts[i]).ok
  }

  lemma NoneSucceedsYet(downloads: Path, today: Name, st: State, attempts: seq<Attempt>, k: nat)
    requires |attempts| == MaxAttempts && k < MaxAttempts
    requires forall i :: 0 <= i < k ==> !Succeeds(downloads, today, st, attempts, i)
    requires !Succeeds(downloads, today, st, attempts, k)
    ensures forall i :: 0 <= i < k + 1 ==> !Succeeds(downloads, today, st, attempts, i)
  {
  }

  /** The loop succeeds exactly when some attempt succeeds when reached. */
  lemma {:induction false} DownloadOkFrom(downloads: Path, today: Name, st: State,
                                          attempts: seq<Attempt>, k: nat)
    requires |attempts| == MaxAttempts && k <= MaxAttempts
    requires forall i :: 0 <= i < k ==> !Succeeds(downloads, today, st, attempts, i)
    ensures var r := Download(downloads, today, Before(downloads, today, st, attempts, k), attempts, k);
      r.ok <==> exists i :: k <= i < MaxAttempts && Succeeds(downloads, today, st, attempts, i)
    decreases MaxAttempts - k
  {
    var b := Before(downloads, today, st, attempts, k);
    var r := Download(downloads, today, b, attempts, k);
    if k < MaxAttempts {
      var a := RunAttempt(downloads, today, b, k, attempts[k]);
      assert a.st == Before(downloads, today, st, attempts, k + 1);
      if !a.ok {
        assert !Succeeds(downloads, today, st, attempts, k);
        NoneSucceedsYet(downloads, today, st, attempts, k);
        assert r == Download(downloads, today, a.st, attempts, k + 1);
        DownloadOkFrom(downloads, today, st, attempts, k + 1);
        if r.ok {
          var i :| k + 1 <= i < MaxAttempts && Succeeds(downloads, today, st, attempts, i);
        }
      } else {
        assert Succeeds(downloads, today, st, attempts, k);
        assert r == DownloadRun(a.st, true, k + 1);
      }
    }
  }

  /** A successful loop stops at the first attempt that succeeds. */
  lemma {:induction false} DownloadStopsFrom(downloads: Path, today: Name, st: State,
                                             attempts: seq<Attempt>, k: nat)
    requires |attempts| == MaxAttempts && k <= MaxAttempts
    requires forall i :: 0 <= i < k ==> !Succeeds(downloads, today, st, attempts, i)
    ensures var r := Download(downloads, today, Before(downloads, today, st, attempts, k), attempts, k);
      r.ok ==> && k + 1 <= r.tries <= MaxAttempts
               && Succeeds(downloads, today, st, attempts, r.tries - 1)
               && (forall i :: 0 <= i < r.tries - 1 ==> !Succeeds(downloads, today, st, attempts, i))
    decreases MaxAttempts - k
  {
    var b := Before(downloads, today, st, attempts, k);
    var r := Download(downloads, today, b, attempts, k);
    if k < MaxAttempts {
      var a := RunAttempt(downloads, today, b, k, attempts[k]);
      assert a.st == Before(downloads, today, st, attempts, k + 1);
      if !a.ok {
        assert !Succeeds(downloads, today, st, attempts, k);
        NoneSucceedsYet(downloads, today, st, attempts, k);
        assert r == Download(downloads, today, a.st, attempts, k + 1);
        DownloadStopsFrom(downloads, today, st, attempts, k + 1);
      } else {
        assert Succeeds(downloads, today, st, attempts, k);
        assert r == DownloadRun(a.st, true, k + 1);
      }
    }
  }

  /** A successful loop ends in the state its last attempt left. */
  lemma {:induction false} DownloadLeavesFrom(downloads: Path, today: Name, st: State,
                                             attempts: seq<Attempt>, k: nat)
    requires |attempts| == MaxAttempts && k <= MaxAttempts
    requires forall i :: 0 <= i < k ==> !Succeeds(downloads, today, st, attempts, i)
    ensures var r := Download(downloads, today, Before(downloads, today, st, attempts, k), attempts, k);
      r.ok ==> k < r.tries <= MaxAttempts && r.st == Before(downloads, today, st, attempts, r.tries)
    decreases MaxAttempts - k
  {
    var b := Before(downloads, today, st, attempts, k);
    var r := Download(downloads, today, b, attempts, k);
    if k < MaxAttempts {
      var a := RunAttempt(downloads, today, b, k, attempts[k]);
      assert a.st == Before(downloads, today, st, attempts, k + 1);
      if !a.ok {
        assert !Succeeds(downloads, today, st, attempts, k);
        NoneSucceedsYet(downloads, today, st, attempts, k);
        assert r == Download(downloads, today, a.st, attempts, k + 1);
        DownloadLeavesFrom(downloads, today, st, attempts, k + 1);
      } else {
        assert Succeeds(downloads, today, st, attempts, k);
        assert r == DownloadRun(a.st, true, k + 1);
      }
    }
  }

  /** A failed loop has run all three attempts and then logs the failure. */
  lemma {:induction false} DownloadFailsFrom(downloads: Path, today: Name, st: State,
                                             attempts: seq<Attempt>, k: nat)
    requires |attempts| == MaxAttempts && k <= MaxAttempts
    requires forall i :: 0 <= i < k ==> !Succeeds(downloads, today, st, attempts, i)
    ensures var r := Download(downloads, today, Before(downloads, today, st, attempts, k), attempts, k);
      !r.ok ==> var last := Before(downloads, today, st, attempts, MaxAttempts);
                r.st == State(last.tree, last.log + [AllFailedMsg])
    decreases MaxAttempts - k
  {
    var b := Before(downloads, today, st, attempts, k);
    var r := Download(downloads, today, b, attempts, k);
    if k < MaxAttempts {
      var a := RunAttempt(downloads, today, b, k, attempts[k]);
      assert a.st == Before(downloads, today, st, attempts, k + 1);
      if !a.ok {
        assert !Succeeds(downloads, today, st, attempts, k);
        NoneSucceedsYet(downloads, today, st, attempts, k);
        assert r == Download(downloads, today, a.st, attempts, k + 1);
        DownloadFailsFrom(downloads, today, st, attempts, k + 1);
      } else {
        assert Succeeds(downloads, today, st, attempts, k);
        assert r == DownloadRun(a.st, true, k + 1);
      }
    }
  }

  /** download_nse_reports (App.py:115-160) against the attempts unrolled:
      it succeeds exactly when some attempt succeeds, stops at the first
      such attempt, and otherwise logs the failure after all three. */
  lemma DownloadFirstSuccess(downloads: Path, today: Name, st: State, attempts: seq<Attempt>)
    requires |attempts| == MaxAttempts
    ensures var r := Download(downloads, today, st, attempts, 0);
      && (r.ok <==> exists i :: 0 <= i < MaxAttempts && Succeeds(downloads, today, st, attempts, i))
      && (r.ok ==> 1 <= r.tries <= MaxAttempts
                   && Succeeds(downloads, today, st, attempts, r.tries - 1)
                   && (forall i :: 0 <= i < r.tries - 1 ==> !Succeeds(downloads, today, st, attempts, i))
                   && r.st == Before(downloads, today, st, attempts, r.tries))
      && (!r.ok ==> var last := Before(downloads, today, st, attempts, MaxAttempts);
                    r.st == State(last.tree, last.log + [AllFailedMsg]))
  {
    DownloadOkFrom(downloads, today, st, attempts, 0);
    DownloadStopsFrom(downloads, today, st, attempts, 0);
    DownloadLeavesFrom(downloads, today, st, attempts, 0);
    DownloadFailsFrom(downloads, today, st, attempts, 0);
  }

  /** App.py:138-153: when the browser raises on every attempt nothing is
      processed and the run fails; when it raises before every click, the
      files are untouched too. */
  lemma {:induction false} DownloadWithoutBrowser(downloads: Path, today: Name, st: State,
                                                  attempts: seq<Attempt>, k: nat)
    requires |attempts| == MaxAttempts && k <= MaxAttempts
    requires forall i :: k <= i < MaxAttempts ==> attempts[i].browser.Raised?
    ensures var r := Download(downloads, today, st, attempts, k);
      && !r.ok && r.tries == MaxAttempts
      && ((forall i :: k <= i < MaxAttempts ==> attempts[i].browser.at != AfterClick) ==> r.st.tree == st.tree)
    decreases MaxAttempts - k
  {
    if k < MaxAttempts {
      var a := RunAttempt(downloads, today, st, k, attempts[k]);
      assert !a.ok;
      assert attempts[k].browser.at != AfterClick ==> a.st.tree == st.tree;
      assert Download(downloads, today, st, attempts, k) == Download(downloads, today, a.st, attempts, k + 1);
      DownloadWithoutBrowser(downloads, today, a.st, attempts, k + 1);
    }
  }

  // ---------------------------------------------------------------- get_extension_summary

  /** The extension of every file, in order. */
  function Exts(files: seq<Path>): (r: seq<string>)
    ensures |r| == |files|
  {
    seq(|files|, i requires 0 <= i < |files| => Ext(Basename(files[i])))
  }

  /** get_extension_summary (App.py:162-168) maps each extension that occurs
      to the number of files that have it, and nothing else. */
  lemma {:induction false} ExtCountsCount(files: seq<Path>)
    ensures forall e :: e in ExtCounts(files) <==> e in multiset(Exts(files))
    ensures forall e :: e in ExtCounts(files) ==> ExtCounts(files)[e] == multiset(Exts(files))[e]
  {
    if files != [] {
      var init := files[..|files| - 1];
      var e0 := Ext(Basename(files[|files| - 1]));
      ExtCountsCount(init);
      assert Exts(files) == Exts(init) + [e0];
    }
  }
}
