/** NSEBOT/App.py as it runs: the global log_data list and the file system
    are the fields of a Bot, and every operation changes them in place. Each
    method is proved to end in the state its function in NseBotSpec
    computes. */
module NseBot {
  import opened Paths
  import opened FileSystem
  import opened NseBotSpec

  class Bot {
    /** DEFAULT_DOWNLOAD_FOLDER */
    const downloads: Path
    /** datetime.now().strftime("%Y-%m-%d") for this run */
    const today: Name
    var tree: Tree
    /** log_data, without the timestamps */
    var log: seq<string>

    constructor (downloads: Path, today: Name, tree: Tree)
      ensures this.downloads == downloads && this.today == today
      ensures this.tree == tree && log == []
    {
      this.downloads := downloads;
      this.today := today;
      this.tree := tree;
      log := [];
    }

    /** log_message(message) (App.py:22-27): one entry appended. */
    method LogMessage(message: string)
      modifies this`log
      ensures log == old(log) + [message]
    {
      log := log + [message];
    }

    /** process_and_segregate_files(base_folder) (App.py:54-100). Returns the
        error it raised, if any. */
    method ProcessAndSegregateFiles(base: Path) returns (raised: Option<OsError>)
      modifies this`tree, this`log
      ensures Ended(State(tree, log), raised) == Segregate(base, old(State(tree, log)))
      decreases ZipWeight(tree), 2
    {
      var created := OpenForWrite(tree, base + [LogName]);
      if created.Err? {
        return Some(created.error);
      }
      LogNameIsNotArchive();
      RestrictStore(tree.files, IsZipPath, base + [LogName], Data([]));
      tree := created.tree;
      raised := WalkFiles(base, Walk(tree, base), ZipWeight(tree));
      if raised.None? {
        LogMessage(SavedMsg(base));
      }
    }

    /** The os.walk loop of process_and_segregate_files (App.py:62-97) over
        the snapshot `todo`, with an empty ext_folders cache. */
    method WalkFiles(base: Path, todo: seq<Path>, ghost bound: nat) returns (raised: Option<OsError>)
      requires ZipWeight(tree) <= bound
      modifies this`tree, this`log
      ensures Ended(State(tree, log), raised) == SegregateWalk(base, todo, old(State(tree, log)), map[], bound)
      decreases bound, 1
    {
      var folders: map<string, Path> := map[];
      for i := 0 to |todo|
        invariant ZipWeight(tree) <= bound
        invariant SegregateWalk(base, todo[i..], State(tree, log), folders, bound)
                  == SegregateWalk(base, todo, old(State(tree, log)), map[], bound)
      {
        assert todo[i..][1..] == todo[i + 1..];
        folders, raised := VisitFile(base, todo[i..], folders, bound);
        if raised.Some? {
          return;
        }
      }
      return None;
    }

    /** One turn of the walk loop (App.py:64-97) on the first file of
        `todo`: the rest of the walk from here ends as it would have from
        before, unless this file raised. */
    method VisitFile(base: Path, todo: seq<Path>, folders: map<string, Path>, ghost bound: nat)
      returns (folders1: map<string, Path>, raised: Option<OsError>)
      requires todo != [] && ZipWeight(tree) <= bound
      modifies this`tree, this`log
      ensures raised.Some? ==>
                Ended(State(tree, log), raised) == SegregateWalk(base, todo, old(State(tree, log)), folders, bound)
      ensures raised.None? ==> ZipWeight(tree) <= bound
      ensures raised.None? ==>
                SegregateWalk(base, todo[1..], State(tree, log), folders1, bound)
                == SegregateWalk(base, todo, old(State(tree, log)), folders, bound)
      decreases bound, 0
    {
      var p := todo[0];
      folders1 := folders;
      if ExtKey(Basename(p)) == ".zip" {
        ghost var before := State(tree, log);
        raised := UnpackNestedZip(base, p);
        if raised.Some? {
          return;
        }
        UnpackLowersWeight(base, p, before);
        raised := ProcessAndSegregateFiles(base);
      } else {
        PlaceKeepsArchives(base, p, tree, folders);
        folders1, raised := PlaceFile(base, p, folders);
      }
    }

    /** App.py:67-72: extract a nested archive into base_folder and delete it. */
    method UnpackNestedZip(base: Path, p: Path) returns (raised: Option<OsError>)
      modifies this`tree, this`log
      ensures Ended(State(tree, log), raised) == UnpackNested(base, p, old(State(tree, log)))
    {
      var zip := OpenZip(tree, p);
      if zip.OpenFailed? {
        return Some(zip.error);
      }
      var extracted := ExtractAll(tree, base, zip.entries);
      tree := extracted.tree;
      if extracted.Err? {
        return Some(extracted.error);
      }
      tree := Remove(tree, p).tree;
      LogMessage(NestedMsg(Basename(p)));
      return None;
    }

    /** App.py:76-79 for a file that is not an archive: its bucket is
        created on first use of the extension, then the file is classified
        into it. */
    method PlaceFile(base: Path, p: Path, folders: map<string, Path>)
      returns (folders1: map<string, Path>, raised: Option<OsError>)
      modifies this`tree, this`log
      ensures var r := Place(base, p, old(tree), folders);
              if r.Failed? then raised == Some(r.error) && tree == old(tree) && log == old(log)
              else raised == None && folders1 == r.folders && tree == r.step.tree
                   && log == old(log) + [r.step.line]
    {
      var file := Basename(p);
      var ext := ExtKey(file);
      folders1 := folders;
      if ext !in folders1 {
        var made := MakeDirs(tree, Bucket(base, ext));
        if made.Err? {
          return folders1, Some(made.error);
        }
        tree := made.tree;
        folders1 := folders1[ext := Bucket(base, ext)];
      }
      ClassifyFile(p, folders1[ext] + [file]);
      return folders1, None;
    }

    /** App.py:81-97: rename the file to `target` unless that exists, else
        delete it as a duplicate; a failure is logged and not raised. */
    method ClassifyFile(p: Path, target: Path)
      modifies this`tree, this`log
      ensures var c := Classify(old(tree), p, target);
              tree == c.tree && log == old(log) + [c.line]
    {
      var file := Basename(p);
      if !Exists(tree, target) {
        var moved := Rename(tree, p, target);
        if moved.Ok? {
          tree := moved.tree;
          LogMessage(MovedMsg(file, target));
        } else {
          LogMessage(MoveErrorMsg(file, moved.error));
        }
      } else {
        var removed := Remove(tree, p);
        if removed.Ok? {
          tree := removed.tree;
          LogMessage(DuplicateMsg(file));
        } else {
          LogMessage(DuplicateErrorMsg(file, removed.error));
        }
      }
    }
  
    /** validate_files(base_folder) (App.py:102-113): the tree is only read. */
    method ValidateFiles(base: Path)
      modifies this`log
      ensures log == old(log) + ValidateLines(base, tree, Walk(tree, base))
    {
      var files := Walk(tree, base);
      ValidateEach(base, files);
    }

    /** The loop of validate_files over the walk's files. */
    method ValidateEach(base: Path, files: seq<Path>)
      modifies this`log
      ensures log == old(log) + ValidateLines(base, tree, files)
    {
      ghost var start := log;
      ghost var t := tree;
      for i := 0 to |files|
        invariant tree == t
        invariant log == start + ValidateLines(base, t, files[..i])
      {
        ValidateLinesStep(start, base, t, files, i);
        ValidateFile(base, files[i]);
      }
      assert files[..|files|] == files;
    }

    /** The loop body of validate_files for one file (App.py:105-113). */
    method ValidateFile(base: Path, p: Path)
      modifies this`log
      ensures log == old(log) + ValidateLine(base, tree, p)
    {
      var file := Basename(p);
      var ext := ExtKey(file);
      if ext != [] {
        var folder := Bucket(base, ext);
        if !Exists(tree, folder + [file]) {
          LogMessage(NotMovedMsg(file, BucketText(base, ext)));
        } else {
          LogMessage(CorrectMsg(file, BucketText(base, ext)));
        }
      }
    }

    /** find_and_process_zip() (App.py:29-52): whether the archive was found,
        or the error it raised. */
    method FindAndProcessZip() returns (found: bool, raised: Option<OsError>)
      modifies this`tree, this`log
      ensures FoundOf(State(tree, log), found, raised) == FindAndProcess(downloads, today, old(State(tree, log)))
    {
      var zip := ArchivePath(downloads);
      if !Exists(tree, zip) {
        LogMessage(NotFoundMsg(downloads));
        return false, None;
      }
      LogMessage(WaitingMsg);
      var base := DateFolder(downloads, today);
      var made := MakeDirs(tree, base);
      if made.Err? {
        return false, Some(made.error);
      }
      tree := made.tree;
      var archive := OpenZip(tree, zip);
      if archive.OpenFailed? {
        return false, Some(archive.error);
      }
      var extracted := ExtractAll(tree, base, archive.entries);
      tree := extracted.tree;
      if extracted.Err? {
        return false, Some(extracted.error);
      }
      tree := Remove(tree, zip).tree;
      LogMessage(ExtractedMsg(base));
      raised := ProcessAndSegregateFiles(base);
      if raised.Some? {
        return false, raised;
      }
      ValidateFiles(base);
      return true, None;
    }

    /** The loop of download_nse_reports() (App.py:124-160); `attempts` gives
        what the browser does on each of the three tries. */
    method DownloadNseReports(attempts: seq<Attempt>) returns (ok: bool)
      requires |attempts| == MaxAttempts
      modifies this`tree, this`log
      ensures var r := Download(downloads, today, old(State(tree, log)), attempts, 0);
              State(tree, log) == r.st && ok == r.ok
    {
      for k := 0 to MaxAttempts
        invariant Download(downloads, today, State(tree, log), attempts, k)
                  == Download(downloads, today, old(State(tree, log)), attempts, 0)
      {
        ok := RunOneAttempt(k, attempts[k]);
        if ok {
          return;
        }
      }
      LogMessage(AllFailedMsg);
      return false;
    }

    /** The loop body for attempt number k + 1 (App.py:125-158). */
    method RunOneAttempt(k: nat, a: Attempt) returns (ok: bool)
      modifies this`tree, this`log
      ensures var r := RunAttempt(downloads, today, old(State(tree, log)), k, a);
              State(tree, log) == r.st && ok == r.ok
    {
      ok := TryOneAttempt(k, a);
      // finally: driver.quit()
      if a.quit.QuitRaises? {
        LogMessage(QuitErrorMsg(a.quit.message));
      }
    }

    /** The try and except clauses of attempt number k + 1 (App.py:125-153). */
    method TryOneAttempt(k: nat, a: Attempt) returns (ok: bool)
      modifies this`tree, this`log
      ensures var r := TryAttempt(downloads, today, old(State(tree, log)), k, a);
              State(tree, log) == r.st && ok == r.ok
    {
      LogMessage(AttemptMsg(k + 1));
      BrowserSteps(a.browser, a.arrival);
      ok := false;
      match a.browser {
        case Raised(_, e) =>
          LogMessage(DownloadErrorMsg(e));
        case Completed =>
          ghost var f := FindAndProcess(downloads, today, State(tree, log));
          var found, raised := FindAndProcessZip();
          assert State(tree, log) == f.st;
          if raised.Some? {
            assert f == FindRaised(f.st, raised.value);
            LogMessage(DownloadErrorMsg(Describe(raised.value)));
          } else if found {
            assert f.Processed?;
            LogMessage(SuccessMsg);
            ok := true;
          } else {
            LogMessage(RetryMsg);
          }
      }
    }

    /** What the browser part of the try block (App.py:127-144) logs and
        saves before it finishes or raises. */
    method BrowserSteps(b: Browser, arrival: Arrival)
      modifies this`tree, this`log
      ensures log == WithProgress(old(log), b)
      ensures tree == if Clicked(b) then Arrive(old(tree), downloads, arrival) else old(tree)
    {
      if !(b.Raised? && b.at == Opening) {
        LogMessage(SelectedMsg);
      }
      if Clicked(b) {
        LogMessage(ClickedMsg);
        tree := Arrive(tree, downloads, arrival);
      }
    }

    /** get_extension_summary(base_folder) (App.py:162-168): the tree is only
        read. */
    method GetExtensionSummary(base: Path) returns (counts: map<string, nat>)
      ensures counts == ExtCounts(Walk(tree, base))
    {
      var files := Walk(tree, base);
      counts := map[];
      for i := 0 to |files|
        invariant counts == ExtCounts(files[..i])
      {
        var ext := Ext(Basename(files[i]));
        ExtCountsStep(files, i);
        var seen := if ext in counts then counts[ext] else 0;
        counts := counts[ext := seen + 1];
      }
      assert files[..|files|] == files;
    }
  }
}
