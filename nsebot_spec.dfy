/** The ingest step of NSEBOT/App.py as functions over the file tree and the
    log: what find_and_process_zip, process_and_segregate_files,
    validate_files, download_nse_reports and get_extension_summary compute.
    The class in nsebot.dfy runs the same steps imperatively and is proved
    equal to these functions; the lemmas in nsebot_props.dfy state what the
    functions guarantee. */
module NseBotSpec {
  import opened Paths
  import opened FileSystem

  const ArchiveName: Name := "Reports-Daily-Multiple.zip"
  const ReportsFolder: Name := "NSE Reports"
  const LogName: Name := "Log.log"
  const MaxAttempts: nat := 3

  /** The global log_data list and the file system. */
  datatype State = State(tree: Tree, log: seq<string>)

  /** A run either finishes or is ended by an uncaught exception, with the
      tree and log as they were when it was raised. */
  datatype Outcome = Done(st: State) | Aborted(st: State, error: OsError)

  // ---------------------------------------------------------------- messages
  // log_message entries, without the timestamp prefix.

  function NatText(n: nat): string
  {
    if n < 10 then ['0' + n as char] else NatText(n / 10) + ['0' + (n % 10) as char]
  }

  function NotFoundMsg(downloads: Path): string
  {
    "\U{274C} " + ArchiveName + " not found in " + Render(downloads)
  }
  const WaitingMsg: string := "Zip file downloaded " + "and waiting for processing"
  function ExtractedMsg(base: Path): string
  {
    "\U{2705} Extracted " + ArchiveName + " to " + Render(base)
  }
  function NestedMsg(file: Name): string
  {
    "\U{2705} Extracted nested zip: " + file
  }
  function MovedMsg(file: Name, target: Path): string
  {
    "\U{2705} Moved: " + file + " -> " + Render(target)
  }
  function MoveErrorMsg(file: Name, e: OsError): string
  {
    "\U{274C} Error moving " + file + ": " + Describe(e)
  }
  function DuplicateMsg(file: Name): string
  {
    "\U{1F5D1}\U{FE0F} Duplicate removed: " + file
  }
  function DuplicateErrorMsg(file: Name, e: OsError): string
  {
    "\U{274C} Error removing duplicate " + file + ": " + Describe(e)
  }
  function SavedMsg(base: Path): string
  {
    "Process log saved at " + Render(base + [LogName])
  }
  function NotMovedMsg(file: Name, folder: string): string
  {
    "\U{274C} File " + file + " not moved to " + folder
  }
  function CorrectMsg(file: Name, folder: string): string
  {
    "\U{2705} File " + file + " correctly moved to " + folder
  }
  const AttemptPrefix: string := "Starting download attempt "
  function AttemptMsg(k: nat): string
  {
    AttemptPrefix + NatText(k) + "/3..."
  }
  const SelectedMsg: string := "\U{2714}\U{FE0F} Selected all reports."
  const ClickedMsg: string := "\U{2714}\U{FE0F} Clicked download button."
  const SuccessMsg: string := "\U{2705} Download and processing " + "completed successfully."
  const RetryMsg: string := "\U{274C} Zip file not found. Retrying..."
  function DownloadErrorMsg(e: string): string
  {
    "\U{274C} Error during download: " + e
  }
  function QuitErrorMsg(e: string): string
  {
    "\U{274C} Error while quitting driver: " + e
  }
  const AllFailedMsg: string := "\U{274C} All download " + "attempts failed."

  /** A "Starting download attempt" entry. */
  predicate IsAttemptLine(s: string)
  {
    |AttemptPrefix| <= |s| && s[..|AttemptPrefix|] == AttemptPrefix
  }

  /** `log` is `prefix` followed by new entries, none of them an attempt line. */
  predicate Extends(log: seq<string>, prefix: seq<string>)
  {
    |prefix| <= |log| && log[..|prefix|] == prefix
  }
  predicate Quiet(log: seq<string>, from: nat)
  {
    forall i :: from <= i < |log| ==> !IsAttemptLine(log[i])
  }
  predicate Grows(log: seq<string>, prefix: seq<string>)
  {
    Extends(log, prefix) && Quiet(log, |prefix|)
  }

  /** Appending an entry that does not start like an attempt line. */
  lemma GrowsAppend(log: seq<string>, prefix: seq<string>, line: string)
    requires Grows(log, prefix)
    requires Plain(line)
    ensures Grows(log + [line], prefix)
  {
    assert AttemptPrefix[0] == 'S';
    assert (log + [line])[..|prefix|] == log[..|prefix|];
  }

  lemma AppendAssoc(a: seq<string>, b: seq<string>, c: seq<string>)
    ensures (a + b) + c == a + (b + c)
  {
  }

  lemma GrowsRefl(log: seq<string>)
    ensures Grows(log, log)
  {
    assert log[..|log|] == log;
  }

  lemma GrowsTrans(a: seq<string>, b: seq<string>, c: seq<string>)
    requires Grows(a, b) && Grows(b, c)
    ensures Grows(a, c)
  {
    assert a[..|c|] == a[..|b|][..|c|];
  }

  // ---------------------------------------------------------------- buckets

  /** The key App.py files a name under: the splitext suffix, lower-cased. */
  function ExtKey(name: Name): string
  {
    Lower(Ext(name))
  }

  predicate IsZipName(name: Name)
  {
    ExtKey(name) == ".zip"
  }

  /** ext.lstrip('.').upper() */
  function FolderName(ext: string): string
  {
    Upper(LStripDots(ext))
  }

  /** os.path.join(base_folder, FolderName(ext)): base_folder itself when the
      folder name is empty. */
  function Bucket(base: Path, ext: string): Path
  {
    var n := FolderName(ext);
    if n == [] then base else base + [n]
  }

  /** The same folder as the text validate_files prints. */
  function BucketText(base: Path, ext: string): string
  {
    Join(Render(base), FolderName(ext))
  }

  // ---------------------------------------------------------------- termination measure

  predicate IsZipPath(p: Path)
  {
    IsZipName(Basename(p))
  }

  /** Total size of the files stored under a *.zip name (any letter case):
      a pass restarts only after unpacking one of them, which lowers this. */
  ghost function ZipWeight(t: Tree): nat
  {
    MapSize(Restrict(t.files, IsZipPath))
  }

  /** Unpacking a nested archive strictly lowers the weight. */
  lemma UnpackLowersWeight(base: Path, p: Path, st: State)
    requires IsZipPath(p)
    ensures UnpackNested(base, p, st).Done? ==>
              ZipWeight(UnpackNested(base, p, st).st.tree) < ZipWeight(st.tree)
    ensures Grows(UnpackNested(base, p, st).st.log, st.log)
  {
    GrowsRefl(st.log);
    GrowsAppend(st.log, st.log, NestedMsg(Basename(p)));
    var t := st.tree;
    var o := OpenZip(t, p);
    if o.Opened? {
      var x := ExtractAll(t, base, o.entries);
      if x.Ok? {
        ExtractAllRestrictSize(t, base, o.entries, IsZipPath, p);
        RestrictRemove(x.tree.files, IsZipPath, p);
        MapSizeRemove(Restrict(t.files, IsZipPath), p);
      }
    }
  }

  // ---------------------------------------------------------------- segregation

  /** One step of a pass: the new tree and the one entry it logs. */
  datatype Step = Step(tree: Tree, line: string)

  /** A log entry that cannot be taken for an attempt line. */
  predicate Plain(line: string)
  {
    line != [] && line[0] != 'S'
  }

  /** App.py:81-97 for one file that is not an archive: rename it to
      `target` unless that exists, else delete it as a duplicate. A failing
      call is logged and the walk goes on. */
  function Classify(t: Tree, p: Path, target: Path): (r: Step)
  {
    var file := Basename(p);
    if !Exists(t, target) then
      match Rename(t, p, target)
      case Ok(t1) => Step(t1, MovedMsg(file, target))
      case Err(_, e) => Step(t, MoveErrorMsg(file, e))
    else
      match Remove(t, p)
      case Ok(t1) => Step(t1, DuplicateMsg(file))
      case Err(_, e) => Step(t, DuplicateErrorMsg(file, e))
  }

  /** Classifying a non-archive never touches an archive, and its entry is
      plain. */
  lemma ClassifyKeepsArchives(t: Tree, p: Path, target: Path)
    requires !IsZipPath(p) && !IsZipPath(target)
    ensures Restrict(Classify(t, p, target).tree.files, IsZipPath) == Restrict(t.files, IsZipPath)
    ensures Plain(Classify(t, p, target).line)
  {
    var file := Basename(p);
    if !Exists(t, target) {
      var m := Rename(t, p, target);
      if m.Ok? {
        RestrictRemove(t.files, IsZipPath, p);
        RestrictStore(t.files - {p}, IsZipPath, target, t.files[p]);
        assert Classify(t, p, target).line == MovedMsg(file, target);
      } else {
        assert Classify(t, p, target).line == MoveErrorMsg(file, m.error);
      }
    } else {
      var m := Remove(t, p);
      if m.Ok? {
        RestrictRemove(t.files, IsZipPath, p);
        assert Classify(t, p, target).line == DuplicateMsg(file);
      } else {
        assert Classify(t, p, target).line == DuplicateErrorMsg(file, m.error);
      }
    }
  }


  /** App.py:67-72: a nested archive is extracted into base_folder and then
      removed. Opening and extracting are not guarded by try, so their errors
      end the whole run. */
  function UnpackNested(base: Path, p: Path, st: State): (r: Outcome)
  {
    match OpenZip(st.tree, p)
    case OpenFailed(e) => Aborted(st, e)
    case Opened(es) =>
      match ExtractAll(st.tree, base, es)
      case Err(t1, e) => Aborted(State(t1, st.log), e)
      case Ok(t1) =>
        // p is still a file: extraction never removes one
        Done(State(Remove(t1, p).tree, st.log + [NestedMsg(Basename(p))]))
  }

  /** The tail of a pass: the process-log line once the walk has finished. */
  function Finish(base: Path, o: Outcome): Outcome
  {
    match o
    case Aborted(s, e) => Aborted(s, e)
    case Done(s) => Done(State(s.tree, s.log + [SavedMsg(base)]))
  }

  /** The outcome of a run that returned normally or raised `raised`. */
  function Ended(st: State, raised: Option<OsError>): Outcome
  {
    if raised.Some? then Aborted(st, raised.value) else Done(st)
  }

  /** process_and_segregate_files(base_folder): create Log.log, then walk the
      files under base_folder. */
  function Segregate(base: Path, st: State): (r: Outcome)
    ensures Grows(r.st.log, st.log)
    ensures r.Done? ==> ZipWeight(r.st.tree) <= ZipWeight(st.tree)
    decreases ZipWeight(st.tree), 1, 0, 0
  {
    match OpenForWrite(st.tree, base + [LogName])
    case Err(_, e) => GrowsRefl(st.log); Aborted(st, e)
    case Ok(t1) =>
      LogNameIsNotArchive();
      RestrictStore(st.tree.files, IsZipPath, base + [LogName], Data([]));
      var w := SegregateWalk(base, Walk(t1, base), State(t1, st.log), map[], ZipWeight(t1));
      if w.Done? then GrowsAppend(w.st.log, st.log, SavedMsg(base)); Finish(base, w)
      else Finish(base, w)
  }

  /** The os.walk loop over a snapshot of the files (App.py:62-97).
      `folders` is the ext_folders cache; `bound` only serves the
      termination proof. */
  function SegregateWalk(base: Path, todo: seq<Path>, st: State, folders: map<string, Path>,
                         ghost bound: nat): (r: Outcome)
    requires ZipWeight(st.tree) <= bound
    ensures Grows(r.st.log, st.log)
    ensures r.Done? ==> ZipWeight(r.st.tree) <= ZipWeight(st.tree)
    decreases bound, 0, |todo|, 1
  {
    if todo == [] then GrowsRefl(st.log); Done(st)
    else if IsZipPath(todo[0]) then Restart(base, todo, st, folders, bound)
    else Advance(base, todo, st, folders, bound)
  }

  /** App.py:76-97: the first file of `todo` is not an archive. Place it in
      its bucket and go on with the rest of the snapshot. */
  function Advance(base: Path, todo: seq<Path>, st: State, folders: map<string, Path>,
                   ghost bound: nat): (r: Outcome)
    requires todo != [] && !IsZipPath(todo[0])
    requires ZipWeight(st.tree) <= bound
    ensures Grows(r.st.log, st.log)
    ensures r.Done? ==> ZipWeight(r.st.tree) <= ZipWeight(st.tree)
    decreases bound, 0, |todo|, 0
  {
    match Place(base, todo[0], st.tree, folders)
    case Failed(e) => GrowsRefl(st.log); Aborted(st, e)
    case Placed(c, folders1) =>
      PlaceKeepsArchives(base, todo[0], st.tree, folders);
      GrowsRefl(st.log);
      GrowsAppend(st.log, st.log, c.line);
      var r := SegregateWalk(base, todo[1..], State(c.tree, st.log + [c.line]), folders1, bound);
      GrowsTrans(r.st.log, st.log + [c.line], st.log);
      r
  }

  /** App.py:67-74: the first file of `todo` is an archive. Unpack it, run a
      whole new pass over base_folder, then go on with the rest of the
      original snapshot. */
  function Restart(base: Path, todo: seq<Path>, st: State, folders: map<string, Path>,
                   ghost bound: nat): (r: Outcome)
    requires todo != [] && IsZipPath(todo[0])
    requires ZipWeight(st.tree) <= bound
    ensures Grows(r.st.log, st.log)
    ensures r.Done? ==> ZipWeight(r.st.tree) <= ZipWeight(st.tree)
    decreases bound, 0, |todo|, 0
  {
    var u := UnpackNested(base, todo[0], st);
    if u.Aborted? then u
    else
      UnpackLowersWeight(base, todo[0], st);
      var s := Segregate(base, u.st);
      GrowsTrans(s.st.log, u.st.log, st.log);
      if s.Aborted? then s
      else
        var r := SegregateWalk(base, todo[1..], s.st, folders, bound);
        GrowsTrans(r.st.log, s.st.log, st.log);
        r
  }

  datatype Placement = Placed(step: Step, folders: map<string, Path>) | Failed(error: OsError)

  /** App.py:76-97 for a file that is not an archive: create its bucket on
      first use of the extension (an error here is not caught), then
      classify it into the bucket. */
  function Place(base: Path, p: Path, t: Tree, folders: map<string, Path>): (r: Placement)
  {
    var file := Basename(p);
    var ext := ExtKey(file);
    if ext in folders then Placed(Classify(t, p, folders[ext] + [file]), folders)
    else
      match MakeDirs(t, Bucket(base, ext))
      case Err(_, e) => Failed(e)
      case Ok(t1) =>
        Placed(Classify(t1, p, Bucket(base, ext) + [file]), folders[ext := Bucket(base, ext)])
  }

  lemma PlaceKeepsArchives(base: Path, p: Path, t: Tree, folders: map<string, Path>)
    requires !IsZipPath(p)
    ensures Place(base, p, t, folders).Placed? ==>
              ZipWeight(Place(base, p, t, folders).step.tree) == ZipWeight(t)
              && Plain(Place(base, p, t, folders).step.line)
  {
    var file := Basename(p);
    var ext := ExtKey(file);
    if ext in folders {
      assert Place(base, p, t, folders) == Placed(Classify(t, p, folders[ext] + [file]), folders);
      ClassifyKeepsArchives(t, p, folders[ext] + [file]);
    } else {
      var b := Bucket(base, ext);
      var m := MakeDirs(t, b);
      if m.Ok? {
        assert Place(base, p, t, folders) == Placed(Classify(m.tree, p, b + [file]), folders[ext := b]);
        ClassifyKeepsArchives(m.tree, p, b + [file]);
      }
    }
  }

  lemma LogNameIsNotArchive()
    ensures !IsZipName(LogName)
  {
    var e := Ext(LogName);
    ExtSpec(LogName);
    assert LogName[0] != '.' && LogName[3] == '.';
    assert forall k :: 0 <= k < |LogName| && LogName[k] == '.' ==> k == 3;
    assert e == ".log";
    LowerSpec(e);
    assert Lower(e)[1] == 'l';
  }

  // ---------------------------------------------------------------- validation

  /** The entry validate_files writes for one file: none when the name has
      no extension. */
  function ValidateLine(base: Path, t: Tree, p: Path): seq<string>
  {
    var file := Basename(p);
    var ext := ExtKey(file);
    if ext == [] then []
    else if !Exists(t, Bucket(base, ext) + [file]) then [NotMovedMsg(file, BucketText(base, ext))]
    else [CorrectMsg(file, BucketText(base, ext))]
  }

  /** The entries for a walk, in walk order. */
  function ValidateLines(base: Path, t: Tree, files: seq<Path>): seq<string>
  {
    if files == [] then []
    else ValidateLines(base, t, files[..|files| - 1]) + ValidateLine(base, t, files[|files| - 1])
  }

  /** One more file of the walk appends its entry to what was written. */
  lemma ValidateLinesStep(start: seq<string>, base: Path, t: Tree, files: seq<Path>, i: nat)
    requires i < |files|
    ensures start + ValidateLines(base, t, files[..i + 1])
            == (start + ValidateLines(base, t, files[..i])) + ValidateLine(base, t, files[i])
  {
    assert files[..i + 1][..i] == files[..i];
  }

  /** The files validate_files reports on: those with an extension. */
  function Checked(files: seq<Path>): (r: seq<Path>)
    ensures forall i :: 0 <= i < |r| ==> r[i] in files && Ext(Basename(r[i])) != []
    ensures forall p :: p in files && Ext(Basename(p)) != [] ==> p in r
    ensures |r| <= |files|
  {
    if files == [] then []
    else
      var init := files[..|files| - 1];
      var last := files[|files| - 1];
      assert forall p :: p in files ==> p in init || p == last;
      if Ext(Basename(last)) == [] then Checked(init) else Checked(init) + [last]
  }

  /** validate_files(base_folder) */
  function Validate(base: Path, st: State): State
  {
    State(st.tree, st.log + ValidateLines(base, st.tree, Walk(st.tree, base)))
  }

  // ---------------------------------------------------------------- find_and_process_zip

  datatype Found = NotFound(st: State) | Processed(st: State) | FindRaised(st: State, error: OsError)

  /** What find_and_process_zip returned or raised. */
  function FoundOf(st: State, found: bool, raised: Option<OsError>): Found
  {
    if raised.Some? then FindRaised(st, raised.value)
    else if found then Processed(st)
    else NotFound(st)
  }

  function ArchivePath(downloads: Path): Path
  {
    downloads + [ArchiveName]
  }

  function DateFolder(downloads: Path, today: Name): Path
  {
    downloads + [ReportsFolder, today]
  }

  /** find_and_process_zip() (App.py:29-52). Nothing in it catches an
      exception: a failing call ends it with the state reached so far. */
  function FindAndProcess(downloads: Path, today: Name, st: State): (r: Found)
    ensures Grows(r.st.log, st.log)
  {
    var zip := ArchivePath(downloads);
    if !Exists(st.tree, zip) then
      PlainGrows(st.log, [NotFoundMsg(downloads)]);
      NotFound(State(st.tree, st.log + [NotFoundMsg(downloads)]))
    else
      var log1 := st.log + [WaitingMsg];
      var base := DateFolder(downloads, today);
      WaitingIsPlain();
      PlainGrows(st.log, [WaitingMsg]);
      match MakeDirs(st.tree, base)
      case Err(_, e) => FindRaised(State(st.tree, log1), e)
      case Ok(t1) =>
        match OpenZip(t1, zip)
        case OpenFailed(e) => FindRaised(State(t1, log1), e)
        case Opened(es) =>
          match ExtractAll(t1, base, es)
          case Err(t2, e) => FindRaised(State(t2, log1), e)
          case Ok(t2) =>
            match Remove(t2, zip)
            case Err(_, e) => FindRaised(State(t2, log1), e)
            case Ok(t3) =>
              var log2 := log1 + [ExtractedMsg(base)];
              PlainGrows(log1, [ExtractedMsg(base)]);
              GrowsTrans(log2, log1, st.log);
              match Segregate(base, State(t3, log2))
              case Aborted(s, e) =>
                GrowsTrans(s.log, log2, st.log);
                FindRaised(s, e)
              case Done(s) =>
                ValidateLinesPlain(base, s.tree, Walk(s.tree, base));
                PlainGrows(s.log, ValidateLines(base, s.tree, Walk(s.tree, base)));
                GrowsTrans(Validate(base, s).log, s.log, log2);
                GrowsTrans(Validate(base, s).log, log2, st.log);
                Processed(Validate(base, s))
  }

  predicate AllPlain(lines: seq<string>)
  {
    forall i :: 0 <= i < |lines| ==> Plain(lines[i])
  }

  lemma PlainGrows(log: seq<string>, lines: seq<string>)
    requires AllPlain(lines)
    ensures Grows(log + lines, log)
  {
    assert (log + lines)[..|log|] == log;
    forall i | |log| <= i < |log + lines|
      ensures !IsAttemptLine((log + lines)[i])
    {
      assert (log + lines)[i] == lines[i - |log|];
      assert AttemptPrefix[0] == 'S';
    }
  }

  lemma WaitingIsPlain()
    ensures AllPlain([WaitingMsg])
  {
    assert WaitingMsg[0] == 'Z';
  }

  lemma ValidateLinePlain(base: Path, t: Tree, p: Path)
    ensures AllPlain(ValidateLine(base, t, p))
  {
    var file := Basename(p);
    var text := BucketText(base, ExtKey(file));
    var line := ValidateLine(base, t, p);
    CheckMsgsPlain(file, text);
    assert line == [] || line == [NotMovedMsg(file, text)] || line == [CorrectMsg(file, text)];
  }

  lemma CheckMsgsPlain(file: Name, folder: string)
    ensures Plain(NotMovedMsg(file, folder)) && Plain(CorrectMsg(file, folder))
  {
    assert NotMovedMsg(file, folder)[0] == '\U{274C}';
    assert CorrectMsg(file, folder)[0] == '\U{2705}';
  }

  lemma {:induction false} ValidateLinesPlain(base: Path, t: Tree, files: seq<Path>)
    ensures AllPlain(ValidateLines(base, t, files))
  {
    if files != [] {
      var init := ValidateLines(base, t, files[..|files| - 1]);
      var last := ValidateLine(base, t, files[|files| - 1]);
      ValidateLinesPlain(base, t, files[..|files| - 1]);
      ValidateLinePlain(base, t, files[|files| - 1]);
      assert ValidateLines(base, t, files) == init + last;
      forall i | 0 <= i < |init + last| ensures Plain((init + last)[i]) {
        if i < |init| { assert (init + last)[i] == init[i]; }
        else { assert (init + last)[i] == last[i - |init|]; }
      }
    }
  }

  // ---------------------------------------------------------------- download_nse_reports

  /** How far the browser got before it raised: whether "Selected all
      reports." and "Clicked download button." were logged. */
  datatype Progress = Opening | AfterSelect | AfterClick

  /** The browser part of one attempt (App.py:127-144), which the model
      takes as given. */
  datatype Browser = Raised(at: Progress, message: string) | Completed

  /** What the click left in the downloads folder. */
  datatype Arrival = NoFile | Saved(node: Node)

  /** The driver.quit() in the finally clause. */
  datatype Quit = Quits | QuitRaises(message: string)

  datatype Attempt = Attempt(browser: Browser, arrival: Arrival, quit: Quit)

  /** The log after the browser's progress entries. */
  function WithProgress(log: seq<string>, b: Browser): seq<string>
  {
    match b
    case Raised(Opening, _) => log
    case Raised(AfterSelect, _) => log + [SelectedMsg]
    case _ => log + [SelectedMsg] + [ClickedMsg]
  }

  predicate Clicked(b: Browser)
  {
    b.Completed? || b.at == AfterClick
  }

  /** The browser saves the archive in the downloads folder, creating the
      folder when it is missing; nothing is saved when a folder of that
      name or a file above it is in the way. */
  function Arrive(t: Tree, downloads: Path, a: Arrival): Tree
  {
    match a
    case NoFile => t
    case Saved(n) => ExtractMember(t, ArchivePath(downloads), n).tree
  }

  datatype AttemptResult = AttemptResult(st: State, ok: bool)

  /** The try and except clauses for attempt number k + 1 (App.py:125-153). */
  function TryAttempt(downloads: Path, today: Name, st: State, k: nat, a: Attempt): (r: AttemptResult)
  {
    var log1 := WithProgress(st.log + [AttemptMsg(k + 1)], a.browser);
    var t1 := if Clicked(a.browser) then Arrive(st.tree, downloads, a.arrival) else st.tree;
    match a.browser
    case Raised(_, e) => AttemptResult(State(t1, log1 + [DownloadErrorMsg(e)]), false)
    case Completed =>
      match FindAndProcess(downloads, today, State(t1, log1))
      case NotFound(s) => AttemptResult(State(s.tree, s.log + [RetryMsg]), false)
      case Processed(s) => AttemptResult(State(s.tree, s.log + [SuccessMsg]), true)
      case FindRaised(s, e) => AttemptResult(State(s.tree, s.log + [DownloadErrorMsg(Describe(e))]), false)
  }

  /** The whole loop body, with the finally clause (App.py:154-158). */
  function RunAttempt(downloads: Path, today: Name, st: State, k: nat, a: Attempt): (r: AttemptResult)
  {
    var body := TryAttempt(downloads, today, st, k, a);
    match a.quit
    case Quits => body
    case QuitRaises(e) => AttemptResult(State(body.st.tree, body.st.log + [QuitErrorMsg(e)]), body.ok)
  }

  datatype DownloadRun = DownloadRun(st: State, ok: bool, tries: nat)

  /** download_nse_reports() from attempt k + 1 on, with the browser outcome
      of every attempt given. */
  function Download(downloads: Path, today: Name, st: State, attempts: seq<Attempt>, k: nat): (r: DownloadRun)
    requires |attempts| == MaxAttempts
    decreases MaxAttempts - k
  {
    if k >= MaxAttempts then DownloadRun(State(st.tree, st.log + [AllFailedMsg]), false, k)
    else
      var a := RunAttempt(downloads, today, st, k, attempts[k]);
      if a.ok then DownloadRun(a.st, true, k + 1)
      else Download(downloads, today, a.st, attempts, k + 1)
  }

  // ---------------------------------------------------------------- get_extension_summary

  /** ext_count after counting `files` in order: raw splitext suffixes. */
  function ExtCounts(files: seq<Path>): map<string, nat>
  {
    if files == [] then map[]
    else
      var m := ExtCounts(files[..|files| - 1]);
      var e := Ext(Basename(files[|files| - 1]));
      m[e := (if e in m then m[e] else 0) + 1]
  }

  lemma ExtCountsStep(files: seq<Path>, i: nat)
    requires i < |files|
    ensures var m := ExtCounts(files[..i]); var e := Ext(Basename(files[i]));
            ExtCounts(files[..i + 1]) == m[e := (if e in m then m[e] else 0) + 1]
  {
    assert files[..i + 1][..i] == files[..i];
  }
}
