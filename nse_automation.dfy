/** nse_automation.py as it runs: the file system and the logger's output
    are the fields of an Automation, and every operation changes them in
    place. Each method is proved to end in the state its function in
    NseAutomationSpec computes. */
module NseAutomation {
  import opened Paths
  import opened FileSystem
  import opened NseAutomationSpec

  class Automation {
    var tree: Tree
    /** What the logger printed, without timestamps and levels. */
    var log: seq<string>

    constructor (tree: Tree)
      ensures this.tree == tree && log == []
    {
      this.tree := tree;
      log := [];
    }

    /** organize_files_by_type(file_path, base_folder) (nse_automation.py:49-55). */
    method OrganizeFilesByType(p: Path, base: Path) returns (raised: Option<OsError>)
      modifies this`tree, this`log
      ensures Run(tree, log, raised) == Organize(base, p, old(tree), old(log))
    {
      var folder := TypeFolderPath(base, p);
      var made := MakeDirs(tree, folder);
      if made.Err? {
        return Some(made.error);
      }
      tree := made.tree;
      var moved := Move(tree, p, folder + [Basename(p)]);
      if moved.Err? {
        return Some(moved.error);
      }
      tree := moved.tree;
      log := log + [MovedMsg(folder)];
      return None;
    }

    /** extract_nested_zip(zip_path, base_folder) (nse_automation.py:58-73),
        with `fuel` levels of recursion left. */
    method ExtractNestedZip(fuel: nat, zip: Path, base: Path) returns (raised: Option<OsError>)
      modifies this`tree, this`log
      ensures Run(tree, log, raised) == ExtractNested(fuel, base, zip, old(tree), old(log))
      decreases fuel, 1, 0
    {
      if fuel == 0 {
        return Some(RecursionLimit);
      }
      raised := ExtractAndSweep(fuel - 1, zip, base);
    }

    /** The body of extract_nested_zip (nse_automation.py:59-73). */
    method ExtractAndSweep(depth: nat, zip: Path, base: Path) returns (raised: Option<OsError>)
      modifies this`tree, this`log
      ensures Run(tree, log, raised) == ExtractNestedBody(depth, base, zip, old(tree), old(log))
      decreases depth, 4, 0
    {
      var nested := NestedFolder(base);
      ghost var unpacked := Unpack(zip, nested, tree);
      raised := UnpackArchive(zip, nested);
      if raised.Some? {
        assert unpacked.Err? && raised == Some(unpacked.error);
        return;
      }
      assert unpacked.Ok? && tree == unpacked.tree;
      log := log + [NestedMsg(zip, nested)];
      raised := SweepAndRemove(depth, base, nested);
    }

    /** Open the archive, create `nested` and extract into it
        (nse_automation.py:59-62). */
    method UnpackArchive(zip: Path, nested: Path) returns (raised: Option<OsError>)
      modifies this`tree
      ensures tree == Unpack(zip, nested, old(tree)).tree
      ensures raised == if Unpack(zip, nested, old(tree)).Ok? then None
                        else Some(Unpack(zip, nested, old(tree)).error)
    {
      var archive := OpenZip(tree, zip);
      if archive.OpenFailed? {
        return Some(archive.error);
      }
      var made := MakeDirs(tree, nested);
      if made.Err? {
        return Some(made.error);
      }
      tree := made.tree;
      var extracted := ExtractAll(tree, nested, archive.entries);
      tree := extracted.tree;
      if extracted.Err? {
        return Some(extracted.error);
      }
      return None;
    }

    /** Walk the files under `dir`, then shutil.rmtree(dir). */
    method SweepAndRemove(depth: nat, base: Path, dir: Path) returns (raised: Option<OsError>)
      modifies this`tree, this`log
      ensures Run(tree, log, raised) == SweepFolder(depth, base, dir, old(tree), old(log))
      decreases depth, 3, 0
    {
      raised := SweepFiles(depth, base, Walk(tree, dir));
      if raised.Some? {
        return;
      }
      var removed := RmTree(tree, dir);
      if removed.Err? {
        return Some(removed.error);
      }
      tree := removed.tree;
    }

    /** The os.walk loop (nse_automation.py:65-72 and 80-87) over the
        snapshot `todo`. */
    method SweepFiles(depth: nat, base: Path, todo: seq<Path>) returns (raised: Option<OsError>)
      modifies this`tree, this`log
      ensures Run(tree, log, raised) == Sweep(depth, base, todo, old(tree), old(log))
      decreases depth, 2, |todo|
    {
      for i := 0 to |todo|
        invariant Sweep(depth, base, todo[i..], tree, log) == Sweep(depth, base, todo, old(tree), old(log))
      {
        assert todo[i..][1..] == todo[i + 1..];
        raised := SweepFile(depth, base, todo[i]);
        if raised.Some? {
          return;
        }
      }
      return None;
    }

    /** One turn of the walk loop. */
    method SweepFile(depth: nat, base: Path, q: Path) returns (raised: Option<OsError>)
      modifies this`tree, this`log
      ensures Run(tree, log, raised) == SweepOne(depth, base, q, old(tree), old(log))
      decreases depth, 1, 1
    {
      if IsZipFile(q) {
        raised := ExtractNestedZip(depth, q, base);
        if raised.Some? {
          return;
        }
        var removed := Remove(tree, q);
        if removed.Err? {
          return Some(removed.error);
        }
        tree := removed.tree;
      } else {
        raised := OrganizeFilesByType(q, base);
      }
    }

    /** process_extracted_folder(base_folder) (nse_automation.py:76-88). */
    method ProcessExtractedFolder(fuel: nat, base: Path) returns (raised: Option<OsError>)
      modifies this`tree, this`log
      ensures Run(tree, log, raised) == ProcessExtracted(fuel, base, old(tree), old(log))
    {
      var ex := ExtractedFolder(base);
      if !Exists(tree, ex) {
        return None;
      }
      log := log + [ProcessingMsg(ex)];
      raised := SweepAndRemove(fuel, base, ex);
    }

    /** initialize_driver(retry_count) (nse_automation.py:25-46): true when a
        driver is returned, false when it raises after the last retry. */
    method InitializeDriver(retryCount: nat, outcomes: seq<Option<string>>) returns (ok: bool)
      requires |outcomes| == MaxRetries + 1
      modifies this`log
      ensures DriverRun(log, ok) == Driver(retryCount, outcomes, old(log))
      decreases MaxRetries + 1 - retryCount
    {
      if retryCount > MaxRetries {
        return false;
      }
      log := log + [InitMsg];
      match outcomes[retryCount]
      case None =>
        return true;
      case Some(e) =>
        log := log + [InitErrorMsg(e)];
        ok := InitializeDriver(retryCount + 1, outcomes);
    }
  }
}
