/** The file handling of nse_automation.py as functions over the file tree
    and the logger's output: organize_files_by_type, extract_nested_zip,
    process_extracted_folder and the retry counter of initialize_driver. The
    class in nse_automation.dfy runs the same steps imperatively and is
    proved equal to these functions. Nothing in these functions catches an
    exception: the first one raised ends the whole call. */
module NseAutomationSpec {
  import opened Paths
  import opened FileSystem

  const ExtractedName: Name := "extracted"
  const NestedName: Name := "NestedExtracted"
  const OtherFolder: Name := "OTHER"
  const ZipSuffix: string := ".zip"
  /** initialize_driver gives up once retry_count exceeds this. */
  const MaxRetries: nat := 3

  /** The tree and the logger's output after a call, and the exception it
      raised, if any. */
  datatype Run = Run(tree: Tree, log: seq<string>, raised: Option<OsError>)

  // ---------------------------------------------------------------- messages
  // logger.info / logger.error texts, without the timestamp and level.

  function MovedMsg(folder: Path): string
  {
    "Moved file to " + Render(folder)
  }
  function NestedMsg(zip: Path, nested: Path): string
  {
    "Extracted nested ZIP " + Render(zip) + " into " + Render(nested)
  }
  function ProcessingMsg(folder: Path): string
  {
    "Processing folder: " + Render(folder)
  }
  const InitMsg: string := "Initializing WebDriver..."
  function InitErrorMsg(e: string): string
  {
    "Error initializing WebDriver: " + e + ". Retrying..."
  }

  // ---------------------------------------------------------------- organize_files_by_type

  /** The folder a file is organized into (nse_automation.py:50-51): its
      extension, lower-cased, without leading dots, upper-cased; "OTHER"
      when that is empty. */
  function TypeFolder(name: Name): Name
  {
    var ext := LStripDots(Lower(Ext(name)));
    if ext == [] then OtherFolder else Upper(ext)
  }

  /** base_folder/FOLDER for the file at p. */
  function TypeFolderPath(base: Path, p: Path): Path
  {
    base + [TypeFolder(Basename(p))]
  }

  /** organize_files_by_type(file_path, base_folder) (nse_automation.py:49-55). */
  function Organize(base: Path, p: Path, t: Tree, log: seq<string>): Run
  {
    var folder := TypeFolderPath(base, p);
    match MakeDirs(t, folder)
    case Err(_, e) => Run(t, log, Some(e))
    case Ok(t1) =>
      match Move(t1, p, folder + [Basename(p)])
      case Err(_, e) => Run(t1, log, Some(e))
      case Ok(t2) => Run(t2, log + [MovedMsg(folder)], None)
  }

  // ---------------------------------------------------------------- extract_nested_zip

  /** file.endswith(".zip"): case-sensitive. */
  predicate IsZipFile(p: Path)
  {
    EndsWith(Basename(p), ZipSuffix)
  }

  function NestedFolder(base: Path): Path
  {
    base + [NestedName]
  }

  /** extract_nested_zip(zip_path, base_folder) (nse_automation.py:58-73).
      `fuel` is the recursion depth Python still allows: at 0 the call
      raises RecursionError. */
  function ExtractNested(fuel: nat, base: Path, zip: Path, t: Tree, log: seq<string>): Run
    decreases fuel, 1, 0
  {
    if fuel == 0 then Run(t, log, Some(RecursionLimit)) else ExtractNestedBody(fuel - 1, base, zip, t, log)
  }

  /** The body of extract_nested_zip, with `depth` levels of recursion left
      for the archives it finds: unpack into NestedExtracted, log, then walk
      and remove that folder. */
  function ExtractNestedBody(depth: nat, base: Path, zip: Path, t: Tree, log: seq<string>): Run
    decreases depth, 4, 0
  {
    var nested := NestedFolder(base);
    match Unpack(zip, nested, t)
    case Err(t1, e) => Run(t1, log, Some(e))
    case Ok(t1) => SweepFolder(depth, base, nested, t1, log + [NestedMsg(zip, nested)])
  }

  /** The with-block's first steps (nse_automation.py:59-62): open the
      archive, os.makedirs(nested, exist_ok=True), extractall(nested). A
      failed extractall keeps the members written before it failed. */
  function Unpack(zip: Path, nested: Path, t: Tree): FsResult
  {
    match OpenZip(t, zip)
    case OpenFailed(e) => Err(t, e)
    case Opened(es) =>
      match MakeDirs(t, nested)
      case Err(_, e) => Err(t, e)
      case Ok(t1) => ExtractAll(t1, nested, es)
  }

  /** Walk the files under `dir`, then shutil.rmtree(dir)
      (nse_automation.py:65-73 and 80-88). */
  function SweepFolder(depth: nat, base: Path, dir: Path, t: Tree, log: seq<string>): Run
    decreases depth, 3, 0
  {
    var w := Sweep(depth, base, Walk(t, dir), t, log);
    if w.raised.Some? then w
    else
      match RmTree(w.tree, dir)
      case Err(_, e) => Run(w.tree, w.log, Some(e))
      case Ok(t1) => Run(t1, w.log, None)
  }

  /** The loop body shared by extract_nested_zip and process_extracted_folder
      (nse_automation.py:67-72 and 82-87): a .zip is extracted recursively
      and then removed, any other file is organized. */
  function SweepOne(depth: nat, base: Path, q: Path, t: Tree, log: seq<string>): Run
    decreases depth, 1, 1
  {
    if IsZipFile(q) then
      var x := ExtractNested(depth, base, q, t, log);
      if x.raised.Some? then x
      else
        match Remove(x.tree, q)
        case Err(_, e) => Run(x.tree, x.log, Some(e))
        case Ok(t1) => Run(t1, x.log, None)
    else Organize(base, q, t, log)
  }

  /** The walk loop over `todo`, a sorted snapshot of the files under the
      folder taken when the walk starts. */
  function Sweep(depth: nat, base: Path, todo: seq<Path>, t: Tree, log: seq<string>): Run
    decreases depth, 2, |todo|
  {
    if todo == [] then Run(t, log, None)
    else
      var s := SweepOne(depth, base, todo[0], t, log);
      if s.raised.Some? then s else Sweep(depth, base, todo[1..], s.tree, s.log)
  }

  // ---------------------------------------------------------------- process_extracted_folder

  function ExtractedFolder(base: Path): Path
  {
    base + [ExtractedName]
  }

  /** process_extracted_folder(base_folder) (nse_automation.py:76-88). */
  function ProcessExtracted(fuel: nat, base: Path, t: Tree, log: seq<string>): Run
  {
    var ex := ExtractedFolder(base);
    if !Exists(t, ex) then Run(t, log, None)
    else SweepFolder(fuel, base, ex, t, log + [ProcessingMsg(ex)])
  }

  // ---------------------------------------------------------------- initialize_driver

  /** The logger output of initialize_driver(retry) and whether it returned
      a driver (true) or raised "Failed to initialize WebDriver after 3
      retries." (false). outcomes[i] is what constructing the driver does
      on the call with retry_count i: None when it succeeds, Some(message)
      when it raises. */
  datatype DriverRun = DriverRun(log: seq<string>, ok: bool)

  function Driver(retry: nat, outcomes: seq<Option<string>>, log: seq<string>): DriverRun
    requires |outcomes| == MaxRetries + 1
    decreases MaxRetries + 1 - retry
  {
    if retry > MaxRetries then DriverRun(log, false)
    else
      var log1 := log + [InitMsg];
      match outcomes[retry]
      case None => DriverRun(log1, true)
      case Some(e) => Driver(retry + 1, outcomes, log1 + [InitErrorMsg(e)])
  }
}
