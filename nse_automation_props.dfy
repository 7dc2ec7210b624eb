/** What nse_automation.py's file handling guarantees, proved about the
    functions of NseAutomationSpec: the folder a file is organized into,
    what one organize step does, that files outside the two folders the
    sweep works on are never lost, that a sweep of archives without inner
    archives files every member and clears its folder, that an inner
    archive makes extract_nested_zip recurse until Python's recursion limit,
    and the retry bound of initialize_driver. */
module NseAutomationProps {
  import opened Paths
  import opened FileSystem
  import opened NseAutomationSpec

  // ---------------------------------------------------------------- folder names

  /** nse_automation.py:50-51: no extension, or a bare ".", gives OTHER;
      otherwise the extension without its dot, upper-cased (the lower()
      before upper() changes nothing). */
  lemma TypeFolderOfName(name: Name)
    ensures |Ext(name)| <= 1 ==> TypeFolder(name) == OtherFolder
    ensures |Ext(name)| > 1 ==> TypeFolder(name) == Upper(Ext(name)[1..])
  {
    StrippedExt(name);
    if |Ext(name)| > 1 {
      UpperOfLower(Ext(name)[1..]);
    }
  }

  /** A type folder never holds a lower-case ASCII letter, so it is never
      "extracted" or "NestedExtracted": organized files leave the folders
      the sweep works on. */
  lemma TypeFolderIsNotWorking(name: Name)
    ensures TypeFolder(name) != ExtractedName && TypeFolder(name) != NestedName
  {
    var e := LStripDots(Lower(Ext(name)));
    if e != [] {
      UpperSpec(e);
      assert ExtractedName[0] == 'e' && NestedName[1] == 'e';
      if |e| == |ExtractedName| {
        assert Upper(e)[0] == UpperChar(e[0]) != 'e';
      }
      if |e| == |NestedName| {
        assert Upper(e)[1] == UpperChar(e[1]) != 'e';
      }
    }
  }

  // ---------------------------------------------------------------- organize_files_by_type

  /** Where organize_files_by_type puts the file at p:
      base_folder/FOLDER/basename, whatever folder p was in. */
  function Target(base: Path, p: Path): Path
  {
    TypeFolderPath(base, p) + [Basename(p)]
  }

  /** nse_automation.py:52-55 when the target is not itself a folder: the
      call returns exactly when the file exists and its type folder exists
      or can be created; the file then sits at its target, nothing else
      changes, the folder exists and one line is logged. When it raises,
      no file has changed and nothing is logged. */
  lemma OrganizeMoves(base: Path, p: Path, t: Tree, log: seq<string>)
    requires !IsDir(t, Target(base, p))
    ensures var r := Organize(base, p, t, log);
            var folder := TypeFolderPath(base, p);
            r.raised.None? <==> p in t.files && folder !in t.files && !FileAbove(t, folder)
    ensures var r := Organize(base, p, t, log);
            r.raised.None? ==>
              r.tree.files == (t.files - {p})[Target(base, p) := t.files[p]]
              && IsDir(r.tree, TypeFolderPath(base, p))
              && r.log == log + [MovedMsg(TypeFolderPath(base, p))]
    ensures var r := Organize(base, p, t, log);
            r.raised.Some? ==> r.tree.files == t.files && r.log == log
  {
    var folder := TypeFolderPath(base, p);
    var target := Target(base, p);
    var made := MakeDirs(t, folder);
    if made.Ok? {
      TargetBelowFolder(base, p);
      assert !IsDir(made.tree, target);
      var mv := Move(made.tree, p, target);
      assert mv == Rename(made.tree, p, target);
      assert mv.Ok? <==> p in t.files;
      assert Organize(base, p, t, log)
             == if mv.Err? then Run(made.tree, log, Some(mv.error))
                else Run(mv.tree, log + [MovedMsg(folder)], None);
    }
  }

  /** A file's target sits directly in its type folder. */
  lemma TargetBelowFolder(base: Path, p: Path)
    ensures Parent(Target(base, p)) == TypeFolderPath(base, p)
    ensures Target(base, p) !in Prefixes(TypeFolderPath(base, p))
  {
    var target := Target(base, p);
    assert target[..|target| - 1] == TypeFolderPath(base, p);
  }

  /** After a successful organize step the target exists (as the moved file,
      or as a folder the file was moved into). */
  lemma OrganizeReaches(base: Path, p: Path, t: Tree, log: seq<string>)
    ensures var r := Organize(base, p, t, log);
            r.raised.None? ==> Exists(r.tree, Target(base, p))
  {
    var folder := TypeFolderPath(base, p);
    var target := Target(base, p);
    var made := MakeDirs(t, folder);
    if made.Ok? && Move(made.tree, p, target).Ok? {
      if IsDir(made.tree, target) {
        assert IsDir(Move(made.tree, p, target).tree, target);
      } else {
        assert target in Move(made.tree, p, target).tree.files;
      }
    }
  }

  // ---------------------------------------------------------------- files outside the working folders

  /** The folders a sweep empties and then removes. */
  predicate Working(q: Path, base: Path)
  {
    Under(q, NestedFolder(base)) || Under(q, ExtractedFolder(base))
  }

  predicate Outside(q: Path, base: Path)
  {
    !Within(q, NestedFolder(base)) && !Within(q, ExtractedFolder(base))
  }

  /** Every path outside the working folders that exists in t1 exists in t2. */
  ghost predicate KeepsOutside(base: Path, t1: Tree, t2: Tree)
  {
    forall q :: Outside(q, base) && Exists(t1, q) ==> Exists(t2, q)
  }

  lemma KeepsOutsideTrans(base: Path, t1: Tree, t2: Tree, t3: Tree)
    requires KeepsOutside(base, t1, t2) && KeepsOutside(base, t2, t3)
    ensures KeepsOutside(base, t1, t3)
  {
  }

  /** t2 has every folder of t1 and every file of t1 but `gone`. */
  predicate LosesAtMost(t1: Tree, t2: Tree, gone: Path)
  {
    t1.dirs <= t2.dirs && t1.files.Keys - {gone} <= t2.files.Keys
  }

  predicate Grows(t1: Tree, t2: Tree)
  {
    t1.dirs <= t2.dirs && t1.files.Keys <= t2.files.Keys
  }

  lemma LosesAtMostKeeps(base: Path, t1: Tree, t2: Tree, gone: Path)
    requires LosesAtMost(t1, t2, gone) && !Outside(gone, base)
    ensures KeepsOutside(base, t1, t2)
  {
    forall q | Outside(q, base) && Exists(t1, q)
      ensures Exists(t2, q)
    {
      if q in t1.files {
        assert q in t1.files.Keys - {gone};
      }
    }
  }

  lemma GrowsKeeps(base: Path, t1: Tree, t2: Tree)
    requires Grows(t1, t2)
    ensures KeepsOutside(base, t1, t2)
  {
    forall q | Outside(q, base) && Exists(t1, q)
      ensures Exists(t2, q)
    {
      if q in t1.files {
        assert q in t1.files.Keys;
      }
    }
  }

  /** Every organize target lies outside the working folders. */
  lemma TargetIsOutside(base: Path, p: Path)
    ensures Outside(Target(base, p), base)
  {
    var q := Target(base, p);
    TypeFolderIsNotWorking(Basename(p));
    assert q[|base|] == TypeFolder(Basename(p));
    assert NestedFolder(base)[|base|] == NestedName;
    assert ExtractedFolder(base)[|base|] == ExtractedName;
  }

  /** shutil.move of a file loses no file but its source and no folder. */
  lemma MoveLoses(t: Tree, src: Path, dst: Path)
    ensures LosesAtMost(t, Move(t, src, dst).tree, src)
  {
    var r := Move(t, src, dst);
    if r.Ok? {
      var d := if IsDir(t, dst) then dst + [Basename(src)] else dst;
      assert r == Rename(t, src, d);
      assert r.tree.files == (t.files - {src})[d := t.files[src]];
    }
  }

  lemma OrganizeLoses(base: Path, p: Path, t: Tree, log: seq<string>)
    ensures LosesAtMost(t, Organize(base, p, t, log).tree, p)
  {
    var made := MakeDirs(t, TypeFolderPath(base, p));
    if made.Ok? {
      MoveLoses(made.tree, p, Target(base, p));
    }
  }

  lemma OrganizeKeeps(base: Path, p: Path, t: Tree, log: seq<string>)
    requires Working(p, base)
    ensures KeepsOutside(base, t, Organize(base, p, t, log).tree)
  {
    OrganizeLoses(base, p, t, log);
    LosesAtMostKeeps(base, t, Organize(base, p, t, log).tree, p);
  }

  /** What the first steps of extract_nested_zip do to the tree: nothing is
      lost; on success the archive was a zip and every member is in place,
      and the only new files are members. */
  lemma UnpackFacts(zip: Path, nested: Path, t: Tree)
    ensures Grows(t, Unpack(zip, nested, t).tree)
    ensures Unpack(zip, nested, t).Ok? ==> zip in t.files && t.files[zip].Zip?
    ensures zip in t.files && t.files[zip].Zip? && Unpack(zip, nested, t).Ok? ==>
              var es := t.files[zip].entries;
              var t1 := Unpack(zip, nested, t).tree;
              (forall i :: 0 <= i < |es| ==> nested + es[i].name in t1.files)
              && (forall q :: q in t1.files && q !in t.files ==>
                    exists i :: 0 <= i < |es| && q == nested + es[i].name)
  {
    var o := OpenZip(t, zip);
    if o.Opened? {
      var made := MakeDirs(t, nested);
      if made.Ok? {
        var x := ExtractAll(made.tree, nested, o.entries);
        assert Unpack(zip, nested, t) == x;
        assert forall q :: q in t.files ==> q in x.tree.files;
      }
    }
  }

  lemma RmTreeKeeps(base: Path, dir: Path, t: Tree)
    requires dir == NestedFolder(base) || dir == ExtractedFolder(base)
    ensures KeepsOutside(base, t, RmTree(t, dir).tree)
  {
  }

  /** extract_nested_zip with fuel left, unfolded once: it raises before
      the walk, leaving the tree the first steps left, or it is the walk of
      NestedExtracted with one level less. */
  lemma ExtractNestedUnfold(fuel: nat, depth: nat, base: Path, zip: Path, t: Tree, log: seq<string>)
    requires fuel == depth + 1
    ensures var r := ExtractNested(fuel, base, zip, t, log);
            var u := Unpack(zip, NestedFolder(base), t);
            if u.Ok? then
              r == SweepFolder(depth, base, NestedFolder(base), u.tree, log + [NestedMsg(zip, NestedFolder(base))])
            else r.raised.Some? && r.tree == u.tree
  {
    var nested := NestedFolder(base);
    var u := Unpack(zip, nested, t);
    ExtractNestedStep(depth, base, zip, t, log);
    if u.Ok? {
      assert ExtractNestedBody(depth, base, zip, t, log)
             == SweepFolder(depth, base, nested, u.tree, log + [NestedMsg(zip, nested)]);
    } else {
      assert ExtractNestedBody(depth, base, zip, t, log) == Run(u.tree, log, Some(u.error));
    }
  }

  /** With recursion left, extract_nested_zip runs its body one level down. */
  lemma ExtractNestedStep(depth: nat, base: Path, zip: Path, t: Tree, log: seq<string>)
    ensures ExtractNested(depth + 1, base, zip, t, log) == ExtractNestedBody(depth, base, zip, t, log)
  {
  }

  /** extract_nested_zip (nse_automation.py:58-73) never removes a file or
      folder outside NestedExtracted and extracted, on any run, including
      one that raises. */
  lemma {:induction false} ExtractNestedKeeps(fuel: nat, base: Path, zip: Path, t: Tree, log: seq<string>)
    ensures KeepsOutside(base, t, ExtractNested(fuel, base, zip, t, log).tree)
    decreases fuel, 1, 0
  {
    var nested := NestedFolder(base);
    var r := ExtractNested(fuel, base, zip, t, log);
    if fuel > 0 {
      var depth: nat := fuel - 1;
      var u := Unpack(zip, nested, t);
      ExtractNestedUnfold(fuel, depth, base, zip, t, log);
      UnpackFacts(zip, nested, t);
      GrowsKeeps(base, t, u.tree);
      if u.Ok? {
        SweepFolderKeeps(depth, base, nested, u.tree, log + [NestedMsg(zip, nested)]);
        KeepsOutsideTrans(base, t, u.tree, r.tree);
      }
    }
  }

  lemma {:induction false} SweepFolderKeeps(depth: nat, base: Path, dir: Path, t: Tree, log: seq<string>)
    requires dir == NestedFolder(base) || dir == ExtractedFolder(base)
    ensures KeepsOutside(base, t, SweepFolder(depth, base, dir, t, log).tree)
    decreases depth, 3, 0
  {
    var todo := Walk(t, dir);
    var w := Sweep(depth, base, todo, t, log);
    SweepKeeps(depth, base, todo, t, log);
    RmTreeKeeps(base, dir, w.tree);
  }

  lemma {:induction false} SweepOneKeeps(depth: nat, base: Path, q: Path, t: Tree, log: seq<string>)
    requires Working(q, base)
    ensures KeepsOutside(base, t, SweepOne(depth, base, q, t, log).tree)
    decreases depth, 1, 1
  {
    if IsZipFile(q) {
      var x := ExtractNested(depth, base, q, t, log);
      ExtractNestedKeeps(depth, base, q, t, log);
      LosesAtMostKeeps(base, x.tree, Remove(x.tree, q).tree, q);
    } else {
      OrganizeKeeps(base, q, t, log);
    }
  }

  lemma {:induction false} SweepKeeps(depth: nat, base: Path, todo: seq<Path>, t: Tree, log: seq<string>)
    requires forall i :: 0 <= i < |todo| ==> Working(todo[i], base)
    ensures KeepsOutside(base, t, Sweep(depth, base, todo, t, log).tree)
    decreases depth, 2, |todo|
  {
    if todo != [] {
      var s := SweepOne(depth, base, todo[0], t, log);
      SweepOneKeeps(depth, base, todo[0], t, log);
      if s.raised.None? {
        SweepKeeps(depth, base, todo[1..], s.tree, s.log);
        KeepsOutsideTrans(base, t, s.tree, Sweep(depth, base, todo[1..], s.tree, s.log).tree);
      }
    }
  }

  /** process_extracted_folder (nse_automation.py:76-88) never removes a
      file or folder outside extracted and NestedExtracted, on any run,
      including one that raises. */
  lemma ProcessExtractedKeeps(fuel: nat, base: Path, t: Tree, log: seq<string>)
    ensures KeepsOutside(base, t, ProcessExtracted(fuel, base, t, log).tree)
  {
    var ex := ExtractedFolder(base);
    if Exists(t, ex) {
      SweepFolderKeeps(fuel, base, ex, t, log + [ProcessingMsg(ex)]);
    }
  }

  // ---------------------------------------------------------------- sweeps without inner archives

  /** Every file of `todo` lies in a working folder and is not named *.zip. */
  predicate AllPlain(base: Path, todo: seq<Path>)
  {
    todo == [] || (Working(todo[0], base) && !IsZipFile(todo[0]) && AllPlain(base, todo[1..]))
  }

  lemma {:induction false} AllPlainFrom(base: Path, todo: seq<Path>)
    requires forall i :: 0 <= i < |todo| ==> Working(todo[i], base) && !IsZipFile(todo[i])
    ensures AllPlain(base, todo)
  {
    if todo != [] {
      assert forall i :: 0 <= i < |todo| - 1 ==> todo[1..][i] == todo[i + 1];
      AllPlainFrom(base, todo[1..]);
    }
  }

  lemma {:induction false} AllPlainWorking(base: Path, todo: seq<Path>)
    requires AllPlain(base, todo)
    ensures forall i :: 0 <= i < |todo| ==> Working(todo[i], base)
  {
    if todo != [] {
      AllPlainWorking(base, todo[1..]);
      assert forall i :: 1 <= i < |todo| ==> todo[i] == todo[1..][i - 1];
    }
  }

  /** The lines organize_files_by_type logs for the files of `todo`, in order. */
  function MovedLines(base: Path, todo: seq<Path>): (r: seq<string>)
    ensures |r| == |todo|
  {
    if todo == [] then [] else [MovedMsg(TypeFolderPath(base, todo[0]))] + MovedLines(base, todo[1..])
  }

  /** Every file of `todo` has its target in `tree`. */
  ghost predicate AllFiled(base: Path, todo: seq<Path>, tree: Tree)
  {
    todo == [] || (Exists(tree, Target(base, todo[0])) && AllFiled(base, todo[1..], tree))
  }

  lemma {:induction false} AllFiledKept(base: Path, todo: seq<Path>, t1: Tree, t2: Tree)
    requires AllFiled(base, todo, t1) && KeepsOutside(base, t1, t2)
    ensures AllFiled(base, todo, t2)
  {
    if todo != [] {
      TargetIsOutside(base, todo[0]);
      AllFiledKept(base, todo[1..], t1, t2);
    }
  }

  lemma {:induction false} AllFiledEach(base: Path, todo: seq<Path>, tree: Tree)
    requires AllFiled(base, todo, tree)
    ensures forall q :: q in todo ==> Exists(tree, Target(base, q))
  {
    if todo != [] {
      AllFiledEach(base, todo[1..], tree);
      forall q | q in todo
        ensures Exists(tree, Target(base, q))
      {
        if q != todo[0] {
          var i :| 0 <= i < |todo| && todo[i] == q;
          assert q == todo[1..][i - 1];
        }
      }
    }
  }

  /** A walk over files that are not archives organizes each of them: when
      it returns, every file's target exists. */
  lemma {:induction false} SweepOrganizes(depth: nat, base: Path, todo: seq<Path>, t: Tree, log: seq<string>)
    requires AllPlain(base, todo)
    ensures var r := Sweep(depth, base, todo, t, log);
            r.raised.None? ==> AllFiled(base, todo, r.tree)
    decreases |todo|
  {
    if todo != [] {
      var p := todo[0];
      var s := Organize(base, p, t, log);
      assert SweepOne(depth, base, p, t, log) == s;
      if s.raised.None? {
        var rest := todo[1..];
        var r := Sweep(depth, base, rest, s.tree, s.log);
        OrganizeReaches(base, p, t, log);
        SweepOrganizes(depth, base, rest, s.tree, s.log);
        AllPlainWorking(base, rest);
        SweepKeeps(depth, base, rest, s.tree, s.log);
        TargetIsOutside(base, p);
      }
    }
  }

  /** ... and logs one line per file, in walk order. */
  lemma {:induction false} SweepLogsMoves(depth: nat, base: Path, todo: seq<Path>, t: Tree, log: seq<string>)
    requires AllPlain(base, todo)
    ensures var r := Sweep(depth, base, todo, t, log);
            r.raised.None? ==> r.log == log + MovedLines(base, todo)
    decreases |todo|
  {
    if todo != [] {
      var p := todo[0];
      var rest := todo[1..];
      var s := Organize(base, p, t, log);
      SweepPlainStep(depth, base, todo, t, log);
      OrganizeLogs(base, p, t, log);
      if s.raised.None? {
        SweepLogsMoves(depth, base, rest, s.tree, s.log);
        assert MovedLines(base, todo) == [MovedMsg(TypeFolderPath(base, p))] + MovedLines(base, rest);
      }
    }
  }

  /** One turn of the walk over a file that is not an archive. */
  lemma SweepPlainStep(depth: nat, base: Path, todo: seq<Path>, t: Tree, log: seq<string>)
    requires todo != [] && !IsZipFile(todo[0])
    ensures var s := Organize(base, todo[0], t, log);
            Sweep(depth, base, todo, t, log)
            == if s.raised.Some? then s else Sweep(depth, base, todo[1..], s.tree, s.log)
  {
    assert SweepOne(depth, base, todo[0], t, log) == Organize(base, todo[0], t, log);
  }

  /** organize_files_by_type logs one line when it returns. */
  lemma OrganizeLogs(base: Path, p: Path, t: Tree, log: seq<string>)
    ensures var r := Organize(base, p, t, log);
            r.raised.None? ==> r.log == log + [MovedMsg(TypeFolderPath(base, p))]
  {
  }

  /** The walk-then-rmtree of a working folder holding no archive: when it
      returns, every file that was under the folder has its target, one
      line per file was logged, no file is left under the folder, and the
      folder is gone. */
  lemma SweepFolderOrganizes(depth: nat, base: Path, dir: Path, t: Tree, log: seq<string>)
    requires dir == NestedFolder(base) || dir == ExtractedFolder(base)
    requires forall q :: q in t.files && Under(q, dir) ==> !IsZipFile(q)
    ensures var r := SweepFolder(depth, base, dir, t, log);
            r.raised.None? ==>
              (forall q :: q in t.files && Under(q, dir) ==> Exists(r.tree, Target(base, q)))
              && (forall q :: q in r.tree.files ==> !Under(q, dir))
              && dir !in r.tree.dirs
              && r.log == log + MovedLines(base, Walk(t, dir))
  {
    var todo := Walk(t, dir);
    var w := Sweep(depth, base, todo, t, log);
    WalkPlain(base, dir, t);
    SweepOrganizes(depth, base, todo, t, log);
    SweepLogsMoves(depth, base, todo, t, log);
    if w.raised.None? && RmTree(w.tree, dir).Ok? {
      var r := RmTree(w.tree, dir);
      RmTreeKeeps(base, dir, w.tree);
      AllFiledKept(base, todo, w.tree, r.tree);
      AllFiledEach(base, todo, r.tree);
    }
  }

  /** The walk of a working folder without archives visits no archive. */
  lemma WalkPlain(base: Path, dir: Path, t: Tree)
    requires dir == NestedFolder(base) || dir == ExtractedFolder(base)
    requires forall q :: q in t.files && Under(q, dir) ==> !IsZipFile(q)
    ensures AllPlain(base, Walk(t, dir))
  {
    var todo := Walk(t, dir);
    forall i | 0 <= i < |todo|
      ensures Working(todo[i], base) && !IsZipFile(todo[i])
    {
      assert todo[i] in t.files && Under(todo[i], dir);
    }
    AllPlainFrom(base, todo);
  }

  /** An archive member that is a file and not named *.zip. */
  predicate PlainMember(e: Entry)
  {
    e.name != [] && !IsZipFile(e.name)
  }

  /** nse_automation.py:58-73 for an archive none of whose members is named
      *.zip, when NestedExtracted holds no such file either: once it
      returns, every member's target base_folder/FOLDER/name exists, no
      file is left under NestedExtracted and that folder is gone. */
  lemma ExtractNestedOrganizes(fuel: nat, base: Path, zip: Path, t: Tree, log: seq<string>)
    requires fuel >= 1
    requires zip in t.files && t.files[zip].Zip?
    requires forall i :: 0 <= i < |t.files[zip].entries| ==> PlainMember(t.files[zip].entries[i])
    requires forall q :: q in t.files && Under(q, NestedFolder(base)) ==> !IsZipFile(q)
    ensures var r := ExtractNested(fuel, base, zip, t, log);
            var es := t.files[zip].entries;
            r.raised.None? ==>
              (forall i :: 0 <= i < |es| ==> Exists(r.tree, Target(base, es[i].name)))
              && (forall q :: q in r.tree.files ==> !Under(q, NestedFolder(base)))
              && NestedFolder(base) !in r.tree.dirs
  {
    var depth: nat := fuel - 1;
    var nested := NestedFolder(base);
    var es := t.files[zip].entries;
    var u := Unpack(zip, nested, t);
    ExtractNestedUnfold(fuel, depth, base, zip, t, log);
    if u.Ok? {
      UnpackFacts(zip, nested, t);
      UnpackStaysPlain(zip, nested, t);
      var r := SweepFolder(depth, base, nested, u.tree, log + [NestedMsg(zip, nested)]);
      SweepFolderOrganizes(depth, base, nested, u.tree, log + [NestedMsg(zip, nested)]);
      if r.raised.None? {
        forall i | 0 <= i < |es|
          ensures Exists(r.tree, Target(base, es[i].name))
        {
          MemberTarget(base, nested, es[i].name);
          assert nested + es[i].name in u.tree.files;
        }
      }
    }
  }

  /** A member extracted under `nested` is filed where the member's own
      name would be. */
  lemma MemberTarget(base: Path, nested: Path, name: Path)
    requires name != []
    ensures Target(base, nested + name) == Target(base, name)
    ensures Under(nested + name, nested)
  {
    assert Basename(nested + name) == Basename(name);
    assert (nested + name)[..|nested|] == nested;
  }

  /** Unpacking an archive without inner archives into a folder without
      archives leaves it without archives. */
  lemma UnpackStaysPlain(zip: Path, nested: Path, t: Tree)
    requires zip in t.files && t.files[zip].Zip?
    requires forall i :: 0 <= i < |t.files[zip].entries| ==> PlainMember(t.files[zip].entries[i])
    requires forall q :: q in t.files && Under(q, nested) ==> !IsZipFile(q)
    requires Unpack(zip, nested, t).Ok?
    ensures forall q :: q in Unpack(zip, nested, t).tree.files && Under(q, nested) ==> !IsZipFile(q)
  {
    var es := t.files[zip].entries;
    var u := Unpack(zip, nested, t);
    UnpackFacts(zip, nested, t);
    forall q | q in u.tree.files && Under(q, nested)
      ensures !IsZipFile(q)
    {
      if q !in t.files {
        var i :| 0 <= i < |es| && q == nested + es[i].name;
        MemberStaysPlain(nested, es[i]);
      }
    }
  }

  /** A member that is not an archive stays one once extracted. */
  lemma MemberStaysPlain(nested: Path, e: Entry)
    requires PlainMember(e)
    ensures !IsZipFile(nested + e.name)
  {
    assert Basename(nested + e.name) == Basename(e.name);
  }

  /** nse_automation.py:77-88 when the extracted folder holds no archive:
      nothing happens without the folder; with it, once the call returns,
      every file that was under it has its target, one line is logged for
      the folder and one per file, and the folder is gone. */
  lemma ProcessExtractedOrganizes(fuel: nat, base: Path, t: Tree, log: seq<string>)
    requires forall q :: q in t.files && Under(q, ExtractedFolder(base)) ==> !IsZipFile(q)
    ensures var ex := ExtractedFolder(base);
            !Exists(t, ex) ==> ProcessExtracted(fuel, base, t, log) == Run(t, log, None)
    ensures var ex := ExtractedFolder(base);
            var r := ProcessExtracted(fuel, base, t, log);
            Exists(t, ex) && r.raised.None? ==>
              (forall q :: q in t.files && Under(q, ex) ==> Exists(r.tree, Target(base, q)))
              && (forall q :: q in r.tree.files ==> !Under(q, ex))
              && ex !in r.tree.dirs
              && r.log == log + [ProcessingMsg(ex)] + MovedLines(base, Walk(t, ex))
  {
    var ex := ExtractedFolder(base);
    if Exists(t, ex) {
      SweepFolderOrganizes(fuel, base, ex, t, log + [ProcessingMsg(ex)]);
    }
  }

  // ---------------------------------------------------------------- inner archives

  /** nse_automation.py:62-70: extracting an archive named *.zip that lies
      under NestedExtracted never finishes on its own. Its own walk of
      NestedExtracted meets it again, because it is removed only after the
      call returns; so every call raises, at the latest at the recursion
      limit, whatever the tree holds. */
  lemma {:induction false} ExtractNestedRaises(fuel: nat, base: Path, zip: Path, t: Tree, log: seq<string>)
    requires Under(zip, NestedFolder(base)) && IsZipFile(zip)
    ensures ExtractNested(fuel, base, zip, t, log).raised.Some?
    decreases fuel, 1, 0
  {
    if fuel > 0 {
      var depth: nat := fuel - 1;
      var nested := NestedFolder(base);
      var u := Unpack(zip, nested, t);
      ExtractNestedUnfold(fuel, depth, base, zip, t, log);
      if u.Ok? {
        UnpackFacts(zip, nested, t);
        assert zip in t.files.Keys;
        SweepFolderRaises(depth, base, u.tree, log + [NestedMsg(zip, nested)], zip);
      }
    }
  }

  /** The walk of NestedExtracted raises when a *.zip lies under it. */
  lemma {:induction false} SweepFolderRaises(depth: nat, base: Path, t: Tree, log: seq<string>, zip: Path)
    requires zip in t.files && Under(zip, NestedFolder(base)) && IsZipFile(zip)
    ensures SweepFolder(depth, base, NestedFolder(base), t, log).raised.Some?
    decreases depth, 3, 0
  {
    var todo := Walk(t, NestedFolder(base));
    assert zip in todo;
    var i :| 0 <= i < |todo| && todo[i] == zip;
    SweepRaises(depth, base, todo, t, log, i);
  }

  /** A walk whose snapshot holds a *.zip under NestedExtracted raises. */
  lemma {:induction false} SweepRaises(depth: nat, base: Path, todo: seq<Path>, t: Tree, log: seq<string>, i: nat)
    requires i < |todo| && Under(todo[i], NestedFolder(base)) && IsZipFile(todo[i])
    ensures Sweep(depth, base, todo, t, log).raised.Some?
    decreases depth, 2, |todo|
  {
    var s := SweepOne(depth, base, todo[0], t, log);
    if i == 0 {
      ExtractNestedRaises(depth, base, todo[0], t, log);
    } else if s.raised.None? {
      SweepRaises(depth, base, todo[1..], s.tree, s.log, i - 1);
    }
  }

  /** An archive with a member named *.zip makes extract_nested_zip raise:
      the member is extracted into NestedExtracted and the walk then
      recurses on it without end. */
  lemma ExtractNestedOfInnerArchive(fuel: nat, base: Path, zip: Path, t: Tree, log: seq<string>, k: nat)
    requires zip in t.files && t.files[zip].Zip? && k < |t.files[zip].entries|
    requires t.files[zip].entries[k].name != [] && IsZipFile(t.files[zip].entries[k].name)
    ensures ExtractNested(fuel, base, zip, t, log).raised.Some?
  {
    if fuel > 0 {
      var depth: nat := fuel - 1;
      var nested := NestedFolder(base);
      var u := Unpack(zip, nested, t);
      ExtractNestedUnfold(fuel, depth, base, zip, t, log);
      if u.Ok? {
        UnpackFacts(zip, nested, t);
        var name := t.files[zip].entries[k].name;
        var inner := nested + name;
        assert Basename(inner) == Basename(name);
        assert inner[..|nested|] == nested;
        SweepFolderRaises(depth, base, u.tree, log + [NestedMsg(zip, nested)], inner);
      }
    }
  }

  // ---------------------------------------------------------------- initialize_driver

  /** initialize_driver(retry) (nse_automation.py:25-46) returns a driver
      exactly when a construction with retry_count between retry and 3
      succeeds; from retry_count 4 on it raises at once. */
  lemma {:induction false} DriverSucceedsIff(retry: nat, outcomes: seq<Option<string>>, log: seq<string>)
    requires |outcomes| == MaxRetries + 1
    ensures Driver(retry, outcomes, log).ok <==>
            exists i :: retry <= i <= MaxRetries && outcomes[i].None?
    decreases MaxRetries + 1 - retry
  {
    if retry <= MaxRetries && outcomes[retry].Some? {
      DriverSucceedsIff(retry + 1, outcomes, log + [InitMsg, InitErrorMsg(outcomes[retry].value)]);
      assert Driver(retry, outcomes, log)
             == Driver(retry + 1, outcomes, log + [InitMsg] + [InitErrorMsg(outcomes[retry].value)]);
      assert log + [InitMsg, InitErrorMsg(outcomes[retry].value)]
             == log + [InitMsg] + [InitErrorMsg(outcomes[retry].value)];
    }
  }

  /** Occurrences of x in s. */
  function Count(s: seq<string>, x: string): (n: nat)
    ensures n <= |s|
  {
    if s == [] then 0 else (if s[0] == x then 1 else 0) + Count(s[1..], x)
  }

  /** The attempts initialize_driver(retry) makes, one "Initializing
      WebDriver..." line each: at most 4 - retry, and exactly that many
      when every one of them fails. The log only grows. */
  lemma {:induction false} DriverAttempts(retry: nat, outcomes: seq<Option<string>>, log: seq<string>)
    requires |outcomes| == MaxRetries + 1 && retry <= MaxRetries + 1
    ensures var r := Driver(retry, outcomes, log);
            |log| <= |r.log| && r.log[..|log|] == log
            && Count(r.log[|log|..], InitMsg) <= MaxRetries + 1 - retry
            && (!r.ok ==> Count(r.log[|log|..], InitMsg) == MaxRetries + 1 - retry)
    decreases MaxRetries + 1 - retry
  {
    var r := Driver(retry, outcomes, log);
    if retry > MaxRetries {
      assert r.log[|log|..] == [];
    } else {
      var log1 := log + [InitMsg];
      match outcomes[retry]
      case None =>
        assert r.log[|log|..] == [InitMsg];
      case Some(e) =>
        var line := InitErrorMsg(e);
        var log2 := log1 + [line];
        DriverAttempts(retry + 1, outcomes, log2);
        assert r == Driver(retry + 1, outcomes, log2);
        assert log2[|log|..] == [InitMsg, line];
        SuffixAfter(r.log, log, log2);
        CountFailedAttempt(e, r.log[|log2|..]);
    }
  }

  /** What follows a in s, when s extends b and b extends a. */
  lemma SuffixAfter(s: seq<string>, a: seq<string>, b: seq<string>)
    requires |a| <= |b| <= |s| && s[..|b|] == b && b[..|a|] == a
    ensures s[|a|..] == b[|a|..] + s[|b|..]
  {
    assert s == b + s[|b|..];
  }

  /** A failed attempt logs one "Initializing WebDriver..." line and one
      error line that is not another. */
  lemma CountFailedAttempt(e: string, rest: seq<string>)
    ensures Count([InitMsg, InitErrorMsg(e)] + rest, InitMsg) == 1 + Count(rest, InitMsg)
  {
    var s := [InitMsg, InitErrorMsg(e)] + rest;
    assert InitErrorMsg(e)[0] == 'E' && InitMsg[0] == 'I';
    assert s[1..][1..] == rest;
  }
}
