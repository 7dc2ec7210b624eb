/** process_extracted_folder over an `extracted` folder that holds archives
    (nse_automation.py:76-88, the branch at 83-85): each archive is unpacked
    through NestedExtracted and removed, every other file is organized.
    Working on NestedExtracted never touches a file under `extracted`, so
    each archive still holds what it held when the walk began. */
module NseAutomationArchives {
  import opened Paths
  import opened FileSystem
  import opened NseAutomationSpec
  import opened NseAutomationProps

  // ---------------------------------------------------------------- the two working folders are apart

  /** Every file under `extracted` in t1 is still in t2 with the same contents. */
  ghost predicate KeepsExtracted(base: Path, t1: Tree, t2: Tree)
  {
    forall q :: Under(q, ExtractedFolder(base)) && q in t1.files ==> q in t2.files && t2.files[q] == t1.files[q]
  }

  lemma KeepsExtractedTrans(base: Path, t1: Tree, t2: Tree, t3: Tree)
    requires KeepsExtracted(base, t1, t2) && KeepsExtracted(base, t2, t3)
    ensures KeepsExtracted(base, t1, t3)
  {
  }

  /** Nothing under `extracted` is NestedExtracted or lies below it. */
  lemma ExtractedIsNotNested(base: Path, q: Path, p: Path)
    requires Under(q, ExtractedFolder(base)) && Within(p, NestedFolder(base))
    ensures q != p
  {
    assert q[|base|] == ExtractedFolder(base)[|base|] == ExtractedName;
    assert p[|base|] == NestedFolder(base)[|base|] == NestedName;
  }

  lemma ExtractedNotUnderNested(base: Path, q: Path)
    requires Under(q, ExtractedFolder(base))
    ensures !Under(q, NestedFolder(base))
  {
    assert q[|base|] == ExtractedFolder(base)[|base|] == ExtractedName;
    assert NestedFolder(base)[|base|] == NestedName;
  }

  /** shutil.rmtree of NestedExtracted leaves `extracted` as it was. */
  lemma RmNestedKeepsExtracted(base: Path, t: Tree)
    ensures KeepsExtracted(base, t, RmTree(t, NestedFolder(base)).tree)
  {
    var r := RmTree(t, NestedFolder(base));
    if r.Ok? {
      forall q | Under(q, ExtractedFolder(base)) && q in t.files
        ensures q in r.tree.files && r.tree.files[q] == t.files[q]
      {
        ExtractedNotUnderNested(base, q);
      }
    }
  }

  /** Nothing under `extracted` is an organize target, nor inside one. */
  lemma ExtractedIsNotTarget(base: Path, q: Path, p: Path, d: Path)
    requires Under(q, ExtractedFolder(base))
    requires d == Target(base, p) || d == Target(base, p) + [Basename(p)]
    ensures q != d
  {
    TypeFolderIsNotWorking(Basename(p));
    assert q[|base|] == ExtractedFolder(base)[|base|] == ExtractedName;
    assert d[|base|] == TypeFolder(Basename(p));
  }

  /** The first steps of extract_nested_zip write only under NestedExtracted. */
  lemma UnpackKeepsExtracted(base: Path, zip: Path, t: Tree)
    ensures KeepsExtracted(base, t, Unpack(zip, NestedFolder(base), t).tree)
  {
    var nested := NestedFolder(base);
    var o := OpenZip(t, zip);
    if o.Opened? {
      var made := MakeDirs(t, nested);
      if made.Ok? {
        var es := o.entries;
        var x := ExtractAll(made.tree, nested, es);
        assert Unpack(zip, nested, t) == x;
        forall q | Under(q, ExtractedFolder(base)) && q in t.files
          ensures q in x.tree.files && x.tree.files[q] == t.files[q]
        {
          forall i | 0 <= i < |es|
            ensures q != nested + es[i].name
          {
            assert (nested + es[i].name)[..|nested|] == nested;
            ExtractedIsNotNested(base, q, nested + es[i].name);
          }
        }
      }
    }
  }

  /** organize_files_by_type changes no file under `extracted` but the one it moves. */
  lemma OrganizeKeepsOthers(base: Path, p: Path, t: Tree, log: seq<string>)
    ensures var r := Organize(base, p, t, log).tree;
            forall q :: Under(q, ExtractedFolder(base)) && q != p && q in t.files ==>
              q in r.files && r.files[q] == t.files[q]
  {
    var target := Target(base, p);
    var made := MakeDirs(t, TypeFolderPath(base, p));
    if made.Ok? {
      var m := Move(made.tree, p, target);
      if m.Ok? {
        var d := if IsDir(made.tree, target) then target + [Basename(p)] else target;
        assert m == Rename(made.tree, p, d);
        forall q | Under(q, ExtractedFolder(base)) && q != p && q in t.files
          ensures q in m.tree.files && m.tree.files[q] == t.files[q]
        {
          ExtractedIsNotTarget(base, q, p, d);
        }
      }
    }
  }

  /** extract_nested_zip (nse_automation.py:58-73) leaves every file under
      `extracted` as it was, on any run, including one that raises. */
  lemma {:induction false} ExtractNestedKeepsExtracted(fuel: nat, base: Path, zip: Path, t: Tree, log: seq<string>)
    ensures KeepsExtracted(base, t, ExtractNested(fuel, base, zip, t, log).tree)
    decreases fuel, 1, 0
  {
    if fuel > 0 {
      var depth: nat := fuel - 1;
      var nested := NestedFolder(base);
      var u := Unpack(zip, nested, t);
      ExtractNestedUnfold(fuel, depth, base, zip, t, log);
      UnpackKeepsExtracted(base, zip, t);
      if u.Ok? {
        var r := SweepFolder(depth, base, nested, u.tree, log + [NestedMsg(zip, nested)]);
        SweepNestedKeepsExtracted(depth, base, u.tree, log + [NestedMsg(zip, nested)]);
        KeepsExtractedTrans(base, t, u.tree, r.tree);
      }
    }
  }

  lemma {:induction false} SweepNestedKeepsExtracted(depth: nat, base: Path, t: Tree, log: seq<string>)
    ensures KeepsExtracted(base, t, SweepFolder(depth, base, NestedFolder(base), t, log).tree)
    decreases depth, 3, 0
  {
    var nested := NestedFolder(base);
    var todo := Walk(t, nested);
    var w := Sweep(depth, base, todo, t, log);
    SweepKeepsExtracted(depth, base, todo, t, log);
    if w.raised.None? {
      RmNestedKeepsExtracted(base, w.tree);
      KeepsExtractedTrans(base, t, w.tree, RmTree(w.tree, nested).tree);
    }
  }

  lemma {:induction false} SweepOneKeepsExtracted(depth: nat, base: Path, q: Path, t: Tree, log: seq<string>)
    requires Under(q, NestedFolder(base))
    ensures KeepsExtracted(base, t, SweepOne(depth, base, q, t, log).tree)
    decreases depth, 1, 1
  {
    forall p | Under(p, ExtractedFolder(base))
      ensures p != q
    {
      ExtractedIsNotNested(base, p, q);
    }
    if IsZipFile(q) {
      ExtractNestedKeepsExtracted(depth, base, q, t, log);
    } else {
      OrganizeKeepsOthers(base, q, t, log);
    }
  }

  lemma {:induction false} SweepKeepsExtracted(depth: nat, base: Path, todo: seq<Path>, t: Tree, log: seq<string>)
    requires forall i :: 0 <= i < |todo| ==> Under(todo[i], NestedFolder(base))
    ensures KeepsExtracted(base, t, Sweep(depth, base, todo, t, log).tree)
    decreases depth, 2, |todo|
  {
    if todo != [] {
      var s := SweepOne(depth, base, todo[0], t, log);
      SweepOneKeepsExtracted(depth, base, todo[0], t, log);
      if s.raised.None? {
        var r := Sweep(depth, base, todo[1..], s.tree, s.log);
        SweepKeepsExtracted(depth, base, todo[1..], s.tree, s.log);
        KeepsExtractedTrans(base, t, s.tree, r.tree);
      }
    }
  }

  // ---------------------------------------------------------------- an archive under `extracted`

  /** extract_nested_zip returns only with recursion left and with no file
      named *.zip already waiting under NestedExtracted: its walk would
      meet that file and raise. */
  lemma ExtractNestedCleanStart(fuel: nat, base: Path, zip: Path, t: Tree, log: seq<string>)
    ensures ExtractNested(fuel, base, zip, t, log).raised.None? ==>
              fuel >= 1 && forall q :: q in t.files && Under(q, NestedFolder(base)) ==> !IsZipFile(q)
  {
    if fuel > 0 && ExtractNested(fuel, base, zip, t, log).raised.None? {
      var depth: nat := fuel - 1;
      var nested := NestedFolder(base);
      var u := Unpack(zip, nested, t);
      ExtractNestedUnfold(fuel, depth, base, zip, t, log);
      UnpackFacts(zip, nested, t);
      forall q | q in t.files && Under(q, nested)
        ensures !IsZipFile(q)
      {
        if IsZipFile(q) {
          assert q in t.files.Keys;
          SweepFolderRaises(depth, base, u.tree, log + [NestedMsg(zip, nested)], q);
        }
      }
    }
  }

  predicate PlainMembers(es: seq<Entry>)
  {
    forall i :: 0 <= i < |es| ==> PlainMember(es[i])
  }

  /** What process_extracted_folder promises for one file of the walk,
      judged against the tree `t0` the walk started from: a file not named
      *.zip has its target; an archive of plain members has every member's
      target. */
  ghost predicate Filed(base: Path, q: Path, t0: Tree, tree: Tree)
  {
    if !IsZipFile(q) then Exists(tree, Target(base, q))
    else
      q in t0.files && t0.files[q].Zip? && PlainMembers(t0.files[q].entries) ==>
        forall i :: 0 <= i < |t0.files[q].entries| ==> Exists(tree, Target(base, t0.files[q].entries[i].name))
  }

  lemma FiledKept(base: Path, q: Path, t0: Tree, t1: Tree, t2: Tree)
    requires Filed(base, q, t0, t1) && KeepsOutside(base, t1, t2)
    ensures Filed(base, q, t0, t2)
  {
    if !IsZipFile(q) {
      TargetIsOutside(base, q);
    } else if q in t0.files && t0.files[q].Zip? && PlainMembers(t0.files[q].entries) {
      var es := t0.files[q].entries;
      forall i | 0 <= i < |es|
        ensures Exists(t2, Target(base, es[i].name))
      {
        TargetIsOutside(base, es[i].name);
      }
    }
  }

  /** One turn of the walk of `extracted` (nse_automation.py:82-87). */
  lemma SweepOneFiles(depth: nat, base: Path, q: Path, t: Tree, log: seq<string>)
    requires Under(q, ExtractedFolder(base))
    ensures var r := SweepOne(depth, base, q, t, log);
            r.raised.None? ==> Filed(base, q, t, r.tree)
  {
    var r := SweepOne(depth, base, q, t, log);
    if !IsZipFile(q) {
      assert r == Organize(base, q, t, log);
      OrganizeReaches(base, q, t, log);
    } else {
      var x := ExtractNested(depth, base, q, t, log);
      if x.raised.None? && Remove(x.tree, q).Ok? && q in t.files && t.files[q].Zip?
         && PlainMembers(t.files[q].entries) {
        ExtractNestedCleanStart(depth, base, q, t, log);
        ExtractNestedOrganizes(depth, base, q, t, log);
        assert r.tree == Remove(x.tree, q).tree;
        LosesAtMostKeeps(base, x.tree, r.tree, q);
        FiledKept(base, q, t, x.tree, r.tree);
      }
    }
  }

  /** One turn of the walk of `extracted` leaves every other file under it as it was. */
  lemma SweepOneKeepsOthers(depth: nat, base: Path, q: Path, t: Tree, log: seq<string>)
    requires Under(q, ExtractedFolder(base))
    ensures var r := SweepOne(depth, base, q, t, log).tree;
            forall p :: Under(p, ExtractedFolder(base)) && p != q && p in t.files ==>
              p in r.files && r.files[p] == t.files[p]
  {
    if IsZipFile(q) {
      ExtractNestedKeepsExtracted(depth, base, q, t, log);
    } else {
      OrganizeKeepsOthers(base, q, t, log);
    }
  }

  /** The walk of `extracted`: when it returns, every file it visited is
      filed, judged against the tree it started from. */
  lemma {:induction false} SweepExtractedFiles(depth: nat, base: Path, todo: seq<Path>, t: Tree, log: seq<string>)
    requires forall i :: 0 <= i < |todo| ==> Under(todo[i], ExtractedFolder(base))
    requires forall i, j :: 0 <= i < j < |todo| ==> todo[i] != todo[j]
    ensures var r := Sweep(depth, base, todo, t, log);
            r.raised.None? ==> forall i :: 0 <= i < |todo| ==> Filed(base, todo[i], t, r.tree)
    decreases |todo|
  {
    if todo != [] {
      var p := todo[0];
      var rest := todo[1..];
      var s := SweepOne(depth, base, p, t, log);
      if s.raised.None? {
        var r := Sweep(depth, base, rest, s.tree, s.log);
        assert Sweep(depth, base, todo, t, log) == r;
        SweepOneFiles(depth, base, p, t, log);
        SweepOneKeepsOthers(depth, base, p, t, log);
        SweepExtractedFiles(depth, base, rest, s.tree, s.log);
        SweepKeeps(depth, base, rest, s.tree, s.log);
        if r.raised.None? {
          FiledKept(base, p, t, s.tree, r.tree);
          forall i | 1 <= i < |todo|
            ensures Filed(base, todo[i], t, r.tree)
          {
            assert todo[i] == rest[i - 1];
            assert Filed(base, rest[i - 1], s.tree, r.tree);
          }
        }
      }
    }
  }

  /** nse_automation.py:76-88 for any `extracted` folder: when the call
      returns, every file that was under it and is not named *.zip has its
      target; every archive of plain members that was under it has each
      member's target; no file is left under it and the folder is gone. */
  lemma ProcessExtractedFiles(fuel: nat, base: Path, t: Tree, log: seq<string>)
    ensures var ex := ExtractedFolder(base);
            var r := ProcessExtracted(fuel, base, t, log);
            Exists(t, ex) && r.raised.None? ==>
              (forall q :: q in t.files && Under(q, ex) && !IsZipFile(q) ==> Exists(r.tree, Target(base, q)))
              && (forall q :: (q in t.files && Under(q, ex) && IsZipFile(q) && t.files[q].Zip?
                                && PlainMembers(t.files[q].entries)) ==>
                    forall i :: 0 <= i < |t.files[q].entries| ==> Exists(r.tree, Target(base, t.files[q].entries[i].name)))
              && (forall q :: q in r.tree.files ==> !Under(q, ex))
              && ex !in r.tree.dirs
  {
    var ex := ExtractedFolder(base);
    var r := ProcessExtracted(fuel, base, t, log);
    if Exists(t, ex) && r.raised.None? {
      var log1 := log + [ProcessingMsg(ex)];
      var todo := Walk(t, ex);
      var w := Sweep(fuel, base, todo, t, log1);
      assert w.raised.None? && RmTree(w.tree, ex).Ok?;
      assert r.tree == RmTree(w.tree, ex).tree;
      SweepExtractedFiles(fuel, base, todo, t, log1);
      RmTreeKeeps(base, ex, w.tree);
      forall q | q in t.files && Under(q, ex)
        ensures Filed(base, q, t, r.tree)
      {
        var i :| 0 <= i < |todo| && todo[i] == q;
        FiledKept(base, q, t, w.tree, r.tree);
      }
    }
  }
}
