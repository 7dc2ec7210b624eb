/** Names, paths and the string helpers the ingest code relies on:
    os.path.splitext, str.lower/str.upper (ASCII letters), str.lstrip('.'),
    str.endswith, os.path.join for two components, and the order in which a
    folder walk visits its files. */
module Paths {

  type Name = string
  /** An absolute path, as the list of its components below the root. */
  type Path = seq<Name>

  /** The last component (os.path.basename); the root has the empty name. */
  function Basename(p: Path): Name
  {
    if p == [] then "" else p[|p| - 1]
  }

  /** The folder that holds p (os.path.dirname). */
  function Parent(p: Path): Path
  {
    if p == [] then [] else p[..|p| - 1]
  }

  /** `p` lies strictly below the folder `dir`. */
  predicate Under(p: Path, dir: Path)
  {
    |dir| < |p| && p[..|dir|] == dir
  }

  /** `p` is `dir` or lies below it. */
  predicate Within(p: Path, dir: Path)
  {
    |dir| <= |p| && p[..|dir|] == dir
  }

  /** The text of a path: "/a/b/c". */
  function Render(p: Path): string
  {
    if p == [] then "" else Render(p[..|p| - 1]) + "/" + p[|p| - 1]
  }

  /** posixpath.join(a, b) for two components. */
  function Join(a: string, b: string): (r: string)
    ensures b != [] && b[0] == '/' ==> r == b
    ensures (b == [] || b[0] != '/') ==> |a| <= |r| && r[..|a|] == a
    ensures (b == [] || b[0] != '/') ==>
              |b| <= |r| <= |a| + 1 + |b| && r[|r| - |b|..] == b
              && (a != [] && a[|a| - 1] != '/' ==> |a| < |r| && r[|a|] == '/')
  {
    if b != [] && b[0] == '/' then b
    else if a == [] || a[|a| - 1] == '/' then a + b
    else a + "/" + b
  }

  // ---------------------------------------------------------------- ASCII case

  function LowerChar(c: char): char
  {
    if 'A' <= c <= 'Z' then (c as int + 32) as char else c
  }

  function UpperChar(c: char): char
  {
    if 'a' <= c <= 'z' then (c as int - 32) as char else c
  }

  /** str.lower() restricted to ASCII letters. */
  function Lower(s: string): (r: string)
    ensures |r| == |s|
  {
    if s == [] then [] else [LowerChar(s[0])] + Lower(s[1..])
  }

  lemma {:induction false} LowerSpec(s: string)
    ensures forall i :: 0 <= i < |s| ==> Lower(s)[i] == LowerChar(s[i])
  {
    if s != [] {
      LowerSpec(s[1..]);
      assert forall i :: 1 <= i < |s| ==> Lower(s)[i] == Lower(s[1..])[i - 1];
    }
  }

  /** str.upper() restricted to ASCII letters. */
  function Upper(s: string): (r: string)
    ensures |r| == |s|
  {
    if s == [] then [] else [UpperChar(s[0])] + Upper(s[1..])
  }

  lemma {:induction false} UpperSpec(s: string)
    ensures forall i :: 0 <= i < |s| ==> Upper(s)[i] == UpperChar(s[i])
  {
    if s != [] {
      UpperSpec(s[1..]);
      assert forall i :: 1 <= i < |s| ==> Upper(s)[i] == Upper(s[1..])[i - 1];
    }
  }

  /** str.lstrip('.'): drops the leading dots and nothing else. */
  function LStripDots(s: string): (r: string)
    ensures |r| <= |s| && r == s[|s| - |r|..]
    ensures r == [] || r[0] != '.'
  {
    if s != [] && s[0] == '.' then LStripDots(s[1..]) else s
  }

  lemma {:induction false} LStripDotsSpec(s: string)
    ensures forall i :: 0 <= i < |s| - |LStripDots(s)| ==> s[i] == '.'
  {
    if s != [] && s[0] == '.' {
      LStripDotsSpec(s[1..]);
      assert forall i :: 1 <= i < |s| - |LStripDots(s)| ==> s[i] == s[1..][i - 1];
    }
  }

  /** str.endswith(suffix). */
  predicate EndsWith(s: string, suffix: string)
  {
    |suffix| <= |s| && s[|s| - |suffix|..] == suffix
  }

  /** Lower-casing first changes nothing once the text is upper-cased. */
  lemma {:induction false} UpperOfLower(s: string)
    ensures Upper(Lower(s)) == Upper(s)
  {
    if s != [] {
      UpperOfLower(s[1..]);
      assert Lower(s)[1..] == Lower(s[1..]);
    }
  }

  // ---------------------------------------------------------------- splitext

  /** Index of the last '.' in s, or -1. */
  function LastDot(s: string): (r: int)
    ensures -1 <= r < |s|
    ensures r >= 0 ==> s[r] == '.'
    ensures forall i :: r < i < |s| ==> s[i] != '.'
  {
    if s == [] then -1
    else if s[|s| - 1] == '.' then |s| - 1
    else LastDot(s[..|s| - 1])
  }

  predicate AllDots(s: string)
  {
    forall i :: 0 <= i < |s| ==> s[i] == '.'
  }

  /** os.path.splitext(name)[1] for a base name: the suffix from the last
      dot, unless every character before that dot is itself a dot (so
      ".bashrc" and "..x" have no extension, while "a." has extension "."). */
  function Ext(name: Name): (e: string)
    ensures |e| <= |name| && e == name[|name| - |e|..]
  {
    var d := LastDot(name);
    if d >= 0 && !AllDots(name[..d]) then name[d..] else ""
  }

  /** What splitext promises: the extension is a suffix of the name; a
      non-empty one is a single dot, then no more dots, after something that
      is not all dots; and there is none exactly when no dot of the name has
      a non-dot before it. */
  lemma ExtSpec(name: Name)
    ensures var e := Ext(name);
      e != [] ==> e[0] == '.' && (forall i :: 1 <= i < |e| ==> e[i] != '.')
                  && !AllDots(name[..|name| - |e|])
    ensures Ext(name) == [] <==>
      (forall i, j :: 0 <= i < j < |name| && name[j] == '.' ==> name[i] == '.')
  {
    var d := LastDot(name);
    if d >= 0 && !AllDots(name[..d]) {
      var i :| 0 <= i < d && name[..d][i] != '.';
      assert name[i] != '.' && name[d] == '.';
    } else {
      NoExtAllDotsBefore(name, d);
    }
  }

  /** The extension lower-cased and stripped of leading dots: empty for no
      extension or a bare dot, otherwise the lower-cased text after the
      dot. */
  lemma StrippedExt(name: Name)
    ensures var e := Ext(name);
            (|e| <= 1 ==> LStripDots(Lower(e)) == [])
            && (|e| > 1 ==> LStripDots(Lower(e)) == Lower(e[1..]))
  {
    var e := Ext(name);
    ExtSpec(name);
    if e != [] {
      var k := Lower(e);
      assert k == [LowerChar(e[0])] + Lower(e[1..]);
      assert k[0] == '.' && k[1..] == Lower(e[1..]);
      if |e| > 1 {
        assert Lower(e[1..])[0] == LowerChar(e[1]) != '.';
      }
    }
  }

  /** Helper for ExtSpec: when the last dot has only dots before it (or there
      is no dot), every dot of the name has only dots before it. */
  lemma NoExtAllDotsBefore(name: Name, d: int)
    requires d == LastDot(name)
    requires !(d >= 0 && !AllDots(name[..d]))
    ensures forall i, j :: 0 <= i < j < |name| && name[j] == '.' ==> name[i] == '.'
  {
    forall i, j | 0 <= i < j < |name| && name[j] == '.'
      ensures name[i] == '.'
    {
      assert j <= d;
      assert name[..d][i] == name[i];
    }
  }

  // ---------------------------------------------------------------- walk order

  /** Lexicographic order on names, characters compared by code point. */
  predicate NameLe(a: Name, b: Name)
  {
    a == [] || (b != [] && (a[0] < b[0] || (a[0] == b[0] && NameLe(a[1..], b[1..]))))
  }

  predicate NameLt(a: Name, b: Name)
  {
    NameLe(a, b) && a != b
  }

  /** Lexicographic order on paths, component by component. */
  predicate PathLe(a: Path, b: Path)
  {
    a == [] || (b != [] && (NameLt(a[0], b[0]) || (a[0] == b[0] && PathLe(a[1..], b[1..]))))
  }

  lemma {:induction false} NameLeTotal(a: Name, b: Name)
    ensures NameLe(a, b) || NameLe(b, a)
  {
    if a != [] && b != [] && a[0] == b[0] {
      NameLeTotal(a[1..], b[1..]);
    }
  }

  lemma {:induction false} NameLeAntisymmetric(a: Name, b: Name)
    requires NameLe(a, b) && NameLe(b, a)
    ensures a == b
  {
    if a != [] && b != [] {
      NameLeAntisymmetric(a[1..], b[1..]);
      assert a == [a[0]] + a[1..] && b == [b[0]] + b[1..];
    }
  }

  lemma {:induction false} NameLeTransitive(a: Name, b: Name, c: Name)
    requires NameLe(a, b) && NameLe(b, c)
    ensures NameLe(a, c)
  {
    if a != [] && a[0] == b[0] && b[0] == c[0] {
      NameLeTransitive(a[1..], b[1..], c[1..]);
    }
  }

  lemma NameLtTransitive(a: Name, b: Name, c: Name)
    requires NameLt(a, b) && NameLt(b, c)
    ensures NameLt(a, c)
  {
    NameLeTransitive(a, b, c);
    if a == c {
      NameLeAntisymmetric(a, b);
    }
  }

  lemma {:induction false} PathLeReflexive(a: Path)
    ensures PathLe(a, a)
  {
    if a != [] {
      PathLeReflexive(a[1..]);
    }
  }

  lemma {:induction false} PathLeTotal(a: Path, b: Path)
    ensures PathLe(a, b) || PathLe(b, a)
  {
    if a != [] && b != [] {
      if a[0] == b[0] {
        PathLeTotal(a[1..], b[1..]);
      } else {
        NameLeTotal(a[0], b[0]);
      }
    }
  }

  lemma {:induction false} PathLeAntisymmetric(a: Path, b: Path)
    requires PathLe(a, b) && PathLe(b, a)
    ensures a == b
  {
    if a != [] && b != [] {
      if a[0] == b[0] {
        PathLeAntisymmetric(a[1..], b[1..]);
        assert a == [a[0]] + a[1..] && b == [b[0]] + b[1..];
      } else {
        NameLeAntisymmetric(a[0], b[0]);
      }
    }
  }

  lemma {:induction false} PathLeTransitive(a: Path, b: Path, c: Path)
    requires PathLe(a, b) && PathLe(b, c)
    ensures PathLe(a, c)
  {
    if a != [] {
      if a[0] == b[0] && b[0] == c[0] {
        PathLeTransitive(a[1..], b[1..], c[1..]);
      } else if NameLt(a[0], b[0]) && NameLt(b[0], c[0]) {
        NameLtTransitive(a[0], b[0], c[0]);
      }
    }
  }

  predicate IsLeast(m: Path, s: set<Path>)
  {
    m in s && forall q :: q in s ==> PathLe(m, q)
  }

  /** Every finite non-empty set of paths has a least element. */
  lemma {:induction false} LeastExists(s: set<Path>)
    requires s != {}
    ensures exists m :: IsLeast(m, s)
    decreases |s|
  {
    var x :| x in s;
    if s == {x} {
      PathLeReflexive(x);
      assert IsLeast(x, s);
    } else {
      LeastExists(s - {x});
      var m :| IsLeast(m, s - {x});
      PathLeTotal(x, m);
      if PathLe(x, m) {
        forall q | q in s ensures PathLe(x, q) {
          if q == x { PathLeReflexive(x); } else { PathLeTransitive(x, m, q); }
        }
        assert IsLeast(x, s);
      } else {
        assert IsLeast(m, s);
      }
    }
  }

  function Least(s: set<Path>): (m: Path)
    requires s != {}
    ensures IsLeast(m, s)
  {
    LeastExists(s);
    LeastIsUnique(s);
    var m :| IsLeast(m, s); m
  }

  lemma LeastIsUnique(s: set<Path>)
    ensures forall m, n :: IsLeast(m, s) && IsLeast(n, s) ==> m == n
  {
    forall m, n | IsLeast(m, s) && IsLeast(n, s) ensures m == n {
      PathLeAntisymmetric(m, n);
    }
  }

  /** The snapshot a walk iterates: the paths of s in increasing order.
      Real os.walk order is unspecified; the model fixes this one. */
  function Sorted(s: set<Path>): (r: seq<Path>)
    ensures |r| == |s|
    ensures forall p :: p in s <==> p in r
    ensures forall i, j :: 0 <= i < j < |r| ==> PathLe(r[i], r[j]) && r[i] != r[j]
    decreases |s|
  {
    if s == {} then []
    else
      var m := Least(s);
      var rest := Sorted(s - {m});
      SortedCons(m, s, rest);
      [m] + rest
  }

  /** Helper for Sorted: putting the least element in front keeps the order. */
  lemma SortedCons(m: Path, s: set<Path>, rest: seq<Path>)
    requires IsLeast(m, s)
    requires forall p :: p in s - {m} <==> p in rest
    requires forall i, j :: 0 <= i < j < |rest| ==> PathLe(rest[i], rest[j]) && rest[i] != rest[j]
    ensures forall p :: p in s <==> p in [m] + rest
    ensures forall i, j :: 0 <= i < j < |[m] + rest| ==>
              PathLe(([m] + rest)[i], ([m] + rest)[j]) && ([m] + rest)[i] != ([m] + rest)[j]
  {
    var r := [m] + rest;
    forall i, j | 0 <= i < j < |r| ensures PathLe(r[i], r[j]) && r[i] != r[j] {
      if i == 0 {
        assert r[j] == rest[j - 1];
        assert rest[j - 1] in s - {m};
      } else {
        assert r[i] == rest[i - 1] && r[j] == rest[j - 1];
      }
    }
  }
}
