/** Where the copies of a migration end up once "." and ".." in their paths are followed. */
module MigrationRoots {
  import opened Migration
  import opened Paths
  import opened Text

  // ----- relative parts lead up first and then down

  datatype Walk = Walk(up: nat, down: seq<string>)

  /** So many directories up, and from there down: what `posixpath.normpath` makes of a relative path. */
  function WalkOf(parts: seq<string>): Walk {
    if parts == [] then Walk(0, []) else Further(WalkOf(parts[..|parts| - 1]), parts[|parts| - 1])
  }

  function Further(w: Walk, part: string): Walk {
    if part == "" || part == "." then w
    else if part != ".." then Walk(w.up, w.down + [part])
    else if w.down == [] then Walk(w.up + 1, [])
    else Walk(w.up, w.down[..|w.down| - 1])
  }

  function Above(path: seq<string>, up: nat): seq<string> {
    if |path| <= up then [] else path[..|path| - up]
  }

  /** The directories that going up leaves. */
  function Left(path: seq<string>, up: nat): seq<string> {
    if |path| <= up then path else path[|path| - up..]
  }

  lemma {:induction false} ResolvingWalks(above: seq<string>, parts: seq<string>)
    ensures var w := WalkOf(parts);
            Resolve(above + parts) == Above(Resolve(above), w.up) + w.down
    decreases |parts|
  {
    hide Resolve, WalkOf, Above;
    if parts == [] {
      assert above + parts == above;
      NoParts(Resolve(above));
    } else {
      var n := |parts| - 1;
      ResolvingWalks(above, parts[..n]);
      StepOfResolve(above + parts[..n], parts[n]);
      assert above + parts == above + parts[..n] + [parts[n]];
      assert parts == parts[..n] + [parts[n]];
      StepOfWalk(Resolve(above), parts[..n], parts[n]);
    }
  }

  lemma NoParts(path: seq<string>)
    ensures Above(path, WalkOf([]).up) + WalkOf([]).down == path
  {
  }

  lemma OneHigher(path: seq<string>, up: nat)
    ensures var reached := Above(path, up); Above(path, up + 1) == if reached == [] then [] else reached[..|reached| - 1]
  {
  }

  lemma FurtherBelow(path: seq<string>, w: Walk, part: string)
    ensures Above(path, Further(w, part).up) + Further(w, part).down == After(Above(path, w.up) + w.down, part)
  {
    hide Above;
    OneHigher(path, w.up);
    var above := Above(path, w.up);
    if part == ".." && w.down != [] {
      assert (above + w.down)[..|above| + |w.down| - 1] == above + w.down[..|w.down| - 1];
    } else if part == ".." {
      assert above + w.down == above;
    }
  }

  lemma StepOfWalk(path: seq<string>, parts: seq<string>, part: string)
    ensures var w, next := WalkOf(parts), WalkOf(parts + [part]);
            Above(path, next.up) + next.down == After(Above(path, w.up) + w.down, part)
  {
    hide Above, Further, After;
    assert (parts + [part])[..|parts|] == parts;
    FurtherBelow(path, WalkOf(parts), part);
  }

  lemma {:induction false} PlainWalk(parts: seq<string>)
    requires PlainParts(parts)
    ensures WalkOf(parts) == Walk(0, parts)
  {
    if parts != [] {
      var n := |parts| - 1;
      PlainWalk(parts[..n]);
      assert parts == parts[..n] + [parts[n]];
    }
  }

  // ----- directories of the roots

  /** The directory that a root names. */
  function Directory(d: Destinations, k: nat): seq<string>
    requires k < 4
  {
    Resolve(Parts(Root(d, k)))
  }

  /** No directory is, or lies below, another one. */
  predicate SeparateOnceResolved(d: Destinations) {
    forall i: nat, j: nat | i < 4 && j < 4 && i != j :: !(Directory(d, i) <= Directory(d, j))
  }

  /** The path names something strictly below the directory of the k-th root and not in or below another one. */
  predicate LandsApart(d: Destinations, k: nat, path: string)
    requires k < 4
  {
    && Directory(d, k) < Resolve(Parts(path))
    && forall j: nat | j < 4 && j != k :: !(Directory(d, j) <= Resolve(Parts(path)))
  }

  lemma StrictlyBelowIsApart(d: Destinations, k: nat, path: string)
    requires SeparateOnceResolved(d) && k < 4
    ensures LandsApart(d, k, path) <==> Directory(d, k) < Resolve(Parts(path))
  {
    hide Resolve, Parts, Directory;
    var reached := Resolve(Parts(path));
    if Directory(d, k) < reached {
      forall j: nat | j < 4 && j != k ensures !(Directory(d, j) <= reached) {
        if Directory(d, j) <= reached {
          OneAboveTheOther(Directory(d, j), Directory(d, k), reached);
        }
      }
    }
  }

  lemma OneAboveTheOther(a: seq<string>, b: seq<string>, path: seq<string>)
    requires a <= path && b <= path
    ensures a <= b || b <= a
  {
    if |a| <= |b| {
      assert b == path[..|b|] && a == path[..|a|] == b[..|a|];
    } else {
      assert a == path[..|a|] && b == path[..|b|] == a[..|b|];
    }
  }

  // ----- targets

  /** The destination of a file below the k-th root; the fourth root holds the bundle only. */
  function Target(d: Destinations, k: nat, name: string, rel: string): string
    requires k < 4
  {
    if k < 3 then StripSlashes(Root(d, k)) + "/" + name + "/" + rel else Bundle(name, d)
  }

  lemma TargetResolved(d: Destinations, k: nat, name: string, rel: string)
    requires k < 3
    ensures var w := WalkOf(Parts(name) + Parts(rel));
            Resolve(Parts(Target(d, k, name, rel))) == Above(Directory(d, k), w.up) + w.down
  {
    hide Resolve, Parts, WalkOf, Above;
    var base := StripSlashes(Root(d, k));
    PartsOfJoin(base + "/" + name, rel);
    PartsOfJoin(base, name);
    assert Parts(base) + Parts(name) + Parts(rel) == Parts(base) + (Parts(name) + Parts(rel));
    ResolvingWalks(Parts(base), Parts(name) + Parts(rel));
    SlashesAtTheEnd(Root(d, k));
  }

  lemma SameFront(front: seq<string>, a: seq<string>, b: seq<string>)
    ensures front + a < front + b <==> a < b
  {
    if a < b {
      assert b == a + b[|a|..];
      assert front + b == front + a + b[|a|..];
    }
    if front + a < front + b {
      assert (front + b)[..|front + a|] == front + a;
      assert b[..|a|] == (front + b)[|front|..][..|a|] == (front + a)[|front|..] == a;
    }
  }

  lemma BelowAfterAll(path: seq<string>, up: nat, down: seq<string>)
    ensures path < Above(path, up) + down <==> Left(path, up) < down
  {
    assert path == Above(path, up) + Left(path, up);
    SameFront(Above(path, up), Left(path, up), down);
  }

  /** From the directory of its root the path goes back down through every directory that it goes up from, and
      further; most paths go up from none. */
  predicate ComesBackDown(d: Destinations, k: nat, name: string, rel: string)
    requires k < 4
  {
    var w := WalkOf(Parts(name) + Parts(rel));
    Left(Directory(d, k), w.up) < w.down
  }

  /** The exact condition for one file. */
  lemma LandsApartIff(d: Destinations, k: nat, name: string, rel: string)
    requires SeparateOnceResolved(d) && k < 3
    ensures LandsApart(d, k, Target(d, k, name, rel)) <==> ComesBackDown(d, k, name, rel)
  {
    hide Resolve, Parts, WalkOf, Above, Left, LandsApart, SeparateOnceResolved, Directory, Target;
    var w := WalkOf(Parts(name) + Parts(rel));
    TargetResolved(d, k, name, rel);
    StrictlyBelowIsApart(d, k, Target(d, k, name, rel));
    BelowAfterAll(Directory(d, k), w.up, w.down);
  }

  lemma BundleResolved(d: Destinations, name: string)
    requires '/' !in name
    ensures Resolve(Parts(Bundle(name, d))) == Directory(d, 3) + [name + ".unpushed.bundle"]
  {
    hide Resolve, Parts;
    var base, file := StripSlashes(Root(d, 3)), name + ".unpushed.bundle";
    assert Bundle(name, d) == base + "/" + file;
    assert |file| > 2;
    OnePart(file);
    PartsOfJoin(base, file);
    PlainPartsAreKept(Parts(base), [file]);
    SlashesAtTheEnd(Root(d, 3));
  }

  // ----- which roots and names keep the classes apart

  /** A file of a directory, as its path has no empty part, no "." and no "..". */
  predicate IsFilePath(rel: string) {
    PlainParts(Parts(rel))
  }

  lemma NamedWalk(name: string, rel: string)
    requires '/' !in name && IsFilePath(rel)
    ensures var w := WalkOf(Parts(name) + Parts(rel));
            w == if name == ".." then Walk(1, Parts(rel)) else if name == "" || name == "." then Walk(0, Parts(rel))
                 else Walk(0, [name] + Parts(rel))
  {
    hide Parts, WalkOf;
    OnePart(name);
    WalkFurther(name, Parts(rel));
  }

  lemma {:induction false} WalkFurther(name: string, parts: seq<string>)
    requires PlainParts(parts)
    ensures WalkOf([name] + parts)
            == if name == ".." then Walk(1, parts)
               else if name == "" || name == "." then Walk(0, parts)
               else Walk(0, [name] + parts)
  {
    if parts == [] {
      assert [name] + parts == [name] && [name][..0] == [];
    } else {
      var n := |parts| - 1;
      WalkFurther(name, parts[..n]);
      assert ([name] + parts)[..n + 1] == [name] + parts[..n];
      assert parts == parts[..n] + [parts[n]];
    }
  }

  /** Every class lands apart, whatever files the checkout has. */
  ghost predicate AlwaysApart(d: Destinations, name: string) {
    forall k: nat, rel: string | k < 4 && IsFilePath(rel) :: LandsApart(d, k, Target(d, k, name, rel))
  }

  /** The exact condition for roots and a name without slashes: the classes stay apart for all files if and only
      if no directory of a root is, or lies below, another one and the name is not "..". */
  lemma AlwaysApartIff(d: Destinations, name: string)
    requires '/' !in name
    ensures AlwaysApart(d, name) <==> SeparateOnceResolved(d) && name != ".."
  {
    hide SeparateOnceResolved, AlwaysApart;
    if SeparateOnceResolved(d) && name != ".." {
      SafeNameLandsApart(d, name);
    }
    if AlwaysApart(d, name) {
      ApartOnlyWhenSeparate(d, name);
    }
  }

  lemma SafeNameLandsApart(d: Destinations, name: string)
    requires '/' !in name && SeparateOnceResolved(d) && name != ".."
    ensures AlwaysApart(d, name)
  {
    hide SeparateOnceResolved, LandsApart, Bundle, Parts, Directory;
    forall k: nat, rel: string | k < 4 && IsFilePath(rel) ensures LandsApart(d, k, Target(d, k, name, rel)) {
      if k < 3 {
        FileLandsApart(d, k, name, rel);
      } else {
        BundleLandsApart(d, name);
      }
    }
  }

  lemma FileLandsApart(d: Destinations, k: nat, name: string, rel: string)
    requires '/' !in name && SeparateOnceResolved(d) && name != ".." && k < 3 && IsFilePath(rel)
    ensures LandsApart(d, k, Target(d, k, name, rel))
  {
    hide SeparateOnceResolved, LandsApart, Target, Parts, Directory, WalkOf, PlainParts;
    NamedWalk(name, rel);
    LandsApartIff(d, k, name, rel);
    assert Left(Directory(d, k), 0) == [];
  }

  lemma BundleLandsApart(d: Destinations, name: string)
    requires '/' !in name && SeparateOnceResolved(d)
    ensures LandsApart(d, 3, Bundle(name, d))
  {
    hide SeparateOnceResolved, LandsApart, Parts, Directory, Resolve, Bundle;
    BundleResolved(d, name);
    StrictlyBelowIsApart(d, 3, Bundle(name, d));
  }

  lemma SampleIsAFile()
    ensures IsFilePath("x")
  {
    OnePart("x");
  }

  /** What one file and the bundle already show. */
  lemma ApartOnlyWhenSeparate(d: Destinations, name: string)
    requires '/' !in name && AlwaysApart(d, name)
    ensures SeparateOnceResolved(d) && name != ".."
  {
    hide LandsApart, Target, Parts, Directory;
    SampleIsAFile();
    if name == ".." {
      assert LandsApart(d, 0, Target(d, 0, name, "x")) && LandsApart(d, 1, Target(d, 1, name, "x"));
      ParentIsNoPlace(d);
    } else {
      forall i: nat, j: nat | i < 4 && j < 4 && i != j ensures !(Directory(d, i) <= Directory(d, j)) {
        assert LandsApart(d, j, Target(d, j, name, "x"));
        ApartFromTheOther(d, i, j, Target(d, j, name, "x"));
      }
    }
  }

  lemma ApartFromTheOther(d: Destinations, i: nat, j: nat, path: string)
    requires i < 4 && j < 4 && i != j && LandsApart(d, j, path)
    ensures !(Directory(d, i) <= Directory(d, j))
  {
    hide Parts, Resolve, Directory;
  }

  /** Under the name ".." a file of one part leaves the directory of its class, or that is the topmost one, which
      holds the files of the other classes. */
  lemma ParentIsNoPlace(d: Destinations)
    ensures !LandsApart(d, 0, Target(d, 0, "..", "x")) || !LandsApart(d, 1, Target(d, 1, "..", "x"))
  {
    hide Parts, Target, Directory, Resolve, WalkOf;
    SampleIsAFile();
    OnePart("x");
    NamedWalk("..", "x");
    TargetResolved(d, 0, "..", "x");
    if Directory(d, 0) == [] {
      assert Directory(d, 0) <= Resolve(Parts(Target(d, 1, "..", "x")));
    }
  }

  // ----- which paths stay inside for all roots

  /** A root whose parts, but for slashes at its ends, are the directories to go through. */
  predicate IsPlainRoot(root: string) {
    var parts := Parts(StripSlashes(root));
    parts[0] == "" && PlainParts(parts[1..])
  }

  predicate PlainRoots(d: Destinations) {
    forall k: nat | k < 4 :: IsPlainRoot(Root(d, k))
  }

  lemma PlainDirectory(d: Destinations, k: nat)
    requires k < 4 && IsPlainRoot(Root(d, k))
    ensures Parts(StripSlashes(Root(d, k))) == [""] + Directory(d, k)
  {
    hide Parts, PlainParts;
    var parts := Parts(StripSlashes(Root(d, k)));
    SlashesAtTheEnd(Root(d, k));
    assert parts == [""] + parts[1..];
    PlainPartsAreKept([""], parts[1..]);
    assert [""][..0] == [];
  }

  lemma TextExtends(a: string, b: string)
    requires a + "/" <= b + "/"
    ensures Parts(a) <= Parts(b)
  {
    hide Parts, Segment;
    if |a| == |b| {
      assert a == (a + "/")[..|a|] == (b + "/")[..|a|] == b;
    } else {
      var rest := b[|a| + 1..];
      assert b == b[..|a|] + [b[|a|]] + rest;
      assert (b + "/")[..|a| + 1] == a + "/";
      assert b[..|a|] == (b + "/")[..|a|] == a && b[|a|] == (b + "/")[..|a| + 1][|a|] == '/';
      assert b == a + "/" + rest;
      PartsOfJoin(a, rest);
    }
  }

  lemma {:induction false} PartsExtend(a: string, b: string)
    requires Parts(a) <= Parts(b)
    ensures a + "/" <= b + "/"
    decreases |a|
  {
    hide Parts, Segment;
    PartsStep(a);
    PartsStep(b);
    var first := Parts(a)[0];
    assert first == Parts(b)[0];
    if Segment(a) != a {
      var restA, restB := a[|first| + 1..], b[|first| + 1..];
      assert a == first + "/" + restA;
      assert |Parts(b)| > 1;
      assert b == first + "/" + restB;
      assert Parts(restA) == Parts(a)[1..] && Parts(restB) == Parts(b)[1..];
      PartsExtend(restA, restB);
      assert a + "/" == first + "/" + (restA + "/");
      assert b + "/" == first + "/" + (restB + "/");
    } else if Segment(b) != b {
      assert b == first + "/" + b[|first| + 1..];
    }
  }

  /** A path extends another one by whole parts exactly when its text with a slash extends that of the other. */
  lemma TextAndParts(a: string, b: string)
    ensures a + "/" <= b + "/" <==> Parts(a) <= Parts(b)
  {
    hide Parts;
    if a + "/" <= b + "/" {
      TextExtends(a, b);
    }
    if Parts(a) <= Parts(b) {
      PartsExtend(a, b);
    }
  }

  lemma PlainNesting(d: Destinations, i: nat, j: nat)
    requires i < 4 && j < 4 && IsPlainRoot(Root(d, i)) && IsPlainRoot(Root(d, j))
    ensures IsWithin(Root(d, i), Root(d, j)) <==> Directory(d, j) <= Directory(d, i)
  {
    hide Parts, PlainParts, Directory, IsPlainRoot, StripSlashes;
    var a, b := StripSlashes(Root(d, i)), StripSlashes(Root(d, j));
    PlainDirectory(d, i);
    PlainDirectory(d, j);
    TextAndParts(b, a);
    OneMoreInFront(Directory(d, j), Directory(d, i));
  }

  lemma OneMoreInFront(a: seq<string>, b: seq<string>)
    ensures [""] + a <= [""] + b <==> a <= b
  {
    if [""] + a <= [""] + b {
      assert a == ([""] + a)[1..] && b == ([""] + b)[1..];
      assert ([""] + b)[..|a| + 1] == [""] + a;
      assert b[..|a|] == ([""] + b)[..|a| + 1][1..];
    }
  }

  /** For plain roots the test on the text is the right one. */
  lemma SeparateMeansResolved(d: Destinations)
    requires PlainRoots(d)
    ensures Separate(d) <==> SeparateOnceResolved(d)
  {
    hide IsWithin, IsPlainRoot, Directory;
    forall i: nat, j: nat | i < 4 && j < 4 && i != j
      ensures IsWithin(Root(d, i), Root(d, j)) <==> Directory(d, j) <= Directory(d, i)
    {
      PlainNesting(d, i, j);
    }
  }

  // ----- which files stay inside for all roots

  lemma OneDirectory(name: string)
    requires '/' !in name && PlainPart(name)
    ensures StripSlashes("/" + name) == "/" + name && Parts("/" + name) == [""] + [name] && Resolve(Parts("/" + name)) == [name]
    ensures IsPlainRoot("/" + name)
  {
    hide Parts, Resolve;
    var root := "/" + name;
    assert root[|root| - 1] == name[|name| - 1] && name[|name| - 1] in name;
    OnePart(name);
    OnePart("");
    assert root == "" + "/" + name;
    PartsOfJoin("", name);
    StepOfResolve([""], name);
    StepOfResolve([], "");
    assert [] + [""] == [""];
    Nowhere();
    assert ([""] + [name])[1..] == [name];
  }

  lemma Nowhere()
    ensures Resolve([]) == []
  {
  }

  /** Four directories of the topmost one. */
  function TopRoots(a: string, b: string, c: string, e: string): Destinations {
    Destinations("/" + a, "/" + b, "/" + c, "/" + e)
  }

  predicate IsDirectoryName(name: string) {
    '/' !in name && PlainPart(name)
  }

  lemma TopRootsArePlain(a: string, b: string, c: string, e: string)
    requires IsDirectoryName(a) && IsDirectoryName(b) && IsDirectoryName(c) && IsDirectoryName(e)
    requires a != b && a != c && a != e && b != c && b != e && c != e
    ensures var d := TopRoots(a, b, c, e);
            && PlainRoots(d) && Separate(d) && SeparateOnceResolved(d)
            && Directory(d, 0) == [a] && Directory(d, 1) == [b] && Directory(d, 2) == [c] && Directory(d, 3) == [e]
  {
    hide Parts, Resolve, IsPlainRoot, StripSlashes, PlainPart, Separate;
    OneDirectory(a);
    OneDirectory(b);
    OneDirectory(c);
    OneDirectory(e);
    TopsAreSeparate(TopRoots(a, b, c, e), [a, b, c, e]);
    SeparateMeansResolved(TopRoots(a, b, c, e));
  }

  lemma TopsAreSeparate(d: Destinations, names: seq<string>)
    requires |names| == 4 && forall i, j | 0 <= i < j < 4 :: names[i] != names[j]
    requires forall k: nat | k < 4 :: Directory(d, k) == [names[k]]
    ensures SeparateOnceResolved(d)
  {
    hide Directory;
    forall i: nat, j: nat | i < 4 && j < 4 && i != j ensures !(Directory(d, i) <= Directory(d, j)) {
      assert [names[j]][0] != [names[i]][0];
    }
  }

  /** The file lands apart under all plain and accepted roots. */
  ghost predicate StaysInside(name: string, rel: string) {
    forall d: Destinations, k: nat | k < 3 && PlainRoots(d) && Separate(d) :: LandsApart(d, k, Target(d, k, name, rel))
  }

  /** The exact condition for names of any form: a file lands apart under all plain and accepted roots if and
      only if the name of the checkout and its path never lead up, and lead down at all. */
  lemma StaysInsideIff(name: string, rel: string)
    ensures var w := WalkOf(Parts(name) + Parts(rel)); StaysInside(name, rel) <==> w.up == 0 && w.down != []
  {
    hide PlainRoots, Separate, SeparateOnceResolved, LandsApart, Target, WalkOf, Parts, Directory, TopRoots;
    var w := WalkOf(Parts(name) + Parts(rel));
    if w.up == 0 && w.down != [] {
      forall d: Destinations, k: nat | k < 3 && PlainRoots(d) && Separate(d) ensures LandsApart(d, k, Target(d, k, name, rel)) {
        SeparateMeansResolved(d);
        LandsApartIff(d, k, name, rel);
        assert Left(Directory(d, k), 0) == [];
      }
    }
    if StaysInside(name, rel) {
      var one, other := TopRoots("a", "b", "c", "e"), TopRoots("f", "g", "h", "i");
      TopRootsArePlain("a", "b", "c", "e");
      TopRootsArePlain("f", "g", "h", "i");
      LandsApartIff(one, 0, name, rel);
      LandsApartIff(other, 0, name, rel);
      assert LandsApart(one, 0, Target(one, 0, name, rel)) && LandsApart(other, 0, Target(other, 0, name, rel));
      DownStartsWith("a", w);
      DownStartsWith("f", w);
    }
  }

  lemma DownStartsWith(a: string, w: Walk)
    requires Left([a], w.up) < w.down
    ensures w.down != [] && (w.up > 0 ==> w.down[0] == a)
  {
    if w.up > 0 {
      assert w.down[..1] == [a];
    }
  }

  // ----- inputs for which the classes meet

  /** Accepted, although the directories of the published and of the private files are one: every private file
      takes the place of the published one of its name. */
  lemma DotsHideANesting(name: string, rel: string)
    ensures var d := Destinations("/a/b", "/l", "/a/c/../b", "/w");
            && Separate(d) && (forall k: nat | k < 4 :: StartsWith(Root(d, k), "/"))
            && Directory(d, 0) == Directory(d, 2) == ["a", "b"]
            && Resolve(Parts(Target(d, 2, name, rel))) == Resolve(Parts(Target(d, 0, name, rel)))
  {
    hide Parts, Resolve, Target, IsWithin;
    var d := Destinations("/a/b", "/l", "/a/c/../b", "/w");
    DifferentTexts(d.reference, d.localChanges, 1);
    DifferentTexts(d.reference, d.privateRoot, 3);
    DifferentTexts(d.reference, d.workInProgress, 1);
    DifferentTexts(d.localChanges, d.privateRoot, 1);
    DifferentTexts(d.localChanges, d.workInProgress, 1);
    DifferentTexts(d.privateRoot, d.workInProgress, 1);
    DottedDirectory();
    TargetResolved(d, 0, name, rel);
    TargetResolved(d, 2, name, rel);
  }

  lemma DifferentTexts(a: string, b: string, i: nat)
    requires i < |a| && i < |b| && a[i] != b[i] && a[|a| - 1] != '/' && b[|b| - 1] != '/'
    ensures !IsWithin(a, b) && !IsWithin(b, a)
  {
    assert (a + "/")[i] != (b + "/")[i];
  }

  lemma DottedDirectory()
    ensures Resolve(Parts("/a/b")) == Resolve(Parts("/a/c/../b")) == ["a", "b"]
  {
    hide Parts, Resolve;
    OneDirectory("a");
    assert "/" + "a" == "/a";
    JoinedDirectory("/a", "b");
    assert "/a" + "/" + "b" == "/a/b";
    JoinedDirectory("/a", "c");
    assert "/a" + "/" + "c" == "/a/c";
    JoinedDirectory("/a/c", "..");
    assert "/a/c" + "/" + ".." == "/a/c/..";
    JoinedDirectory("/a/c/..", "b");
    assert "/a/c/.." + "/" + "b" == "/a/c/../b";
  }

  lemma JoinedDirectory(base: string, part: string)
    requires '/' !in part
    ensures Resolve(Parts(base + "/" + part)) == After(Resolve(Parts(base)), part)
  {
    hide Parts, Resolve, After;
    PartsOfJoin(base, part);
    OnePart(part);
    StepOfResolve(Parts(base), part);
  }

  /** The other way round: refused, although no directory is, or lies below, another one. */
  lemma DotsShowANesting()
    ensures var d := Destinations("/a", "/l", "/a/../p", "/w"); !Separate(d) && SeparateOnceResolved(d)
  {
    hide Parts, Resolve, IsWithin;
    var d := Destinations("/a", "/l", "/a/../p", "/w");
    BelowIsWithin("/a", "../p");
    assert StripSlashes("/a") + "/" + "../p" == "/a/../p";
    assert IsWithin(Root(d, 2), Root(d, 0));
    OneDirectory("a");
    OneDirectory("l");
    OneDirectory("w");
    assert "/" + "a" == "/a" && "/" + "l" == "/l" && "/" + "w" == "/w";
    JoinedDirectory("/a", "..");
    assert "/a" + "/" + ".." == "/a/..";
    JoinedDirectory("/a/..", "p");
    assert "/a/.." + "/" + "p" == "/a/../p";
    TopsAreSeparate(d, ["a", "l", "p", "w"]);
  }

  /** Plain and accepted roots do not help a checkout named "..": this private file lands in the directory of the
      published ones. */
  lemma ParentNameLeavesItsRoot()
    ensures var d := TopRoots("x", "l", "p", "w");
            && PlainRoots(d) && Separate(d) && Directory(d, 0) == ["x"]
            && Resolve(Parts(Target(d, 2, "..", "x/secret"))) == ["x", "secret"]
  {
    hide Parts, Resolve, Target, Directory, PlainRoots, Separate, TopRoots;
    var d := TopRoots("x", "l", "p", "w");
    TopRootsArePlain("x", "l", "p", "w");
    OnePart("x");
    OnePart("secret");
    PartsOfJoin("x", "secret");
    assert "x" + "/" + "secret" == "x/secret";
    NamedWalk("..", "x/secret");
    TargetResolved(d, 2, "..", "x/secret");
  }
}
