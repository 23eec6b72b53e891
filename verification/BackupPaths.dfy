/** The paths of a backup: which relative paths a manifest may hold, and where they end up below a root. */
module BackupPaths {
  import opened Paths
  import opened Text

  /** `_check_relpath` accepts `rel`. */
  predicate IsPlain(rel: string) {
    && rel != "" && !StartsWith(rel, "/") && '\\' !in rel
    && (forall i | 0 <= i < |rel| :: rel[i] >= ' ')
    && PlainParts(Parts(rel))
  }

  /** What stands before the slash of a joined path. */
  function Base(root: string): string {
    ForwardSlashes(StripSlashes(root))
  }

  /** `_join`, for a path that was accepted */
  function Join(root: string, rel: string): (path: string)
    ensures '\\' !in rel ==> path == Base(root) + "/" + rel
  {
    var path := ForwardSlashes(StripSlashes(root) + "/" + rel);
    assert |path| == |Base(root) + "/" + rel|;
    assert '\\' !in rel ==> forall i | 0 <= i < |path| :: path[i] == (Base(root) + "/" + rel)[i];
    path
  }

  /** One root is, or lies above, the other, textually. */
  predicate Contains(root: string, other: string) {
    StartsWith(Base(other) + "/", Base(root) + "/")
  }

  predicate Apart(a: string, b: string) {
    !Contains(a, b) && !Contains(b, a)
  }

  lemma JoinsMeet(a: string, b: string, rel: string, other: string)
    requires '\\' !in rel && '\\' !in other && Join(a, rel) == Join(b, other)
    ensures !Apart(a, b)
  {
    var x, y, path := Base(a) + "/", Base(b) + "/", Join(a, rel);
    assert path == x + rel && path == y + other;
    PrefixesOfOne(x, y, path);
  }

  lemma JoinIsInjective(root: string, rel: string, other: string)
    requires '\\' !in rel && '\\' !in other && Join(root, rel) == Join(root, other)
    ensures rel == other
  {
    var head := Base(root) + "/";
    assert rel == (head + rel)[|head|..];
    assert other == (head + other)[|head|..];
  }

  // ----- which paths are plain

  /** A name that can stand between the slashes of a plain path. */
  predicate IsFileName(part: string) {
    && part != "" && part != "." && part != ".."
    && forall i | 0 <= i < |part| :: part[i] >= ' ' && part[i] != '/' && part[i] != '\\'
  }

  /** `"/".join(parts)` */
  function Slashed(parts: seq<string>): string {
    if parts == [] then ""
    else if |parts| == 1 then parts[0]
    else Slashed(parts[..|parts| - 1]) + "/" + parts[|parts| - 1]
  }

  lemma {:induction false} PartsOfSlashed(parts: seq<string>)
    requires parts != [] && forall k | 0 <= k < |parts| :: '/' !in parts[k]
    ensures Parts(Slashed(parts)) == parts
    decreases |parts|
  {
    hide Parts;
    var n := |parts| - 1;
    OnePart(parts[n]);
    if n == 0 {
      assert parts == [parts[0]];
    } else {
      PartsOfSlashed(parts[..n]);
      PartsOfJoin(Slashed(parts[..n]), parts[n]);
    }
  }

  lemma {:induction false} PartsAreInside(path: string, k: nat, i: nat)
    requires k < |Parts(path)| && i < |Parts(path)[k]|
    ensures Parts(path)[k][i] in path && Parts(path)[k][i] != '/'
    decreases |path|
  {
    hide Parts, Segment;
    PartsStep(path);
    if k > 0 && Segment(path) != path {
      PartsAreInside(path[|Segment(path)| + 1..], k - 1, i);
    }
  }

  lemma {:induction false} SlashedOfParts(path: string)
    ensures Slashed(Parts(path)) == path
  {
    hide Parts, Slashed;
    forall k | 0 <= k < |Parts(path)| ensures '/' !in Parts(path)[k] {
      forall i | 0 <= i < |Parts(path)[k]| ensures Parts(path)[k][i] != '/' {
        PartsAreInside(path, k, i);
      }
    }
    PartsOfSlashed(Parts(path));
    PartsDetermineThePath(Slashed(Parts(path)), path);
  }

  lemma {:induction false} CharactersOfSlashed(parts: seq<string>, c: char)
    requires c in Slashed(parts) && c != '/'
    ensures exists k, i :: 0 <= k < |parts| && 0 <= i < |parts[k]| && parts[k][i] == c
    decreases |parts|
  {
    var n := |parts| - 1;
    if |parts| > 1 && c in Slashed(parts[..n]) {
      CharactersOfSlashed(parts[..n], c);
      var k, i :| 0 <= k < n && 0 <= i < |parts[..n][k]| && parts[..n][k][i] == c;
      assert parts[k][i] == c;
    } else {
      var i :| 0 <= i < |parts[n]| && parts[n][i] == c;
    }
  }

  /** The paths that a manifest may hold are exactly the file names joined by slashes; no such path is refused. */
  lemma PlainIff(rel: string)
    ensures IsPlain(rel) <==>
            exists parts: seq<string> :: parts != [] && Slashed(parts) == rel && forall k | 0 <= k < |parts| :: IsFileName(parts[k])
  {
    hide Parts, Slashed, IsFileName;
    if IsPlain(rel) {
      SlashedOfParts(rel);
      NamesOfPlain(rel);
    }
    if parts: seq<string> :| parts != [] && Slashed(parts) == rel && forall k | 0 <= k < |parts| :: IsFileName(parts[k]) {
      NamesArePlain(parts);
    }
  }

  lemma NamesOfPlain(rel: string)
    requires IsPlain(rel)
    ensures forall k | 0 <= k < |Parts(rel)| :: IsFileName(Parts(rel)[k])
  {
    hide Parts;
    forall k | 0 <= k < |Parts(rel)| ensures IsFileName(Parts(rel)[k]) {
      assert PlainPart(Parts(rel)[k]);
      forall i | 0 <= i < |Parts(rel)[k]|
        ensures Parts(rel)[k][i] >= ' ' && Parts(rel)[k][i] != '/' && Parts(rel)[k][i] != '\\'
      {
        PartsAreInside(rel, k, i);
      }
    }
  }

  lemma NamesArePlain(parts: seq<string>)
    requires parts != [] && forall k | 0 <= k < |parts| :: IsFileName(parts[k])
    ensures IsPlain(Slashed(parts))
  {
    hide Parts, Slashed;
    var rel := Slashed(parts);
    PartsOfSlashed(parts);
    forall c | c in rel ensures c >= ' ' && c != '\\' {
      if c != '/' {
        CharactersOfSlashed(parts, c);
      }
    }
    assert forall i | 0 <= i < |rel| :: rel[i] in rel;
    StartOfParts(rel);
    assert Parts(rel)[0] == parts[0] != "";
  }

  lemma StartOfParts(path: string)
    ensures Parts(path)[0] != "" ==> path != "" && path[0] != '/'
  {
  }

  // ----- what an operating system makes of a joined path

  /** Without back slashes in the root this is what the root names, so the file is where the root says. */
  lemma BaseIsTheRoot(root: string)
    requires '\\' !in root
    ensures Resolve(Parts(Base(root))) == Resolve(Parts(root)) && Base(root) <= root
  {
    hide Parts, Resolve;
    var bare := StripSlashes(root);
    assert forall i | 0 <= i < |bare| :: bare[i] in root;
    assert Base(root) == bare;
    SlashesAtTheEnd(root);
  }

  /** A path of a manifest stays inside its root, whatever the root looks like: the file lies strictly below
      the directory that the root names, and different manifest paths are different files. */
  lemma JoinStaysInside(root: string, rel: string, other: string)
    requires IsPlain(rel) && IsPlain(other)
    ensures Resolve(Parts(Join(root, rel))) == Resolve(Parts(Base(root))) + Parts(rel)
    ensures rel != other ==> Resolve(Parts(Join(root, rel))) != Resolve(Parts(Join(root, other)))
  {
    PartsOfJoin(Base(root), rel);
    PartsOfJoin(Base(root), other);
    PlainPartsAreKept(Parts(Base(root)), Parts(rel));
    PlainPartsAreKept(Parts(Base(root)), Parts(other));
    var above := Resolve(Parts(Base(root)));
    if Resolve(Parts(Join(root, rel))) == Resolve(Parts(Join(root, other))) {
      assert (above + Parts(rel))[|above|..] == Parts(rel);
      assert (above + Parts(other))[|above|..] == Parts(other);
      PartsDetermineThePath(rel, other);
    }
  }
}
