/** Paths as sequences of parts, and the file that a path names once "." and ".." are followed. */
module Paths {
  import opened Text

  /** `s.split("/")` */
  function Parts(s: string): (parts: seq<string>)
    ensures parts != []
    decreases |s|
  {
    var first := Segment(s);
    if first == s then [s] else [first] + Parts(s[|first| + 1..])
  }

  predicate PlainPart(part: string) {
    part != "" && part != "." && part != ".."
  }

  predicate PlainParts(parts: seq<string>) {
    forall i | 0 <= i < |parts| :: PlainPart(parts[i])
  }

  /** The directories and the file that a path names once "." and ".." are followed. */
  function Resolve(parts: seq<string>): seq<string> {
    if parts == [] then []
    else
      var above, last := Resolve(parts[..|parts| - 1]), parts[|parts| - 1];
      if last == "" || last == "." then above
      else if last == ".." then (if above == [] then [] else above[..|above| - 1])
      else above + [last]
  }

  lemma {:induction false} PartsOfJoin(base: string, rel: string)
    ensures Parts(base + "/" + rel) == Parts(base) + Parts(rel)
    decreases |base|
  {
    hide Segment;
    var s := base + "/" + rel;
    var first := Segment(base);
    SegmentOfJoin(base, rel);
    PartsStep(s);
    if first == base {
      assert s[|first| + 1..] == rel;
    } else {
      var rest := base[|first| + 1..];
      assert s[|first| + 1..] == rest + "/" + rel;
      PartsStep(base);
      PartsOfJoin(rest, rel);
    }
  }

  lemma PartsStep(s: string)
    ensures Segment(s) == s ==> Parts(s) == [s]
    ensures Segment(s) != s ==>
              var rest := s[|Segment(s)| + 1..];
              Parts(s) == [Segment(s)] + Parts(rest) && |Parts(rest)| >= 1 && s[|Segment(s)|] == '/'
  {
  }

  lemma {:induction false} SegmentOfJoin(base: string, rel: string)
    ensures Segment(base + "/" + rel) == Segment(base) != base + "/" + rel
    decreases |base|
  {
    var s := base + "/" + rel;
    if base != "" && base[0] != '/' {
      assert s[1..] == base[1..] + "/" + rel;
      SegmentOfJoin(base[1..], rel);
    }
  }

  lemma {:induction false} PlainPartsAreKept(above: seq<string>, parts: seq<string>)
    requires PlainParts(parts)
    ensures Resolve(above + parts) == Resolve(above) + parts
    decreases |parts|
  {
    if parts == [] {
      assert above + parts == above;
    } else {
      var n := |parts| - 1;
      assert (above + parts)[..|above| + n] == above + parts[..n];
      assert parts == parts[..n] + [parts[n]];
      PlainPartsAreKept(above, parts[..n]);
    }
  }

  lemma {:induction false} PartsDetermineThePath(a: string, b: string)
    requires Parts(a) == Parts(b)
    ensures a == b
    decreases |a|
  {
    hide Parts, Segment;
    PartsStep(a);
    PartsStep(b);
    var first := Parts(a)[0];
    if Segment(a) != a && Segment(b) != b {
      var restA, restB := a[|first| + 1..], b[|first| + 1..];
      assert Parts(restA) == Parts(a)[1..] && Parts(restB) == Parts(b)[1..];
      PartsDetermineThePath(restA, restB);
      assert a == first + "/" + restA;
      assert b == first + "/" + restB;
    }
  }

  lemma OnePart(name: string)
    requires '/' !in name
    ensures Parts(name) == [name]
  {
    assert forall i | 0 <= i < |name| :: name[i] in name;
    assert Segment(name) == name;
  }

  /** One part further. */
  function After(reached: seq<string>, part: string): seq<string> {
    if part == "" || part == "." then reached
    else if part != ".." then reached + [part]
    else if reached == [] then []
    else reached[..|reached| - 1]
  }

  lemma StepOfResolve(parts: seq<string>, part: string)
    ensures Resolve(parts + [part]) == After(Resolve(parts), part)
  {
    assert (parts + [part])[..|parts|] == parts;
  }

  lemma {:induction false} SlashesAtTheEnd(root: string)
    ensures Resolve(Parts(StripSlashes(root))) == Resolve(Parts(root))
    decreases |root|
  {
    hide Parts, Resolve;
    if root != "" && root[|root| - 1] == '/' {
      var front := root[..|root| - 1];
      SlashesAtTheEnd(front);
      assert root == front + "/" + "";
      PartsOfJoin(front, "");
      OnePart("");
      StepOfResolve(Parts(front), "");
    }
  }
}
