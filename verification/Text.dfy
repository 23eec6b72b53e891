/** The string operations of Python that the models share: prefixes, stripping of slashes,
    replacement of one character and the code point order used by `sorted` and by SQLite. */
module Text {

  predicate StartsWith(s: string, prefix: string) {
    prefix <= s
  }

  lemma PrefixesOfOne(a: string, b: string, s: string)
    requires a <= s && b <= s
    ensures a <= b || b <= a
  {
    if |a| <= |b| {
      assert b == s[..|b|] && a == s[..|a|] == b[..|a|];
    } else {
      assert a == s[..|a|] && b == s[..|b|] == a[..|b|];
    }
  }

  /** `s.rstrip("/")` */
  function StripSlashes(s: string): (r: string)
    ensures r <= s
    ensures r == "" || r[|r| - 1] != '/'
    ensures forall i | |r| <= i < |s| :: s[i] == '/'
  {
    if s == "" || s[|s| - 1] != '/' then s else StripSlashes(s[..|s| - 1])
  }

  lemma {:induction false} StripSlashesKeepsHead(head: string, tail: string)
    requires head == "" || head[|head| - 1] != '/'
    ensures StartsWith(StripSlashes(head + tail), head)
  {
    if head != "" {
      assert (head + tail)[|head| - 1] != '/';
      assert |head| <= |StripSlashes(head + tail)|;
    }
  }

  /** `s.split("/")[0]` */
  function Segment(s: string): (r: string)
    ensures r <= s && (forall i | 0 <= i < |r| :: r[i] != '/')
    ensures |r| < |s| ==> s[|r|] == '/'
  {
    if s == "" || s[0] == '/' then "" else [s[0]] + Segment(s[1..])
  }

  /** `s.replace("\\", "/")` */
  function ForwardSlashes(s: string): (r: string)
    ensures |r| == |s|
    ensures forall i | 0 <= i < |s| :: r[i] == if s[i] == '\\' then '/' else s[i]
  {
    seq(|s|, i requires 0 <= i < |s| => if s[i] == '\\' then '/' else s[i])
  }

  /** Strict code point order of strings. */
  predicate Before(a: string, b: string) {
    b != "" && (a == "" || a[0] < b[0] || (a[0] == b[0] && Before(a[1..], b[1..])))
  }

  predicate AtMost(a: string, b: string) {
    a == b || Before(a, b)
  }

  /** The two agree up to position n, where the first one ends or has the lesser character. */
  predicate PartsAt(a: string, b: string, n: nat) {
    && n <= |a| && n < |b| && a[..n] == b[..n]
    && (n < |a| ==> a[n] < b[n])
  }

  lemma PartsFurther(a: string, b: string, n: nat)
    requires PartsAt(a, b, n)
    ensures b != "" && (n == 0 ==> a == "" || a[0] < b[0])
    ensures n > 0 ==> a != "" && a[0] == b[0] && PartsAt(a[1..], b[1..], n - 1)
  {
    if n > 0 {
      assert a[..n][0] == b[..n][0];
      assert a[1..][..n - 1] == a[..n][1..] && b[1..][..n - 1] == b[..n][1..];
    }
  }

  /** The order of code points: at the first position where the strings differ, or where the first one ends. */
  lemma {:induction false} BeforeIff(a: string, b: string)
    ensures Before(a, b) <==> exists n: nat :: PartsAt(a, b, n)
    decreases |a|
  {
    hide PartsAt;
    if n: nat :| PartsAt(a, b, n) {
      PartsFurther(a, b, n);
      if n > 0 {
        BeforeIff(a[1..], b[1..]);
      }
    }
    if Before(a, b) {
      if a == "" || a[0] < b[0] {
        PartsAtOnce(a, b);
      } else {
        BeforeIff(a[1..], b[1..]);
        var n: nat :| PartsAt(a[1..], b[1..], n);
        PartsLater(a, b, n);
      }
    }
  }

  lemma PartsAtOnce(a: string, b: string)
    requires b != "" && (a == "" || a[0] < b[0])
    ensures PartsAt(a, b, 0)
  {
  }

  lemma PartsLater(a: string, b: string, n: nat)
    requires a != "" && b != "" && a[0] == b[0] && PartsAt(a[1..], b[1..], n)
    ensures PartsAt(a, b, n + 1)
  {
    assert a[..n + 1] == [a[0]] + a[1..][..n] && b[..n + 1] == [b[0]] + b[1..][..n];
  }

  lemma BeforeIsIrreflexive(a: string)
    ensures !Before(a, a)
  {
  }

  lemma BeforeIsTotal(a: string, b: string)
    ensures a == b || Before(a, b) || Before(b, a)
  {
    if a != "" && b != "" && a[0] == b[0] {
      BeforeIsTotal(a[1..], b[1..]);
      if a[1..] == b[1..] {
        assert a == [a[0]] + a[1..] == [b[0]] + b[1..] == b;
      }
    }
  }

  lemma BeforeIsTransitive(a: string, b: string, c: string)
    requires Before(a, b) && Before(b, c)
    ensures Before(a, c)
  {
  }

  predicate Ordered(s: seq<string>) {
    forall i, j | 0 <= i < j < |s| :: AtMost(s[i], s[j])
  }

  /** Puts `x` before the first element that is not smaller. */
  function Insert(x: string, s: seq<string>): (r: seq<string>)
    ensures multiset(r) == multiset(s) + multiset{x}
    ensures Ordered(s) ==> Ordered(r)
  {
    if s == [] then [x]
    else if AtMost(x, s[0]) then
      InFront(x, s);
      assert multiset([x] + s) == multiset(s) + multiset{x};
      [x] + s
    else
      var rest := Insert(x, s[1..]);
      assert s == [s[0]] + s[1..];
      assert multiset([s[0]] + rest) == multiset(s) + multiset{x};
      InsertedBehind(x, s, rest);
      [s[0]] + rest
  }

  lemma InFront(x: string, s: seq<string>)
    requires s != [] && AtMost(x, s[0])
    ensures Ordered(s) ==> Ordered([x] + s)
  {
    if Ordered(s) {
      forall j | 0 <= j < |s| ensures AtMost(x, s[j]) {
        if j > 0 && x != s[0] && s[0] != s[j] {
          BeforeIsTransitive(x, s[0], s[j]);
        }
      }
    }
  }

  lemma InsertedBehind(x: string, s: seq<string>, rest: seq<string>)
    requires s != [] && !AtMost(x, s[0])
    requires multiset(rest) == multiset(s[1..]) + multiset{x}
    requires Ordered(s[1..]) ==> Ordered(rest)
    ensures Ordered(s) ==> Ordered([s[0]] + rest)
  {
    if Ordered(s) {
      assert Ordered(s[1..]);
      BeforeIsTotal(x, s[0]);
      forall j | 0 <= j < |rest| ensures AtMost(s[0], rest[j]) {
        assert rest[j] in multiset(rest);
        if rest[j] != x {
          assert rest[j] in s[1..];
          var i :| 0 <= i < |s[1..]| && s[1..][i] == rest[j];
          assert AtMost(s[0], s[i + 1]);
        }
      }
    }
  }

  /** `sorted(s)` */
  function Sorted(s: seq<string>): (r: seq<string>)
    ensures multiset(r) == multiset(s)
    ensures Ordered(r)
  {
    if s == [] then [] else
      assert s == [s[0]] + s[1..];
      Insert(s[0], Sorted(s[1..]))
  }

  lemma SortedHasTheSameElements(s: seq<string>)
    ensures |Sorted(s)| == |s|
    ensures forall x :: x in Sorted(s) <==> x in s
  {
    assert multiset(Sorted(s)) == multiset(s);
    assert |multiset(Sorted(s))| == |multiset(s)|;
    forall x ensures x in Sorted(s) <==> x in s {
      assert x in Sorted(s) <==> x in multiset(Sorted(s));
      assert x in s <==> x in multiset(s);
    }
  }

  predicate StrictlyOrdered(s: seq<string>) {
    forall i, j | 0 <= i < j < |s| :: Before(s[i], s[j])
  }

  /** The members of a set, sorted. */
  ghost predicate Lists(s: seq<string>, members: set<string>) {
    StrictlyOrdered(s) && forall x :: x in s <==> x in members
  }

  lemma InsertAddsOne(x: string, s: seq<string>, y: string)
    ensures y in Insert(x, s) <==> y == x || y in s
  {
    hide Insert, Ordered;
    assert y in multiset(Insert(x, s)) <==> y == x || y in multiset(s);
  }

  lemma StrictlyInFront(x: string, s: seq<string>)
    requires StrictlyOrdered(s) && (s == [] || Before(x, s[0]))
    ensures StrictlyOrdered([x] + s)
  {
    hide Before;
    forall j | 0 < j < |s| ensures Before(x, s[j]) {
      BeforeIsTransitive(x, s[0], s[j]);
    }
  }

  lemma {:induction false} InsertingKeepsTheOrderStrict(x: string, s: seq<string>)
    requires StrictlyOrdered(s) && x !in s
    ensures StrictlyOrdered(Insert(x, s))
    decreases |s|
  {
    hide Before;
    if s == [] || AtMost(x, s[0]) {
      StrictlyInFront(x, s);
    } else {
      var rest := Insert(x, s[1..]);
      BeforeIsTotal(x, s[0]);
      InsertingKeepsTheOrderStrict(x, s[1..]);
      InsertAddsOne(x, s[1..], rest[0]);
      StrictlyInFront(s[0], rest);
    }
  }

  /** `sorted(members)` */
  method SortedMembers(members: set<string>) returns (s: seq<string>)
    ensures Lists(s, members)
  {
    s := [];
    var rest := members;
    while rest != {}
      invariant rest <= members && Lists(s, members - rest)
      decreases |rest|
    {
      var x :| x in rest;
      InsertingKeepsTheOrderStrict(x, s);
      forall y ensures y in Insert(x, s) <==> y == x || y in s {
        InsertAddsOne(x, s, y);
      }
      s := Insert(x, s);
      rest := rest - {x};
    }
  }

  /** A sequence without repetitions that lists exactly the members of a set. */
  predicate Enumerates<T(==)>(order: seq<T>, members: set<T>) {
    (set x | x in order) == members &&
    forall i, j | 0 <= i < j < |order| :: order[i] != order[j]
  }

  lemma {:induction false} EnumerationLength<T>(order: seq<T>, members: set<T>)
    requires Enumerates(order, members)
    ensures |order| == |members|
    decreases |order|
  {
    if order == [] {
      assert members == {};
    } else {
      var n := |order| - 1;
      var last := order[n];
      assert order == order[..n] + [last];
      forall x ensures x in order[..n] <==> x in members - {last} {
        if x in members - {last} {
          assert x in order;
        }
        if x in order[..n] {
          assert x in order;
        }
      }
      EnumerationLength(order[..n], members - {last});
    }
  }
}
