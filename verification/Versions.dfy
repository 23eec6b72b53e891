/** The version odometer and its synchronization (`bump_manifest_version.py`, `bump_version.py`). */
module Versions {
  import opened Wrappers

  /** The components of a version, parsed. */
  type Version = seq<nat>

  /** From 0.8.0 on a version carries a fourth component. */
  predicate IsFourPart(major: nat, minor: nat) {
    major > 0 || minor >= 8
  }

  function Carried(major: nat, minor: nat, patch: nat): (nat, nat, nat) {
    var (m, p) := if patch == 10 then (minor + 1, 0) else (minor, patch);
    if m == 10 then (major + 1, 0, p) else (major, m, p)
  }

  /** The successor; nothing for a text that does not have three or four components. */
  function Next(v: Version): Option<Version> {
    if |v| == 4 then
      var (major, minor, patch) := Carried(v[0], v[1], if v[3] == 9 then v[2] + 1 else v[2]);
      Some([major, minor, patch, if v[3] == 9 then 0 else v[3] + 1])
    else if |v| == 3 then
      var (major, minor, patch) := Carried(v[0], v[1], v[2] + 1);
      Some(if IsFourPart(major, minor) then [major, minor, patch, 0] else [major, minor, patch])
    else None
  }

  /** `next_version` */
  method NextVersion(v: Version) returns (r: Option<Version>)
    ensures r == Next(v)
  {
    if |v| == 4 {
      var major, minor, patch, build := v[0], v[1], v[2], v[3];
      build := build + 1;
      if build == 10 {
        patch, build := patch + 1, 0;
      }
      if patch == 10 {
        minor, patch := minor + 1, 0;
      }
      if minor == 10 {
        major, minor := major + 1, 0;
      }
      return Some([major, minor, patch, build]);
    }
    if |v| != 3 {
      return None;
    }
    var major, minor, patch := v[0], v[1], v[2];
    patch := patch + 1;
    if patch == 10 {
      minor, patch := minor + 1, 0;
    }
    if minor == 10 {
      major, minor := major + 1, 0;
    }
    if IsFourPart(major, minor) {
      return Some([major, minor, patch, 0]);
    }
    r := Some([major, minor, patch]);
  }

  // ----- one step, for every version

  /** What the components count together. */
  function Weight(v: Version): nat {
    if |v| == 4 then 1000 * v[0] + 100 * v[1] + 10 * v[2] + v[3]
    else if |v| == 3 then 100 * v[0] + 10 * v[1] + v[2]
    else 0
  }

  /** A component grows by one or is carried over: only a 9 or a 10 becomes 0. */
  predicate GrowsOrCarries(before: nat, after: nat) {
    after == before || after == before + 1 || (after == 0 && before in {9, 10})
  }

  /** A step weighs one more, digits or not, and leaves no component behind the major number at 10. */
  lemma NextWeighsOneMore(v: Version)
    ensures Next(v).Some? <==> |v| in {3, 4}
    ensures Next(v).Some? ==>
              var next := Next(v).value;
              && |v| <= |next| <= 4 && (|next| == 4 <==> |v| == 4 || next[0] > 0 || next[1] >= 8)
              && (|v| < |next| ==> next[3] == 0)
              && Weight(next[..|v|]) == Weight(v) + 1
              && forall i | 0 < i < |v| :: next[i] != 10 && GrowsOrCarries(v[i], next[i])
  {
    if |v| == 4 {
      var next := Next(v).value;
      assert next[..4] == next;
      assert GrowsOrCarries(v[1], next[1]) && GrowsOrCarries(v[2], next[2]) && GrowsOrCarries(v[3], next[3]);
    } else if |v| == 3 {
      var next := Next(v).value;
      assert next[..3] == [next[0], next[1], next[2]];
      assert GrowsOrCarries(v[1], next[1]) && GrowsOrCarries(v[2], next[2]);
    }
  }

  // ----- the closed form

  /** The versions that the odometer shows: digits behind the major number, three components below 0.8.0 and
      four from there on. */
  predicate IsShown(v: Version) {
    || (|v| == 3 && v[1] <= 9 && v[2] <= 9 && !IsFourPart(v[0], v[1]))
    || (|v| == 4 && v[1] <= 9 && v[2] <= 9 && v[3] <= 9 && IsFourPart(v[0], v[1]))
  }

  /** The reading of the odometer after `k` steps: `k` in three digits below 80, `k + 720` in four from there on. */
  function Reading(k: nat): Version {
    if k < 80 then [k / 10 / 10, k / 10 % 10, k % 10]
    else
      var n := k + 720;
      [n / 10 / 10 / 10, n / 10 / 10 % 10, n / 10 % 10, n % 10]
  }

  /** How many steps a shown version is from 0.0.0. */
  function Steps(v: Version): int
    requires IsShown(v)
  {
    if |v| == 3 then 100 * v[0] + 10 * v[1] + v[2] else 1000 * v[0] + 100 * v[1] + 10 * v[2] + v[3] - 720
  }

  /** `k` times the successor of 0.0.0 */
  function Successor(k: nat): Version {
    if k == 0 then [0, 0, 0]
    else
      var before := Next(Successor(k - 1));
      if before.Some? then before.value else []
  }

  /** The order of versions, component by component; a version comes before its own extensions. */
  ghost predicate Precedes(a: Version, b: Version) {
    exists i :: PrecedesAt(a, b, i)
  }

  predicate PrecedesAt(a: Version, b: Version, i: nat) {
    i <= |a| && i < |b| && a[..i] == b[..i] && (i == |a| || a[i] < b[i])
  }

  lemma ReadingIsShown(k: nat)
    ensures IsShown(Reading(k)) && Steps(Reading(k)) == k
  {
  }

  lemma LastDigit(tens: nat, digit: nat)
    requires digit <= 9
    ensures (10 * tens + digit) / 10 == tens && (10 * tens + digit) % 10 == digit
  {
  }

  lemma StepsAreAReading(v: Version)
    requires IsShown(v)
    ensures Steps(v) >= 0 && Reading(Steps(v)) == v
  {
    var k := Steps(v);
    if |v| == 3 {
      LastDigit(v[0] * 10 + v[1], v[2]);
      LastDigit(v[0], v[1]);
    } else {
      LastDigit(v[0] * 100 + v[1] * 10 + v[2], v[3]);
      LastDigit(v[0] * 10 + v[1], v[2]);
      LastDigit(v[0], v[1]);
    }
  }

  lemma NextReading(k: nat)
    ensures Next(Reading(k)) == Some(Reading(k + 1))
  {
    var next := Next(Reading(k));
    ReadingIsShown(k);
    NextIsOneStep(Reading(k));
    StepsAreAReading(next.value);
  }

  lemma NextIsOneStep(v: Version)
    requires IsShown(v)
    ensures Next(v).Some? && IsShown(Next(v).value) && Steps(Next(v).value) == Steps(v) + 1
  {
  }

  lemma StepsAscend(a: Version, b: Version)
    requires IsShown(a) && IsShown(b) && Steps(a) < Steps(b)
    ensures Precedes(a, b)
  {
    if a[0] < b[0] {
      assert PrecedesAt(a, b, 0);
    } else if a[1] < b[1] {
      assert PrecedesAt(a, b, 1);
    } else if a[2] < b[2] {
      assert PrecedesAt(a, b, 2);
    } else {
      assert PrecedesAt(a, b, 3);
    }
  }

  /** Closed form of the odometer. */
  lemma {:induction false} SuccessorIsReading(k: nat)
    ensures Successor(k) == Reading(k)
  {
    if k > 0 {
      SuccessorIsReading(k - 1);
      NextReading(k - 1);
    }
  }

  /** Versions strictly increase, and none is skipped or shown twice. */
  lemma OdometerSkipsNothing(j: nat, k: nat, v: Version)
    ensures j < k ==> Precedes(Successor(j), Successor(k))
    ensures j != k ==> Successor(j) != Successor(k)
    ensures IsShown(Successor(j))
    ensures IsShown(v) ==> Steps(v) >= 0 && Successor(Steps(v)) == v
  {
    SuccessorIsReading(j);
    SuccessorIsReading(k);
    ReadingIsShown(j);
    ReadingIsShown(k);
    if j < k {
      StepsAscend(Successor(j), Successor(k));
    }
    if IsShown(v) {
      StepsAreAReading(v);
      SuccessorIsReading(Steps(v));
    }
  }

  // ----- the three-part bump of the project itself

  function Bumped(v: Version): (r: Version)
    requires |v| == 3
    ensures |r| == 3 && r != v
  {
    var (m, p) := if v[2] >= 9 then (v[1] + 1, 0) else (v[1], v[2] + 1);
    if m > 9 then [v[0] + 1, 0, p] else [v[0], m, p]
  }

  /** `bump` */
  method Bump(major: nat, minor: nat, patch: nat) returns (v: Version)
    ensures v == Bumped([major, minor, patch])
  {
    var x, y, z := major, minor, patch;
    z := z + 1;
    if z > 9 {
      z := 0;
      y := y + 1;
    }
    if y > 9 {
      y := 0;
      x := x + 1;
    }
    v := [x, y, z];
  }

  /** The odometers carry alike; digits always do. */
  predicate CarriesAlike(v: Version)
    requires |v| == 3
  {
    v[2] <= 9 && if v[2] == 9 then v[1] <= 9 else v[1] <= 10
  }

  /** `bump` shows the first three components of `next_version` exactly on these versions. */
  lemma BumpAgreesIff(v: Version)
    requires |v| == 3
    ensures Next(v).Some? && |Next(v).value| >= 3
    ensures Next(v).value[..3] == Bumped(v) <==> CarriesAlike(v)
    ensures CarriesAlike(v) ==> Next(v).value == Bumped(v) || Next(v).value == Bumped(v) + [0]
  {
    var next := Next(v).value;
    assert next[..3] == [next[0], next[1], next[2]];
  }

  // ----- the native file and the manifest

  datatype Style = Plain | Cargo | Pubspec | Npm

  /** What the native file can hold of a version: a pubspec and a package.json leave the fourth component out.
      (Cargo writes it behind a plus sign and reads it back.) */
  function Stored(v: Version, style: Style): Version {
    if |v| >= 4 && (style.Pubspec? || style.Npm?) then v[..3] else v
  }

  /** `same_version` */
  predicate Same(native: Version, declared: Version, style: Style) {
    match style
    case Npm => native == declared || native == Stored(declared, Npm)
    case Pubspec => Stored(declared, Pubspec) == Stored(native, Pubspec)
    case Plain => native == declared
    case Cargo => native == declared
  }

  /** The native file shows the longest prefix of the version that its style can hold. */
  lemma StoredIff(v: Version, style: Style)
    ensures Stored(v, style) <= v
    ensures style == Plain || style == Cargo || |v| <= 3 ==> Stored(v, style) == v
    ensures style == Pubspec || style == Npm ==> |Stored(v, style)| <= 3
    ensures |v| > 3 ==> |Stored(v, style)| >= 3
  {
  }

  /** Which pairs count as one version: equal ones; with npm also a native one that lacks the fourth component, and
      with pubspec any two that differ in a fourth component only. */
  lemma SameIff(native: Version, declared: Version, style: Style)
    ensures style == Plain || style == Cargo ==> (Same(native, declared, style) <==> native == declared)
    ensures style == Npm ==>
              (Same(native, declared, style) <==> native == declared || (|declared| > 3 && native == declared[..3]))
    ensures style == Pubspec && |native| in {3, 4} && |declared| in {3, 4} ==>
              (Same(native, declared, style) <==>
               native[0] == declared[0] && native[1] == declared[1] && native[2] == declared[2])
  {
    if style == Pubspec && |native| in {3, 4} && |declared| in {3, 4} {
      var n, d := Stored(native, Pubspec), Stored(declared, Pubspec);
      assert n == [native[0], native[1], native[2]] && d == [declared[0], declared[1], declared[2]];
    }
  }

  lemma StoredIsSame(v: Version, style: Style)
    ensures Same(Stored(v, style), v, style)
  {
  }

  datatype Outcome = AlreadySynchronized | Moved | NotSynchronized | NotTheNextVersion | NotAVersion | NotFound

  /** What one `--sync` does to a native version and a declared one. */
  function Synced(native: Version, declared: Version, style: Style): (Outcome, Version, Version) {
    var next := Next(declared);
    if Same(native, declared, style) then (AlreadySynchronized, native, declared)
    else if next.None? then (NotAVersion, native, declared)
    else if Same(native, next.value, style) then (Moved, native, next.value)
    else if next.value == native + [0] then (Moved, Stored(next.value, style), next.value)
    else (NotTheNextVersion, native, declared)
  }

  /** The versions of one project. */
  class Project {
    const style: Style
    var native: Version
    var declared: Version
    var changelog: set<Version>

    constructor (style: Style, native: Version, declared: Version, changelog: set<Version>)
      ensures this.style == style && this.native == native && this.declared == declared && this.changelog == changelog
    {
      this.style, this.native, this.declared, this.changelog := style, native, declared, changelog;
    }

    /** `main` without arguments: one step of both versions, from a synchronized pair only. */
    method BumpManifest() returns (outcome: Outcome)
      modifies this
      ensures outcome == Moved <==> Same(old(native), old(declared), style) && Next(old(declared)).Some?
      ensures outcome == Moved ==>
                && declared == Next(old(declared)).value && native == Stored(declared, style)
                && Same(native, declared, style) && changelog == old(changelog) + {declared}
      ensures outcome != Moved ==>
                && outcome == (if Same(old(native), old(declared), style) then NotAVersion else NotSynchronized)
                && native == old(native) && declared == old(declared) && changelog == old(changelog)
    {
      if !Same(native, declared, style) {
        return NotSynchronized;
      }
      var new_ := NextVersion(declared);
      if new_.None? {
        return NotAVersion;
      }
      StoredIsSame(new_.value, style);
      native := Stored(new_.value, style);
      declared := new_.value;
      changelog := changelog + {declared};
      outcome := Moved;
    }

    /** `main --sync` */
    method Sync() returns (outcome: Outcome)
      modifies this
      ensures (outcome, native, declared) == Synced(old(native), old(declared), style)
      ensures changelog == if outcome == AlreadySynchronized || outcome == Moved then old(changelog) + {declared} else old(changelog)
    {
      if Same(native, declared, style) {
        changelog := changelog + {declared};
        return AlreadySynchronized;
      }
      var expected := NextVersion(declared);
      if expected.None? {
        return NotAVersion;
      }
      if !Same(native, expected.value, style) {
        if expected.value != native + [0] {
          return NotTheNextVersion;
        }
        native := Stored(expected.value, style);
      }
      declared := expected.value;
      changelog := changelog + {declared};
      outcome := Moved;
    }

    /** `bump_version.py`: an ordinary step moves the native version alone; a step to four components is handed
        to the shared utility. */
    method BumpScript() returns (outcome: Outcome)
      modifies this
      ensures var next := Next(old(declared));
              && (next.Some? && |next.value| == 3 && |old(native)| == 3 ==>
                    && outcome == Moved && native == Bumped(old(native)) && declared == old(declared) && changelog == old(changelog))
              && (next.Some? && |next.value| == 4 && Same(old(native), old(declared), style) ==>
                    && outcome == Moved && declared == next.value && native == Stored(declared, style)
                    && changelog == old(changelog) + {declared})
      ensures outcome != Moved ==>
                && native == old(native) && declared == old(declared) && changelog == old(changelog)
                && outcome == (if Next(declared).None? then NotAVersion else if |Next(declared).value| == 4 then NotSynchronized else NotFound)
    {
      var next := NextVersion(declared);
      if next.None? {
        return NotAVersion;
      }
      if |next.value| == 4 {
        outcome := BumpManifest();
        return;
      }
      if |native| != 3 {
        return NotFound;
      }
      assert [native[0], native[1], native[2]] == native;
      native := Bump(native[0], native[1], native[2]);
      outcome := Moved;
    }
  }

  /** A synchronization either leaves the pair alone or makes it the same version, and a second one moves nothing. */
  lemma SecondSyncMovesNothing(native: Version, declared: Version, style: Style)
    ensures var (outcome, native2, declared2) := Synced(native, declared, style);
            && (outcome == Moved || outcome == AlreadySynchronized ==>
                  Same(native2, declared2, style) && Synced(native2, declared2, style) == (AlreadySynchronized, native2, declared2))
            && (outcome != Moved ==> (native2, declared2) == (native, declared) && Synced(native, declared, style).0 == outcome)
            && (outcome == Moved ==> Next(declared) == Some(declared2))
  {
    var next := Next(declared);
    if next.Some? {
      StoredIsSame(next.value, style);
    }
  }

  /** Of a plain project, a synchronization moves the manifest exactly when the native version is the next one, or
      all of it but a fourth component of 0; the native version then becomes the next one. */
  lemma SyncMovesIff(native: Version, declared: Version)
    ensures Synced(native, declared, Plain).0 == AlreadySynchronized <==> native == declared
    ensures Synced(native, declared, Plain).0 == Moved <==> IsBehind(native, declared)
    ensures Synced(native, declared, Plain).0 == Moved ==>
              && Synced(native, declared, Plain).1 == Synced(native, declared, Plain).2
              && native <= Synced(native, declared, Plain).1
    ensures Synced(native, declared, Plain).0 == NotAVersion <==> native != declared && |declared| !in {3, 4}
  {
    NextWeighsOneMore(declared);
    var next := Next(declared);
    if next.Some? {
      assert next.value[..|declared|] != declared;
    }
  }

  predicate IsBehind(native: Version, declared: Version) {
    var next := Next(declared);
    native != declared && next.Some? && (native == next.value || native + [0] == next.value)
  }

  /** A native bump of a synchronized plain version, then a synchronization: both end at `next_version` exactly
      when the two odometers carry alike, and otherwise the synchronization refuses and moves nothing. */
  lemma BumpThenSync(v: Version)
    requires |v| == 3
    ensures Synced(Bumped(v), v, Plain) ==
            if CarriesAlike(v) then (Moved, Next(v).value, Next(v).value) else (NotTheNextVersion, Bumped(v), v)
  {
    BumpAgreesIff(v);
    var next := Next(v).value;
    assert (Bumped(v) + [0])[..3] == Bumped(v);
    assert |next| == 3 ==> next[..3] == next;
  }

  /** Every shown three-part version meets that condition, so the round always closes on the next reading. */
  lemma ShownVersionsStayInStep(k: nat)
    requires k < 80
    ensures |Reading(k)| == 3
    ensures Synced(Bumped(Reading(k)), Reading(k), Plain) == (Moved, Reading(k + 1), Reading(k + 1))
  {
    NextReading(k);
    BumpThenSync(Reading(k));
  }
}
