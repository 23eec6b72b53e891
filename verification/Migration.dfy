/** Migration of a checkout: every file is classified, and each class goes to a destination of its own. */
module Migration {
  import opened Wrappers
  import opened Text

  // ----- nesting of paths, textually

  /** `_is_within` */
  predicate IsWithin(child: string, parent: string) {
    StartsWith(StripSlashes(child) + "/", StripSlashes(parent) + "/")
  }

  /** Slashes at their ends aside, the path is the root itself or goes on behind it with a slash. */
  lemma WithinIff(child: string, parent: string)
    ensures IsWithin(child, parent) <==>
            var path, root := StripSlashes(child), StripSlashes(parent);
            path == root || (|path| > |root| && path[..|root|] == root && path[|root|] == '/')
  {
    hide StripSlashes;
    var path, root := StripSlashes(child), StripSlashes(parent);
    if IsWithin(child, parent) {
      assert (path + "/")[..|root| + 1] == root + "/";
      assert (path + "/")[..|root|] == path[..|root|] == root;
      assert (path + "/")[|root|] == '/';
    } else if |path| > |root| && path[..|root|] == root {
      assert path[..|root| + 1] == root + [path[|root|]];
      assert (path + "/")[..|root| + 1] == path[..|root| + 1];
    }
  }

  /** Nothing lies within two roots unless one of the roots lies within the other. */
  lemma WithinTwoRoots(path: string, a: string, b: string)
    requires IsWithin(path, a) && IsWithin(path, b)
    ensures IsWithin(a, b) || IsWithin(b, a)
  {
    PrefixesOfOne(StripSlashes(a) + "/", StripSlashes(b) + "/", StripSlashes(path) + "/");
  }

  lemma BelowIsWithin(root: string, rest: string)
    ensures IsWithin(StripSlashes(root) + "/" + rest, root)
  {
    var base := StripSlashes(root);
    var path := base + "/" + rest;
    assert path == base + ("/" + rest);
    StripSlashesKeepsHead(base, "/" + rest);
    var stripped := StripSlashes(path);
    if |stripped| > |base| {
      assert stripped[|base|] == path[|base|] == '/';
      assert stripped[..|base| + 1] == base + "/";
    } else {
      assert stripped == base;
    }
  }

  // ----- destinations

  datatype Destinations = Destinations(reference: string, localChanges: string, privateRoot: string, workInProgress: string)

  datatype DestinationError = NotANonEmptyString(field: nat) | NotAbsolute(field: nat) | Equal(one: nat, other: nat) | Nested(one: nat, other: nat)

  /** A field that is missing or not a string is None. */
  predicate Present(fields: seq<Option<string>>, i: nat) {
    i < |fields| && fields[i].Some? && fields[i].value != ""
  }

  predicate IsError(fields: seq<Option<string>>, e: DestinationError) {
    match e
    case NotANonEmptyString(i) => i < |fields| && !Present(fields, i)
    case NotAbsolute(i) => Present(fields, i) && !StartsWith(fields[i].value, "/")
    case Equal(i, j) =>
      i < j && Present(fields, i) && Present(fields, j) && SameRoot(fields[i].value, fields[j].value)
    case Nested(i, j) =>
      && i < j && Present(fields, i) && Present(fields, j) && !SameRoot(fields[i].value, fields[j].value)
      && (IsWithin(fields[i].value, fields[j].value) || IsWithin(fields[j].value, fields[i].value))
  }

  predicate SameRoot(a: string, b: string) {
    StripSlashes(a) == StripSlashes(b)
  }

  function Root(d: Destinations, i: nat): string
    requires i < 4
  {
    if i == 0 then d.reference else if i == 1 then d.localChanges else if i == 2 then d.privateRoot else d.workInProgress
  }

  /** No root is, or lies within, another one. */
  predicate Separate(d: Destinations) {
    forall i: nat, j: nat | i < 4 && j < 4 && i != j :: !IsWithin(Root(d, i), Root(d, j))
  }

  lemma StrippedTwice(s: string)
    ensures StripSlashes(StripSlashes(s)) == StripSlashes(s)
  {
  }

  predicate AboutOneField(e: DestinationError) {
    e.NotANonEmptyString? || e.NotAbsolute?
  }

  method FieldErrors(fields: seq<Option<string>>) returns (errors: seq<DestinationError>)
    ensures forall e :: e in errors <==> IsError(fields, e) && AboutOneField(e)
  {
    errors := [];
    for i := 0 to |fields|
      invariant forall e :: e in errors <==> e.NotANonEmptyString? && e.field < i && IsError(fields, e)
    {
      if !Present(fields, i) {
        errors := errors + [NotANonEmptyString(i)];
      }
    }
    for i := 0 to |fields|
      invariant forall e :: e in errors <==> IsError(fields, e) && (e.NotANonEmptyString? || (e.NotAbsolute? && e.field < i))
    {
      if Present(fields, i) && !StartsWith(fields[i].value, "/") {
        errors := errors + [NotAbsolute(i)];
      }
    }
  }

  /** How one pair of present values conflicts. */
  method PairError(a: string, b: string, i: nat, j: nat) returns (errors: seq<DestinationError>)
    ensures errors == if SameRoot(a, b) then [Equal(i, j)] else if IsWithin(a, b) || IsWithin(b, a) then [Nested(i, j)] else []
  {
    var x, y := StripSlashes(a), StripSlashes(b);
    StrippedTwice(a);
    StrippedTwice(b);
    if x == y {
      errors := [Equal(i, j)];
    } else if IsWithin(x, y) || IsWithin(y, x) {
      errors := [Nested(i, j)];
    } else {
      errors := [];
    }
  }

  predicate PairBefore(e: DestinationError, i: nat, j: nat) {
    !AboutOneField(e) && (e.one < i || (e.one == i && e.other < j))
  }

  method PairErrors(fields: seq<Option<string>>) returns (errors: seq<DestinationError>)
    ensures forall e :: e in errors <==> IsError(fields, e) && !AboutOneField(e)
  {
    errors := [];
    for i := 0 to |fields|
      invariant forall e :: e in errors <==> IsError(fields, e) && PairBefore(e, i, 0)
    {
      for j := i + 1 to |fields|
        invariant forall e :: e in errors <==> IsError(fields, e) && PairBefore(e, i, j)
      {
        if Present(fields, i) && Present(fields, j) {
          var found := PairError(fields[i].value, fields[j].value, i, j);
          errors := errors + found;
        }
      }
    }
  }

  /** `MigrationDestinations.from_dict`: all the errors are collected, and destinations are accepted exactly
      when the four roots are absolute and separate. */
  method FromDict(fields: seq<Option<string>>) returns (r: Result<Destinations, seq<DestinationError>>)
    requires |fields| == 4
    ensures r.Err? ==> r.error != [] && forall e :: e in r.error <==> IsError(fields, e)
    ensures r.Ok? ==> forall e :: !IsError(fields, e)
    ensures r.Ok? ==> (forall i: nat | i < 4 :: fields[i] == Some(Root(r.value, i)) && StartsWith(Root(r.value, i), "/"))
    ensures r.Ok? ==> Separate(r.value)
  {
    var errors := FieldErrors(fields);
    var pairs := PairErrors(fields);
    errors := errors + pairs;
    if errors != [] {
      return Err(errors);
    }
    var d := Destinations(if fields[0].Some? then fields[0].value else "", if fields[1].Some? then fields[1].value else "",
                          if fields[2].Some? then fields[2].value else "", if fields[3].Some? then fields[3].value else "");
    NoErrorsMeansSeparate(fields, d);
    r := Ok(d);
  }

  lemma NoErrorsMeansSeparate(fields: seq<Option<string>>, d: Destinations)
    requires |fields| == 4 && forall e :: !IsError(fields, e)
    requires forall i: nat | i < 4 :: fields[i].Some? ==> Root(d, i) == fields[i].value
    ensures forall i: nat | i < 4 :: fields[i] == Some(Root(d, i)) && StartsWith(Root(d, i), "/")
    ensures Separate(d)
  {
    forall i: nat | i < 4 ensures Present(fields, i) && StartsWith(fields[i].value, "/") {
      assert !IsError(fields, NotANonEmptyString(i));
      assert !IsError(fields, NotAbsolute(i));
    }
    forall i: nat, j: nat | i < j < 4 ensures !IsWithin(Root(d, i), Root(d, j)) && !IsWithin(Root(d, j), Root(d, i)) {
      assert !IsError(fields, Equal(i, j));
      assert !IsError(fields, Nested(i, j));
    }
  }

  /** The other direction: absolute, separate roots are never rejected. */
  lemma SeparateRootsHaveNoErrors(d: Destinations, e: DestinationError)
    requires Separate(d) && forall i: nat | i < 4 :: StartsWith(Root(d, i), "/")
    ensures !IsError([Some(d.reference), Some(d.localChanges), Some(d.privateRoot), Some(d.workInProgress)], e)
  {
    var fields := [Some(d.reference), Some(d.localChanges), Some(d.privateRoot), Some(d.workInProgress)];
    assert forall i: nat | i < 4 :: fields[i] == Some(Root(d, i));
    assert forall i: nat | i < 4 :: Root(d, i) != "";
    if e.Equal? && e.one < 4 && e.other < 4 {
      assert e.one != e.other ==> !IsWithin(Root(d, e.one), Root(d, e.other));
    }
    if e.Nested? && e.one < 4 && e.other < 4 {
      assert e.one != e.other ==> !IsWithin(Root(d, e.one), Root(d, e.other)) && !IsWithin(Root(d, e.other), Root(d, e.one));
    }
  }

  // ----- classification

  datatype Class = Private | Untracked | TrackedModified | TrackedClean | OtherClass(name: string)

  function Classify(relpath: string, modified: set<string>, untracked: set<string>, isPrivate: string -> bool, hasGit: bool): Class {
    if isPrivate(relpath) then Private
    else if !hasGit || relpath in untracked then Untracked
    else if relpath in modified then TrackedModified
    else TrackedClean
  }

  datatype SourceEntry = SourceEntry(relpath: string, size: nat, sha256: string, class_: Class)

  datatype Inventory = Inventory(name: string, entries: seq<SourceEntry>, unpushedCommits: seq<string>)

  /** What the inspector reads of one checkout. */
  datatype Source = Source(files: seq<string>, hasGit: bool, modified: set<string>, untracked: set<string>,
                           unpushedFiles: set<string>, unpushedCommits: seq<string>,
                           sizeOf: string -> nat, sha256Of: string -> string)

  function EntryOf(s: Source, isPrivate: string -> bool, file: string): SourceEntry {
    var norm := ForwardSlashes(file);
    SourceEntry(norm, s.sizeOf(file), s.sha256Of(file),
                if s.hasGit then Classify(norm, s.modified + s.unpushedFiles, s.untracked, isPrivate, true)
                else Classify(norm, {}, {}, isPrivate, false))
  }

  /** What git and the privacy policy say about a path, class by class. */
  predicate IsClassOf(class_: Class, path: string, s: Source, isPrivate: string -> bool) {
    && (class_ == Private <==> isPrivate(path))
    && (class_ == Untracked <==> !isPrivate(path) && (!s.hasGit || path in s.untracked))
    && (class_ == TrackedModified <==>
        !isPrivate(path) && s.hasGit && path !in s.untracked && (path in s.modified || path in s.unpushedFiles))
    && (class_ == TrackedClean <==>
        !isPrivate(path) && s.hasGit && path !in s.untracked && path !in s.modified && path !in s.unpushedFiles)
    && !class_.OtherClass?
  }

  lemma EntryHasItsClass(s: Source, isPrivate: string -> bool, file: string)
    ensures IsClassOf(EntryOf(s, isPrivate, file).class_, ForwardSlashes(file), s, isPrivate)
  {
  }

  /** The entries of `files`, in their order. */
  method ClassifiedEntries(s: Source, files: seq<string>, modified: set<string>, untracked: set<string>,
                           isPrivate: string -> bool) returns (entries: seq<SourceEntry>)
    ensures |entries| == |files|
    ensures forall k | 0 <= k < |files| ::
              entries[k] == SourceEntry(ForwardSlashes(files[k]), s.sizeOf(files[k]), s.sha256Of(files[k]),
                                        Classify(ForwardSlashes(files[k]), modified, untracked, isPrivate, s.hasGit))
  {
    entries := [];
    for i := 0 to |files|
      invariant |entries| == i
      invariant forall k | 0 <= k < i ::
                  entries[k] == SourceEntry(ForwardSlashes(files[k]), s.sizeOf(files[k]), s.sha256Of(files[k]),
                                            Classify(ForwardSlashes(files[k]), modified, untracked, isPrivate, s.hasGit))
    {
      var norm := ForwardSlashes(files[i]);
      entries := entries + [SourceEntry(norm, s.sizeOf(files[i]), s.sha256Of(files[i]),
                                        Classify(norm, modified, untracked, isPrivate, s.hasGit))];
    }
  }

  /** `build_repo_inventory`: every file once, in sorted order, with its class. */
  method BuildInventory(s: Source, isPrivate: string -> bool, name: string) returns (inventory: Inventory)
    ensures inventory.name == name && |inventory.entries| == |Sorted(s.files)| == |s.files|
    ensures forall i | 0 <= i < |s.files| :: inventory.entries[i] == EntryOf(s, isPrivate, Sorted(s.files)[i])
    ensures forall i | 0 <= i < |s.files| ::
              var e, file := inventory.entries[i], Sorted(s.files)[i];
              && e.relpath == ForwardSlashes(file) && e.size == s.sizeOf(file) && e.sha256 == s.sha256Of(file)
              && IsClassOf(e.class_, e.relpath, s, isPrivate)
    ensures inventory.unpushedCommits == if s.hasGit then s.unpushedCommits else []
  {
    var modified: set<string> := if s.hasGit then s.modified else {};
    var untracked: set<string> := if s.hasGit then s.untracked else {};
    var unpushed := if s.hasGit then s.unpushedCommits else [];
    if s.hasGit {
      modified := modified + s.unpushedFiles;
    }
    SortedHasTheSameElements(s.files);
    var entries := ClassifiedEntries(s, Sorted(s.files), modified, untracked, isPrivate);
    inventory := Inventory(name, entries, unpushed);
    forall i | 0 <= i < |s.files| ensures IsClassOf(entries[i].class_, entries[i].relpath, s, isPrivate) {
      EntryHasItsClass(s, isPrivate, Sorted(s.files)[i]);
    }
  }

  // ----- the plan

  datatype PlannedCopy = PlannedCopy(sourceRelpath: string, sha256: string, size: nat, class_: Class, destination: string)

  datatype Plan = Plan(copies: seq<PlannedCopy>, commitBundle: Option<string>, manifest: map<string, string>, warnings: seq<string>)

  datatype PlanError = PrivateWouldBeShared(relpath: string)

  /** The field of the destination of a class: 0 to 2, or none for a class without one. */
  function RootOfClass(c: Class): (r: Option<nat>)
    ensures r.Some? ==> r.value < 3
  {
    match c
    case TrackedClean => Some(0)
    case TrackedModified => Some(1)
    case Untracked => Some(1)
    case Private => Some(2)
    case OtherClass(_) => None
  }

  function DestinationOf(e: SourceEntry, name: string, d: Destinations): string
    requires RootOfClass(e.class_).Some?
  {
    StripSlashes(Root(d, RootOfClass(e.class_).value)) + "/" + name + "/" + e.relpath
  }

  function CopyOf(e: SourceEntry, name: string, d: Destinations): PlannedCopy
    requires RootOfClass(e.class_).Some?
  {
    PlannedCopy(e.relpath, e.sha256, e.size, e.class_, DestinationOf(e, name, d))
  }

  predicate WouldLeak(e: SourceEntry, name: string, d: Destinations) {
    e.class_ == Private && (IsWithin(DestinationOf(e, name, d), d.reference) || IsWithin(DestinationOf(e, name, d), d.workInProgress))
  }

  /** Only a private file is refused, when its place below the private root lies within one of the two roots that
      are shared. */
  lemma LeaksIff(e: SourceEntry, name: string, d: Destinations)
    ensures WouldLeak(e, name, d) <==>
            && e.class_ == Private
            && var place := StripSlashes(d.privateRoot) + "/" + name + "/" + e.relpath;
            IsWithin(place, d.reference) || IsWithin(place, d.workInProgress)
  {
    hide IsWithin, StripSlashes;
  }

  function Copies(entries: seq<SourceEntry>, name: string, d: Destinations): seq<PlannedCopy> {
    if entries == [] then []
    else
      var e := entries[|entries| - 1];
      Copies(entries[..|entries| - 1], name, d) + if RootOfClass(e.class_).Some? then [CopyOf(e, name, d)] else []
  }

  function Skipped(entries: seq<SourceEntry>): seq<string> {
    if entries == [] then []
    else
      var e := entries[|entries| - 1];
      Skipped(entries[..|entries| - 1]) + if RootOfClass(e.class_).None? then [e.relpath] else []
  }

  function Manifest(entries: seq<SourceEntry>): map<string, string> {
    if entries == [] then map[]
    else
      var e := entries[|entries| - 1];
      Manifest(entries[..|entries| - 1])[e.relpath := e.sha256]
  }

  /** The manifest names every path, with the hash of the last entry that has it. */
  lemma {:induction false} ManifestIff(entries: seq<SourceEntry>, path: string)
    ensures path in Manifest(entries) <==> exists i :: 0 <= i < |entries| && entries[i].relpath == path
    ensures forall i | 0 <= i < |entries| && entries[i].relpath == path
                     && (forall j | i < j < |entries| :: entries[j].relpath != path) ::
              path in Manifest(entries) && Manifest(entries)[path] == entries[i].sha256
  {
    if entries != [] {
      var n := |entries| - 1;
      ManifestIff(entries[..n], path);
      assert forall i | 0 <= i < n :: entries[..n][i] == entries[i];
    }
  }

  function Bundle(name: string, d: Destinations): string {
    StripSlashes(d.workInProgress) + "/" + name + ".unpushed.bundle"
  }

  /** `build_migration_plan` */
  method BuildPlan(inventory: Inventory, d: Destinations) returns (r: Result<Plan, PlanError>)
    ensures r.Err? <==> exists i :: 0 <= i < |inventory.entries| && WouldLeak(inventory.entries[i], inventory.name, d)
    ensures r.Err? ==> exists i ::
                         && 0 <= i < |inventory.entries| && WouldLeak(inventory.entries[i], inventory.name, d)
                         && r.error == PrivateWouldBeShared(inventory.entries[i].relpath)
                         && forall k | 0 <= k < i :: !WouldLeak(inventory.entries[k], inventory.name, d)
    ensures r.Ok? ==>
              && r.value.copies == Copies(inventory.entries, inventory.name, d)
              && r.value.manifest == Manifest(inventory.entries)
              && r.value.warnings == Skipped(inventory.entries)
              && r.value.commitBundle == if inventory.unpushedCommits == [] then None else Some(Bundle(inventory.name, d))
  {
    hide Copies, Manifest, Skipped, IsWithin, StripSlashes;
    var copies: seq<PlannedCopy> := [];
    var manifest: map<string, string> := map[];
    var warnings: seq<string> := [];
    var entries := inventory.entries;
    NothingPlanned(entries, inventory.name, d);
    for i := 0 to |entries|
      invariant copies == Copies(entries[..i], inventory.name, d)
      invariant manifest == Manifest(entries[..i])
      invariant warnings == Skipped(entries[..i])
      invariant forall k | 0 <= k < i :: !WouldLeak(entries[k], inventory.name, d)
    {
      var e := entries[i];
      PlannedNext(entries, inventory.name, d, i);
      manifest := manifest[e.relpath := e.sha256];
      var field := RootOfClass(e.class_);
      if field.None? {
        warnings := warnings + [e.relpath];
      } else {
        var destination := StripSlashes(Root(d, field.value)) + "/" + inventory.name + "/" + e.relpath;
        if e.class_ == Private && (IsWithin(destination, d.reference) || IsWithin(destination, d.workInProgress)) {
          return Err(PrivateWouldBeShared(e.relpath));
        }
        copies := copies + [PlannedCopy(e.relpath, e.sha256, e.size, e.class_, destination)];
      }
    }
    assert entries[..|entries|] == entries;
    var bundle: Option<string> := None;
    if inventory.unpushedCommits != [] {
      bundle := Some(StripSlashes(d.workInProgress) + "/" + inventory.name + ".unpushed.bundle");
    }
    r := Ok(Plan(copies, bundle, manifest, warnings));
  }

  lemma NothingPlanned(entries: seq<SourceEntry>, name: string, d: Destinations)
    ensures Copies(entries[..0], name, d) == [] && Manifest(entries[..0]) == map[] && Skipped(entries[..0]) == []
  {
  }

  lemma PlannedNext(entries: seq<SourceEntry>, name: string, d: Destinations, i: nat)
    requires i < |entries|
    ensures Manifest(entries[..i + 1]) == Manifest(entries[..i])[entries[i].relpath := entries[i].sha256]
    ensures if RootOfClass(entries[i].class_).Some? then
              && Copies(entries[..i + 1], name, d) == Copies(entries[..i], name, d) + [CopyOf(entries[i], name, d)]
              && Skipped(entries[..i + 1]) == Skipped(entries[..i])
            else
              && Copies(entries[..i + 1], name, d) == Copies(entries[..i], name, d)
              && Skipped(entries[..i + 1]) == Skipped(entries[..i]) + [entries[i].relpath]
  {
    hide RootOfClass, CopyOf;
    assert entries[..i + 1][..i] == entries[..i];
  }

  // ----- separation

  lemma DestinationIsUnderItsRoot(e: SourceEntry, name: string, d: Destinations, i: nat)
    requires Separate(d) && RootOfClass(e.class_).Some? && i < 4
    ensures IsWithin(DestinationOf(e, name, d), Root(d, i)) <==> i == RootOfClass(e.class_).value
  {
    var own := RootOfClass(e.class_).value;
    var rest := name + "/" + e.relpath;
    assert DestinationOf(e, name, d) == StripSlashes(Root(d, own)) + "/" + rest;
    BelowIsWithin(Root(d, own), rest);
    if IsWithin(DestinationOf(e, name, d), Root(d, i)) {
      WithinTwoRoots(DestinationOf(e, name, d), Root(d, own), Root(d, i));
    }
  }

  /** With accepted destinations no plan is ever refused for a private file. */
  lemma RefusalIsUnreachable(e: SourceEntry, name: string, d: Destinations)
    requires Separate(d)
    ensures !WouldLeak(e, name, d)
  {
    if e.class_ == Private {
      DestinationIsUnderItsRoot(e, name, d, 0);
      DestinationIsUnderItsRoot(e, name, d, 3);
    }
  }

  lemma {:induction false} OneCopyEach(entries: seq<SourceEntry>, name: string, d: Destinations)
    requires forall i | 0 <= i < |entries| :: !entries[i].class_.OtherClass?
    ensures |Copies(entries, name, d)| == |entries|
    ensures forall i | 0 <= i < |entries| :: Copies(entries, name, d)[i] == CopyOf(entries[i], name, d)
    ensures Skipped(entries) == []
  {
    hide DestinationOf, CopyOf, RootOfClass;
    if entries != [] {
      var n := |entries| - 1;
      OneCopyEach(entries[..n], name, d);
      HasARoot(entries[n].class_);
    }
  }

  lemma HasARoot(c: Class)
    requires !c.OtherClass?
    ensures RootOfClass(c).Some? && RootOfClass(c) != Some(3)
  {
  }

  /** Migration separation. For accepted destinations and an inventory of classified files, every file has
      exactly one copy, in order; it lies under the root of its class and under no other root, the bundle of
      unpushed commits lies under the fourth, and entries with different paths never meet at one destination. */
  lemma EveryClassLandsApart(inventory: Inventory, d: Destinations)
    requires Separate(d) && forall i | 0 <= i < |inventory.entries| :: !inventory.entries[i].class_.OtherClass?
    ensures var copies := Copies(inventory.entries, inventory.name, d);
            && |copies| == |inventory.entries|
            && (forall i | 0 <= i < |copies| ::
                  copies[i].sourceRelpath == inventory.entries[i].relpath && copies[i].sha256 == inventory.entries[i].sha256)
            && (forall i, k: nat | 0 <= i < |copies| && k < 4 ::
                  IsWithin(copies[i].destination, Root(d, k)) <==> Some(k) == RootOfClass(inventory.entries[i].class_))
            && (forall i | 0 <= i < |copies| :: copies[i].destination != Bundle(inventory.name, d))
            && (forall i, j | 0 <= i < j < |copies| && inventory.entries[i].relpath != inventory.entries[j].relpath ::
                  copies[i].destination != copies[j].destination)
  {
    hide IsWithin, Copies, RootOfClass;
    var entries, name := inventory.entries, inventory.name;
    OneCopyEach(entries, name, d);
    var copies := Copies(entries, name, d);
    forall i | 0 <= i < |entries| ensures RootOfClass(entries[i].class_).Some? && RootOfClass(entries[i].class_) != Some(3) {
      HasARoot(entries[i].class_);
    }
    forall i, k: nat | 0 <= i < |copies| && k < 4
      ensures IsWithin(copies[i].destination, Root(d, k)) <==> Some(k) == RootOfClass(entries[i].class_)
    {
      DestinationIsUnderItsRoot(entries[i], name, d, k);
    }
    BelowIsWithin(d.workInProgress, name + ".unpushed.bundle");
    assert Bundle(name, d) == StripSlashes(d.workInProgress) + "/" + (name + ".unpushed.bundle");
    forall i | 0 <= i < |copies| ensures copies[i].destination != Bundle(name, d) {
      assert IsWithin(copies[i].destination, Root(d, 3)) <==> Some(3) == RootOfClass(entries[i].class_);
    }
    forall i, j | 0 <= i < j < |copies| && entries[i].relpath != entries[j].relpath
      ensures copies[i].destination != copies[j].destination
    {
      DistinctFilesLandApart(entries[i], entries[j], name, d);
    }
  }

  lemma DistinctFilesLandApart(a: SourceEntry, b: SourceEntry, name: string, d: Destinations)
    requires Separate(d) && RootOfClass(a.class_).Some? && RootOfClass(b.class_).Some? && a.relpath != b.relpath
    ensures DestinationOf(a, name, d) != DestinationOf(b, name, d)
  {
    var i, j := RootOfClass(a.class_).value, RootOfClass(b.class_).value;
    if i == j {
      var head := StripSlashes(Root(d, i)) + "/" + name + "/";
      assert DestinationOf(a, name, d)[|head|..] == a.relpath;
      assert DestinationOf(b, name, d)[|head|..] == b.relpath;
    } else {
      DestinationIsUnderItsRoot(a, name, d, i);
      DestinationIsUnderItsRoot(b, name, d, i);
    }
  }

  // ----- files of a checkout

  lemma FileHasARoot(s: Source, isPrivate: string -> bool, file: string)
    ensures RootOfClass(EntryOf(s, isPrivate, file).class_).Some?
    ensures !EntryOf(s, isPrivate, file).class_.OtherClass?
  {
  }

  /** The copies of two files of a checkout meet exactly when their names differ in back slashes against slashes
      only: the inventory turns the one into the other, and class and destination follow the turned name. */
  lemma CopiesMeetIff(s: Source, isPrivate: string -> bool, name: string, d: Destinations, a: string, b: string)
    requires Separate(d)
    ensures RootOfClass(EntryOf(s, isPrivate, a).class_).Some? && RootOfClass(EntryOf(s, isPrivate, b).class_).Some?
    ensures DestinationOf(EntryOf(s, isPrivate, a), name, d) == DestinationOf(EntryOf(s, isPrivate, b), name, d)
            <==> ForwardSlashes(a) == ForwardSlashes(b)
  {
    hide Separate, DestinationOf, ForwardSlashes;
    FileHasARoot(s, isPrivate, a);
    FileHasARoot(s, isPrivate, b);
    if ForwardSlashes(a) == ForwardSlashes(b) {
      SameNameSameDestination(EntryOf(s, isPrivate, a), EntryOf(s, isPrivate, b), name, d);
    } else {
      DistinctFilesLandApart(EntryOf(s, isPrivate, a), EntryOf(s, isPrivate, b), name, d);
    }
  }

  lemma SameNameSameDestination(a: SourceEntry, b: SourceEntry, name: string, d: Destinations)
    requires RootOfClass(a.class_).Some? && a.class_ == b.class_ && a.relpath == b.relpath
    ensures DestinationOf(a, name, d) == DestinationOf(b, name, d)
  {
  }

  /** Two different files, one destination. A listing that tells back slashes from slashes can hold both; that of a
      git checkout does not. */
  lemma BackSlashMeetsSlash(s: Source, isPrivate: string -> bool, name: string, d: Destinations)
    requires Separate(d)
    ensures RootOfClass(EntryOf(s, isPrivate, "a\\b").class_).Some? && RootOfClass(EntryOf(s, isPrivate, "a/b").class_).Some?
    ensures DestinationOf(EntryOf(s, isPrivate, "a\\b"), name, d) == DestinationOf(EntryOf(s, isPrivate, "a/b"), name, d)
  {
    hide EntryOf, DestinationOf, Separate, RootOfClass;
    assert ForwardSlashes("a\\b") == ForwardSlashes("a/b");
    CopiesMeetIff(s, isPrivate, name, d, "a\\b", "a/b");
  }

  // ----- the lists per class

  /** `by_class` */
  function ByClass(entries: seq<SourceEntry>, c: Class): (own: seq<SourceEntry>)
    ensures forall e :: e in own <==> e in entries && e.class_ == c
  {
    if entries == [] then []
    else
      var last := entries[|entries| - 1];
      ByClass(entries[..|entries| - 1], c) + if last.class_ == c then [last] else []
  }

  /** The four lists divide the inventory: together they hold every entry as often as it does. */
  lemma {:induction false} ByClassDivides(entries: seq<SourceEntry>)
    requires forall i | 0 <= i < |entries| :: !entries[i].class_.OtherClass?
    ensures multiset(ByClass(entries, Private)) + multiset(ByClass(entries, Untracked))
            + multiset(ByClass(entries, TrackedModified)) + multiset(ByClass(entries, TrackedClean)) == multiset(entries)
  {
    hide ByClass;
    if entries == [] {
      NoEntries();
    } else {
      var front, last := entries[..|entries| - 1], entries[|entries| - 1];
      ByClassDivides(front);
      assert entries == front + [last];
      ByClassStep(entries, Private);
      ByClassStep(entries, Untracked);
      ByClassStep(entries, TrackedModified);
      ByClassStep(entries, TrackedClean);
    }
  }

  lemma NoEntries()
    ensures forall c :: ByClass([], c) == []
  {
  }

  lemma ByClassStep(entries: seq<SourceEntry>, c: Class)
    requires entries != []
    ensures var last := entries[|entries| - 1];
            multiset(ByClass(entries, c))
            == multiset(ByClass(entries[..|entries| - 1], c)) + if last.class_ == c then multiset{last} else multiset{}
  {
  }

  // ----- the copies of one checkout

  /** The copy of `file` carries its name and hash and lies under the root of its class and no other. */
  predicate CopyBelongs(copy: PlannedCopy, s: Source, isPrivate: string -> bool, d: Destinations, file: string) {
    && copy.sourceRelpath == ForwardSlashes(file) && copy.sha256 == s.sha256Of(file) && copy.size == s.sizeOf(file)
    && copy.class_ == EntryOf(s, isPrivate, file).class_
    && forall k: nat | k < 4 :: IsWithin(copy.destination, Root(d, k)) <==> Some(k) == RootOfClass(copy.class_)
  }

  /** One copy for every file in sorted order, each where it belongs; two of them meet exactly when their names
      agree but for back slashes, and none is the bundle. */
  predicate SeparatesFiles(copies: seq<PlannedCopy>, s: Source, isPrivate: string -> bool, name: string, d: Destinations,
                           files: seq<string>) {
    && |copies| == |files|
    && (forall i | 0 <= i < |files| :: CopyBelongs(copies[i], s, isPrivate, d, files[i]) && copies[i].destination != Bundle(name, d))
    && forall i, j | 0 <= i < j < |files| ::
         copies[i].destination == copies[j].destination <==> ForwardSlashes(files[i]) == ForwardSlashes(files[j])
  }

  lemma InventoryLandsApart(inventory: Inventory, s: Source, isPrivate: string -> bool, d: Destinations, files: seq<string>)
    requires Separate(d) && |inventory.entries| == |files|
    requires forall i | 0 <= i < |files| :: inventory.entries[i] == EntryOf(s, isPrivate, files[i])
    ensures SeparatesFiles(Copies(inventory.entries, inventory.name, d), s, isPrivate, inventory.name, d, files)
  {
    hide Copies, IsWithin, ForwardSlashes, Separate, DestinationOf, EntryOf;
    var entries, name := inventory.entries, inventory.name;
    forall i | 0 <= i < |files| ensures !entries[i].class_.OtherClass? {
      FileHasARoot(s, isPrivate, files[i]);
    }
    OneCopyEach(entries, name, d);
    EveryClassLandsApart(inventory, d);
    var copies := Copies(entries, name, d);
    forall i | 0 <= i < |files| ensures CopyBelongs(copies[i], s, isPrivate, d, files[i]) {
      CopyIsOfFile(s, isPrivate, name, d, files[i]);
      assert copies[i] == CopyOf(entries[i], name, d);
    }
    forall i, j | 0 <= i < j < |files|
      ensures copies[i].destination == copies[j].destination <==> ForwardSlashes(files[i]) == ForwardSlashes(files[j])
    {
      CopiesMeetIff(s, isPrivate, name, d, files[i], files[j]);
      assert copies[i] == CopyOf(entries[i], name, d) && copies[j] == CopyOf(entries[j], name, d);
    }
  }

  lemma CopyIsOfFile(s: Source, isPrivate: string -> bool, name: string, d: Destinations, file: string)
    requires RootOfClass(EntryOf(s, isPrivate, file).class_).Some?
    ensures var copy := CopyOf(EntryOf(s, isPrivate, file), name, d);
            && copy.sourceRelpath == ForwardSlashes(file) && copy.sha256 == s.sha256Of(file) && copy.size == s.sizeOf(file)
            && copy.class_ == EntryOf(s, isPrivate, file).class_
  {
  }

  lemma RootsOfFields(fields: seq<Option<string>>, d: Destinations)
    requires |fields| == 4 && forall i: nat | i < 4 :: fields[i] == Some(Root(d, i))
    ensures forall i: nat | i < 4 :: fields[i].Some?
    ensures d == Destinations(fields[0].value, fields[1].value, fields[2].value, fields[3].value)
  {
    assert fields[0] == Some(Root(d, 0)) && fields[1] == Some(Root(d, 1));
    assert fields[2] == Some(Root(d, 2)) && fields[3] == Some(Root(d, 3));
  }
}
