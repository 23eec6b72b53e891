/** The command `migrate plan`: which files of a git checkout are listed, what a checkout is called, and the plans
    of all checkouts. */
module MigrationCommand {
  import opened Migration
  import opened MigrationRoots
  import opened Paths
  import opened Text
  import opened Words
  import opened Wrappers

  // ----- the files of a git checkout

  /** The path that an entry of `git ls-files -z` stands for. */
  function ListedPath(entry: string): string {
    ForwardSlashes(Strip(entry))
  }

  /** What is listed after the entries: each path that is a regular file, where it is mentioned first. */
  function Listed(entries: seq<string>, isFile: string -> bool): seq<string> {
    if entries == [] then []
    else
      var before, rel := Listed(entries[..|entries| - 1], isFile), ListedPath(entries[|entries| - 1]);
      if rel != "" && rel !in before && isFile(rel) then before + [rel] else before
  }

  predicate NoRepeats(files: seq<string>) {
    forall i, j | 0 <= i < j < |files| :: files[i] != files[j]
  }

  lemma {:induction false} ListedOnce(entries: seq<string>, isFile: string -> bool)
    ensures NoRepeats(Listed(entries, isFile))
  {
    hide ListedPath;
    if entries != [] {
      ListedOnce(entries[..|entries| - 1], isFile);
    }
  }

  lemma {:induction false} ListedIff(entries: seq<string>, isFile: string -> bool, rel: string)
    ensures rel in Listed(entries, isFile) <==>
            rel != "" && isFile(rel) && exists i :: 0 <= i < |entries| && ListedPath(entries[i]) == rel
  {
    hide ListedPath;
    if entries != [] {
      var n := |entries| - 1;
      ListedIff(entries[..n], isFile, rel);
      assert forall i | 0 <= i < n :: entries[..n][i] == entries[i];
    }
  }

  lemma ListedStep(entries: seq<string>, entry: string, isFile: string -> bool)
    ensures var before, rel := Listed(entries, isFile), ListedPath(entry);
            Listed(entries + [entry], isFile) == if rel != "" && rel !in before && isFile(rel) then before + [rel] else before
  {
    assert (entries + [entry])[..|entries|] == entries;
  }

  /** The entries of one output of git, after those of `before`. */
  method IterOutput(entries: seq<string>, isFile: string -> bool, listed: seq<string>, ghost before: seq<string>)
    returns (files: seq<string>)
    requires listed == Listed(before, isFile)
    ensures files == Listed(before + entries, isFile)
  {
    hide Listed, Strip;
    files := listed;
    assert before + entries[..0] == before;
    for i := 0 to |entries|
      invariant files == Listed(before + entries[..i], isFile)
    {
      var rel := ForwardSlashes(Strip(entries[i]));
      ListedStep(before + entries[..i], entries[i], isFile);
      assert before + entries[..i + 1] == before + entries[..i] + [entries[i]];
      if rel != "" && rel !in files && isFile(rel) {
        files := files + [rel];
      }
    }
    assert entries[..|entries|] == entries;
  }

  /** The path of an entry has no white space around it and slashes for back slashes. */
  lemma PathOfEntry(entry: string) returns (i: nat, j: nat)
    ensures i <= j <= |entry| && ListedPath(entry) == ForwardSlashes(entry[i..j])
    ensures i < j ==> !IsSpace(entry[i]) && !IsSpace(entry[j - 1])
    ensures forall k | 0 <= k < |entry| && !(i <= k < j) :: IsSpace(entry[k])
  {
    i, j := StripLeaves(entry);
  }

  /** `a` is mentioned before `b` is. */
  predicate MentionedBefore(entries: seq<string>, a: string, b: string) {
    exists i :: 0 <= i < |entries| && ListedPath(entries[i]) == a && forall k | 0 <= k <= i :: ListedPath(entries[k]) != b
  }

  /** The listing follows the first mention of each path. */
  lemma {:induction false} ListedInOrder(entries: seq<string>, isFile: string -> bool, i: nat, j: nat)
    requires i < j < |Listed(entries, isFile)|
    ensures MentionedBefore(entries, Listed(entries, isFile)[i], Listed(entries, isFile)[j])
  {
    hide ListedPath;
    var n := |entries| - 1;
    var front, files := entries[..n], Listed(entries, isFile);
    var before := Listed(front, isFile);
    if j < |before| {
      ListedInOrder(front, isFile, i, j);
      var k :| 0 <= k < n && ListedPath(front[k]) == files[i] && forall m | 0 <= m <= k :: ListedPath(front[m]) != files[j];
      assert ListedPath(entries[k]) == files[i] && forall m | 0 <= m <= k :: entries[m] == front[m];
    } else {
      ListedIff(front, isFile, files[i]);
      ListedIff(front, isFile, files[j]);
      var k :| 0 <= k < n && ListedPath(front[k]) == files[i];
      assert ListedPath(entries[k]) == files[i] && forall m | 0 <= m <= k :: entries[m] == front[m];
    }
  }

  /** `SystemSourceInspector.iter_files` for a git checkout: tracked entries, then the others that are not ignored. */
  method IterFiles(cached: seq<string>, others: seq<string>, isFile: string -> bool) returns (files: seq<string>)
    ensures files == Listed(cached + others, isFile)
  {
    files := IterOutput(cached, isFile, [], []);
    assert [] + cached == cached;
    files := IterOutput(others, isFile, files, cached);
  }

  lemma ListedHasNoBackSlash(entries: seq<string>, isFile: string -> bool, rel: string)
    requires rel in Listed(entries, isFile)
    ensures '\\' !in rel && ForwardSlashes(rel) == rel
  {
    hide Listed, Strip;
    ListedIff(entries, isFile, rel);
    assert forall i | 0 <= i < |rel| :: rel[i] != '\\';
  }

  // ----- what a checkout is called

  /** `posixpath.basename` */
  function Basename(path: string): string {
    Parts(path)[|Parts(path)| - 1]
  }

  /** The name that a source root gives to its inventory. */
  function CheckoutName(root: string): string {
    var last := Basename(StripSlashes(ForwardSlashes(root)));
    if last == "" then root else last
  }

  lemma {:induction false} PartsHaveNoSlash(path: string, k: nat)
    requires k < |Parts(path)|
    ensures '/' !in Parts(path)[k]
    decreases |path|
  {
    hide Parts, Segment;
    PartsStep(path);
    if k > 0 && Segment(path) != path {
      PartsHaveNoSlash(path[|Segment(path)| + 1..], k - 1);
    }
    assert forall i | 0 <= i < |Segment(path)| :: Segment(path)[i] != '/';
  }

  /** Only a root of slashes alone is called by a name with a slash. */
  lemma NamesHaveNoSlash(root: string)
    ensures '/' !in CheckoutName(root) || CheckoutName(root) == root
  {
    var path := StripSlashes(ForwardSlashes(root));
    PartsHaveNoSlash(path, |Parts(path)| - 1);
  }

  /** A directory without back slashes is called by its own name. */
  lemma DirectoryIsItsName(parent: string, child: string)
    requires child != "" && '/' !in child && '\\' !in child
    ensures CheckoutName(parent + "/" + child) == child
  {
    hide Basename;
    LastPart(parent, child);
  }

  lemma {:induction false} OnlySlashesGo(path: string, slashes: string)
    requires forall i | 0 <= i < |slashes| :: slashes[i] == '/'
    ensures StripSlashes(path + slashes) == StripSlashes(path)
    decreases |slashes|
  {
    if slashes == "" {
      assert path + slashes == path;
    } else {
      var n := |slashes| - 1;
      assert (path + slashes)[..|path| + n] == path + slashes[..n];
      OnlySlashesGo(path, slashes[..n]);
    }
  }

  lemma SlashesStay(path: string, slashes: string)
    requires forall i | 0 <= i < |slashes| :: slashes[i] == '/'
    ensures ForwardSlashes(path + slashes) == ForwardSlashes(path) + slashes && ForwardSlashes(slashes) == slashes
  {
  }

  /** Slashes behind the directory do not count. */
  lemma NameBeforeSlashes(parent: string, child: string, slashes: string)
    requires child != "" && '/' !in child && '\\' !in child && forall i | 0 <= i < |slashes| :: slashes[i] == '/'
    ensures CheckoutName(parent + "/" + child + slashes) == child
  {
    hide Basename, StripSlashes, ForwardSlashes;
    var root := parent + "/" + child;
    SlashesStay(root, slashes);
    OnlySlashesGo(ForwardSlashes(root), slashes);
    LastPart(parent, child);
  }

  /** A root of slashes alone is called by itself. */
  lemma NameOfSlashes(slashes: string)
    requires forall i | 0 <= i < |slashes| :: slashes[i] == '/'
    ensures CheckoutName(slashes) == slashes
  {
    hide StripSlashes, ForwardSlashes, Parts;
    SlashesStay("", slashes);
    OnlySlashesGo("", slashes);
    assert "" + slashes == slashes;
    NothingStripped();
    OnePart("");
  }

  lemma NothingStripped()
    ensures StripSlashes("") == "" && ForwardSlashes("") == ""
  {
  }

  lemma LastPart(parent: string, child: string)
    requires child != "" && '/' !in child && '\\' !in child
    ensures Basename(StripSlashes(ForwardSlashes(parent + "/" + child))) == child
  {
    hide Parts;
    var root := parent + "/" + child;
    var turned := ForwardSlashes(root);
    var above := turned[..|parent|];
    assert turned == above + "/" + child;
    assert turned[|turned| - 1] == child[|child| - 1] && child[|child| - 1] in child;
    assert StripSlashes(turned) == turned;
    PartsOfJoin(above, child);
    OnePart(child);
  }

  // ----- the plan of one checkout

  /** A checkout, with what git prints about it; `source` holds the other things that the inspector reads. */
  datatype Checkout = Checkout(root: string, cached: seq<string>, others: seq<string>, isFile: string -> bool, source: Source)

  function FilesOf(c: Checkout): seq<string> {
    Sorted(Listed(c.cached + c.others, c.isFile))
  }

  function SourceOf(c: Checkout): Source {
    c.source.(files := Listed(c.cached + c.others, c.isFile), hasGit := true)
  }

  /** The class of a file decides which of the first three roots it goes to. */
  function RootFor(c: Checkout, isPrivate: string -> bool, file: string): (k: nat)
    ensures k < 3
  {
    FileHasARoot(SourceOf(c), isPrivate, file);
    RootOfClass(EntryOf(SourceOf(c), isPrivate, file).class_).value
  }

  /** One copy for every listed file, at its place below the root of its class, and the bundle of what was never
      pushed. */
  predicate IsPlanOf(plan: Plan, c: Checkout, isPrivate: string -> bool, d: Destinations) {
    var files, name := FilesOf(c), CheckoutName(c.root);
    && SeparatesFiles(plan.copies, SourceOf(c), isPrivate, name, d, files)
    && (forall i | 0 <= i < |files| :: plan.copies[i].destination == Target(d, RootFor(c, isPrivate, files[i]), name, files[i]))
    && (forall path | path in plan.manifest :: path in files)
    && (forall path | path in files :: path in plan.manifest && plan.manifest[path] == c.source.sha256Of(path))
    && plan.commitBundle == (if c.source.unpushedCommits == [] then None else Some(Bundle(name, d)))
    && plan.warnings == []
  }

  method PlanCheckout(c: Checkout, isPrivate: string -> bool, d: Destinations) returns (r: Result<Plan, PlanError>)
    requires Separate(d)
    ensures r.Ok? && IsPlanOf(r.value, c, isPrivate, d)
  {
    hide Separate, SeparatesFiles, Copies, EntryOf, Sorted, Listed, CheckoutName, WouldLeak, Manifest, Skipped;
    var files := IterFiles(c.cached, c.others, c.isFile);
    var s := c.source.(files := files, hasGit := true);
    var inventory := BuildInventory(s, isPrivate, CheckoutName(c.root));
    InventoryLandsApart(inventory, s, isPrivate, d, FilesOf(c));
    InventoryIsPlanned(inventory, c, isPrivate, d);
    InventoryManifest(inventory, c, isPrivate);
    r := BuildPlan(inventory, d);
  }

  lemma InventoryManifest(inventory: Inventory, c: Checkout, isPrivate: string -> bool)
    requires |inventory.entries| == |FilesOf(c)|
    requires forall i | 0 <= i < |FilesOf(c)| :: inventory.entries[i] == EntryOf(SourceOf(c), isPrivate, FilesOf(c)[i])
    ensures forall path :: path in Manifest(inventory.entries) <==> path in FilesOf(c)
    ensures forall path | path in FilesOf(c) :: Manifest(inventory.entries)[path] == c.source.sha256Of(path)
  {
    hide Sorted, Listed, Manifest, Classify, ForwardSlashes;
    var entries, files := inventory.entries, FilesOf(c);
    SortedHasTheSameElements(Listed(c.cached + c.others, c.isFile));
    forall i | 0 <= i < |files| ensures entries[i].relpath == files[i] && entries[i].sha256 == c.source.sha256Of(files[i]) {
      ListedHasNoBackSlash(c.cached + c.others, c.isFile, files[i]);
    }
    ManifestOfFiles(entries, files, c.source.sha256Of);
  }

  lemma ManifestOfFiles(entries: seq<SourceEntry>, files: seq<string>, sha256Of: string -> string)
    requires |entries| == |files|
    requires forall i | 0 <= i < |files| :: entries[i].relpath == files[i] && entries[i].sha256 == sha256Of(files[i])
    ensures forall path :: path in Manifest(entries) <==> path in files
    ensures forall path | path in files :: Manifest(entries)[path] == sha256Of(path)
  {
    hide Manifest;
    forall path
      ensures path in Manifest(entries) <==> path in files
      ensures path in files ==> Manifest(entries)[path] == sha256Of(path)
    {
      ManifestOfPath(entries, files, path);
    }
  }

  lemma ManifestOfPath(entries: seq<SourceEntry>, files: seq<string>, path: string)
    requires |entries| == |files| && forall i | 0 <= i < |files| :: entries[i].relpath == files[i]
    ensures path in Manifest(entries) <==> path in files
    ensures path in files ==> exists i :: 0 <= i < |entries| && files[i] == path && Manifest(entries)[path] == entries[i].sha256
  {
    hide Manifest;
    ManifestIff(entries, path);
    if path in files {
      var i :| 0 <= i < |files| && files[i] == path;
      LastOfPath(entries, path, i);
    }
  }

  lemma {:induction false} LastOfPath(entries: seq<SourceEntry>, path: string, i: nat)
    requires i < |entries| && entries[i].relpath == path
    ensures exists k :: 0 <= k < |entries| && entries[k].relpath == path
                        && forall j | k < j < |entries| :: entries[j].relpath != path
    decreases |entries| - i
  {
    if j :| i < j < |entries| && entries[j].relpath == path {
      LastOfPath(entries, path, j);
    }
  }

  lemma InventoryIsPlanned(inventory: Inventory, c: Checkout, isPrivate: string -> bool, d: Destinations)
    requires Separate(d) && inventory.name == CheckoutName(c.root) && |inventory.entries| == |FilesOf(c)|
    requires forall i | 0 <= i < |FilesOf(c)| :: inventory.entries[i] == EntryOf(SourceOf(c), isPrivate, FilesOf(c)[i])
    ensures forall i | 0 <= i < |inventory.entries| :: !WouldLeak(inventory.entries[i], inventory.name, d)
    ensures Skipped(inventory.entries) == []
    ensures var copies := Copies(inventory.entries, inventory.name, d);
            && |copies| == |FilesOf(c)|
            && forall i | 0 <= i < |copies| ::
                 copies[i].destination == Target(d, RootFor(c, isPrivate, FilesOf(c)[i]), inventory.name, FilesOf(c)[i])
  {
    hide Separate, Copies, EntryOf, Listed, Sorted, WouldLeak, RootFor, CheckoutName, Skipped, Target;
    var entries, name := inventory.entries, inventory.name;
    forall i | 0 <= i < |entries| ensures !entries[i].class_.OtherClass? && !WouldLeak(entries[i], name, d) {
      FileHasARoot(SourceOf(c), isPrivate, FilesOf(c)[i]);
      RefusalIsUnreachable(entries[i], name, d);
    }
    OneCopyEach(entries, name, d);
    forall i | 0 <= i < |entries|
      ensures Copies(entries, name, d)[i].destination == Target(d, RootFor(c, isPrivate, FilesOf(c)[i]), name, FilesOf(c)[i])
    {
      SortedHasTheSameElements(Listed(c.cached + c.others, c.isFile));
      CopyHasItsTarget(c, isPrivate, name, d, FilesOf(c)[i]);
    }
  }

  lemma CopyHasItsTarget(c: Checkout, isPrivate: string -> bool, name: string, d: Destinations, file: string)
    requires file in Listed(c.cached + c.others, c.isFile)
    ensures var e := EntryOf(SourceOf(c), isPrivate, file);
            RootOfClass(e.class_).Some? && CopyOf(e, name, d).destination == Target(d, RootFor(c, isPrivate, file), name, file)
  {
    hide Listed, Classify;
    FileHasARoot(SourceOf(c), isPrivate, file);
    ListedHasNoBackSlash(c.cached + c.others, c.isFile, file);
  }

  // ----- nothing of one checkout meets

  lemma SortedWithoutRepeats(files: seq<string>)
    requires NoRepeats(files)
    ensures NoRepeats(Sorted(files))
  {
    hide Sorted;
    var sorted := Sorted(files);
    forall i, j | 0 <= i < j < |sorted| ensures sorted[i] != sorted[j] {
      if sorted[i] == sorted[j] {
        TwiceInside(sorted, i, j);
        assert multiset(files)[sorted[i]] >= 2;
        OnlyOnce(files, sorted[i]);
      }
    }
  }

  lemma TwiceInside(s: seq<string>, i: nat, j: nat)
    requires i < j < |s| && s[i] == s[j]
    ensures multiset(s)[s[i]] >= 2
  {
    assert s == s[..j] + [s[j]] + s[j + 1..];
    assert s[i] == s[..j][i];
    assert s[i] in multiset(s[..j]);
  }

  lemma {:induction false} OnlyOnce(s: seq<string>, x: string)
    requires NoRepeats(s)
    ensures multiset(s)[x] <= 1
  {
    if s != [] {
      var n := |s| - 1;
      OnlyOnce(s[..n], x);
      assert s == s[..n] + [s[n]];
      assert s[n] !in s[..n];
    }
  }

  predicate CopiesDiffer(plan: Plan) {
    && (forall i, j | 0 <= i < j < |plan.copies| :: plan.copies[i].destination != plan.copies[j].destination)
    && forall i | 0 <= i < |plan.copies| :: plan.commitBundle != Some(plan.copies[i].destination)
  }

  /** In the plan of a git checkout no two copies meet: the listing holds no back slash and no path twice. */
  lemma PlannedCopiesDiffer(plan: Plan, c: Checkout, isPrivate: string -> bool, d: Destinations)
    requires IsPlanOf(plan, c, isPrivate, d)
    ensures CopiesDiffer(plan)
  {
    hide Listed, Sorted, CheckoutName, CopyBelongs, Bundle, RootFor;
    var files := FilesOf(c);
    ListedOnce(c.cached + c.others, c.isFile);
    SortedWithoutRepeats(Listed(c.cached + c.others, c.isFile));
    SortedHasTheSameElements(Listed(c.cached + c.others, c.isFile));
    forall i, j | 0 <= i < j < |files| ensures plan.copies[i].destination != plan.copies[j].destination {
      ListedHasNoBackSlash(c.cached + c.others, c.isFile, files[i]);
      ListedHasNoBackSlash(c.cached + c.others, c.isFile, files[j]);
    }
  }

  // ----- which file goes where

  predicate IsTouched(c: Checkout, path: string) {
    path in c.source.untracked || path in c.source.modified || path in c.source.unpushedFiles
  }

  /** Private files go below the private root whatever git says of them, files that match their origin below the
      reference root, all others below the root of local changes, and nothing below the fourth. */
  predicate GoesWhereGitSays(copy: PlannedCopy, path: string, c: Checkout, isPrivate: string -> bool, d: Destinations) {
    && copy.sourceRelpath == path && copy.sha256 == c.source.sha256Of(path) && copy.size == c.source.sizeOf(path)
    && (IsWithin(copy.destination, d.privateRoot) <==> isPrivate(path))
    && (IsWithin(copy.destination, d.reference) <==> !isPrivate(path) && !IsTouched(c, path))
    && (IsWithin(copy.destination, d.localChanges) <==> !isPrivate(path) && IsTouched(c, path))
    && !IsWithin(copy.destination, d.workInProgress)
    && var root := if isPrivate(path) then d.privateRoot else if IsTouched(c, path) then d.localChanges else d.reference;
    copy.destination == StripSlashes(root) + "/" + CheckoutName(c.root) + "/" + path
  }

  predicate AllGoWhereGitSays(plan: Plan, c: Checkout, isPrivate: string -> bool, d: Destinations) {
    && |plan.copies| == |FilesOf(c)|
    && (forall i | 0 <= i < |plan.copies| :: GoesWhereGitSays(plan.copies[i], FilesOf(c)[i], c, isPrivate, d))
    && plan.commitBundle == if c.source.unpushedCommits == [] then None
                            else Some(StripSlashes(d.workInProgress) + "/" + CheckoutName(c.root) + ".unpushed.bundle")
  }

  /** The root of a file, from the privacy policy and from what git reports. */
  lemma RootForIff(c: Checkout, isPrivate: string -> bool, file: string)
    requires '\\' !in file
    ensures RootFor(c, isPrivate, file) == if isPrivate(file) then 2 else if IsTouched(c, file) then 1 else 0
  {
    hide Listed;
    var s := SourceOf(c);
    assert ForwardSlashes(file) == file;
    EntryHasItsClass(s, isPrivate, file);
  }

  lemma OneGoesWhereGitSays(copy: PlannedCopy, file: string, c: Checkout, isPrivate: string -> bool, d: Destinations)
    requires '\\' !in file && CopyBelongs(copy, SourceOf(c), isPrivate, d, file)
    requires copy.destination == Target(d, RootFor(c, isPrivate, file), CheckoutName(c.root), file)
    ensures GoesWhereGitSays(copy, file, c, isPrivate, d)
  {
    hide Listed, IsWithin, Classify, CheckoutName, StripSlashes;
    assert ForwardSlashes(file) == file;
    RootForIff(c, isPrivate, file);
    FileHasARoot(SourceOf(c), isPrivate, file);
    assert d.reference == Root(d, 0) && d.localChanges == Root(d, 1);
    assert d.privateRoot == Root(d, 2) && d.workInProgress == Root(d, 3);
  }

  lemma FilesGoWhereGitSays(plan: Plan, c: Checkout, isPrivate: string -> bool, d: Destinations)
    requires IsPlanOf(plan, c, isPrivate, d)
    ensures AllGoWhereGitSays(plan, c, isPrivate, d)
  {
    hide Listed, Sorted, CheckoutName, CopyBelongs, RootFor, GoesWhereGitSays;
    var files := FilesOf(c);
    SortedHasTheSameElements(Listed(c.cached + c.others, c.isFile));
    forall i | 0 <= i < |files| ensures GoesWhereGitSays(plan.copies[i], files[i], c, isPrivate, d) {
      ListedHasNoBackSlash(c.cached + c.others, c.isFile, files[i]);
      OneGoesWhereGitSays(plan.copies[i], files[i], c, isPrivate, d);
    }
  }

  // ----- the plan once "." and ".." are followed

  /** Every copy lands below the directory of its class only, and the bundle below the fourth. */
  predicate ClassesLandApart(plan: Plan, c: Checkout, isPrivate: string -> bool, d: Destinations) {
    && |plan.copies| == |FilesOf(c)|
    && (forall i | 0 <= i < |plan.copies| :: LandsApart(d, RootFor(c, isPrivate, FilesOf(c)[i]), plan.copies[i].destination))
    && (plan.commitBundle.Some? ==> LandsApart(d, 3, plan.commitBundle.value))
  }

  /** Neither the name of the checkout nor a path in it leads up. */
  predicate HasPlainPaths(c: Checkout) {
    && '/' !in CheckoutName(c.root) && CheckoutName(c.root) != ".."
    && forall i | 0 <= i < |FilesOf(c)| :: IsFilePath(FilesOf(c)[i])
  }

  lemma PlainPathsLandApart(plan: Plan, c: Checkout, isPrivate: string -> bool, d: Destinations)
    requires IsPlanOf(plan, c, isPrivate, d) && SeparateOnceResolved(d) && HasPlainPaths(c)
    ensures ClassesLandApart(plan, c, isPrivate, d)
  {
    hide FilesOf, CheckoutName, RootFor, Target, LandsApart, SeparateOnceResolved, IsFilePath, Bundle, CopyBelongs;
    var files, name := FilesOf(c), CheckoutName(c.root);
    forall i | 0 <= i < |files| ensures LandsApart(d, RootFor(c, isPrivate, files[i]), plan.copies[i].destination) {
      FileLandsApart(d, RootFor(c, isPrivate, files[i]), name, files[i]);
    }
    BundleLandsApart(d, name);
  }

  /** The exact condition for one planned copy, whatever the names look like. */
  lemma CopyLandsApartIff(plan: Plan, c: Checkout, isPrivate: string -> bool, d: Destinations, i: nat)
    requires IsPlanOf(plan, c, isPrivate, d) && SeparateOnceResolved(d) && i < |plan.copies|
    ensures var k := RootFor(c, isPrivate, FilesOf(c)[i]);
            LandsApart(d, k, plan.copies[i].destination) <==> ComesBackDown(d, k, CheckoutName(c.root), FilesOf(c)[i])
  {
    hide FilesOf, CheckoutName, RootFor, Target, LandsApart, SeparateOnceResolved, ComesBackDown, Bundle, CopyBelongs;
    LandsApartIff(d, RootFor(c, isPrivate, FilesOf(c)[i]), CheckoutName(c.root), FilesOf(c)[i]);
  }

  // ----- several checkouts

  lemma SlashFreeHeads(base: string, a: string, b: string, restA: string, restB: string)
    requires '/' !in a && '/' !in b
    ensures base + "/" + a + "/" + restA == base + "/" + b + "/" + restB <==> a == b && restA == restB
  {
    hide Parts;
    if base + "/" + a + "/" + restA == base + "/" + b + "/" + restB {
      var head := base + "/";
      assert (head + (a + "/" + restA))[|head|..] == a + "/" + restA;
      assert (head + (b + "/" + restB))[|head|..] == b + "/" + restB;
      assert head + (a + "/" + restA) == base + "/" + a + "/" + restA;
      assert head + (b + "/" + restB) == base + "/" + b + "/" + restB;
      HeadsAgree(a, b, restA, restB);
    }
  }

  lemma HeadsAgree(a: string, b: string, restA: string, restB: string)
    requires '/' !in a && '/' !in b && a + "/" + restA == b + "/" + restB
    ensures a == b && restA == restB
  {
    hide Parts;
    SegmentOfJoin(a, restA);
    SegmentOfJoin(b, restB);
    OnePart(a);
    OnePart(b);
    PartsStep(a);
    PartsStep(b);
    assert (a + "/" + restA)[|a| + 1..] == restA;
    assert (b + "/" + restB)[|b| + 1..] == restB;
  }

  /** Two targets are one path exactly when root, name and file path are the same. */
  lemma TargetsMeetIff(d: Destinations, k: nat, l: nat, a: string, b: string, file: string, other: string)
    requires Separate(d) && k < 3 && l < 3 && '/' !in a && '/' !in b
    ensures Target(d, k, a, file) == Target(d, l, b, other) <==> k == l && a == b && file == other
    ensures Target(d, k, a, file) != Bundle(b, d)
  {
    hide IsWithin, StripSlashes;
    TargetIsWithin(d, k, a, file);
    TargetIsWithin(d, l, b, other);
    TargetIsWithin(d, 3, b, other);
    if k == l {
      SlashFreeHeads(StripSlashes(Root(d, k)), a, b, file, other);
    }
    OnlyWithinOne(d, k, Target(d, k, a, file));
  }

  lemma TargetIsWithin(d: Destinations, k: nat, name: string, file: string)
    requires k < 4
    ensures IsWithin(Target(d, k, name, file), Root(d, k))
  {
    hide IsWithin, StripSlashes;
    var base := StripSlashes(Root(d, k));
    BelowIsWithin(Root(d, k), name + "/" + file);
    BelowIsWithin(Root(d, k), name + ".unpushed.bundle");
    assert base + "/" + (name + "/" + file) == base + "/" + name + "/" + file;
    assert base + "/" + (name + ".unpushed.bundle") == base + "/" + name + ".unpushed.bundle";
  }

  lemma OnlyWithinOne(d: Destinations, k: nat, path: string)
    requires Separate(d) && k < 4 && IsWithin(path, Root(d, k))
    ensures forall l: nat | l < 4 && l != k :: !IsWithin(path, Root(d, l))
  {
    hide IsWithin, Root;
    forall l: nat | l < 4 && l != k ensures !IsWithin(path, Root(d, l)) {
      if IsWithin(path, Root(d, l)) {
        WithinTwoRoots(path, Root(d, k), Root(d, l));
      }
    }
  }

  predicate SamePlace(c: Checkout, other: Checkout, isPrivate: string -> bool, i: nat, j: nat)
    requires i < |FilesOf(c)| && j < |FilesOf(other)|
  {
    && CheckoutName(c.root) == CheckoutName(other.root) && FilesOf(c)[i] == FilesOf(other)[j]
    && RootFor(c, isPrivate, FilesOf(c)[i]) == RootFor(other, isPrivate, FilesOf(other)[j])
  }

  /** Copies of two checkouts meet exactly when the checkouts have one name and the files one path and class root;
      a copy never meets a bundle, and bundles meet exactly when the names do. */
  lemma CheckoutsMeetIff(plan: Plan, c: Checkout, other: Plan, e: Checkout, isPrivate: string -> bool, d: Destinations)
    requires Separate(d) && IsPlanOf(plan, c, isPrivate, d) && IsPlanOf(other, e, isPrivate, d)
    requires '/' !in CheckoutName(c.root) && '/' !in CheckoutName(e.root)
    ensures |plan.copies| == |FilesOf(c)| && |other.copies| == |FilesOf(e)|
    ensures forall i: nat, j: nat | i < |plan.copies| && j < |other.copies| ::
              plan.copies[i].destination == other.copies[j].destination <==> SamePlace(c, e, isPrivate, i, j)
    ensures forall i: nat | i < |plan.copies| :: other.commitBundle != Some(plan.copies[i].destination)
    ensures plan.commitBundle.Some? && other.commitBundle.Some? ==>
              (plan.commitBundle == other.commitBundle <==> CheckoutName(c.root) == CheckoutName(e.root))
  {
    hide FilesOf, CheckoutName, RootFor, Target, Separate, CopyBelongs, Bundle;
    var name, called := CheckoutName(c.root), CheckoutName(e.root);
    forall i: nat, j: nat | i < |plan.copies| && j < |other.copies|
      ensures plan.copies[i].destination == other.copies[j].destination <==> SamePlace(c, e, isPrivate, i, j)
    {
      var file, twin := FilesOf(c)[i], FilesOf(e)[j];
      TargetsMeetIff(d, RootFor(c, isPrivate, file), RootFor(e, isPrivate, twin), name, called, file, twin);
    }
    forall i: nat | i < |plan.copies| ensures other.commitBundle != Some(plan.copies[i].destination) {
      var file := FilesOf(c)[i];
      TargetsMeetIff(d, RootFor(c, isPrivate, file), 0, name, called, file, file);
    }
    BundlesMeetIff(d, name, called);
  }

  lemma BundlesMeetIff(d: Destinations, a: string, b: string)
    ensures Bundle(a, d) == Bundle(b, d) <==> a == b
  {
    hide StripSlashes;
    var head, end := StripSlashes(d.workInProgress) + "/", ".unpushed.bundle";
    assert Bundle(a, d) == head + a + end && Bundle(b, d) == head + b + end;
    assert (head + a + end)[|head|..][..|a|] == a;
    assert (head + b + end)[|head|..][..|b|] == b;
  }

  predicate PlansMeet(plan: Plan, other: Plan) {
    || (exists i, j ::
          0 <= i < |plan.copies| && 0 <= j < |other.copies| && plan.copies[i].destination == other.copies[j].destination)
    || (exists i :: 0 <= i < |plan.copies| && Some(plan.copies[i].destination) == other.commitBundle)
    || (exists j :: 0 <= j < |other.copies| && plan.commitBundle == Some(other.copies[j].destination))
    || (plan.commitBundle.Some? && plan.commitBundle == other.commitBundle)
  }

  predicate CalledApart(c: Checkout, e: Checkout) {
    '/' !in CheckoutName(c.root) && '/' !in CheckoutName(e.root) && CheckoutName(c.root) != CheckoutName(e.root)
  }

  lemma DifferentNamesNeverMeet(plan: Plan, c: Checkout, other: Plan, e: Checkout, isPrivate: string -> bool, d: Destinations)
    requires Separate(d) && IsPlanOf(plan, c, isPrivate, d) && IsPlanOf(other, e, isPrivate, d)
    requires CalledApart(c, e)
    ensures !PlansMeet(plan, other)
  {
    hide IsPlanOf, FilesOf, CheckoutName, RootFor, Separate;
    CheckoutsMeetIff(plan, c, other, e, isPrivate, d);
    CheckoutsMeetIff(other, e, plan, c, isPrivate, d);
  }

  /** Two directories that share a name, because one of them has a back slash in it. */
  lemma BackSlashHidesADirectory()
    ensures CheckoutName("/src/x\\a") == CheckoutName("/src/a") == "a"
  {
    hide CheckoutName, Parts;
    DirectoryIsItsName("/src", "a");
    assert "/src" + "/" + "a" == "/src/a";
    DirectoryIsItsName("/src/x", "a");
    var root := "/src/x" + "/" + "a";
    assert ForwardSlashes("/src/x\\a") == ForwardSlashes(root);
    SameName("/src/x\\a", root);
  }

  lemma SameName(a: string, b: string)
    requires ForwardSlashes(a) == ForwardSlashes(b) && CheckoutName(b) != b
    ensures CheckoutName(a) == CheckoutName(b)
  {
    hide Parts;
  }

  // ----- the command

  datatype CommandError = Invalid(errors: seq<DestinationError>) | NoCheckout

  /** `migrate plan` over all the checkouts that were found; the refusal of a private file never comes up. */
  method PlanMigration(fields: seq<Option<string>>, checkouts: seq<Checkout>, isPrivate: string -> bool)
    returns (r: Result<seq<Plan>, CommandError>)
    requires |fields| == 4
    ensures r.Err? <==> checkouts == [] || exists e :: IsError(fields, e)
    ensures r.Err? && r.error.Invalid? ==> r.error.errors != [] && forall e :: e in r.error.errors <==> IsError(fields, e)
    ensures r.Err? && !r.error.Invalid? ==> r.error == NoCheckout && forall e :: !IsError(fields, e)
    ensures r.Ok? ==> |r.value| == |checkouts| && forall i: nat | i < 4 :: fields[i].Some?
    ensures r.Ok? ==>
              var d := Destinations(fields[0].value, fields[1].value, fields[2].value, fields[3].value);
              && Separate(d)
              && forall i | 0 <= i < |checkouts| ::
                   && IsPlanOf(r.value[i], checkouts[i], isPrivate, d) && CopiesDiffer(r.value[i])
                   && AllGoWhereGitSays(r.value[i], checkouts[i], isPrivate, d)
                   && (PlainRoots(d) && HasPlainPaths(checkouts[i]) ==> ClassesLandApart(r.value[i], checkouts[i], isPrivate, d))
    ensures r.Ok? ==> forall i, j | 0 <= i < j < |checkouts| ::
              CalledApart(checkouts[i], checkouts[j]) ==> !PlansMeet(r.value[i], r.value[j])
  {
    hide IsError, Separate, IsPlanOf, CopiesDiffer, PlainRoots, HasPlainPaths, ClassesLandApart, PlansMeet, CalledApart;
    hide AllGoWhereGitSays;
    var destinations := FromDict(fields);
    if destinations.Err? {
      assert destinations.error[0] in destinations.error;
      return Err(Invalid(destinations.error));
    }
    if checkouts == [] {
      return Err(NoCheckout);
    }
    var d := destinations.value;
    RootsOfFields(fields, d);
    var plans: seq<Plan> := [];
    for i := 0 to |checkouts|
      invariant |plans| == i
      invariant forall k | 0 <= k < i ::
                  && IsPlanOf(plans[k], checkouts[k], isPrivate, d) && CopiesDiffer(plans[k])
                  && AllGoWhereGitSays(plans[k], checkouts[k], isPrivate, d)
                  && (PlainRoots(d) && HasPlainPaths(checkouts[k]) ==> ClassesLandApart(plans[k], checkouts[k], isPrivate, d))
      invariant forall j, k | 0 <= j < k < i ::
                  CalledApart(checkouts[j], checkouts[k]) ==> !PlansMeet(plans[j], plans[k])
    {
      var plan := PlanCheckout(checkouts[i], isPrivate, d);
      PlannedCopiesDiffer(plan.value, checkouts[i], isPrivate, d);
      FilesGoWhereGitSays(plan.value, checkouts[i], isPrivate, d);
      if PlainRoots(d) && HasPlainPaths(checkouts[i]) {
        SeparateMeansResolved(d);
        PlainPathsLandApart(plan.value, checkouts[i], isPrivate, d);
      }
      forall k | 0 <= k < i && CalledApart(checkouts[k], checkouts[i]) ensures !PlansMeet(plans[k], plan.value) {
        DifferentNamesNeverMeet(plans[k], checkouts[k], plan.value, checkouts[i], isPrivate, d);
      }
      plans := plans + [plan.value];
    }
    r := Ok(plans);
  }
}
