/** Backup, verification and restore of the durable state (`operations.py`), over an abstract file store. */
module Backup {
  import opened BackupPaths
  import opened Paths
  import opened Text
  import opened Wrappers

  newtype Byte = x: int | 0 <= x < 256

  type Bytes = seq<Byte>

  type Store = map<string, Bytes>

  /** The file access that the operations are given. */
  class BackupFs {
    var files: Store
    const hash: Bytes -> string

    constructor (files: Store, hash: Bytes -> string)
      ensures this.files == files && this.hash == hash
    {
      this.files := files;
      this.hash := hash;
    }

    predicate Exists(path: string)
      reads this
    {
      path in files
    }

    function ReadBytes(path: string): Bytes
      requires Exists(path)
      reads this
    {
      files[path]
    }

    function Sha256(path: string): string
      requires Exists(path)
      reads this
    {
      hash(files[path])
    }

    method WriteBytes(path: string, data: Bytes)
      modifies this
      ensures files == old(files)[path := data]
    {
      files := files[path := data];
    }
  }

  datatype Manifest = Manifest(backupId: string, instanceId: string, schemaVersion: string, files: map<string, string>)

  datatype BackupError = NotPlain(rel: string) | SourceMissing(rel: string)

  // ----- copying a list of files from one root to another, in order

  function Copied(files: Store, rels: seq<string>, from: string, to: string): Store {
    if rels == [] then files
    else
      var before, rel := Copied(files, rels[..|rels| - 1], from, to), rels[|rels| - 1];
      if Join(from, rel) in before then before[Join(to, rel) := before[Join(from, rel)]] else before
  }

  /** Every path is plain, and every file is there when its turn comes. */
  predicate Copyable(files: Store, rels: seq<string>, from: string, to: string) {
    rels != [] ==>
      var front, rel := rels[..|rels| - 1], rels[|rels| - 1];
      Copyable(files, front, from, to) && IsPlain(rel) && Join(from, rel) in Copied(files, front, from, to)
  }

  /** The files of a manifest that are present below a root with the recorded hash. */
  predicate Intact(files: Store, manifest: map<string, string>, root: string, hash: Bytes -> string, rel: string) {
    rel in manifest && Join(root, rel) in files && hash(files[Join(root, rel)]) == manifest[rel]
  }

  predicate AllIntact(files: Store, manifest: map<string, string>, root: string, hash: Bytes -> string) {
    forall rel | rel in manifest :: Intact(files, manifest, root, hash, rel)
  }

  lemma WriteKeepsOthersIntact(files: Store, manifest: map<string, string>, root: string, hash: Bytes -> string,
                               rel: string, data: Bytes)
    requires IsPlain(rel) && forall r | r in manifest :: IsPlain(r)
    requires AllIntact(files, manifest, root, hash)
    ensures AllIntact(files[Join(root, rel) := data], manifest[rel := hash(data)], root, hash)
  {
    hide IsPlain, Join, Base;
    forall r | r in manifest && r != rel ensures Join(root, r) != Join(root, rel) {
      PlainJoinsDiffer(root, r, rel);
    }
  }

  lemma PlainJoinsDiffer(root: string, rel: string, other: string)
    requires IsPlain(rel) && IsPlain(other) && rel != other
    ensures Join(root, rel) != Join(root, other)
  {
    if Join(root, rel) == Join(root, other) {
      JoinIsInjective(root, rel, other);
    }
  }

  /** The first path of `rels` that cannot be copied is number `i`. */
  predicate FailedAt(files: Store, rels: seq<string>, from: string, to: string, i: int, error: BackupError) {
    && 0 <= i < |rels| && Copyable(files, rels[..i], from, to) && !Copyable(files, rels[..i + 1], from, to)
    && error == if IsPlain(rels[i]) then SourceMissing(rels[i]) else NotPlain(rels[i])
  }

  lemma CopyOneMore(files: Store, rels: seq<string>, from: string, to: string, i: nat)
    requires i < |rels| && Copyable(files, rels[..i], from, to)
    ensures var before := Copied(files, rels[..i], from, to);
            && (Copyable(files, rels[..i + 1], from, to) <==> IsPlain(rels[i]) && Join(from, rels[i]) in before)
            && (Join(from, rels[i]) in before ==>
                  Copied(files, rels[..i + 1], from, to) == before[Join(to, rels[i]) := before[Join(from, rels[i])]])
  {
    hide IsPlain, Join;
    assert rels[..i + 1][..i] == rels[..i];
  }

  lemma {:induction false} CopiedSoFar(files: Store, rels: seq<string>, from: string, to: string)
    requires Copyable(files, rels, from, to)
    ensures forall rel | rel in rels :: IsPlain(rel) && Join(to, rel) in Copied(files, rels, from, to)
    decreases |rels|
  {
    hide IsPlain, Join;
    if rels != [] {
      var n := |rels| - 1;
      assert rels == rels[..n] + [rels[n]];
      CopiedSoFar(files, rels[..n], from, to);
    }
  }

  /** The error names a path of the list, says what is wrong with it, and every path before it has been copied. */
  predicate NamesTheFirst(error: BackupError, relpaths: seq<string>, now: Store, from: string, to: string) {
    && error.rel in relpaths
    && (if IsPlain(error.rel) then error.SourceMissing? && Join(from, error.rel) !in now else error.NotPlain?)
    && forall rel | rel in relpaths && Before(rel, error.rel) :: IsPlain(rel) && Join(to, rel) in now
  }

  lemma FailedNamesTheFirst(files: Store, relpaths: seq<string>, from: string, to: string, i: nat, error: BackupError)
    requires FailedAt(files, Sorted(relpaths), from, to, i, error)
    ensures NamesTheFirst(error, relpaths, Copied(files, Sorted(relpaths)[..i], from, to), from, to)
  {
    hide IsPlain, Join, Copied, Copyable, Before, Sorted;
    var order := Sorted(relpaths);
    SortedHasTheSameElements(relpaths);
    CopyOneMore(files, order, from, to, i);
    CopiedSoFar(files, order[..i], from, to);
    forall rel | rel in relpaths && Before(rel, error.rel) ensures rel in order[..i] {
      assert rel in order;
      var k :| 0 <= k < |order| && order[k] == rel;
      if k >= i {
        assert Ordered(order) && (k == i || AtMost(order[i], order[k]));
        BeforeIsIrreflexive(rel);
        if k > i && order[i] != rel {
          BeforeIsTransitive(order[i], rel, order[i]);
          BeforeIsIrreflexive(order[i]);
        }
      }
    }
  }

  /** `create_backup`. A success has copied every file and recorded the hash of every copy; an error names the
      first path in sorted order that is not plain or has no file, and has copied those before it. */
  method CreateBackup(sourceRoot: string, relpaths: seq<string>, backupRoot: string, fs: BackupFs,
                      backupId: string, instanceId: string, schemaVersion: string)
    returns (r: Result<Manifest, BackupError>)
    modifies fs
    ensures r.Ok? <==> Copyable(old(fs.files), Sorted(relpaths), sourceRoot, backupRoot)
    ensures r.Ok? ==>
              && fs.files == Copied(old(fs.files), Sorted(relpaths), sourceRoot, backupRoot)
              && r.value == Manifest(backupId, instanceId, schemaVersion, r.value.files)
              && (forall rel :: rel in r.value.files <==> rel in relpaths)
              && (forall rel | rel in r.value.files :: IsPlain(rel))
              && AllIntact(fs.files, r.value.files, backupRoot, fs.hash)
    ensures r.Err? ==>
              exists i :: FailedAt(old(fs.files), Sorted(relpaths), sourceRoot, backupRoot, i, r.error)
                          && fs.files == Copied(old(fs.files), Sorted(relpaths)[..i], sourceRoot, backupRoot)
    ensures r.Err? ==> NamesTheFirst(r.error, relpaths, fs.files, sourceRoot, backupRoot)
  {
    hide NamesTheFirst, Copied, Copyable, IsPlain, Join, Sorted, AllIntact;
    var order := Sorted(relpaths);
    SortedHasTheSameElements(relpaths);
    r := CopyIn(sourceRoot, order, backupRoot, fs, backupId, instanceId, schemaVersion);
    if r.Err? {
      ghost var i :| FailedAt(old(fs.files), order, sourceRoot, backupRoot, i, r.error)
                     && fs.files == Copied(old(fs.files), order[..i], sourceRoot, backupRoot);
      FailedNamesTheFirst(old(fs.files), relpaths, sourceRoot, backupRoot, i, r.error);
    }
  }

  method CopyIn(sourceRoot: string, order: seq<string>, backupRoot: string, fs: BackupFs,
                backupId: string, instanceId: string, schemaVersion: string)
    returns (r: Result<Manifest, BackupError>)
    modifies fs
    ensures r.Ok? <==> Copyable(old(fs.files), order, sourceRoot, backupRoot)
    ensures r.Ok? ==>
              && fs.files == Copied(old(fs.files), order, sourceRoot, backupRoot)
              && r.value == Manifest(backupId, instanceId, schemaVersion, r.value.files)
              && (forall rel :: rel in r.value.files <==> rel in order)
              && (forall rel | rel in r.value.files :: IsPlain(rel))
              && AllIntact(fs.files, r.value.files, backupRoot, fs.hash)
    ensures r.Err? ==>
              exists i :: FailedAt(old(fs.files), order, sourceRoot, backupRoot, i, r.error)
                          && fs.files == Copied(old(fs.files), order[..i], sourceRoot, backupRoot)
  {
    hide IsPlain, Join, AllIntact, Intact, Copied, Copyable;
    NothingCopied(fs.files, order, sourceRoot, backupRoot);
    var files: map<string, string> := map[];
    NothingIsIntact(fs.files, backupRoot, fs.hash);
    for i := 0 to |order|
      invariant fs.files == Copied(old(fs.files), order[..i], sourceRoot, backupRoot)
      invariant Copyable(old(fs.files), order[..i], sourceRoot, backupRoot)
      invariant forall rel :: rel in files <==> rel in order[..i]
      invariant forall rel | rel in files :: IsPlain(rel)
      invariant AllIntact(fs.files, files, backupRoot, fs.hash)
    {
      var rel := order[i];
      assert order[..i + 1] == order[..i] + [rel];
      CopyOneMore(old(fs.files), order, sourceRoot, backupRoot, i);
      if !IsPlain(rel) || !fs.Exists(Join(sourceRoot, rel)) {
        NotCopyable(old(fs.files), order, sourceRoot, backupRoot, i + 1);
        return Err(if !IsPlain(rel) then NotPlain(rel) else SourceMissing(rel));
      }
      var data := fs.ReadBytes(Join(sourceRoot, rel));
      WriteKeepsOthersIntact(fs.files, files, backupRoot, fs.hash, rel, data);
      fs.WriteBytes(Join(backupRoot, rel), data);
      files := files[rel := fs.Sha256(Join(backupRoot, rel))];
    }
    assert order[..|order|] == order;
    r := Ok(Manifest(backupId, instanceId, schemaVersion, files));
  }

  lemma NothingCopied(files: Store, rels: seq<string>, from: string, to: string)
    ensures rels[..0] == [] && Copied(files, [], from, to) == files && Copyable(files, [], from, to)
  {
  }

  lemma NothingIsIntact(files: Store, root: string, hash: Bytes -> string)
    ensures AllIntact(files, map[], root, hash)
  {
  }

  lemma {:induction false} NotCopyable(files: Store, rels: seq<string>, from: string, to: string, n: nat)
    requires n <= |rels| && !Copyable(files, rels[..n], from, to)
    ensures !Copyable(files, rels, from, to)
    decreases |rels|
  {
    if n < |rels| {
      var front := rels[..|rels| - 1];
      assert front[..n] == rels[..n];
      NotCopyable(files, front, from, to, n);
    } else {
      assert rels[..n] == rels;
    }
  }

  // ----- verification

  datatype VerifyResult = VerifyResult(ok: bool, verified: seq<string>, mismatches: seq<string>, missing: seq<string>,
                                       signatureValid: Option<bool>)

  lemma InOrderWith(s: seq<string>, order: seq<string>, i: nat)
    requires StrictlyOrdered(order) && i < |order|
    requires StrictlyOrdered(s) && forall x | x in s :: x in order[..i]
    ensures StrictlyOrdered(s + [order[i]]) && forall x | x in s + [order[i]] :: x in order[..i + 1]
  {
    hide Before;
    forall k | 0 <= k < |s| ensures Before(s[k], order[i]) {
      assert s[k] in order[..i];
    }
  }

  /** `verify_backup`, given what became of the signature: None when none was asked for. The three lists divide
      the manifest, and the backup is ok exactly when everything is intact and no asked-for signature failed.
      A manifest with a path that is not plain raises. */
  method VerifyBackup(manifest: Manifest, backupRoot: string, fs: BackupFs, signatureValid: Option<bool>)
    returns (r: Result<VerifyResult, BackupError>)
    ensures r.Err? <==> exists rel :: rel in manifest.files && !IsPlain(rel)
    ensures r.Err? ==> r.error.NotPlain? && r.error.rel in manifest.files && !IsPlain(r.error.rel)
    ensures r.Ok? ==>
              && r.value.signatureValid == signatureValid
              && StrictlyOrdered(r.value.verified) && StrictlyOrdered(r.value.mismatches) && StrictlyOrdered(r.value.missing)
              && (forall rel :: rel in r.value.verified <==>
                    && rel in manifest.files && Join(backupRoot, rel) in fs.files
                    && fs.hash(fs.files[Join(backupRoot, rel)]) == manifest.files[rel])
              && (forall rel :: rel in r.value.missing <==> rel in manifest.files && Join(backupRoot, rel) !in fs.files)
              && (forall rel :: rel in r.value.mismatches <==>
                    && rel in manifest.files && Join(backupRoot, rel) in fs.files
                    && fs.hash(fs.files[Join(backupRoot, rel)]) != manifest.files[rel])
              && (r.value.ok <==> r.value.mismatches == [] && r.value.missing == [] && signatureValid != Some(false))
              && (r.value.ok <==> AllIntact(fs.files, manifest.files, backupRoot, fs.hash) && signatureValid != Some(false))
  {
    hide IsPlain, Join, StrictlyOrdered;
    var order := SortedMembers(manifest.files.Keys);
    var verified: seq<string>, mismatches: seq<string>, missing: seq<string> := [], [], [];
    Nothing();
    for i := 0 to |order|
      invariant StrictlyOrdered(verified) && StrictlyOrdered(mismatches) && StrictlyOrdered(missing)
      invariant forall k | 0 <= k < i :: IsPlain(order[k])
      invariant forall rel :: rel in verified <==> rel in order[..i] && Intact(fs.files, manifest.files, backupRoot, fs.hash, rel)
      invariant forall rel :: rel in missing <==> rel in order[..i] && Join(backupRoot, rel) !in fs.files
      invariant forall rel :: rel in mismatches <==>
                  && rel in order[..i] && Join(backupRoot, rel) in fs.files
                  && !Intact(fs.files, manifest.files, backupRoot, fs.hash, rel)
    {
      var rel := order[i];
      assert rel in order && order[..i + 1] == order[..i] + [rel];
      if !IsPlain(rel) {
        return Err(NotPlain(rel));
      }
      var path := Join(backupRoot, rel);
      if !fs.Exists(path) {
        InOrderWith(missing, order, i);
        missing := missing + [rel];
      } else if fs.Sha256(path) == manifest.files[rel] {
        InOrderWith(verified, order, i);
        verified := verified + [rel];
      } else {
        InOrderWith(mismatches, order, i);
        mismatches := mismatches + [rel];
      }
    }
    assert order[..|order|] == order;
    var ok := mismatches == [] && missing == [] && signatureValid != Some(false);
    NothingBad(verified, mismatches, missing);
    r := Ok(VerifyResult(ok, verified, mismatches, missing, signatureValid));
  }

  lemma Nothing()
    ensures StrictlyOrdered([])
  {
  }

  lemma NothingBad(verified: seq<string>, mismatches: seq<string>, missing: seq<string>)
    ensures mismatches == [] <==> forall rel :: rel !in mismatches
    ensures missing == [] <==> forall rel :: rel !in missing
  {
    assert mismatches != [] ==> mismatches[0] in mismatches;
    assert missing != [] ==> missing[0] in missing;
  }

  // ----- restore

  datatype RestoreReason = OtherInstance | OtherSchema | BadSignature | NotIntact

  datatype RestoreResult = Refused(reason: RestoreReason) | Restored(files: seq<string>)

  /** `restore_backup`. It restores exactly when the instance, the schema, the signature and every file are right,
      and a refusal or an error has written nothing. */
  method RestoreBackup(manifest: Manifest, backupRoot: string, restoreRoot: string, fs: BackupFs,
                       expectedInstance: string, expectedSchema: string, signatureValid: Option<bool>)
    returns (r: Result<RestoreResult, BackupError>)
    modifies fs
    ensures r.Ok? && r.value.Restored? <==>
              && manifest.instanceId == expectedInstance && manifest.schemaVersion == expectedSchema
              && signatureValid != Some(false)
              && (forall rel | rel in manifest.files :: IsPlain(rel))
              && AllIntact(old(fs.files), manifest.files, backupRoot, fs.hash)
    ensures !(r.Ok? && r.value.Restored?) ==> fs.files == old(fs.files)
    ensures r.Ok? && r.value.Refused? ==>
              r.value.reason == if manifest.instanceId != expectedInstance then OtherInstance
                                else if manifest.schemaVersion != expectedSchema then OtherSchema
                                else if signatureValid == Some(false) then BadSignature else NotIntact
    ensures r.Err? ==> !IsPlain(r.error.rel) && r.error.rel in manifest.files && r.error.NotPlain?
    ensures r.Ok? && r.value.Restored? ==>
              && Lists(r.value.files, manifest.files.Keys)
              && fs.files == Copied(old(fs.files), r.value.files, backupRoot, restoreRoot)
  {
    hide IsPlain, Join;
    if manifest.instanceId != expectedInstance {
      return Ok(Refused(OtherInstance));
    }
    if manifest.schemaVersion != expectedSchema {
      return Ok(Refused(OtherSchema));
    }
    var check := VerifyBackup(manifest, backupRoot, fs, signatureValid);
    if check.Err? {
      return Err(check.error);
    }
    if check.value.signatureValid == Some(false) {
      return Ok(Refused(BadSignature));
    }
    if !check.value.ok {
      return Ok(Refused(NotIntact));
    }
    var order := SortedMembers(manifest.files.Keys);
    ghost var was := fs.files;
    forall k | 0 <= k < |order| ensures Join(backupRoot, order[k]) in was {
      assert order[k] in order;
      assert Intact(was, manifest.files, backupRoot, fs.hash, order[k]);
    }
    CopyBack(order, backupRoot, restoreRoot, fs);
    r := Ok(Restored(order));
  }

  method CopyBack(order: seq<string>, backupRoot: string, restoreRoot: string, fs: BackupFs)
    requires forall k | 0 <= k < |order| :: Join(backupRoot, order[k]) in fs.files
    modifies fs
    ensures fs.files == Copied(old(fs.files), order, backupRoot, restoreRoot)
  {
    hide Join;
    for i := 0 to |order|
      invariant fs.files == Copied(old(fs.files), order[..i], backupRoot, restoreRoot)
      invariant forall path | path in old(fs.files) :: path in fs.files
    {
      assert order[..i + 1][..i] == order[..i];
      var data := fs.ReadBytes(Join(backupRoot, order[i]));
      fs.WriteBytes(Join(restoreRoot, order[i]), data);
    }
    assert order[..|order|] == order;
  }

  // ----- the round trip

  predicate AllPlain(rels: seq<string>) {
    forall i | 0 <= i < |rels| :: IsPlain(rels[i])
  }

  predicate AllPresent(files: Store, rels: seq<string>, root: string) {
    forall i | 0 <= i < |rels| :: Join(root, rels[i]) in files
  }

  /** No copy writes over the source of a later one. A file copied onto itself does no harm. */
  predicate Unclobbered(rels: seq<string>, from: string, to: string) {
    forall j, i | 0 <= j < i < |rels| && rels[j] != rels[i] :: Join(to, rels[j]) != Join(from, rels[i])
  }

  /** Every file has below `to` the bytes it had below `from` at the start. */
  predicate HasBytes(files: Store, now: Store, rels: seq<string>, from: string, to: string) {
    forall i | 0 <= i < |rels| ::
      Join(from, rels[i]) in files && Join(to, rels[i]) in now && now[Join(to, rels[i])] == files[Join(from, rels[i])]
  }

  /** Copying without clobbering needs exactly the plain paths and the files of the start; it gives the other root
      the bytes of the first and touches nothing else. */
  lemma {:induction false} CopyIsFaithful(files: Store, rels: seq<string>, from: string, to: string)
    requires Unclobbered(rels, from, to)
    ensures Copyable(files, rels, from, to) <==> AllPlain(rels) && AllPresent(files, rels, from)
    ensures Copyable(files, rels, from, to) ==> HasBytes(files, Copied(files, rels, from, to), rels, from, to)
    ensures Copyable(files, rels, from, to) ==> Untouched(files, Copied(files, rels, from, to), rels, to)
    decreases |rels|
  {
    hide IsPlain, Join, Unclobbered, Copyable, Copied, HasBytes, Untouched, AllPlain, AllPresent;
    if rels == [] {
      NoCopy(files, from, to);
    } else {
      var n := |rels| - 1;
      var front, rel := rels[..n], rels[n];
      assert rels == front + [rel] && rels[..n + 1] == rels;
      OneMorePath(files, front, rel, from, to);
      CopyIsFaithful(files, front, from, to);
      if Copyable(files, front, from, to) {
        var before := Copied(files, front, from, to);
        CopyOneMore(files, rels, from, to, n);
        SourceIsUnchanged(files, front, from, to, rel, before);
        if IsPlain(rel) && Join(from, rel) in files {
          OneMoreCopy(files, front, from, to, rel, before);
        }
      } else {
        NotCopyable(files, rels, from, to, n);
      }
    }
  }

  lemma NoCopy(files: Store, from: string, to: string)
    ensures Copyable(files, [], from, to) && AllPlain([]) && AllPresent(files, [], from) && Copied(files, [], from, to) == files
    ensures HasBytes(files, files, [], from, to) && Untouched(files, files, [], to)
  {
  }

  lemma OneMorePath(files: Store, rels: seq<string>, rel: string, from: string, to: string)
    ensures Unclobbered(rels + [rel], from, to) ==> Unclobbered(rels, from, to)
    ensures AllPlain(rels + [rel]) <==> AllPlain(rels) && IsPlain(rel)
    ensures AllPresent(files, rels + [rel], from) <==> AllPresent(files, rels, from) && Join(from, rel) in files
  {
    hide IsPlain, Join;
    var more := rels + [rel];
    assert more[|rels|] == rel && forall i | 0 <= i < |rels| :: more[i] == rels[i];
  }

  lemma SourceIsUnchanged(files: Store, rels: seq<string>, from: string, to: string, rel: string, before: Store)
    requires Unclobbered(rels + [rel], from, to)
    requires HasBytes(files, before, rels, from, to) && Untouched(files, before, rels, to)
    ensures Join(from, rel) in before <==> Join(from, rel) in files
    ensures Join(from, rel) in files ==> before[Join(from, rel)] == files[Join(from, rel)]
  {
    hide Join;
    var more := rels + [rel];
    if IsTarget(rels, to, Join(from, rel)) {
      var j :| 0 <= j < |rels| && Join(from, rel) == Join(to, rels[j]);
      assert more[j] == rels[j] && more[|rels|] == rel;
    }
  }

  predicate IsTarget(rels: seq<string>, to: string, path: string) {
    exists i :: 0 <= i < |rels| && path == Join(to, rels[i])
  }

  /** Only targets differ between two stores. */
  ghost predicate Untouched(files: Store, now: Store, rels: seq<string>, to: string) {
    forall path | !IsTarget(rels, to, path) :: (path in now <==> path in files) && (path in files ==> now[path] == files[path])
  }

  lemma OneMoreCopy(files: Store, rels: seq<string>, from: string, to: string, rel: string, before: Store)
    requires AllPlain(rels) && IsPlain(rel) && Join(from, rel) in files
    requires HasBytes(files, before, rels, from, to) && Untouched(files, before, rels, to)
    ensures var now := before[Join(to, rel) := files[Join(from, rel)]];
            HasBytes(files, now, rels + [rel], from, to) && Untouched(files, now, rels + [rel], to)
  {
    hide IsPlain, Join;
    var now, more := before[Join(to, rel) := files[Join(from, rel)]], rels + [rel];
    forall i | 0 <= i < |more|
      ensures Join(from, more[i]) in files && Join(to, more[i]) in now && now[Join(to, more[i])] == files[Join(from, more[i])]
    {
      if i < |rels| && more[i] != rel {
        PlainJoinsDiffer(to, more[i], rel);
        assert more[i] == rels[i];
      }
    }
    forall path | !IsTarget(more, to, path) ensures !IsTarget(rels, to, path) && path != Join(to, rel) {
      assert more[|rels|] == rel;
      assert forall i | 0 <= i < |rels| :: more[i] == rels[i];
    }
  }

  // ----- and copying with clobbering is not faithful

  /** One file holds other bytes than all the rest. */
  function Marked(paths: set<string>, special: string): (files: Store)
    ensures files.Keys == paths && forall p | p in paths :: files[p] == if p == special then [1] else [0]
  {
    map p | p in paths :: if p == special then [1] else [0]
  }

  predicate OnlyMarkAt(files: Store, special: string) {
    forall p | p in files && p != special :: files[p] == [0]
  }

  /** As long as the marked file has not been read, its mark is nowhere else, and nowhere at all once a copy has
      written over it. */
  lemma {:induction false} MarkIsLost(files: Store, rels: seq<string>, from: string, to: string, special: string)
    requires OnlyMarkAt(files, special)
    requires forall i | 0 <= i < |rels| :: Join(from, rels[i]) != special && Join(from, rels[i]) in files
    ensures files.Keys <= Copied(files, rels, from, to).Keys
    ensures OnlyMarkAt(Copied(files, rels, from, to), special)
    ensures IsTarget(rels, to, special) ==> special in Copied(files, rels, from, to) && Copied(files, rels, from, to)[special] == [0]
    decreases |rels|
  {
    hide Join, OnlyMarkAt;
    if rels != [] {
      var n := |rels| - 1;
      var source := Join(from, rels[n]);
      assert forall i | 0 <= i < n :: rels[..n][i] == rels[i];
      MarkIsLost(files, rels[..n], from, to, special);
      assert source != special && source in files;
      CopyWithoutTheMark(Copied(files, rels[..n], from, to), source, Join(to, rels[n]), special);
      if IsTarget(rels, to, special) && Join(to, rels[n]) != special {
        var i :| 0 <= i < |rels| && special == Join(to, rels[i]);
        assert rels[..n][i] == rels[i];
      }
    }
  }

  lemma CopyWithoutTheMark(files: Store, source: string, target: string, special: string)
    requires OnlyMarkAt(files, special) && source != special && source in files
    ensures files[source] == [0] && OnlyMarkAt(files[target := files[source]], special)
  {
  }

  lemma {:induction false} NothingBringsItBack(files: Store, rels: seq<string>, from: string, to: string)
    requires forall p | p in files :: files[p] == [0]
    ensures forall p | p in Copied(files, rels, from, to) :: Copied(files, rels, from, to)[p] == [0]
    decreases |rels|
  {
    hide Join;
    if rels != [] {
      NothingBringsItBack(files, rels[..|rels| - 1], from, to);
    }
  }

  lemma {:induction false} CopiedInTwo(files: Store, rels: seq<string>, n: nat, from: string, to: string)
    requires n <= |rels|
    ensures Copied(files, rels, from, to) == Copied(Copied(files, rels[..n], from, to), rels[n..], from, to)
    decreases |rels| - n
  {
    hide Join;
    var m := |rels| - 1;
    if n == |rels| {
      assert rels[..n] == rels && rels[n..] == [];
    } else {
      CopiedInTwo(files, rels[..m], n, from, to);
      assert rels[..m][..n] == rels[..n] && rels[..m][n..] == rels[n..][..m - n];
      assert rels[n..][m - n] == rels[m];
    }
  }

  /** The first path whose source some copy writes over before it is read. */
  lemma FirstClobbered(rels: seq<string>, from: string, to: string) returns (j: nat, i: nat)
    requires Ordered(rels) && !Unclobbered(rels, from, to)
    ensures j < i < |rels| && Join(to, rels[j]) == Join(from, rels[i])
    ensures forall k | 0 <= k < i :: rels[k] != rels[i]
  {
    hide Join, AtMost;
    j, i :| 0 <= j < i < |rels| && rels[j] != rels[i] && Join(to, rels[j]) == Join(from, rels[i]);
    while exists k :: 0 <= k < i && rels[k] == rels[i]
      invariant j < i < |rels| && rels[j] != rels[i] && Join(to, rels[j]) == Join(from, rels[i])
      decreases i
    {
      var k :| 0 <= k < i && rels[k] == rels[i];
      if k < j {
        BetweenEquals(rels[k], rels[j], rels[i]);
      }
      assert k != j;
      i := k;
    }
  }

  lemma BetweenEquals(a: string, b: string, c: string)
    requires AtMost(a, b) && AtMost(b, c) && a == c
    ensures b == a
  {
    hide Before;
    if a != b {
      BeforeIsTransitive(a, b, c);
      BeforeIsIrreflexive(a);
    }
  }

  lemma ClobberingLosesBytes(rels: seq<string>, from: string, to: string) returns (files: Store)
    requires AllPlain(rels) && Ordered(rels) && !Unclobbered(rels, from, to)
    ensures AllPresent(files, rels, from) && !HasBytes(files, Copied(files, rels, from, to), rels, from, to)
  {
    hide IsPlain, Join, Copied;
    var j, i := FirstClobbered(rels, from, to);
    var special := Join(from, rels[i]);
    files := Marked(set k | 0 <= k < |rels| :: Join(from, rels[k]), special);
    forall k | 0 <= k < i ensures Join(from, rels[..i][k]) != special && Join(from, rels[..i][k]) in files {
      PlainJoinsDiffer(from, rels[k], rels[i]);
    }
    MarkIsLost(files, rels[..i], from, to, special);
    assert rels[..i][j] == rels[j];
    assert IsTarget(rels[..i], to, special);
    CopiedInTwo(files, rels, i, from, to);
    NothingBringsItBack(Copied(files, rels[..i], from, to), rels[i..], from, to);
    assert files[special] == [1];
  }

  /** The exact condition, on two roots and a sorted list of plain paths: every store that holds the sources is
      copied faithfully if and only if no copy writes over the source of a later one. */
  lemma CopyIsFaithfulIff(rels: seq<string>, from: string, to: string)
    requires AllPlain(rels) && Ordered(rels)
    ensures Unclobbered(rels, from, to) <==>
            forall files: Store | AllPresent(files, rels, from) ::
              Copyable(files, rels, from, to) && HasBytes(files, Copied(files, rels, from, to), rels, from, to)
  {
    hide *;
    if Unclobbered(rels, from, to) {
      forall files: Store | AllPresent(files, rels, from)
        ensures Copyable(files, rels, from, to) && HasBytes(files, Copied(files, rels, from, to), rels, from, to)
      {
        CopyIsFaithful(files, rels, from, to);
      }
    } else {
      var files := ClobberingLosesBytes(rels, from, to);
    }
  }

  /** Roots of which neither contains the other never clobber. */
  lemma ApartRootsDoNotClobber(rels: seq<string>, from: string, to: string)
    requires AllPlain(rels) && Apart(from, to)
    ensures Unclobbered(rels, from, to)
  {
    hide Join, Apart;
    forall j, i | 0 <= j < i < |rels| && rels[j] != rels[i] ensures Join(to, rels[j]) != Join(from, rels[i]) {
      assert IsPlain(rels[j]) && IsPlain(rels[i]);
      if Join(to, rels[j]) == Join(from, rels[i]) {
        JoinsMeet(from, to, rels[i], rels[j]);
      }
    }
  }

  lemma {:induction false} CopyableIsPlain(files: Store, rels: seq<string>, from: string, to: string)
    requires Copyable(files, rels, from, to)
    ensures AllPlain(rels)
    decreases |rels|
  {
    hide IsPlain, Join;
    if rels != [] {
      CopyableIsPlain(files, rels[..|rels| - 1], from, to);
    }
  }

  /** So between such roots a successful copy is always faithful. */
  lemma ApartCopyIsFaithful(files: Store, rels: seq<string>, from: string, to: string)
    requires Apart(from, to) && Copyable(files, rels, from, to)
    ensures HasBytes(files, Copied(files, rels, from, to), rels, from, to)
    ensures Untouched(files, Copied(files, rels, from, to), rels, to)
  {
    hide *;
    CopyableIsPlain(files, rels, from, to);
    ApartRootsDoNotClobber(rels, from, to);
    CopyIsFaithful(files, rels, from, to);
  }

  ghost predicate Injective(hash: Bytes -> string) {
    forall x, y :: hash(x) == hash(y) ==> x == y
  }

  /** The round trip. A backup was created from `start`; whatever happened to the store since, if the backup still
      verifies and the hash has no collisions, then restoring it gives every file the bytes it had below the source
      when the backup was taken, and changes no other file, as long as neither way clobbers; roots of which
      neither contains the other never do. */
  lemma BackupRoundTrip(start: Store, rels: seq<string>, source: string, backup: string, manifest: map<string, string>,
                        hash: Bytes -> string, later: Store, order: seq<string>, target: string)
    requires Unclobbered(rels, source, backup) && Unclobbered(order, backup, target) && Injective(hash)
    requires Copyable(start, rels, source, backup)
    requires forall rel :: rel in manifest <==> rel in rels
    requires AllIntact(Copied(start, rels, source, backup), manifest, backup, hash)
    requires AllIntact(later, manifest, backup, hash)
    requires Lists(order, manifest.Keys)
    ensures forall i | 0 <= i < |order| ::
              var restored := Copied(later, order, backup, target);
              && Join(target, order[i]) in restored && Join(source, order[i]) in start
              && restored[Join(target, order[i])] == start[Join(source, order[i])]
    ensures Untouched(later, Copied(later, order, backup, target), order, target)
  {
    hide IsPlain, Join, Unclobbered, Copied, Copyable;
    CopyIsFaithful(start, rels, source, backup);
    forall i | 0 <= i < |order|
      ensures IsPlain(order[i]) && Join(backup, order[i]) in later && Join(source, order[i]) in start
      ensures later[Join(backup, order[i])] == start[Join(source, order[i])]
    {
      var rel := order[i];
      assert rel in order;
      var k :| 0 <= k < |rels| && rels[k] == rel;
      assert Intact(later, manifest, backup, hash, rel);
      assert Intact(Copied(start, rels, source, backup), manifest, backup, hash, rel);
    }
    CopyIsFaithful(later, order, backup, target);
  }

  /** With one root inside the other the promise fails: the backup verifies, yet it holds other bytes than the
      source had, because a copy replaced a file that was still to be read. */
  lemma NestedRootsLoseBytes(written: Bytes, replaced: Bytes)
    requires written != replaced
    ensures var start: Store := map["/a/x" := written, "/a/z/x" := replaced];
            var after := Copied(start, ["x", "z/x"], "/a", "/a/z");
            && Copyable(start, ["x", "z/x"], "/a", "/a/z") && Contains("/a", "/a/z")
            && Join("/a/z", "z/x") in after && after[Join("/a/z", "z/x")] == written
            && Join("/a", "z/x") in start && start[Join("/a", "z/x")] == replaced
  {
    var start: Store := map["/a/x" := written, "/a/z/x" := replaced];
    hide Copied, Copyable, IsPlain, Base;
    BaseOf("/a");
    BaseOf("/a/z");
    ShortPathsArePlain();
    assert Join("/a", "x") == "/a/x" && Join("/a/z", "x") == "/a/z/x" == Join("/a", "z/x");
    assert Join("/a/z", "z/x") == "/a/z/z/x";
    var rels := ["x", "z/x"];
    assert rels[..2] == rels;
    NothingCopied(start, rels, "/a", "/a/z");
    CopyOneMore(start, rels, "/a", "/a/z", 0);
    CopyOneMore(start, rels, "/a", "/a/z", 1);
  }

  lemma BaseOf(root: string)
    requires root != "" && root[|root| - 1] != '/' && '\\' !in root
    ensures Base(root) == root
  {
    assert StripSlashes(root) == root;
    assert forall i | 0 <= i < |root| :: ForwardSlashes(root)[i] == root[i];
  }

  lemma ShortPathsArePlain()
    ensures IsPlain("x") && IsPlain("z/x") && '\\' !in "x" && '\\' !in "z/x"
  {
    assert Segment("x") == "x";
    assert Parts("x") == ["x"];
    assert Segment("z/x") == "z";
    assert "z/x"[2..] == "x";
    assert Parts("z/x") == ["z"] + Parts("x");
  }
}
