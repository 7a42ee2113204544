/** What the replace and revert actions promise together: backups are made
    once and never overwritten, each step touches only its file and that file's
    backup, and reverting after any number of replace runs gives back the
    filesystem as it was before the first one. */
module Workflow {
  import opened Wrappers
  import opened Substitution
  import opened Config
  import opened FileStore

  /** k is one of the files or the backup key of one of them. */
  predicate Listed(k: string, files: seq<string>)
  {
    k in files || exists p :: p in files && k == BackupKey(p)
  }

  /** No file has a backup yet, and no file is the backup of another file. */
  predicate Clean(fs: FileSystem, files: seq<string>)
  {
    forall p :: p in files ==> !BackupExists(fs, p) && BackupKey(p) !in files
  }

  /** The state left by replace runs started from fs: every unlisted key is as
      in fs, every file exists exactly when it existed in fs, and exactly the
      files that existed have a backup, holding their contents in fs. */
  ghost predicate Pending(fs: FileSystem, cur: FileSystem, files: seq<string>)
  {
    && (forall k :: !Listed(k, files) ==> Same(fs, cur, k))
    && (forall p :: p in files ==> (p in cur <==> p in fs))
    && (forall p :: p in files ==> (BackupExists(cur, p) <==> p in fs))
    && (forall p :: p in files && p in fs ==> cur[BackupKey(p)] == fs[p])
  }

  lemma BackupKeyInjective(p: string, q: string)
    ensures BackupKey(p) == BackupKey(q) ==> p == q
    ensures BackupKey(p) != p
  {
    if BackupKey(p) == BackupKey(q) {
      assert p == BackupKey(p)[..|p|];
      assert q == BackupKey(q)[..|q|];
    }
  }

  lemma SameEverywhere(a: FileSystem, b: FileSystem)
    requires forall k :: Same(a, b, k)
    ensures a == b
  {
    forall k ensures k in a <==> k in b {
      assert Same(a, b, k);
    }
    assert a.Keys == b.Keys;
    forall k | k in a ensures a[k] == b[k] {
      assert Same(a, b, k);
    }
  }

  // ---------------------------------------------------------------------------
  // One file

  /** Idempotent backup: a second backup step changes nothing, so the backup
      keeps the contents from the first one. */
  lemma BackupIdempotent(fs: FileSystem, p: string)
    ensures EnsureBackup(EnsureBackup(fs, p), p) == EnsureBackup(fs, p)
    ensures p in fs ==> BackupExists(EnsureBackup(fs, p), p)
  {
  }

  /** Replace followed by revert on a file without a backup restores the
      filesystem exactly: the file's contents come back and no backup is left. */
  lemma {:induction false} ReplaceThenRestore(fs: FileSystem, p: string, pairs: seq<Pair>)
    requires !BackupExists(fs, p)
    ensures Restore(ReplaceFile(fs, p, pairs), p) == fs
  {
    var r := Restore(ReplaceFile(fs, p, pairs), p);
    BackupKeyInjective(p, p);
    forall k ensures Same(fs, r, k) {
    }
    SameEverywhere(fs, r);
  }

  // ---------------------------------------------------------------------------
  // The replace loop

  /** Existing keys outside the file list are never overwritten or removed;
      in particular an existing backup is never overwritten by a later run. */
  lemma {:induction false} ReplaceFilesKeepsUnlisted(fs: FileSystem, files: seq<string>, pairs: seq<Pair>)
    ensures forall k :: k in fs && k !in files ==> k in ReplaceFiles(fs, files, pairs) && ReplaceFiles(fs, files, pairs)[k] == fs[k]
    decreases |files|
  {
    if files != [] {
      var init, q := files[..|files| - 1], files[|files| - 1];
      ReplaceFilesKeepsUnlisted(fs, init, pairs);
      forall k | k in fs && k !in files
        ensures k in ReplaceFiles(fs, files, pairs) && ReplaceFiles(fs, files, pairs)[k] == fs[k]
      {
        assert files == init + [q];
      }
    }
  }

  /** A key that is neither a listed file nor the backup of one is left as it
      was by the replace loop. */
  lemma {:induction false} ReplaceFilesFrame(fs: FileSystem, files: seq<string>, pairs: seq<Pair>, k: string)
    requires !Listed(k, files)
    ensures Same(fs, ReplaceFiles(fs, files, pairs), k)
    decreases |files|
  {
    if files != [] {
      var init, q := files[..|files| - 1], files[|files| - 1];
      assert files == init + [q];
      assert forall p :: p in init ==> p in files;
      assert !Listed(k, init);
      ReplaceFilesFrame(fs, init, pairs, k);
      assert k != q && k != BackupKey(q);
    }
  }

  /** Running the loop over a + b is running it over a, then over b. */
  lemma {:induction false} ReplaceFilesAppend(fs: FileSystem, a: seq<string>, b: seq<string>, pairs: seq<Pair>)
    ensures ReplaceFiles(fs, a + b, pairs) == ReplaceFiles(ReplaceFiles(fs, a, pairs), b, pairs)
    decreases |b|
  {
    if b == [] {
      assert a + b == a;
    } else {
      var init := b[..|b| - 1];
      ReplaceFilesAppend(fs, a, init, pairs);
      assert (a + b)[..|a + b| - 1] == a + init;
    }
  }

  /** Each configured file is processed whatever happens to the others: a file
      listed once, that is not the backup of a listed file, ends with every tag
      substituted if it existed, and stays absent if it did not. */
  lemma ReplaceFilesSubstitutesEachFile(fs: FileSystem, files: seq<string>, pairs: seq<Pair>, i: int)
    requires 0 <= i < |files|
    requires forall j :: 0 <= j < |files| && j != i ==> files[j] != files[i]
    requires forall q :: q in files ==> BackupKey(q) != files[i]
    ensures files[i] in fs ==>
              files[i] in ReplaceFiles(fs, files, pairs) && ReplaceFiles(fs, files, pairs)[files[i]] == ApplyAll(fs[files[i]], pairs)
    ensures files[i] !in fs ==> files[i] !in ReplaceFiles(fs, files, pairs)
  {
    var p, before, after := files[i], files[..i], files[i + 1..];
    assert files == before + [p] + after;
    ReplaceFilesAppend(fs, before + [p], after, pairs);
    ReplaceFilesAppend(fs, before, [p], pairs);
    assert ReplaceFiles(ReplaceFiles(fs, before, pairs), [p], pairs)
        == ReplaceFile(ReplaceFiles(fs, before, pairs), p, pairs) by {
      assert [p][..0] == [];
    }
    assert !Listed(p, before) by {
      forall j | 0 <= j < |before| ensures before[j] != p && BackupKey(before[j]) != p {
        assert before[j] == files[j] && before[j] in files;
      }
    }
    assert !Listed(p, after) by {
      forall j | 0 <= j < |after| ensures after[j] != p && BackupKey(after[j]) != p {
        assert after[j] == files[i + 1 + j] && after[j] in files;
      }
    }
    ReplaceFilesFrame(fs, before, pairs, p);
    var mid := ReplaceFiles(fs, before + [p], pairs);
    ReplaceFilesFrame(mid, after, pairs, p);
  }

  /** From a clean filesystem, the replace loop reaches the Pending state. */
  lemma {:induction false} ReplaceFilesFromClean(fs: FileSystem, files: seq<string>, pairs: seq<Pair>)
    requires Clean(fs, files)
    ensures Pending(fs, ReplaceFiles(fs, files, pairs), files)
    decreases |files|
  {
    if files != [] {
      var init, q := files[..|files| - 1], files[|files| - 1];
      assert files == init + [q];
      ReplaceFilesFromClean(fs, init, pairs);
      var cur := ReplaceFiles(fs, init, pairs);
      var next := ReplaceFile(cur, q, pairs);
      BackupKeyInjective(q, q);
      assert forall p :: p in init ==> p in files;
      forall k | !Listed(k, files) ensures Same(fs, next, k) {
        assert !Listed(k, init);
        assert k != q && k != BackupKey(q);
      }
      forall p | p in files
        ensures (p in next <==> p in fs) && (BackupExists(next, p) <==> p in fs)
        ensures p in fs ==> next[BackupKey(p)] == fs[p]
      {
        BackupKeyInjective(p, q);
        if p != q {
          assert p in init;
          assert BackupKey(q) !in files;
          assert BackupKey(p) !in files;
        } else if q !in init {
          assert !Listed(q, init) by {
            forall p' | p' in init ensures q != BackupKey(p') {
              assert p' in files;
            }
          }
          assert !Listed(BackupKey(q), init) by {
            forall p' | p' in init ensures BackupKey(q) != BackupKey(p') {
              BackupKeyInjective(p', q);
            }
          }
        }
      }
    }
  }

  /** Further replace runs, with any variant, keep the Pending state: the
      backups still hold the contents from before the first run. */
  lemma {:induction false} ReplaceFilesKeepsPending(fs: FileSystem, cur: FileSystem, files: seq<string>, run: seq<string>, pairs: seq<Pair>)
    requires Clean(fs, files) && Pending(fs, cur, files)
    requires forall q :: q in run ==> q in files
    ensures Pending(fs, ReplaceFiles(cur, run, pairs), files)
    decreases |run|
  {
    if run != [] {
      var init, q := run[..|run| - 1], run[|run| - 1];
      ReplaceFilesKeepsPending(fs, cur, files, init, pairs);
      var mid := ReplaceFiles(cur, init, pairs);
      var next := ReplaceFile(mid, q, pairs);
      assert q in run;
      BackupKeyInjective(q, q);
      forall k | !Listed(k, files) ensures Same(fs, next, k) {
        assert k != q && k != BackupKey(q);
      }
      forall p | p in files
        ensures (p in next <==> p in fs) && (BackupExists(next, p) <==> p in fs)
        ensures p in fs ==> next[BackupKey(p)] == fs[p]
      {
        BackupKeyInjective(p, q);
        assert BackupKey(q) !in files;
        assert BackupKey(p) !in files;
      }
    }
  }

  // ---------------------------------------------------------------------------
  // The revert loop

  /** The revert loop touches only the files and their backups; afterwards no
      file has a backup, and each file holds what its backup held, or is as it
      was when it had none. */
  lemma {:induction false} RevertFilesEffect(cur: FileSystem, files: seq<string>)
    requires forall p :: p in files ==> BackupKey(p) !in files
    ensures forall k :: !Listed(k, files) ==> Same(cur, RevertFiles(cur, files), k)
    ensures forall p :: p in files ==> !BackupExists(RevertFiles(cur, files), p)
    ensures forall p :: p in files && BackupExists(cur, p) ==>
              p in RevertFiles(cur, files) && RevertFiles(cur, files)[p] == cur[BackupKey(p)]
    ensures forall p :: p in files && !BackupExists(cur, p) ==> Same(cur, RevertFiles(cur, files), p)
    decreases |files|
  {
    if files != [] {
      var init, q := files[..|files| - 1], files[|files| - 1];
      assert files == init + [q];
      RevertFilesEffect(cur, init);
      var r := RevertFiles(cur, init);
      var next := Restore(r, q);
      BackupKeyInjective(q, q);
      assert forall p :: p in init ==> p in files;
      forall k | !Listed(k, files) ensures Same(cur, next, k) {
        assert !Listed(k, init);
        assert k != q && k != BackupKey(q);
      }
      forall p | p in files
        ensures !BackupExists(next, p)
        ensures BackupExists(cur, p) ==> p in next && next[p] == cur[BackupKey(p)]
        ensures !BackupExists(cur, p) ==> Same(cur, next, p)
      {
        BackupKeyInjective(p, q);
        if p != q {
          assert p in init;
          assert BackupKey(q) !in files;
          assert BackupKey(p) !in files;
        } else if q !in init {
          assert !Listed(q, init) by {
            forall p' | p' in init ensures q != BackupKey(p') {
              assert p' in files;
            }
          }
          assert !Listed(BackupKey(q), init) by {
            forall p' | p' in init ensures BackupKey(q) != BackupKey(p') {
              BackupKeyInjective(p', q);
            }
          }
        }
      }
    }
  }

  /** Reverting from the Pending state gives back the original filesystem. */
  lemma RevertFromPending(fs: FileSystem, cur: FileSystem, files: seq<string>)
    requires Clean(fs, files) && Pending(fs, cur, files)
    ensures RevertFiles(cur, files) == fs
  {
    var r := RevertFiles(cur, files);
    RevertFilesEffect(cur, files);
    forall k ensures Same(fs, r, k) {
      if k in files {
        assert (k in cur <==> k in fs) && (BackupExists(cur, k) <==> k in fs);
      } else if Listed(k, files) {
        var p :| p in files && k == BackupKey(p);
        assert !BackupExists(r, p) && !BackupExists(fs, p);
      } else {
        assert Same(fs, cur, k) && Same(cur, r, k);
      }
    }
    SameEverywhere(fs, r);
  }

  // ---------------------------------------------------------------------------
  // Round trips

  /** Replace followed by revert gives every file back its stored contents and
      leaves no backup, provided no file had a backup and no file is another's backup. */
  lemma ReplaceThenRevert(fs: FileSystem, files: seq<string>, pairs: seq<Pair>)
    requires Clean(fs, files)
    ensures RevertFiles(ReplaceFiles(fs, files, pairs), files) == fs
  {
    ReplaceFilesFromClean(fs, files, pairs);
    RevertFromPending(fs, ReplaceFiles(fs, files, pairs), files);
  }

  /** Repeated replace runs never overwrite the first backup: revert after two
      runs, with any two variants, still restores the original filesystem. */
  lemma ReplaceTwiceThenRevert(fs: FileSystem, files: seq<string>, first: seq<Pair>, second: seq<Pair>)
    requires Clean(fs, files)
    ensures RevertFiles(ReplaceFiles(ReplaceFiles(fs, files, first), files, second), files) == fs
  {
    ReplaceFilesFromClean(fs, files, first);
    ReplaceFilesKeepsPending(fs, ReplaceFiles(fs, files, first), files, files, second);
    RevertFromPending(fs, ReplaceFiles(ReplaceFiles(fs, files, first), files, second), files);
  }

  /** The replace action with a variant that does not exist changes nothing:
      no file is written and no backup is made. */
  lemma UnknownVariantChangesNothing(fs: FileSystem, config: Configuration, name: Option<string>)
    requires forall i :: 0 <= i < |config.variants| ==> !NameMatches(config.variants[i], name)
    ensures RunAction(fs, Some(config), Replace, name) == fs
  {
  }

  /** Without backups, the revert loop changes nothing. */
  lemma {:induction false} RevertWithoutBackups(fs: FileSystem, files: seq<string>)
    requires forall p :: p in files ==> !BackupExists(fs, p)
    ensures RevertFiles(fs, files) == fs
    decreases |files|
  {
    if files != [] {
      RevertWithoutBackups(fs, files[..|files| - 1]);
    }
  }

  /** Two invocations, `replace` with any variant name and then `revert`, give
      back the filesystem as it was, whether or not the variant exists. */
  lemma ReplaceThenRevertInvocations(fs: FileSystem, config: Configuration, name: Option<string>, ignored: Option<string>)
    requires Clean(fs, config.files)
    ensures RunAction(RunAction(fs, Some(config), Replace, name), Some(config), Revert, ignored) == fs
  {
    match FindVariant(config.variants, name)
    case None =>
      RevertWithoutBackups(fs, config.files);
    case Some(v) =>
      ReplaceThenRevert(fs, config.files, v.replacements);
  }
}
