# tagSwap in Dafny

A model of the tag replacement tool `tagSwap`. A JSON configuration lists
target files and named variants. Each variant has a table of tag → value
replacements. The tool has three actions:

- `replace <variant>`: backs each file up once to `<file>.bak`, replaces every
  literal occurrence of each tag by its value in table order, and writes the
  file back only when some tag occurred.
- `revert`: moves each backup back over its file.
- `summarize`: prints the configuration.

The filesystem is an abstract store, `map<string, string>` from path to
contents. A path is a file exactly when it is a key.

Modules:

- `Substitution` (`substitution.dfy`) models the engine of `replace_tags_in_file`.
  - `Occurs` is Python's `tag in content`.
  - `ReplaceAll` is `str.replace`: left to right, non-overlapping. The empty
    tag is modelled as Python treats it: `""` occurs in every string, and
    replacing it inserts the value before every character and once at the end
    (`InsertEverywhere`).
  - `ApplyAll` and `Modified` specify the loop. `SubstituteTags` is the loop
    itself, proved against them.
- `Config` (`config.dfy`) holds the parsed configuration, the action enum and
  the variant lookup `FindVariant` (first exact name match).
- `FileStore` (`filestore.dfy`) holds the pure specification of every step over
  the store: `BackupExists`, `CreateBackup`, `EnsureBackup` (the
  back-up-unless-present step of the replace loop), `Restore`,
  `ReplaceTagsInFile`, `ReplaceFile` (one loop iteration), `ReplaceFiles`,
  `RevertFiles`, `ReplaceVariant` and `RunAction`.
- `Workflow` (`workflow.dfy`) holds the lemmas that relate several steps:
  idempotent backup, replace-then-revert round trips for one file and for the
  whole file list (also after repeated replace runs), and the frame of each loop.
- `TagSwap` (`store.dfy`) holds the class `Store` with a `fs` field. Its
  methods change the store in place, one file per loop iteration.
  - `CreateBackup`, `RevertFromBackup`, `Replace`, `Revert` and `Run` are each
    proved to leave the store equal to the matching `FileStore` function
    applied to the old store.
  - `WriteModifiedContent` is proved to store the new contents under the path
    and change nothing else.
  - `ReplaceTagsInFile` changes nothing. Its contract states its three results
    directly.

Notes on the behaviour the model exposes:

- "No occurrence of the tag remains when the value does not contain the tag"
  does not hold for `str.replace`. `"abb".replace("ab", "a")` is `"ab"`: the
  inserted value and the text after it form a new occurrence
  (`ResidualTagDespiteValueWithoutTag`). Completeness is proved under a stronger
  condition: the value is non-empty and shares no character with the tag
  (`NoResidualTag`).
- The replace/revert round trip needs two conditions (`Workflow.Clean`): no
  listed file has a backup beforehand, and no listed file is the backup of
  another listed file. Under these conditions, revert after any number of
  replace runs restores the whole store exactly.
- Duplicate paths in the file list need no special condition. A second pass
  over the same file finds the backup and leaves it alone.

## Model

| member | source | states |
|---|---|---|
| `Substitution.Occurs` | src/tagSwap.py:112 | definition, no contract: `tag in content`, true when the tag is a prefix of the contents or occurs in its tail, so the empty tag always occurs; `OccursIffMatchAt` proves it equal to "the tag appears at some index" |
| `Substitution.ReplaceAll` | src/tagSwap.py:113 | definition, no contract: `content.replace(tag, value)`, scanning left to right and replacing each non-overlapping occurrence; the empty tag goes to `InsertEverywhere`; properties in `ReplaceAllAbsent`, `ReplaceAllSelf`, `NoResidualTag`, `ResidualTagDespiteValueWithoutTag` |
| `Substitution.InsertEverywhere` | src/tagSwap.py:113 | definition, no contract: `content.replace("", value)`, the value before every character and once at the end; `InsertEverywhereLength` gives its length |
| `Substitution.ApplyAll` | src/tagSwap.py:110-115 | definition, no contract: the contents after applying the pairs in order, each replacing only when its tag occurs in the output of the pairs before it; `SubstituteTags` is proved equal to it, `SequentialChain` and `UnmodifiedIsUnchanged` state its properties |
| `Substitution.Modified` | src/tagSwap.py:110-114 | definition, no contract: the `modified` flag after the pairs; `ModifiedIffSomeTagOccurred` proves it holds iff some tag occurred when it was checked |
| `Substitution.SubstituteTags` | src/tagSwap.py:110-117 | the loop returns the sequential application of all pairs; `modified` holds iff some tag occurred in the contents at the moment it was checked; when false the contents are returned unchanged |
| `Substitution.OccursIffMatchAt` | src/tagSwap.py:112 | `tag in content` holds iff the tag appears at some index of the contents |
| `Substitution.ReplaceAllAbsent` | src/tagSwap.py:112-113 | replacing a tag that does not occur leaves the contents unchanged, so the `in` guard only decides the flag |
| `Substitution.ReplaceAllSelf` | src/tagSwap.py:113 | replacing a tag by itself (empty tag included) is the identity |
| `Substitution.InsertEverywhereLength` | src/tagSwap.py:113 | an empty tag inserts the value at all `|s| + 1` positions |
| `Substitution.NoResidualTag` | src/tagSwap.py:112-113 | after replacing a non-empty tag by a non-empty value sharing no character with it, the tag no longer occurs |
| `Substitution.ResidualTagDespiteValueWithoutTag` | src/tagSwap.py:112-113 | a value free of the tag can still leave an occurrence: "abb" with ("ab","a") gives "ab" |
| `Substitution.SequentialChain` | src/tagSwap.py:111-113 | each tag sees the output of the earlier ones: ("A","B") then ("B","C") turns "A" into "C" |
| `Substitution.ModifiedIffSomeTagOccurred` | src/tagSwap.py:110-114 | the flag is true exactly when some tag occurred in the intermediate contents it was checked against |
| `Substitution.UnmodifiedIsUnchanged` | src/tagSwap.py:110-117 | when no tag occurred, the returned contents equal the input |
| `Config.FindVariant` | src/tagSwap.py:193 | returns None iff no variant has the name; otherwise the first variant whose name matches |
| `FileStore.BackupKey` | src/tagSwap.py:145 | definition, no contract: the backup path `p + ".bak"`; `Workflow.BackupKeyInjective` proves distinct paths get distinct backup paths and no path is its own backup |
| `FileStore.BackupExists` | src/tagSwap.py:145-146 | definition, no contract: `backup_exists`, the backup path is a key of the store; used by `EnsureBackup`, `Restore` and the round-trip lemmas |
| `FileStore.CreateBackup` | src/tagSwap.py:155-160 | an existing file is copied to `p + ".bak"`; a missing file changes nothing; no other key changes |
| `FileStore.EnsureBackup` | src/tagSwap.py:199-202 | an existing backup is left alone; a missing file changes nothing; otherwise the file gets a backup with its current contents; only the backup key can change |
| `FileStore.Restore` | src/tagSwap.py:169-174 | afterwards no backup exists; if one existed the file now holds its contents; without one nothing changes; only the file and its backup key change |
| `FileStore.ReplaceTagsInFile` | src/tagSwap.py:101-117 | a missing file gives ("", None, False); otherwise UTF-8, the substituted contents, and the flag set iff some tag occurred |
| `FileStore.ReplaceFile` | src/tagSwap.py:198-207 | missing file: nothing changes; the file ends with the substituted contents; without a hit the only change is the backup; an existing backup is never overwritten; a new backup holds the pre-replace contents; no other key changes |
| `FileStore.ReplaceFiles` | src/tagSwap.py:198-207 | definition, no contract: the replace loop, `ReplaceFile` applied to each listed file in order; `TagSwap.Store.Replace` is proved equal to it, and `Workflow.ReplaceFilesFrame`, `ReplaceFilesSubstitutesEachFile`, `ReplaceFilesKeepsUnlisted`, `ReplaceFilesFromClean` and `ReplaceFilesKeepsPending` state its effect |
| `FileStore.RevertFiles` | src/tagSwap.py:209-211 | definition, no contract: the revert loop, `Restore` applied to each listed file in order; `TagSwap.Store.Revert` is proved equal to it, and `Workflow.RevertFilesEffect`, `RevertWithoutBackups` and the round trips state its effect |
| `FileStore.ReplaceVariant` | src/tagSwap.py:192-196 | an unknown variant changes nothing |
| `FileStore.RunAction` | src/tagSwap.py:188-218 | a missing configuration, `summarize` and an invalid action leave the store unchanged |
| `Workflow.BackupKeyInjective` | src/tagSwap.py:145 | distinct files have distinct backup keys, and no file is its own backup |
| `Workflow.BackupIdempotent` | src/tagSwap.py:199-202 | a second backup step changes nothing |
| `Workflow.ReplaceThenRestore` | src/tagSwap.py:169-207 | for a file without a backup, replace then revert restores the store exactly: original contents, no `.bak` left |
| `Workflow.ReplaceFilesKeepsUnlisted` | src/tagSwap.py:198-207 | existing keys outside the file list, existing backups included, keep their contents through a replace run |
| `Workflow.ReplaceFilesFrame` | src/tagSwap.py:198-207 | a key that is neither a listed file nor the backup of one is untouched by the replace loop |
| `Workflow.ReplaceFilesAppend` | src/tagSwap.py:198 | running the loop over `a + b` is running it over `a` and then over `b` |
| `Workflow.ReplaceFilesSubstitutesEachFile` | src/tagSwap.py:198-207 | whatever the other files are, missing ones included, a file listed once, and not the backup of a listed file, ends with every tag substituted if it existed, and stays absent if it did not |
| `Workflow.ReplaceFilesFromClean` | src/tagSwap.py:198-207 | from a clean store the replace loop leaves unlisted keys alone, keeps file existence, and backs up exactly the existing files with their original contents |
| `Workflow.ReplaceFilesKeepsPending` | src/tagSwap.py:198-207 | later replace runs with any variant keep every backup as it was after the first run |
| `Workflow.RevertFilesEffect` | src/tagSwap.py:209-211 | the revert loop removes every listed backup, restores each backed-up file from its backup, leaves files without a backup and all unlisted keys alone |
| `Workflow.RevertFromPending` | src/tagSwap.py:209-211 | reverting from the state left by replace runs gives back the original store |
| `Workflow.ReplaceThenRevert` | src/tagSwap.py:192-211 | replace then revert over the whole file list restores the store exactly |
| `Workflow.ReplaceTwiceThenRevert` | src/tagSwap.py:192-211 | two replace runs (any variants) then revert still restore the original store |
| `Workflow.RevertWithoutBackups` | src/tagSwap.py:209-211 | when no listed file has a backup, whatever the list holds, the revert loop changes nothing |
| `Workflow.ReplaceThenRevertInvocations` | src/tagSwap.py:188-211 | a `replace` invocation with any variant name followed by a `revert` invocation gives back the original store, whether or not the variant exists |
| `Workflow.UnknownVariantChangesNothing` | src/tagSwap.py:193-196 | replace with a variant name that matches nothing writes no file and makes no backup |
| `TagSwap.Store.CreateBackup` | src/tagSwap.py:155-160 | updates the store as `FileStore.CreateBackup` |
| `TagSwap.Store.RevertFromBackup` | src/tagSwap.py:169-174 | updates the store as `FileStore.Restore` |
| `TagSwap.Store.ReplaceTagsInFile` | src/tagSwap.py:101-117 | reads the file from the store: a missing file gives ("", None, False); otherwise the substituted contents, UTF-8, and the flag set iff some tag occurred |
| `TagSwap.Store.WriteModifiedContent` | src/tagSwap.py:128-131 | the file holds exactly the new contents afterwards; nothing else changes |
| `TagSwap.Store.Replace` | src/tagSwap.py:192-207 | the store ends as `FileStore.ReplaceVariant` of the old store |
| `TagSwap.Store.Revert` | src/tagSwap.py:209-211 | the store ends as `FileStore.RevertFiles` of the old store |
| `TagSwap.Store.Run` | src/tagSwap.py:188-218 | the store ends as `FileStore.RunAction` of the old store |

## Left out

- Console output (`log`, `usage`, the stdout encoding fallback, every "Skipping" or "Reverted" message): output only, no effect on the store.
- `detect_file_encoding` always returns `'UTF-8'`. Text is `seq<char>` and the encoding is the constant `Utf8`. `TagSwap.Store.WriteModifiedContent` does not take the encoding, because it is always UTF-8 whenever a write happens.
- Path identity: the store names a file by a single path string, and two different strings are two different files. On disk, several spellings can name one file: "a" and "./a", a symbolic link, or case variants on a case-insensitive file system. `Workflow.Clean` and every round trip hold only when distinct listed strings, and their `.bak` names, name distinct files. For example, with the list ["a", "./a.bak"] the source backs up "a", then backs up and rewrites its backup as a separate file. Revert then leaves "a" rewritten and a `.bak` behind, while the model, where the two strings are unrelated keys, restores everything.
- Text-mode file access (src/tagSwap.py:104, 129). The source opens files in Python text mode. Reading turns "\r\n" and "\r" into "\n", and writing turns "\n" into the platform line separator. The store holds the decoded text with newlines already normalised. So the model's contents and its round trips are equalities of text, not of bytes. On POSIX, a file "A\r\nB" with the pair ("A", "X") is written as "X\nB", which the model does not show.
- Decoding failures. Only `FileNotFoundError` is caught (src/tagSwap.py:106). A file that is not valid UTF-8 raises `UnicodeDecodeError`. That error ends the whole replace run, after the file's `.bak` was already made at line 200. The store holds only decodable text, so this abort is not modelled.
- The `UnicodeEncodeError` write failure (src/tagSwap.py:132-133): text is never re-encoded in the model, so every write succeeds.
- Metadata preservation by `shutil.copy2`: the store holds contents only.
- JSON parsing in `read_config`: the configuration arrives already parsed, and `None` stands for a missing configuration file. A missing `files` or `variants` key is the empty sequence. A JSON `null` variant name and a variant without a `name` key (a `KeyError` in the source) are not modelled. The replacement table is a sequence of pairs in insertion order; duplicate keys, which JSON objects collapse, are not excluded.
- `summarize`: it only prints, so it is modelled as leaving the store unchanged.
- Command-line handling (argument count, `strip`, `lower`): the action arrives as the `Config.Action` enum and the variant name as `Option<string>` (None when not given).
- Failures of the filesystem itself (permissions, a backup key that names a directory, concurrent invocations) are outside the abstract store.
