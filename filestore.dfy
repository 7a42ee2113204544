/** The replace and revert actions over an abstract filesystem: a finite map
    from path to contents. A path is a file that exists exactly when it is a
    key. These functions are the specification of the class `TagSwap.Store`,
    which performs the same steps in place. */
module FileStore {
  import opened Wrappers
  import opened Substitution
  import opened Config

  type FileSystem = map<string, string>

  /** The only encoding the tool reads and writes with. */
  datatype Encoding = Utf8

  /** What `replace_tags_in_file` returns: contents, encoding, modified. */
  datatype Tagged = Tagged(content: string, encoding: Option<Encoding>, modified: bool)

  /** The backup of p lives at p + ".bak". */
  function BackupKey(p: string): string
  {
    p + ".bak"
  }

  /** k is present in both maps with the same contents, or in neither. */
  predicate Same(a: FileSystem, b: FileSystem, k: string)
  {
    (k in a <==> k in b) && (k in a ==> a[k] == b[k])
  }

  /** `backup_exists`. */
  predicate BackupExists(fs: FileSystem, p: string)
  {
    BackupKey(p) in fs
  }

  /** `create_backup`: copy p to its backup key when p exists. */
  function CreateBackup(fs: FileSystem, p: string): (r: FileSystem)
    ensures p in fs ==> BackupKey(p) in r && r[BackupKey(p)] == fs[p]
    ensures p !in fs ==> r == fs
    ensures forall k :: k != BackupKey(p) ==> Same(fs, r, k)
  {
    if p in fs then fs[BackupKey(p) := fs[p]] else fs
  }

  /** The backup step of the replace loop: back up only when no backup exists. */
  function EnsureBackup(fs: FileSystem, p: string): (r: FileSystem)
    ensures BackupExists(fs, p) ==> r == fs
    ensures !BackupExists(fs, p) && p in fs ==> BackupExists(r, p) && r[BackupKey(p)] == fs[p]
    ensures p !in fs ==> r == fs
    ensures forall k :: k != BackupKey(p) ==> Same(fs, r, k)
  {
    if BackupExists(fs, p) then fs else CreateBackup(fs, p)
  }

  /** `revert_from_backup`: move the backup over p, which removes the backup;
      nothing happens when there is no backup. */
  function Restore(fs: FileSystem, p: string): (r: FileSystem)
    ensures !BackupExists(r, p)
    ensures BackupExists(fs, p) ==> p in r && r[p] == fs[BackupKey(p)]
    ensures !BackupExists(fs, p) ==> r == fs
    ensures forall k :: k != p && k != BackupKey(p) ==> Same(fs, r, k)
  {
    if BackupExists(fs, p) then (fs - {BackupKey(p)})[p := fs[BackupKey(p)]] else fs
  }

  /** `replace_tags_in_file` read-only: a missing file gives ("", None, False). */
  function ReplaceTagsInFile(fs: FileSystem, p: string, pairs: seq<Pair>): (r: Tagged)
    ensures p !in fs ==> r == Tagged("", None, false)
    ensures p in fs ==> r.encoding == Some(Utf8) && r.content == ApplyAll(fs[p], pairs)
    ensures p in fs ==> (r.modified <==> exists i :: HitAt(fs[p], pairs, i))
    ensures p in fs && !r.modified ==> r.content == fs[p]
  {
    if p !in fs then Tagged("", None, false)
    else
      ModifiedIffSomeTagOccurred(fs[p], pairs);
      UnmodifiedIsUnchanged(fs[p], pairs);
      Tagged(ApplyAll(fs[p], pairs), Some(Utf8), Modified(fs[p], pairs))
  }

  /** One iteration of the replace loop: back up if needed, substitute, and
      write only when something changed. */
  function ReplaceFile(fs: FileSystem, p: string, pairs: seq<Pair>): (r: FileSystem)
    ensures p !in fs ==> r == fs
    ensures p in fs ==> p in r && r[p] == ApplyAll(fs[p], pairs)
    ensures p in fs && !Modified(fs[p], pairs) ==> r == EnsureBackup(fs, p)
    ensures BackupExists(fs, p) ==> BackupExists(r, p) && r[BackupKey(p)] == fs[BackupKey(p)]
    ensures p in fs && !BackupExists(fs, p) ==> BackupExists(r, p) && r[BackupKey(p)] == fs[p]
    ensures forall k :: k != p && k != BackupKey(p) ==> Same(fs, r, k)
  {
    var b := EnsureBackup(fs, p);
    assert BackupKey(p) != p;
    var t := ReplaceTagsInFile(b, p, pairs);
    if t.modified then b[p := t.content] else b
  }

  /** The replace loop over the configured files, in order. */
  function ReplaceFiles(fs: FileSystem, files: seq<string>, pairs: seq<Pair>): FileSystem
    decreases |files|
  {
    if files == [] then fs
    else ReplaceFile(ReplaceFiles(fs, files[..|files| - 1], pairs), files[|files| - 1], pairs)
  }

  /** The revert loop over the configured files, in order. */
  function RevertFiles(fs: FileSystem, files: seq<string>): FileSystem
    decreases |files|
  {
    if files == [] then fs
    else Restore(RevertFiles(fs, files[..|files| - 1]), files[|files| - 1])
  }

  /** The replace branch: an unknown variant stops before any file is touched. */
  function ReplaceVariant(fs: FileSystem, config: Configuration, name: Option<string>): (r: FileSystem)
    ensures FindVariant(config.variants, name).None? ==> r == fs
  {
    match FindVariant(config.variants, name)
    case None => fs
    case Some(v) => ReplaceFiles(fs, config.files, v.replacements)
  }

  /** The effect of one invocation on the filesystem. A missing configuration,
      `summarize` and an invalid action change nothing. */
  function RunAction(fs: FileSystem, config: Option<Configuration>, action: Action, name: Option<string>): (r: FileSystem)
    ensures config.None? || action == Summarize || action == Invalid ==> r == fs
  {
    match config
    case None => fs
    case Some(c) =>
      match action
      case Replace => ReplaceVariant(fs, c, name)
      case Revert => RevertFiles(fs, c.files)
      case Summarize => fs
      case Invalid => fs
  }
}
