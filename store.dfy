/** The tool's actions as they run: a store object holds the filesystem and
    its methods copy, move and write entries in place, one file per loop
    iteration, in the order of the configuration's file list. The methods
    that change the store are proved to leave it equal to the matching
    `FileStore` function of the old store, except `WriteModifiedContent`,
    whose new store is the old one with the path set to the new contents.
    `ReplaceTagsInFile` changes nothing and states its three results. */
module TagSwap {
  import opened Wrappers
  import Substitution
  import Config
  import FileStore

  class Store {
    /** Path to contents; a path is a file exactly when it is a key. */
    var fs: FileStore.FileSystem

    constructor (initial: FileStore.FileSystem)
      ensures fs == initial
    {
      fs := initial;
    }

    /** `create_backup`: copies the file to its backup key when it exists. */
    method CreateBackup(p: string)
      modifies this
      ensures fs == FileStore.CreateBackup(old(fs), p)
    {
      if p in fs {
        fs := fs[FileStore.BackupKey(p) := fs[p]];
      }
    }

    /** `revert_from_backup`: moves the backup over the file. */
    method RevertFromBackup(p: string)
      modifies this
      ensures fs == FileStore.Restore(old(fs), p)
    {
      var backup := FileStore.BackupKey(p);
      if backup in fs {
        var saved := fs[backup];
        fs := fs - {backup};
        fs := fs[p := saved];
      }
    }

    /** `replace_tags_in_file`: reads the file and runs the substitution loop;
        a missing file gives ("", None, False) and no substitution. */
    method ReplaceTagsInFile(p: string, pairs: seq<Substitution.Pair>)
      returns (content: string, encoding: Option<FileStore.Encoding>, modified: bool)
      ensures p !in fs ==> content == "" && encoding == None && !modified
      ensures p in fs ==> content == Substitution.ApplyAll(fs[p], pairs) && encoding == Some(FileStore.Utf8)
      ensures p in fs ==> (modified <==> exists i :: Substitution.HitAt(fs[p], pairs, i))
      ensures p in fs && !modified ==> content == fs[p]
    {
      if p !in fs {
        return "", None, false;
      }
      encoding := Some(FileStore.Utf8);
      content, modified := Substitution.SubstituteTags(fs[p], pairs);
    }

    /** `write_modified_content`: overwrites (or creates) the file. */
    method WriteModifiedContent(p: string, content: string)
      modifies this
      ensures fs == old(fs)[p := content]
    {
      fs := fs[p := content];
    }

    /** The `replace` branch: look the variant up, and for each configured file
        back it up unless a backup exists, substitute, and write only when a
        tag occurred. An unknown variant touches nothing. */
    method Replace(config: Config.Configuration, name: Option<string>)
      modifies this
      ensures fs == FileStore.ReplaceVariant(old(fs), config, name)
    {
      var variant := Config.FindVariant(config.variants, name);
      if variant.None? {
        return;
      }
      var pairs := variant.value.replacements;
      for i := 0 to |config.files|
        invariant fs == FileStore.ReplaceFiles(old(fs), config.files[..i], pairs)
      {
        assert config.files[..i + 1][..i] == config.files[..i];
        var p := config.files[i];
        if !FileStore.BackupExists(fs, p) {
          CreateBackup(p);
        }
        var content, encoding, modified := ReplaceTagsInFile(p, pairs);
        if modified {
          WriteModifiedContent(p, content);
        }
      }
      assert config.files[..|config.files|] == config.files;
    }

    /** The `revert` branch: restore each configured file in order. */
    method Revert(config: Config.Configuration)
      modifies this
      ensures fs == FileStore.RevertFiles(old(fs), config.files)
    {
      for i := 0 to |config.files|
        invariant fs == FileStore.RevertFiles(old(fs), config.files[..i])
      {
        assert config.files[..i + 1][..i] == config.files[..i];
        RevertFromBackup(config.files[i]);
      }
      assert config.files[..|config.files|] == config.files;
    }

    /** One invocation after the configuration was read (None when the file
        was missing): dispatch on the action. `summarize` only prints. */
    method Run(config: Option<Config.Configuration>, action: Config.Action, name: Option<string>)
      modifies this
      ensures fs == FileStore.RunAction(old(fs), config, action, name)
    {
      if config.None? {
        return;
      }
      match action {
        case Replace => Replace(config.value, name);
        case Revert => Revert(config.value);
        case Summarize =>
        case Invalid =>
      }
    }
  }
}
