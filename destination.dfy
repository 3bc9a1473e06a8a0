/** The state the copy actions change outside the SFTP server: the Hadoop
    destination filesystem, the MD5 tracking table and the pipeline's run
    arguments. Each is an object the actions update in place. */
module Destination {
  import opened Common

  /** The destination FileSystem, reduced to what the actions use: regular
      files with their content and directories. `undeletable` holds the paths
      whose delete reports false (a permission problem, say). */
  class FileStore {
    var files: map<Path, Bytes>
    var dirs: set<Path>
    const undeletable: set<Path>

    constructor (files0: map<Path, Bytes>, dirs0: set<Path>, undeletable0: set<Path>)
      ensures files == files0 && dirs == dirs0 && undeletable == undeletable0
    {
      files, dirs, undeletable := files0, dirs0, undeletable0;
    }

    /** FileSystem.exists */
    predicate Exists(p: Path)
      reads this
    {
      p in files || p in dirs
    }

    /** FileSystem.mkdirs */
    method Mkdirs(p: Path)
      modifies this
      ensures dirs == old(dirs) + {p} && files == old(files)
    {
      dirs := dirs + {p};
    }

    /** FileSystem.create followed by copying `content` into the stream:
        the file is created or overwritten. */
    method Create(p: Path, content: Bytes)
      modifies this
      ensures files == old(files)[p := content] && dirs == old(dirs)
    {
      files := files[p := content];
    }

    /** FileSystem.delete(p, false) on a regular file. */
    method Delete(p: Path) returns (deleted: bool)
      modifies this
      ensures deleted <==> p in old(files) && p !in undeletable
      ensures files == (if deleted then old(files) - {p} else old(files))
      ensures dirs == old(dirs)
    {
      deleted := p in files && p !in undeletable;
      if deleted {
        files := files - {p};
      }
    }
  }

  /** The KeyValueTable "SFTPTrackingTable": digest to the simple name of the
      file that first produced it. */
  class TrackingTable {
    var entries: map<Digest, string>

    constructor (entries0: map<Digest, string>)
      ensures entries == entries0
    {
      entries := entries0;
    }

    /** table.read: null when the key is absent. */
    method Read(key: Digest) returns (name: Option<string>)
      ensures name == (if key in entries then Some(entries[key]) else None)
    {
      name := if key in entries then Some(entries[key]) else None;
    }

    /** table.write */
    method Write(key: Digest, name: string)
      modifies this
      ensures entries == old(entries)[key := name]
    {
      entries := entries[key := name];
    }
  }

  /** context.getArguments(): the pipeline's run-scoped key/value arguments. */
  class PipelineArguments {
    var values: map<string, string>

    constructor (values0: map<string, string>)
      ensures values == values0
    {
      values := values0;
    }

    method Set(key: string, value: string)
      modifies this
      ensures values == old(values)[key := value]
    {
      values := values[key := value];
    }
  }
}
