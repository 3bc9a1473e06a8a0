/** The SFTP server as the actions see it through one JSch session and its
    sftp channel: authentication, and the remote files and directories that
    rm, mkdir, cd and put change. */
module Remote {
  import opened Common

  /** The two ways SFTPConnector authenticates. */
  datatype Credential =
    | PasswordAuth(password: Option<string>)
    | PrivateKeyAuth(key: Bytes, passphrase: Bytes)

  /** The position of the last '/' in `p`, if any. */
  function LastSlash(p: Path): (r: Option<nat>)
    ensures r.None? <==> '/' !in p
    ensures r.Some? ==> r.value < |p| && p[r.value] == '/' && '/' !in p[r.value + 1..]
  {
    if p == [] then None
    else if p[|p| - 1] == '/' then Some(|p| - 1)
    else
      var r := LastSlash(p[..|p| - 1]);
      if r.Some? then
        assert p[r.value + 1..] == p[..|p| - 1][r.value + 1..] + [p[|p| - 1]];
        r
      else
        assert forall c :: c in p ==> c in p[..|p| - 1] || c == p[|p| - 1];
        None
  }

  /** The directory `p` names an entry of: the part before its last '/'
      ("/" for an entry of the root), or the working directory when `p` has
      no '/'. */
  function ParentDir(cwd: Path, p: Path): Path {
    match LastSlash(p)
    case None => cwd
    case Some(k) => if k == 0 then "/" else p[..k]
  }

  /** The parent of destination/name is the destination, for any non-empty
      destination and any name without '/'. */
  lemma ParentOfChild(cwd: Path, dir: Path, name: string)
    requires dir != [] && '/' !in name
    ensures ParentDir(cwd, Child(dir, name)) == dir
  {
    var p := Child(dir, name);
    var k := |dir|;
    assert p[k] == '/';
    assert p[k + 1..] == name;
    var r := LastSlash(p).value;
    assert p[..k] == dir;
  }

  /** An entry of the root has the root for parent. */
  lemma ParentOfRootEntry(cwd: Path, name: string)
    requires '/' !in name
    ensures ParentDir(cwd, "/" + name) == "/"
  {
    var p := "/" + name;
    assert p[1..] == name;
    assert p[0] == '/';
  }

  class SftpServer {
    /** The credentials the server accepts. */
    const authorized: set<Credential>
    /** Whether a session is open. */
    var connected: bool
    /** How many sessions have been opened so far. */
    var sessions: nat
    var files: map<Path, Bytes>
    var dirs: set<Path>
    /** The channel's working directory. */
    var cwd: Path

    constructor (authorized0: set<Credential>, files0: map<Path, Bytes>, dirs0: set<Path>, cwd0: Path)
      ensures authorized == authorized0 && files == files0 && dirs == dirs0 && cwd == cwd0
      ensures !connected && sessions == 0
    {
      authorized, files, dirs, cwd := authorized0, files0, dirs0, cwd0;
      connected, sessions := false, 0;
    }

    /** Opening an SFTPConnector: session.connect and the sftp channel. */
    method Connect(cred: Credential) returns (ok: bool)
      requires !connected
      modifies this
      ensures ok <==> cred in authorized
      ensures connected == ok && sessions == old(sessions) + (if ok then 1 else 0)
      ensures files == old(files) && dirs == old(dirs) && cwd == old(cwd)
    {
      ok := cred in authorized;
      if ok {
        connected, sessions := true, sessions + 1;
      }
    }

    /** SFTPConnector.close: never fails. */
    method Close()
      modifies this
      ensures !connected && sessions == old(sessions)
      ensures files == old(files) && dirs == old(dirs) && cwd == old(cwd)
    {
      connected := false;
    }

    /** channelSftp.rm: fails unless `p` is a regular file. */
    method Rm(p: Path) returns (ok: bool)
      modifies this
      ensures ok <==> p in old(files)
      ensures files == old(files) - {p}
      ensures dirs == old(dirs) && cwd == old(cwd) && connected == old(connected) && sessions == old(sessions)
    {
      ok := p in files;
      files := files - {p};
    }

    /** channel.mkdir: creates one directory and no parents, so it fails
        when something already exists at `p` or its parent is not a
        directory. */
    method Mkdir(p: Path) returns (ok: bool)
      modifies this
      ensures ok <==> p !in old(files) && p !in old(dirs) && ParentDir(old(cwd), p) in old(dirs)
      ensures dirs == (if ok then old(dirs) + {p} else old(dirs))
      ensures files == old(files) && cwd == old(cwd) && connected == old(connected) && sessions == old(sessions)
    {
      ok := p !in files && p !in dirs && ParentDir(cwd, p) in dirs;
      if ok {
        dirs := dirs + {p};
      }
    }

    /** channel.cd: fails unless `p` is a directory. */
    method Cd(p: Path) returns (ok: bool)
      modifies this
      ensures ok <==> p in old(dirs)
      ensures cwd == (if ok then p else old(cwd))
      ensures files == old(files) && dirs == old(dirs) && connected == old(connected) && sessions == old(sessions)
    {
      ok := p in dirs;
      if ok {
        cwd := p;
      }
    }

    /** channel.put(stream, name): writes `name` in the working directory;
        fails when a directory of that name is there. */
    method Put(content: Bytes, name: string) returns (ok: bool)
      modifies this
      ensures ok <==> Child(old(cwd), name) !in old(dirs)
      ensures files == (if ok then old(files)[Child(old(cwd), name) := content] else old(files))
      ensures dirs == old(dirs) && cwd == old(cwd) && connected == old(connected) && sessions == old(sessions)
    {
      ok := Child(cwd, name) !in dirs;
      if ok {
        files := files[Child(cwd, name) := content];
      }
    }
  }
}
