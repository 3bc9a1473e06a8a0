/** The io.cdap SFTPPutAction, and the upload logic it shares with the
    co.cask version: make sure the destination directory exists on the
    server, change into it, and upload every file of the source path whose
    name matches the regex. */
module SftpPut {
  import opened Common
  import Remote
  import SftpActionConfig

  /** SFTPPutActionConfig. Java null is None. */
  datatype PutConfig = PutConfig(
    base: SftpActionConfig.Config,
    srcPath: Path,
    destDirectory: Path,
    fileNameRegex: Option<string>)

  const MatchAll := ".*"

  /** getFileNameRegex: ".*" when unset. An empty regex is kept as it is. */
  function GetFileNameRegex(cfg: PutConfig): (regex: string)
    ensures cfg.fileNameRegex.None? ==> regex == MatchAll
    ensures cfg.fileNameRegex.Some? ==> regex == cfg.fileNameRegex.value
  {
    if cfg.fileNameRegex.Some? then cfg.fileNameRegex.value else MatchAll
  }

  /** What a FileStatus of the source filesystem stands for. Opening a
      directory for reading fails. */
  datatype LocalNode = LocalFile(content: Bytes) | LocalDirectory

  /** One FileStatus that listStatus returns for the source path: the path
      itself when it is a file, each of its children when it is a
      directory. */
  datatype LocalEntry = LocalEntry(name: string, node: LocalNode)

  /** The settings of one upload. `matches(name, regex)` is String.matches. */
  datatype PutSettings = PutSettings(
    srcPath: Path,
    destDirectory: Path,
    regex: string,
    matches: (string, string) -> bool)

  function SettingsOf(cfg: PutConfig, matches: (string, string) -> bool): PutSettings {
    PutSettings(cfg.srcPath, cfg.destDirectory, GetFileNameRegex(cfg), matches)
  }

  /** The PathFilter of listStatus. */
  predicate Selects(s: PutSettings, name: string) {
    s.matches(name, s.regex)
  }

  datatype PutOutcome = PutOutcome(files: map<Path, Bytes>, error: Option<ActionError>)

  /** One iteration of the upload loop over the remote files, whose
      directories are `dirs`: a selected file is put into the destination
      directory under its own name. Opening a selected local directory
      fails, and so does a put onto a remote directory of the same name. */
  function PutStep(s: PutSettings, dirs: set<Path>, files: map<Path, Bytes>, e: LocalEntry): PutOutcome {
    if !Selects(s, e.name) then PutOutcome(files, None)
    else match e.node
      case LocalDirectory => PutOutcome(files, Some(StoreFailure(Child(s.srcPath, e.name))))
      case LocalFile(content) =>
        var target := Child(s.destDirectory, e.name);
        if target in dirs then PutOutcome(files, Some(RemoteFailure(target)))
        else PutOutcome(files[target := content], None)
  }

  /** Whether uploading `e` fails: a selected local directory, or a selected
      file whose target is a remote directory. */
  predicate Blocked(s: PutSettings, dirs: set<Path>, e: LocalEntry) {
    Selects(s, e.name) && (e.node.LocalDirectory? || Child(s.destDirectory, e.name) in dirs)
  }

  /** The upload loop: each listed entry in order, stopping at the first
      error. */
  function PutAll(s: PutSettings, entries: seq<LocalEntry>, dirs: set<Path>, files: map<Path, Bytes>): PutOutcome {
    if entries == [] then PutOutcome(files, None)
    else
      var prev := PutAll(s, entries[..|entries| - 1], dirs, files);
      if prev.error.Some? then prev else PutStep(s, dirs, prev.files, entries[|entries| - 1])
  }

  lemma PutAllSnoc(s: PutSettings, pre: seq<LocalEntry>, e: LocalEntry, dirs: set<Path>, files: map<Path, Bytes>)
    ensures PutAll(s, pre + [e], dirs, files) ==
      var prev := PutAll(s, pre, dirs, files);
      if prev.error.Some? then prev else PutStep(s, dirs, prev.files, e)
  {
    assert (pre + [e])[..|pre|] == pre;
  }

  /** The entries the filter selects, in listing order. */
  function Selected(s: PutSettings, entries: seq<LocalEntry>): (r: seq<LocalEntry>)
    ensures |r| <= |entries|
    ensures forall e :: e in r ==> e in entries && Selects(s, e.name)
    ensures forall i :: 0 <= i < |entries| && Selects(s, entries[i].name) ==> entries[i] in r
  {
    if entries == [] then []
    else
      var last := entries[|entries| - 1];
      Selected(s, entries[..|entries| - 1]) + (if Selects(s, last.name) then [last] else [])
  }

  /** The filter keeps listing order: filtering a listing in two parts is
      filtering each part. */
  lemma {:induction false} SelectedConcat(s: PutSettings, a: seq<LocalEntry>, b: seq<LocalEntry>)
    ensures Selected(s, a + b) == Selected(s, a) + Selected(s, b)
  {
    if b != [] {
      var n := |b| - 1;
      assert (a + b)[..|a + b| - 1] == a + b[..n];
      SelectedConcat(s, a, b[..n]);
    } else {
      assert a + b == a;
    }
  }

  /** The uploads the selected files make, in order. */
  function Uploads(s: PutSettings, entries: seq<LocalEntry>): seq<(Path, Bytes)> {
    if entries == [] then []
    else
      var last := entries[|entries| - 1];
      Uploads(s, entries[..|entries| - 1])
        + (if Selects(s, last.name) && last.node.LocalFile? then [(Child(s.destDirectory, last.name), last.node.content)] else [])
  }

  lemma {:induction false} ErrorPersists(s: PutSettings, entries: seq<LocalEntry>, dirs: set<Path>, files: map<Path, Bytes>, k: nat)
    requires k <= |entries| && PutAll(s, entries[..k], dirs, files).error.Some?
    ensures PutAll(s, entries, dirs, files) == PutAll(s, entries[..k], dirs, files)
  {
    if k < |entries| {
      var n := |entries| - 1;
      assert entries[..n][..k] == entries[..k];
      ErrorPersists(s, entries[..n], dirs, files, k);
    } else {
      assert entries[..k] == entries;
    }
  }

  /** Entries whose names do not match are ignored: the upload is the upload
      of the selected entries alone. */
  lemma {:induction false} UnmatchedEntriesIgnored(s: PutSettings, entries: seq<LocalEntry>, dirs: set<Path>, files: map<Path, Bytes>)
    ensures PutAll(s, entries, dirs, files) == PutAll(s, Selected(s, entries), dirs, files)
  {
    if entries != [] {
      var n := |entries| - 1;
      var last := entries[n];
      assert entries == entries[..n] + [last];
      UnmatchedEntriesIgnored(s, entries[..n], dirs, files);
      PutAllSnoc(s, entries[..n], last, dirs, files);
      var pre := Selected(s, entries[..n]);
      if Selects(s, last.name) {
        assert Selected(s, entries) == pre + [last];
        PutAllSnoc(s, pre, last, dirs, files);
      } else {
        assert Selected(s, entries) == pre;
      }
    }
  }

  /** The upload fails exactly when some entry is blocked: the filter
      selects a local directory, which cannot be opened, or a file whose
      name is taken by a directory in the destination. */
  lemma {:induction false} FailsIffDirectorySelected(s: PutSettings, entries: seq<LocalEntry>, dirs: set<Path>, files: map<Path, Bytes>)
    ensures PutAll(s, entries, dirs, files).error.Some? <==>
      exists e :: e in entries && Blocked(s, dirs, e)
  {
    if entries != [] {
      var n := |entries| - 1;
      FailsIffDirectorySelected(s, entries[..n], dirs, files);
      assert forall e :: e in entries <==> e in entries[..n] || e == entries[n];
      assert PutAll(s, entries, dirs, files).error.Some? <==>
        PutAll(s, entries[..n], dirs, files).error.Some? || Blocked(s, dirs, entries[n]);
    }
  }

  /** An upload that completes leaves the server's files as before with
      every selected file put into the destination directory, in listing
      order. */
  lemma {:induction false} UploadIsOverlay(s: PutSettings, entries: seq<LocalEntry>, dirs: set<Path>, files: map<Path, Bytes>)
    ensures var o := PutAll(s, entries, dirs, files);
      o.error.None? ==> o.files == Overlay(files, Uploads(s, entries))
  {
    if entries != [] {
      var n := |entries| - 1;
      var last := entries[n];
      assert entries == entries[..n] + [last];
      PutAllSnoc(s, entries[..n], last, dirs, files);
      UploadIsOverlay(s, entries[..n], dirs, files);
      var prev := PutAll(s, entries[..n], dirs, files);
      if prev.error.None? && Selects(s, last.name) && last.node.LocalFile? {
        OverlayAppend(files, Uploads(s, entries[..n]), Child(s.destDirectory, last.name), last.node.content);
      } else if prev.error.None? && !Selects(s, last.name) {
        assert Uploads(s, entries) == Uploads(s, entries[..n]);
      }
    }
  }

  /** A selected file no later selected entry shares a name with lands at
      destination/name with its content. */
  lemma UploadLands(s: PutSettings, entries: seq<LocalEntry>, dirs: set<Path>, files: map<Path, Bytes>, i: nat)
    requires i < |entries| && Selects(s, entries[i].name) && entries[i].node.LocalFile?
    requires forall j :: i < j < |entries| ==> entries[j].name != entries[i].name
    ensures var o := PutAll(s, entries, dirs, files);
      o.error.None? ==>
        Child(s.destDirectory, entries[i].name) in o.files &&
        o.files[Child(s.destDirectory, entries[i].name)] == entries[i].node.content
  {
    UploadIsOverlay(s, entries, dirs, files);
    var k := UploadIndex(s, entries, i);
    var u := Uploads(s, entries);
    forall j | k < j < |u| ensures u[j].0 != u[k].0 {
      LaterUploadsFromLaterEntries(s, entries, i, j);
    }
    OverlayLastWins(files, u, k);
  }

  /** Where the upload of entry `i` sits among the uploads. */
  lemma {:induction false} UploadIndex(s: PutSettings, entries: seq<LocalEntry>, i: nat) returns (k: nat)
    requires i < |entries| && Selects(s, entries[i].name) && entries[i].node.LocalFile?
    ensures k < |Uploads(s, entries)|
    ensures Uploads(s, entries)[k] == (Child(s.destDirectory, entries[i].name), entries[i].node.content)
    ensures k == |Uploads(s, entries[..i + 1])| - 1
  {
    var n := |entries| - 1;
    if i == n {
      assert entries[..i + 1] == entries;
      k := |Uploads(s, entries)| - 1;
    } else {
      assert entries[..n][..i + 1] == entries[..i + 1];
      assert entries[..n][i] == entries[i];
      k := UploadIndex(s, entries[..n], i);
    }
  }

  /** An upload after the one of entry `i` comes from a later entry, so under
      the hypothesis of UploadLands it goes elsewhere. */
  lemma {:induction false} LaterUploadsFromLaterEntries(s: PutSettings, entries: seq<LocalEntry>, i: nat, j: nat)
    requires i < |entries|
    requires |Uploads(s, entries[..i + 1])| <= j < |Uploads(s, entries)|
    requires forall m :: i < m < |entries| ==> entries[m].name != entries[i].name
    ensures Uploads(s, entries)[j].0 != Child(s.destDirectory, entries[i].name)
  {
    var n := |entries| - 1;
    var pre := Uploads(s, entries[..n]);
    assert entries[..i + 1][..i] == entries[..i];
    if j < |pre| {
      assert entries[..n][..i + 1] == entries[..i + 1];
      assert entries[..n][i] == entries[i];
      LaterUploadsFromLaterEntries(s, entries[..n], i, j);
    } else if Child(s.destDirectory, entries[n].name) == Child(s.destDirectory, entries[i].name) {
      ChildInjective(s.destDirectory, entries[n].name, entries[i].name);
    }
  }

  /** The upload loop, run in the destination directory. */
  method PutFiles(s: PutSettings, server: Remote.SftpServer, entries: seq<LocalEntry>)
    returns (error: Option<ActionError>)
    requires server.cwd == s.destDirectory
    modifies server
    ensures var o := PutAll(s, entries, old(server.dirs), old(server.files));
      server.files == o.files && error == o.error
    ensures server.dirs == old(server.dirs) && server.cwd == old(server.cwd)
    ensures server.connected == old(server.connected) && server.sessions == old(server.sessions)
  {
    error := None;
    var i := 0;
    while i < |entries|
      invariant 0 <= i <= |entries|
      invariant PutAll(s, entries[..i], server.dirs, old(server.files)) == PutOutcome(server.files, None)
      invariant server.dirs == old(server.dirs) && server.cwd == old(server.cwd)
      invariant server.connected == old(server.connected) && server.sessions == old(server.sessions)
    {
      var e := entries[i];
      assert entries[..i + 1][..i] == entries[..i];
      if Selects(s, e.name) {
        match e.node
        case LocalDirectory =>
          error := Some(StoreFailure(Child(s.srcPath, e.name)));
          ErrorPersists(s, entries, server.dirs, old(server.files), i + 1);
          return;
        case LocalFile(content) =>
          var ok := server.Put(content, e.name);
          if !ok {
            error := Some(RemoteFailure(Child(s.destDirectory, e.name)));
            ErrorPersists(s, entries, server.dirs, old(server.files), i + 1);
            return;
          }
      }
      i := i + 1;
    }
    assert entries[..i] == entries;
  }

  /** Whether mkdir creates the destination directory: nothing is there yet
      and its parent is a directory. */
  predicate MakesDestination(s: PutSettings, files: map<Path, Bytes>, dirs: set<Path>, cwd: Path) {
    s.destDirectory !in files && s.destDirectory !in dirs && Remote.ParentDir(cwd, s.destDirectory) in dirs
  }

  /** A destination `parent/name` is created exactly when nothing is there
      yet and `parent` is already a directory: mkdir makes no parents. */
  lemma NestedDestinationNeedsParent(s: PutSettings, files: map<Path, Bytes>, dirs: set<Path>, cwd: Path,
                                     parent: Path, name: string)
    requires parent != [] && '/' !in name && s.destDirectory == Child(parent, name)
    ensures MakesDestination(s, files, dirs, cwd) <==>
      s.destDirectory !in files && s.destDirectory !in dirs && parent in dirs
  {
    Remote.ParentOfChild(cwd, parent, name);
  }

  /** sftpPutLogic (and the body of the co.cask `run` once connected): a
      failing mkdir is ignored, since the directory may exist; mkdir makes
      no parents, so a destination whose parent is missing is not created;
      cd into the destination fails unless it is a directory; then every
      selected entry is uploaded. */
  method PutLogic(s: PutSettings, server: Remote.SftpServer, entries: seq<LocalEntry>)
    returns (error: Option<ActionError>)
    modifies server
    ensures server.dirs == old(server.dirs) +
      (if MakesDestination(s, old(server.files), old(server.dirs), old(server.cwd)) then {s.destDirectory} else {})
    ensures server.connected == old(server.connected) && server.sessions == old(server.sessions)
    ensures s.destDirectory !in server.dirs ==>
      error == Some(RemoteFailure(s.destDirectory)) && server.files == old(server.files)
    ensures s.destDirectory in server.dirs ==>
      var o := PutAll(s, entries, server.dirs, old(server.files));
      server.files == o.files && error == o.error && server.cwd == s.destDirectory
  {
    var made := server.Mkdir(s.destDirectory);
    var entered := server.Cd(s.destDirectory);
    if !entered {
      return Some(RemoteFailure(s.destDirectory));
    }
    error := PutFiles(s, server, entries);
  }

  /** `run`. A missing source path raises before any connection is made;
      every later failure is caught and logged. `sourceExists` and `entries`
      stand for the source filesystem's exists and listStatus. */
  method Run(cfg: PutConfig, matches: (string, string) -> bool, sourceExists: bool, entries: seq<LocalEntry>,
             server: Remote.SftpServer)
    returns (raised: Option<ActionError>, logged: Option<ActionError>)
    requires !server.connected
    modifies server
    ensures !server.connected
    ensures var cred := SftpActionConfig.SelectCredential(cfg.base);
      var s := SettingsOf(cfg, matches);
      if !sourceExists then
        raised == Some(SourceMissing(cfg.srcPath)) && logged.None? &&
        server.sessions == old(server.sessions) && server.files == old(server.files) && server.dirs == old(server.dirs)
      else if cred.Err? then
        raised.None? && logged == Some(cred.error) &&
        server.sessions == old(server.sessions) && server.files == old(server.files) && server.dirs == old(server.dirs)
      else if cred.value !in server.authorized then
        raised.None? && logged == Some(ConnectFailure) &&
        server.sessions == old(server.sessions) && server.files == old(server.files) && server.dirs == old(server.dirs)
      else
        raised.None? && server.sessions == old(server.sessions) + 1 &&
        server.dirs == old(server.dirs) +
          (if MakesDestination(s, old(server.files), old(server.dirs), old(server.cwd)) then {s.destDirectory} else {}) &&
        (s.destDirectory !in server.dirs ==> logged == Some(RemoteFailure(s.destDirectory)) && server.files == old(server.files)) &&
        (s.destDirectory in server.dirs ==>
          logged == PutAll(s, entries, server.dirs, old(server.files)).error &&
          server.files == PutAll(s, entries, server.dirs, old(server.files)).files)
  {
    raised, logged := None, None;
    if !sourceExists {
      raised := Some(SourceMissing(cfg.srcPath));
      return;
    }
    var cred := SftpActionConfig.SelectCredential(cfg.base);
    if cred.Err? {
      logged := Some(cred.error);
      return;
    }
    var connected := server.Connect(cred.value);
    if !connected {
      logged := Some(ConnectFailure);
      return;
    }
    logged := PutLogic(SettingsOf(cfg, matches), server, entries);
    server.Close();
  }
}
