/** The io.cdap SFTPCopyAction: copies one remote directory listing into the
    destination filesystem, expanding .zip archives, and publishes the
    comma-joined list of every entry it fetched, archives included. It
    authenticates with a password or a private key, and logs failures
    instead of raising them. */
module SftpCopy {
  import opened Common
  import opened Destination
  import opened Transfer
  import Remote
  import SftpActionConfig

  /** SFTPCopyActionConfig. Java null is None. */
  datatype SftpCopyConfig = SftpCopyConfig(
    base: SftpActionConfig.Config,
    copy: CopyConfig,
    fileSystemProperties: Option<string>)

  /** The destination files and filesCopied. */
  datatype CopyState = CopyState(files: map<Path, Bytes>, copied: seq<Path>)

  datatype CopyOutcome = CopyOutcome(state: CopyState, error: Option<ActionError>)

  /** One iteration of the loop of sftpCopyLogic: an admitted entry is
      fetched and, when that succeeds, listed. */
  function CopyStep(s: Settings, st: CopyState, e: RemoteEntry): CopyOutcome {
    if !Admits(s, e.filename) then CopyOutcome(st, None)
    else
      var f := Fetch(s, st.files, e);
      if f.error.Some? then CopyOutcome(st.(files := f.files), f.error)
      else CopyOutcome(CopyState(f.files, st.copied + [SourcePath(s, e.filename)]), None)
  }

  /** The loop over a listing: each entry in order, stopping at the first
      error. */
  function CopyAll(s: Settings, entries: seq<RemoteEntry>, init: CopyState): CopyOutcome {
    if entries == [] then CopyOutcome(init, None)
    else
      var prev := CopyAll(s, entries[..|entries| - 1], init);
      if prev.error.Some? then prev else CopyStep(s, prev.state, entries[|entries| - 1])
  }

  lemma CopyAllSnoc(s: Settings, pre: seq<RemoteEntry>, e: RemoteEntry, init: CopyState)
    ensures CopyAll(s, pre + [e], init) ==
      var prev := CopyAll(s, pre, init);
      if prev.error.Some? then prev else CopyStep(s, prev.state, e)
  {
    assert (pre + [e])[..|pre|] == pre;
  }

  /** Every destination write the admitted files of a listing make, in
      listing order. */
  function AllWrites(s: Settings, entries: seq<RemoteEntry>): seq<(Path, Bytes)> {
    if entries == [] then []
    else
      var last := entries[|entries| - 1];
      AllWrites(s, entries[..|entries| - 1])
        + (if Admits(s, last.filename) && last.node.RegularFile? then Writes(s, last) else [])
  }

  lemma {:induction false} ErrorPersists(s: Settings, entries: seq<RemoteEntry>, init: CopyState, k: nat)
    requires k <= |entries| && CopyAll(s, entries[..k], init).error.Some?
    ensures CopyAll(s, entries, init) == CopyAll(s, entries[..k], init)
  {
    if k < |entries| {
      var n := |entries| - 1;
      assert entries[..n][..k] == entries[..k];
      ErrorPersists(s, entries[..n], init, k);
    } else {
      assert entries[..k] == entries;
    }
  }

  /** Entries the filter rejects have no effect: the run is the run over the
      admitted entries alone. */
  lemma {:induction false} SkippedEntriesHaveNoEffect(s: Settings, entries: seq<RemoteEntry>, init: CopyState)
    ensures CopyAll(s, entries, init) == CopyAll(s, AdmittedOnly(s, entries), init)
  {
    if entries != [] {
      var n := |entries| - 1;
      var last := entries[n];
      assert entries == entries[..n] + [last];
      SkippedEntriesHaveNoEffect(s, entries[..n], init);
      CopyAllSnoc(s, entries[..n], last, init);
      var pre := AdmittedOnly(s, entries[..n]);
      if Admits(s, last.filename) {
        assert AdmittedOnly(s, entries) == pre + [last];
        CopyAllSnoc(s, pre, last, init);
      } else {
        assert AdmittedOnly(s, entries) == pre;
      }
    }
  }

  /** The run fails exactly when some admitted entry cannot be fetched: a
      directory, or a malformed archive. */
  lemma {:induction false} FailsIffSomeFetchFails(s: Settings, entries: seq<RemoteEntry>, init: CopyState)
    ensures CopyAll(s, entries, init).error.Some? <==>
      exists e :: e in entries && Admits(s, e.filename) && FetchFails(s, e)
  {
    if entries != [] {
      var n := |entries| - 1;
      FailsIffSomeFetchFails(s, entries[..n], init);
      assert forall e :: e in entries <==> e in entries[..n] || e == entries[n];
    }
  }

  /** A run that completes lists the source path of every admitted entry, in
      listing order, expanded archives included. */
  lemma {:induction false} EveryAdmittedEntryListed(s: Settings, entries: seq<RemoteEntry>, init: CopyState)
    ensures var o := CopyAll(s, entries, init);
      o.error.None? ==> o.state.copied == init.copied + SourcePaths(s, AdmittedOnly(s, entries))
  {
    if entries != [] {
      var n := |entries| - 1;
      var last := entries[n];
      assert entries == entries[..n] + [last];
      CopyAllSnoc(s, entries[..n], last, init);
      EveryAdmittedEntryListed(s, entries[..n], init);
      var pre := AdmittedOnly(s, entries[..n]);
      if Admits(s, last.filename) {
        assert AdmittedOnly(s, entries) == pre + [last];
        SourcePathsSnoc(s, pre, last);
        SeqAssoc(init.copied, SourcePaths(s, pre), [SourcePath(s, last.filename)]);
      } else {
        assert AdmittedOnly(s, entries) == pre;
      }
    }
  }

  /** A run that completes leaves the destination as the earlier files with
      every write of every admitted file applied in listing order; so a path
      written more than once holds the last content written to it. */
  lemma {:induction false} DestinationIsOverlayOfWrites(s: Settings, entries: seq<RemoteEntry>, init: CopyState)
    ensures var o := CopyAll(s, entries, init);
      o.error.None? ==> o.state.files == Overlay(init.files, AllWrites(s, entries))
  {
    if entries != [] {
      var n := |entries| - 1;
      var last := entries[n];
      assert entries == entries[..n] + [last];
      CopyAllSnoc(s, entries[..n], last, init);
      DestinationIsOverlayOfWrites(s, entries[..n], init);
      var prev := CopyAll(s, entries[..n], init);
      if prev.error.None? && Admits(s, last.filename) && !FetchFails(s, last) {
        FetchWrites(s, prev.state.files, last);
        OverlayConcat(init.files, AllWrites(s, entries[..n]), Writes(s, last));
      } else if prev.error.None? && Admits(s, last.filename) {
        FetchFailsExactly(s, prev.state.files, last);
      } else if prev.error.None? {
        assert AllWrites(s, entries) == AllWrites(s, entries[..n]);
      }
    }
  }

  /** getFileSystemProperties. `parse` is
      KeyValueListParser("\\s*,\\s*", "=>").parse, whose code is not part of
      this model. */
  method GetFileSystemProperties(cfg: SftpCopyConfig, parse: string -> seq<(string, string)>)
    returns (props: map<string, string>)
    ensures IsNullOrEmpty(cfg.fileSystemProperties) ==> props == map[]
    ensures !IsNullOrEmpty(cfg.fileSystemProperties) ==>
      var pairs := parse(cfg.fileSystemProperties.value);
      props == Overlay(map[], pairs) && props.Keys == KeysOf(pairs)
  {
    props := map[];
    if IsNullOrEmpty(cfg.fileSystemProperties) {
      return;
    }
    var pairs := parse(cfg.fileSystemProperties.value);
    var i := 0;
    while i < |pairs|
      invariant 0 <= i <= |pairs|
      invariant props == Overlay(map[], pairs[..i])
    {
      assert pairs[..i + 1][..i] == pairs[..i];
      props := props[pairs[i].0 := pairs[i].1];
      i := i + 1;
    }
    assert pairs[..i] == pairs;
    OverlayKeys(map[], pairs);
  }

  /** The loop of sftpCopyLogic. */
  method CopyFiles(s: Settings, store: FileStore, entries: seq<RemoteEntry>)
    returns (copied: seq<Path>, error: Option<ActionError>)
    modifies store
    ensures var o := CopyAll(s, entries, CopyState(old(store.files), []));
      store.files == o.state.files && copied == o.state.copied && error == o.error
    ensures store.dirs == old(store.dirs)
  {
    ghost var init := CopyState(store.files, []);
    copied, error := [], None;
    var i := 0;
    while i < |entries|
      invariant 0 <= i <= |entries|
      invariant CopyAll(s, entries[..i], init) == CopyOutcome(CopyState(store.files, copied), None)
      invariant store.dirs == old(store.dirs) && error.None?
    {
      var e := entries[i];
      assert entries[..i + 1][..i] == entries[..i];
      if Admits(s, e.filename) {
        error := FetchEntry(s, store, e);
        if error.Some? {
          ErrorPersists(s, entries, init, i + 1);
          return;
        }
        copied := copied + [SourcePath(s, e.filename)];
      }
      i := i + 1;
    }
    assert entries[..i] == entries;
  }

  /** sftpCopyLogic: list the source directory, copy, and on success publish
      the comma-joined list under the configured variable name. */
  method SftpCopyLogic(s: Settings, variableName: string, listing: Option<seq<RemoteEntry>>,
                       store: FileStore, args: PipelineArguments)
    returns (error: Option<ActionError>)
    modifies store, args
    ensures listing.None? ==>
      error == Some(RemoteFailure(s.srcDirectory)) &&
      store.files == old(store.files) && args.values == old(args.values)
    ensures listing.Some? ==>
      var o := CopyAll(s, listing.value, CopyState(old(store.files), []));
      error == o.error && store.files == o.state.files &&
      args.values == (if o.error.None? then old(args.values)[variableName := Join(o.state.copied, ',')]
                      else old(args.values))
    ensures store.dirs == old(store.dirs)
  {
    if listing.None? {
      return Some(RemoteFailure(s.srcDirectory));
    }
    var copied;
    copied, error := CopyFiles(s, store, listing.value);
    if error.None? {
      args.Set(variableName, Join(copied, ','));
    }
  }

  /** `run`: create the destination directory if absent, open the connector
      the authentication type selects, and run sftpCopyLogic. Every failure
      after the directory is created is caught and logged; `logged` is what
      is logged. The session is closed on every path. */
  method Run(cfg: SftpCopyConfig, matches: (string, string) -> bool, unzip: Bytes -> Archive,
             listing: Option<seq<RemoteEntry>>, store: FileStore, args: PipelineArguments,
             server: Remote.SftpServer)
    returns (logged: Option<ActionError>)
    requires !server.connected
    modifies store, args, server
    ensures store.dirs == old(store.dirs) + (if old(store.Exists(cfg.copy.destDirectory)) then {} else {cfg.copy.destDirectory})
    ensures !server.connected
    ensures server.files == old(server.files) && server.dirs == old(server.dirs)
    ensures var cred := SftpActionConfig.SelectCredential(cfg.base);
      var s := SettingsOf(cfg.copy, matches, unzip);
      if cred.Err? then
        logged == Some(cred.error) && server.sessions == old(server.sessions) &&
        store.files == old(store.files) && args.values == old(args.values)
      else if cred.value !in server.authorized then
        logged == Some(ConnectFailure) && server.sessions == old(server.sessions) &&
        store.files == old(store.files) && args.values == old(args.values)
      else if listing.None? then
        logged == Some(RemoteFailure(s.srcDirectory)) && server.sessions == old(server.sessions) + 1 &&
        store.files == old(store.files) && args.values == old(args.values)
      else
        var o := CopyAll(s, listing.value, CopyState(old(store.files), []));
        logged == o.error && server.sessions == old(server.sessions) + 1 && store.files == o.state.files &&
        args.values == (if o.error.None?
                        then old(args.values)[GetVariableNameHoldingFileList(cfg.copy) := Join(o.state.copied, ',')]
                        else old(args.values))
  {
    var destination := cfg.copy.destDirectory;
    if !store.Exists(destination) {
      store.Mkdirs(destination);
    }
    var cred := SftpActionConfig.SelectCredential(cfg.base);
    if cred.Err? {
      return Some(cred.error);
    }
    var connected := server.Connect(cred.value);
    if !connected {
      return Some(ConnectFailure);
    }
    var s := SettingsOf(cfg.copy, matches, unzip);
    logged := SftpCopyLogic(s, GetVariableNameHoldingFileList(cfg.copy), listing, store, args);
    server.Close();
  }
}
