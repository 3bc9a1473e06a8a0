/** The io.cdap SFTPDeleteAction, and the remove loop it shares with the
    co.cask version: split the comma-separated list and remove each path on
    the server in order, either stopping at the first failure or, with
    continueOnError, logging it and going on. */
module SftpDelete {
  import opened Common
  import Remote
  import SftpActionConfig

  /** SFTPDeleteActionConfig. `continueOnError` is a plain boolean field, so
      it is false unless set. */
  datatype DeleteConfig = DeleteConfig(
    base: SftpActionConfig.Config,
    filesToDelete: Option<string>,
    continueOnError: bool)

  /** The paths filesToDelete.split(",") yields. */
  function PathsToDelete(filesToDelete: string): seq<Path> {
    JavaSplit(filesToDelete, ',')
  }

  /** The server's files after the loop, the paths whose removal failed and
      was only logged, and the failure that stopped the loop, if any. */
  datatype DeleteOutcome = DeleteOutcome(files: map<Path, Bytes>, warned: seq<Path>, error: Option<ActionError>)

  /** One iteration: rm removes a regular file; on any other path it fails,
      which is logged under continueOnError and rethrown otherwise. */
  function DeleteStep(continueOnError: bool, o: DeleteOutcome, p: Path): DeleteOutcome {
    if p in o.files then o.(files := o.files - {p})
    else if continueOnError then o.(warned := o.warned + [p])
    else o.(error := Some(RemoteFailure(p)))
  }

  /** The remove loop over the paths in order, stopping at the first
      rethrown failure. */
  function DeleteAll(files: map<Path, Bytes>, paths: seq<Path>, continueOnError: bool): DeleteOutcome {
    if paths == [] then DeleteOutcome(files, [], None)
    else
      var prev := DeleteAll(files, paths[..|paths| - 1], continueOnError);
      if prev.error.Some? then prev else DeleteStep(continueOnError, prev, paths[|paths| - 1])
  }

  /** Whether the i-th path is a file when its turn comes, given that every
      earlier path was removed. */
  predicate PresentAtTurn(files: map<Path, Bytes>, paths: seq<Path>, i: nat)
    requires i < |paths|
  {
    paths[i] in files && paths[i] !in paths[..i]
  }

  /** The k-th path is the first one that is not a file at its turn. */
  predicate FirstAbsent(files: map<Path, Bytes>, paths: seq<Path>, k: int) {
    && 0 <= k < |paths|
    && !PresentAtTurn(files, paths, k)
    && forall i :: 0 <= i < k ==> PresentAtTurn(files, paths, i)
  }

  /** The paths that are not a file when their turn comes, in list order
      and with repetitions: the paths continueOnError logs. */
  function AbsentAtTurn(files: map<Path, Bytes>, paths: seq<Path>): (r: seq<Path>)
    ensures |r| <= |paths|
    ensures forall p :: p in r ==> p in paths
  {
    if paths == [] then []
    else
      var n := |paths| - 1;
      AbsentAtTurn(files, paths[..n]) + (if PresentAtTurn(files, paths, n) then [] else [paths[n]])
  }

  lemma {:induction false} ErrorPersists(files: map<Path, Bytes>, paths: seq<Path>, continueOnError: bool, k: nat)
    requires k <= |paths| && DeleteAll(files, paths[..k], continueOnError).error.Some?
    ensures DeleteAll(files, paths, continueOnError) == DeleteAll(files, paths[..k], continueOnError)
  {
    if k < |paths| {
      var n := |paths| - 1;
      assert paths[..n][..k] == paths[..k];
      ErrorPersists(files, paths[..n], continueOnError, k);
    } else {
      assert paths[..k] == paths;
    }
  }

  /** Every path the loop reaches is gone afterwards, whether its removal
      succeeded or not; files not named are untouched. A loop that completes
      has reached every path. */
  lemma {:induction false} ReachedPathsRemoved(files: map<Path, Bytes>, paths: seq<Path>, continueOnError: bool)
    ensures var o := DeleteAll(files, paths, continueOnError);
      o.error.None? ==> o.files == files - Elems(paths)
  {
    if paths != [] {
      var n := |paths| - 1;
      ReachedPathsRemoved(files, paths[..n], continueOnError);
      assert Elems(paths) == Elems(paths[..n]) + {paths[n]} by {
        assert forall p :: p in paths <==> p in paths[..n] || p == paths[n];
      }
    }
  }

  /** With continueOnError, the loop never fails: every path is attempted
      and removed, every path that was not a file at its turn is logged, and
      only paths of the list are (ContinueOnErrorLogsExactlyAbsent gives the
      log itself). */
  lemma ContinueOnErrorAttemptsAll(files: map<Path, Bytes>, paths: seq<Path>)
    ensures var o := DeleteAll(files, paths, true);
      o.error.None? && o.files == files - Elems(paths) &&
      (forall p :: p in o.warned ==> p in paths) &&
      (forall i :: 0 <= i < |paths| && !PresentAtTurn(files, paths, i) ==> paths[i] in o.warned) &&
      (o.warned == [] <==> forall i :: 0 <= i < |paths| ==> PresentAtTurn(files, paths, i))
  {
    ContinueOnErrorNeverFails(files, paths);
    ContinueOnErrorLogsExactlyAbsent(files, paths);
    AbsentAtTurnComplete(files, paths);
    AbsentAtTurnEmpty(files, paths);
  }

  lemma {:induction false} ContinueOnErrorNeverFails(files: map<Path, Bytes>, paths: seq<Path>)
    ensures var o := DeleteAll(files, paths, true);
      o.error.None? && o.files == files - Elems(paths)
  {
    if paths != [] {
      ContinueOnErrorNeverFails(files, paths[..|paths| - 1]);
    }
    ReachedPathsRemoved(files, paths, true);
  }

  /** Every path that is not a file at its turn is among the absent ones. */
  lemma {:induction false} AbsentAtTurnComplete(files: map<Path, Bytes>, paths: seq<Path>)
    ensures forall i :: 0 <= i < |paths| && !PresentAtTurn(files, paths, i) ==> paths[i] in AbsentAtTurn(files, paths)
  {
    if paths != [] {
      var n := |paths| - 1;
      AbsentAtTurnComplete(files, paths[..n]);
      forall i | 0 <= i < |paths| && !PresentAtTurn(files, paths, i)
        ensures paths[i] in AbsentAtTurn(files, paths)
      {
        if i < n {
          assert paths[..n][i] == paths[i] && paths[..n][..i] == paths[..i];
          assert !PresentAtTurn(files, paths[..n], i);
        }
      }
    }
  }

  /** There are no absent paths exactly when every path is a file at its
      turn. */
  lemma {:induction false} AbsentAtTurnEmpty(files: map<Path, Bytes>, paths: seq<Path>)
    ensures AbsentAtTurn(files, paths) == [] <==> forall i :: 0 <= i < |paths| ==> PresentAtTurn(files, paths, i)
  {
    AbsentAtTurnComplete(files, paths);
    if paths != [] && forall i :: 0 <= i < |paths| ==> PresentAtTurn(files, paths, i) {
      var n := |paths| - 1;
      forall i | 0 <= i < n ensures PresentAtTurn(files, paths[..n], i) {
        assert paths[..n][i] == paths[i] && paths[..n][..i] == paths[..i];
        assert PresentAtTurn(files, paths, i);
      }
      AbsentAtTurnEmpty(files, paths[..n]);
    }
  }

  /** With continueOnError, the log is exactly the paths that were not a
      file at their turn, in list order. */
  lemma {:induction false} ContinueOnErrorLogsExactlyAbsent(files: map<Path, Bytes>, paths: seq<Path>)
    ensures DeleteAll(files, paths, true).warned == AbsentAtTurn(files, paths)
  {
    if paths != [] {
      var n := |paths| - 1;
      var prev := DeleteAll(files, paths[..n], true);
      ContinueOnErrorLogsExactlyAbsent(files, paths[..n]);
      ContinueOnErrorNeverFails(files, paths[..n]);
      assert paths[n] in prev.files <==> PresentAtTurn(files, paths, n) by {
        assert Elems(paths[..n]) == set p | p in paths[..n];
      }
    }
  }

  /** Without continueOnError, the loop fails exactly when some path is not
      a file at its turn; it then fails on the first such path, having
      removed exactly the paths before it and left the later ones alone. */
  lemma {:induction false} StrictStopsAtFirstFailure(files: map<Path, Bytes>, paths: seq<Path>)
    ensures var o := DeleteAll(files, paths, false);
      o.warned == [] &&
      (o.error.None? <==> forall i :: 0 <= i < |paths| ==> PresentAtTurn(files, paths, i)) &&
      (o.error.Some? ==>
        exists k :: FirstAbsent(files, paths, k) && o.error == Some(RemoteFailure(paths[k])) && o.files == files - Elems(paths[..k]))
  {
    if paths != [] {
      var n := |paths| - 1;
      var prev := DeleteAll(files, paths[..n], false);
      StrictStopsAtFirstFailure(files, paths[..n]);
      assert forall i :: 0 <= i < n ==> paths[..n][i] == paths[i] && paths[..n][..i] == paths[..i];
      assert forall i :: 0 <= i < n ==> (PresentAtTurn(files, paths[..n], i) <==> PresentAtTurn(files, paths, i));
      if prev.error.None? {
        ReachedPathsRemoved(files, paths[..n], false);
        assert paths[n] in prev.files <==> PresentAtTurn(files, paths, n) by {
          assert Elems(paths[..n]) == set p | p in paths[..n];
        }
        if paths[n] !in prev.files {
          assert FirstAbsent(files, paths, n);
        }
      } else {
        var k :| FirstAbsent(files, paths[..n], k) &&
          prev.error == Some(RemoteFailure(paths[..n][k])) && prev.files == files - Elems(paths[..n][..k]);
        assert paths[..n][..k] == paths[..k];
        assert FirstAbsent(files, paths, k);
      }
    }
  }

  /** Naming one file twice fails without continueOnError: the second
      removal finds nothing. */
  lemma DuplicatePathFailsWhenStrict(files: map<Path, Bytes>, p: Path)
    ensures var o := DeleteAll(files, [p, p], false);
      o.error == Some(RemoteFailure(p)) && o.files == files - {p}
  {
    StrictStopsAtFirstFailure(files, [p, p]);
    assert !PresentAtTurn(files, [p, p], 1) by {
      assert [p, p][..1] == [p];
    }
    assert [p, p][..0] == [];
    assert [p, p][..1] == [p];
    assert Elems([p]) == {p};
  }

  /** The remove loop over the server. */
  method DeleteFiles(server: Remote.SftpServer, paths: seq<Path>, continueOnError: bool)
    returns (warned: seq<Path>, error: Option<ActionError>)
    modifies server
    ensures var o := DeleteAll(old(server.files), paths, continueOnError);
      server.files == o.files && warned == o.warned && error == o.error
    ensures server.dirs == old(server.dirs) && server.cwd == old(server.cwd)
    ensures server.connected == old(server.connected) && server.sessions == old(server.sessions)
  {
    warned, error := [], None;
    var i := 0;
    while i < |paths|
      invariant 0 <= i <= |paths|
      invariant DeleteAll(old(server.files), paths[..i], continueOnError) == DeleteOutcome(server.files, warned, None)
      invariant server.dirs == old(server.dirs) && server.cwd == old(server.cwd)
      invariant server.connected == old(server.connected) && server.sessions == old(server.sessions)
    {
      assert paths[..i + 1][..i] == paths[..i];
      var removed := server.Rm(paths[i]);
      if !removed {
        if continueOnError {
          warned := warned + [paths[i]];
        } else {
          error := Some(RemoteFailure(paths[i]));
          ErrorPersists(old(server.files), paths, continueOnError, i + 1);
          return;
        }
      }
      i := i + 1;
    }
    assert paths[..i] == paths;
  }

  /** `run`: nothing at all for a null or empty list; otherwise open the
      connector the authentication type selects and run the remove loop.
      A failure is caught and logged; `logged` is what is logged. */
  method Run(cfg: DeleteConfig, server: Remote.SftpServer) returns (warned: seq<Path>, logged: Option<ActionError>)
    requires !server.connected
    modifies server
    ensures !server.connected && server.dirs == old(server.dirs)
    ensures var cred := SftpActionConfig.SelectCredential(cfg.base);
      if IsNullOrEmpty(cfg.filesToDelete) || cred.Err? || cred.value !in server.authorized then
        warned == [] && server.files == old(server.files) && server.sessions == old(server.sessions) &&
        logged == (if IsNullOrEmpty(cfg.filesToDelete) then None else if cred.Err? then Some(cred.error) else Some(ConnectFailure))
      else
        var o := DeleteAll(old(server.files), PathsToDelete(cfg.filesToDelete.value), cfg.continueOnError);
        server.files == o.files && warned == o.warned && logged == o.error && server.sessions == old(server.sessions) + 1
  {
    warned, logged := [], None;
    if IsNullOrEmpty(cfg.filesToDelete) {
      return;
    }
    var cred := SftpActionConfig.SelectCredential(cfg.base);
    if cred.Err? {
      logged := Some(cred.error);
      return;
    }
    var connected := server.Connect(cred.value);
    if !connected {
      logged := Some(ConnectFailure);
      return;
    }
    warned, logged := DeleteFiles(server, PathsToDelete(cfg.filesToDelete.value), cfg.continueOnError);
    server.Close();
  }
}
