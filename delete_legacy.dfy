/** The co.cask SFTPDeleteAction: the same remove loop as the io.cdap
    version, always authenticated with the password, and a rethrown failure
    propagates out of `run`. */
module LegacySftpDelete {
  import opened Common
  import opened SftpDelete
  import Remote

  /** `run`: nothing at all for a null or empty list; otherwise connect with
      the password and run the remove loop. The session is closed on every
      path once it is open. */
  method Run(cfg: DeleteConfig, server: Remote.SftpServer) returns (warned: seq<Path>, error: Option<ActionError>)
    requires !server.connected
    modifies server
    ensures !server.connected && server.dirs == old(server.dirs)
    ensures IsNullOrEmpty(cfg.filesToDelete) ==>
      warned == [] && error.None? && server.files == old(server.files) && server.sessions == old(server.sessions)
    ensures !IsNullOrEmpty(cfg.filesToDelete) && Remote.PasswordAuth(cfg.base.password) !in server.authorized ==>
      warned == [] && error == Some(ConnectFailure) && server.files == old(server.files) && server.sessions == old(server.sessions)
    ensures !IsNullOrEmpty(cfg.filesToDelete) && Remote.PasswordAuth(cfg.base.password) in server.authorized ==>
      var o := DeleteAll(old(server.files), PathsToDelete(cfg.filesToDelete.value), cfg.continueOnError);
      server.files == o.files && warned == o.warned && error == o.error && server.sessions == old(server.sessions) + 1
  {
    warned, error := [], None;
    if IsNullOrEmpty(cfg.filesToDelete) {
      return;
    }
    var connected := server.Connect(Remote.PasswordAuth(cfg.base.password));
    if !connected {
      error := Some(ConnectFailure);
      return;
    }
    warned, error := DeleteFiles(server, PathsToDelete(cfg.filesToDelete.value), cfg.continueOnError);
    server.Close();
  }
}
