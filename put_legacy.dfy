/** The co.cask SFTPPutAction: the same upload as the io.cdap version, but
    always authenticated with the password, and every failure propagates out
    of `run`. */
module LegacySftpPut {
  import opened Common
  import opened SftpPut
  import Remote

  /** `run`. A missing source path raises before any connection is made; the
      session is closed on every path once it is open. */
  method Run(cfg: PutConfig, matches: (string, string) -> bool, sourceExists: bool, entries: seq<LocalEntry>,
             server: Remote.SftpServer)
    returns (error: Option<ActionError>)
    requires !server.connected
    modifies server
    ensures !server.connected
    ensures var s := SettingsOf(cfg, matches);
      if !sourceExists then
        error == Some(SourceMissing(cfg.srcPath)) &&
        server.sessions == old(server.sessions) && server.files == old(server.files) && server.dirs == old(server.dirs)
      else if Remote.PasswordAuth(cfg.base.password) !in server.authorized then
        error == Some(ConnectFailure) &&
        server.sessions == old(server.sessions) && server.files == old(server.files) && server.dirs == old(server.dirs)
      else
        server.sessions == old(server.sessions) + 1 &&
        server.dirs == old(server.dirs) +
          (if MakesDestination(s, old(server.files), old(server.dirs), old(server.cwd)) then {s.destDirectory} else {}) &&
        (s.destDirectory !in server.dirs ==> error == Some(RemoteFailure(s.destDirectory)) && server.files == old(server.files)) &&
        (s.destDirectory in server.dirs ==>
          error == PutAll(s, entries, server.dirs, old(server.files)).error &&
          server.files == PutAll(s, entries, server.dirs, old(server.files)).files)
  {
    if !sourceExists {
      return Some(SourceMissing(cfg.srcPath));
    }
    var connected := server.Connect(Remote.PasswordAuth(cfg.base.password));
    if !connected {
      return Some(ConnectFailure);
    }
    error := PutLogic(SettingsOf(cfg, matches), server, entries);
    server.Close();
  }
}
