/** SCPRemotetoRemoteAction: log in to a bastion host with a private key and
    run one scp command there that copies a path from host A to host B. The
    command line is built from the configuration. */
module ScpRemoteToRemote {
  import opened Common
  import Utf8
  import Remote
  import SftpActionConfig

  /** SCPRemotetoRemoteActionConfig. The key and the three flag settings
      may be left unset; reading an unset one throws. */
  datatype ScpConfig = ScpConfig(
    hostBastion: string,
    port: Option<int>,
    userNameBastion: string,
    privateKey: Option<string>,
    passphrase: Option<string>,
    userNameA: string,
    hostA: string,
    sourcePath: string,
    userNameB: string,
    hostB: string,
    destPath: string,
    compressFlag: Option<string>,
    verboseFlag: Option<string>,
    dirFlag: Option<string>)

  const DirectoryOff := "directory-off"
  const CompressionOff := "compression-off"
  const VerboseOff := "verbose-off"

  /** getPort */
  function GetPort(cfg: ScpConfig): (p: int)
    ensures cfg.port.None? ==> p == SftpActionConfig.DefaultPort
    ensures cfg.port.Some? ==> p == cfg.port.value
  {
    if cfg.port.Some? then cfg.port.value else SftpActionConfig.DefaultPort
  }

  /** getPassphrase: no bytes for null, the UTF-8 bytes otherwise. */
  function GetPassphrase(cfg: ScpConfig): (r: Bytes)
    ensures cfg.passphrase.None? ==> r == []
    ensures cfg.passphrase.Some? ==> Utf8.Decode(r) == Some(cfg.passphrase.value)
  {
    SftpActionConfig.PassphraseBytes(cfg.passphrase)
  }

  /** getPrivateKey: the key's UTF-8 bytes; an unset key throws. */
  function GetPrivateKey(cfg: ScpConfig): (r: Result<Bytes>)
    ensures r.Err? <==> cfg.privateKey.None?
    ensures r.Err? ==> r.error == MissingPrivateKey
    ensures r.Ok? ==> Utf8.Decode(r.value) == Some(cfg.privateKey.value)
  {
    match cfg.privateKey
    case None => Err(MissingPrivateKey)
    case Some(key) =>
      Utf8.DecodeEncode(key);
      Ok(Utf8.Encode(key))
  }

  /** `user@host:path`, the form scp takes a remote path in. */
  function RemoteSpec(user: string, host: string, path: string): string {
    user + "@" + host + ":" + path
  }

  /** The position of the first `c` in `s`, if any. */
  function IndexOf(s: string, c: char): (r: Option<nat>)
    ensures r.Some? <==> c in s
    ensures r.Some? ==> r.value < |s| && s[r.value] == c && c !in s[..r.value]
  {
    if s == [] then None
    else if s[0] == c then Some(0)
    else
      var rest := IndexOf(s[1..], c);
      if rest.None? then None
      else
        assert s[..rest.value + 1] == [s[0]] + s[1..][..rest.value];
        Some(rest.value + 1)
  }

  /** How a remote spec reads back: the user up to the first '@', the host
      up to the next ':', the path after it. */
  function ParseRemoteSpec(spec: string): Option<(string, string, string)> {
    match IndexOf(spec, '@')
    case None => None
    case Some(at) =>
      var rest := spec[at + 1..];
      match IndexOf(rest, ':')
      case None => None
      case Some(colon) => Some((spec[..at], rest[..colon], rest[colon + 1..]))
  }

  lemma IndexOfAfter(x: string, c: char, t: string)
    requires c !in x
    ensures IndexOf(x + [c] + t, c) == Some(|x|)
  {
    var s := x + [c] + t;
    var r := IndexOf(s, c);
    assert s[|x|] == c;
    assert c in s;
  }

  /** A spec is read back into its parts when the user holds no '@' and the
      host no ':'. */
  lemma RemoteSpecRoundTrip(user: string, host: string, path: string)
    requires '@' !in user && ':' !in host
    ensures ParseRemoteSpec(RemoteSpec(user, host, path)) == Some((user, host, path))
  {
    var spec := RemoteSpec(user, host, path);
    assert spec == user + ['@'] + (host + ":" + path);
    IndexOfAfter(user, '@', host + ":" + path);
    var rest := spec[|user| + 1..];
    assert rest == host + [':'] + path;
    IndexOfAfter(host, ':', path);
    assert spec[..|user|] == user;
    assert rest[..|host|] == host;
    assert rest[|host| + 1..] == path;
  }

  /** One scp option: empty exactly when the setting is the "off" value,
      the option otherwise. */
  function Flag(setting: string, off: string, on: string): (f: string)
    requires on != ""
    ensures f == "" <==> setting == off
    ensures setting != off ==> f == on
  {
    if setting == off then "" else on
  }

  /** All three flag settings are set, so reading them does not throw. */
  predicate FlagsSet(cfg: ScpConfig) {
    cfg.compressFlag.Some? && cfg.verboseFlag.Some? && cfg.dirFlag.Some?
  }

  /** The first unset flag setting in the order `run` reads them. */
  function FirstUnsetFlag(cfg: ScpConfig): (name: string)
    requires !FlagsSet(cfg)
  {
    if cfg.dirFlag.None? then "directoryFlag"
    else if cfg.compressFlag.None? then "compressionFlag"
    else "verboseFlag"
  }

  function DirOption(cfg: ScpConfig): (f: string)
    requires cfg.dirFlag.Some?
    ensures f == "" <==> cfg.dirFlag.value == DirectoryOff
    ensures f != "" ==> f == "-r"
  {
    Flag(cfg.dirFlag.value, DirectoryOff, "-r")
  }

  function CompressOption(cfg: ScpConfig): (f: string)
    requires cfg.compressFlag.Some?
    ensures f == "" <==> cfg.compressFlag.value == CompressionOff
    ensures f != "" ==> f == "-C"
  {
    Flag(cfg.compressFlag.value, CompressionOff, "-C")
  }

  function VerboseOption(cfg: ScpConfig): (f: string)
    requires cfg.verboseFlag.Some?
    ensures f == "" <==> cfg.verboseFlag.value == VerboseOff
    ensures f != "" ==> f == "-v"
  {
    Flag(cfg.verboseFlag.value, VerboseOff, "-v")
  }

  function SourceSpec(cfg: ScpConfig): string {
    RemoteSpec(cfg.userNameA, cfg.hostA, cfg.sourcePath)
  }

  function DestSpec(cfg: ScpConfig): string {
    RemoteSpec(cfg.userNameB, cfg.hostB, cfg.destPath)
  }

  /** The command run on the bastion host. Every separating space is kept,
      even around an empty option. */
  function ScpCommand(cfg: ScpConfig): string
    requires FlagsSet(cfg)
  {
    "scp " + CompressOption(cfg) + " " + VerboseOption(cfg) + " " + DirOption(cfg) + " " + SourceSpec(cfg) + " " + DestSpec(cfg)
  }

  /** The command's six space-separated fields. */
  function Fields(cfg: ScpConfig): seq<string>
    requires FlagsSet(cfg)
  {
    ["scp", CompressOption(cfg), VerboseOption(cfg), DirOption(cfg), SourceSpec(cfg), DestSpec(cfg)]
  }

  lemma JoinSix(a: string, b: string, c: string, d: string, e: string, f: string)
    ensures Join([a, b, c, d, e, f], ' ') == a + " " + b + " " + c + " " + d + " " + e + " " + f
  {
    var xs := [a, b, c, d, e, f];
    assert xs[1..] == [b, c, d, e, f];
    assert xs[1..][1..] == [c, d, e, f];
    assert xs[1..][1..][1..] == [d, e, f];
    assert xs[1..][1..][1..][1..] == [e, f];
    assert xs[1..][1..][1..][1..][1..] == [f];
    assert Join([e, f], ' ') == e + " " + f;
    assert Join([d, e, f], ' ') == d + " " + (e + " " + f);
    assert Join([c, d, e, f], ' ') == c + " " + (d + " " + (e + " " + f));
    assert Join([b, c, d, e, f], ' ') == b + " " + (c + " " + (d + " " + (e + " " + f)));
  }

  lemma CommandIsJoinOfFields(cfg: ScpConfig)
    requires FlagsSet(cfg)
    ensures ScpCommand(cfg) == Join(Fields(cfg), ' ')
  {
    JoinSix("scp", CompressOption(cfg), VerboseOption(cfg), DirOption(cfg), SourceSpec(cfg), DestSpec(cfg));
  }

  /** When no user, host or path holds a space, splitting the command on
      single spaces gives back exactly the six fields, so each option keeps
      its place even when it is empty. */
  lemma CommandFieldsRecoverable(cfg: ScpConfig)
    requires FlagsSet(cfg)
    requires ' ' !in cfg.userNameA + cfg.hostA + cfg.sourcePath
    requires ' ' !in cfg.userNameB + cfg.hostB + cfg.destPath
    ensures SplitOn(ScpCommand(cfg), ' ') == Fields(cfg)
  {
    CommandIsJoinOfFields(cfg);
    var f := Fields(cfg);
    forall i | 0 <= i < |f| ensures ' ' !in f[i] {
      if i == 4 {
        NoSpaceInSpec(cfg.userNameA, cfg.hostA, cfg.sourcePath);
      } else if i == 5 {
        NoSpaceInSpec(cfg.userNameB, cfg.hostB, cfg.destPath);
      }
    }
    SplitOnJoin(f, ' ');
  }

  lemma NoSpaceInSpec(user: string, host: string, path: string)
    requires ' ' !in user + host + path
    ensures ' ' !in RemoteSpec(user, host, path)
  {
    assert forall c :: c in RemoteSpec(user, host, path) ==> c in user + host + path || c == '@' || c == ':';
  }

  /** With every option off the command is "scp", four spaces, and the two
      specs. */
  lemma AllOptionsOff(cfg: ScpConfig)
    requires cfg.dirFlag == Some(DirectoryOff) && cfg.compressFlag == Some(CompressionOff) && cfg.verboseFlag == Some(VerboseOff)
    ensures ScpCommand(cfg) == "scp    " + SourceSpec(cfg) + " " + DestSpec(cfg)
  {
  }

  /** `run`: read the key (an unset key throws before anything else), add
      it, connect to the bastion host with it, build the command and run it
      there. Every failure propagates. The session is closed only after the
      command has run: an unset flag setting throws with the session still
      open. Returns the command run. */
  method Run(cfg: ScpConfig, bastion: Remote.SftpServer) returns (command: Option<string>, error: Option<ActionError>)
    requires !bastion.connected
    modifies bastion
    ensures bastion.files == old(bastion.files) && bastion.dirs == old(bastion.dirs)
    ensures command.Some? <==> error.None?
    ensures GetPrivateKey(cfg).Err? ==>
      error == Some(MissingPrivateKey) && bastion.sessions == old(bastion.sessions) && !bastion.connected
    ensures GetPrivateKey(cfg).Ok? ==>
      var cred := Remote.PrivateKeyAuth(GetPrivateKey(cfg).value, GetPassphrase(cfg));
      if cred !in bastion.authorized then
        error == Some(ConnectFailure) && bastion.sessions == old(bastion.sessions) && !bastion.connected
      else if !FlagsSet(cfg) then
        error == Some(MissingSetting(FirstUnsetFlag(cfg))) && bastion.sessions == old(bastion.sessions) + 1 && bastion.connected
      else
        command == Some(ScpCommand(cfg)) && bastion.sessions == old(bastion.sessions) + 1 && !bastion.connected
  {
    var key := GetPrivateKey(cfg);
    if key.Err? {
      return None, Some(key.error);
    }
    var connected := bastion.Connect(Remote.PrivateKeyAuth(key.value, GetPassphrase(cfg)));
    if !connected {
      return None, Some(ConnectFailure);
    }
    if !FlagsSet(cfg) {
      return None, Some(MissingSetting(FirstUnsetFlag(cfg)));
    }
    command, error := Some(ScpCommand(cfg)), None;
    bastion.Close();
  }
}
