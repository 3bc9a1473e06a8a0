/** The settings every io.cdap SFTP action shares (SFTPActionConfig): port
    and passphrase defaults, the private key bytes, the SSH properties merged
    over the host-key default, and the choice of connector in `run`. */
module SftpActionConfig {
  import opened Common
  import Utf8
  import Remote

  /** Java null is None. `authTypeBeingUsed` is required (not @Nullable). */
  datatype Config = Config(
    host: string,
    port: Option<int>,
    userName: string,
    privateKey: Option<string>,
    passphrase: Option<string>,
    authTypeBeingUsed: string,
    password: Option<string>,
    sshProperties: Option<string>)

  const DefaultPort := 22
  const PrivateKeySelect := "privatekey-select"
  const HostKeyChecking := "StrictHostKeyChecking"

  /** getPort */
  function GetPort(cfg: Config): (p: int)
    ensures cfg.port.None? ==> p == DefaultPort
    ensures cfg.port.Some? ==> p == cfg.port.value
  {
    if cfg.port.Some? then cfg.port.value else DefaultPort
  }

  /** A nullable string as UTF-8 bytes, empty for null: getPassphrase of
      both config classes. */
  function PassphraseBytes(passphrase: Option<string>): (r: Bytes)
    ensures r == [] <==> IsNullOrEmpty(passphrase)
    ensures passphrase.Some? ==> Utf8.Decode(r) == Some(passphrase.value)
  {
    if passphrase.None? then []
    else
      Utf8.DecodeEncode(passphrase.value);
      Utf8.Encode(passphrase.value)
  }

  /** getPassphrase */
  function GetPassphrase(cfg: Config): (r: Bytes)
    ensures r == [] <==> IsNullOrEmpty(cfg.passphrase)
    ensures cfg.passphrase.Some? ==> Utf8.Decode(r) == Some(cfg.passphrase.value)
  {
    PassphraseBytes(cfg.passphrase)
  }

  /** getPrivateKey: the key's UTF-8 bytes; a null key is a
      NullPointerException, which callers see as MissingPrivateKey. */
  function GetPrivateKey(cfg: Config): (r: Bytes)
    requires cfg.privateKey.Some?
    ensures Utf8.Decode(r) == Some(cfg.privateKey.value)
    ensures |r| >= |cfg.privateKey.value|
  {
    Utf8.DecodeEncode(cfg.privateKey.value);
    Utf8.Encode(cfg.privateKey.value)
  }

  /** The connector `run` opens: the private-key one exactly when the
      authentication type is "privatekey-select", the password one otherwise.
      Building the private-key connector reads getPrivateKey first, so a
      missing key fails before any connection is attempted. */
  function SelectCredential(cfg: Config): (r: Result<Remote.Credential>)
    ensures cfg.authTypeBeingUsed != PrivateKeySelect <==> r == Ok(Remote.PasswordAuth(cfg.password))
    ensures r.Ok? && r.value.PrivateKeyAuth? <==> cfg.authTypeBeingUsed == PrivateKeySelect && cfg.privateKey.Some?
    ensures r.Err? <==> cfg.authTypeBeingUsed == PrivateKeySelect && cfg.privateKey.None?
    ensures r.Ok? && r.value.PrivateKeyAuth? ==>
      Utf8.Decode(r.value.key) == Some(cfg.privateKey.value) && r.value.passphrase == GetPassphrase(cfg)
  {
    if cfg.authTypeBeingUsed == PrivateKeySelect then
      if cfg.privateKey.None? then Err(MissingPrivateKey)
      else Ok(Remote.PrivateKeyAuth(GetPrivateKey(cfg), GetPassphrase(cfg)))
    else Ok(Remote.PasswordAuth(cfg.password))
  }

  /** The properties getSSHProperties returns for the pairs the
      KeyValueListParser yields: the host-key default, then every pair in
      order. */
  function SshProperties(pairs: seq<(string, string)>): map<string, string> {
    Overlay(map[HostKeyChecking := "no"], pairs)
  }

  /** getSSHProperties. `parse` is KeyValueListParser("\\s*,\\s*", ":").parse,
      whose code is not part of this model. */
  method GetSshProperties(cfg: Config, parse: string -> seq<(string, string)>)
    returns (props: map<string, string>)
    ensures IsNullOrEmpty(cfg.sshProperties) ==> props == map[HostKeyChecking := "no"]
    ensures !IsNullOrEmpty(cfg.sshProperties) ==> props == SshProperties(parse(cfg.sshProperties.value))
    ensures HostKeyChecking in props
  {
    props := map[HostKeyChecking := "no"];
    if IsNullOrEmpty(cfg.sshProperties) {
      return;
    }
    var pairs := parse(cfg.sshProperties.value);
    var i := 0;
    while i < |pairs|
      invariant 0 <= i <= |pairs|
      invariant props == Overlay(map[HostKeyChecking := "no"], pairs[..i])
    {
      assert pairs[..i + 1][..i] == pairs[..i];
      props := props[pairs[i].0 := pairs[i].1];
      i := i + 1;
    }
    assert pairs[..i] == pairs;
    OverlayKeys(map[HostKeyChecking := "no"], pairs);
  }

  /** The result holds the host-key entry, the parsed keys and nothing else;
      the host-key value is "no" unless a parsed pair sets it. */
  lemma SshPropertiesKeys(pairs: seq<(string, string)>)
    ensures SshProperties(pairs).Keys == {HostKeyChecking} + KeysOf(pairs)
    ensures (forall j :: 0 <= j < |pairs| ==> pairs[j].0 != HostKeyChecking) ==>
      SshProperties(pairs)[HostKeyChecking] == "no"
  {
    OverlayKeys(map[HostKeyChecking := "no"], pairs);
    if forall j :: 0 <= j < |pairs| ==> pairs[j].0 != HostKeyChecking {
      OverlayUntouched(map[HostKeyChecking := "no"], pairs, HostKeyChecking);
    }
  }

  /** For a key the user gives more than once, the last pair wins. */
  lemma SshPropertiesLastWins(pairs: seq<(string, string)>, i: nat)
    requires i < |pairs|
    requires forall j :: i < j < |pairs| ==> pairs[j].0 != pairs[i].0
    ensures pairs[i].0 in SshProperties(pairs) && SshProperties(pairs)[pairs[i].0] == pairs[i].1
  {
    OverlayLastWins(map[HostKeyChecking := "no"], pairs, i);
  }
}
