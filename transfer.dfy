/** What the two SFTPCopyAction versions do alike for one listed entry: the
    entry filter, the choice between expanding a .zip archive (copyJschZip)
    and copying the file verbatim, and the destination writes either makes. */
module Transfer {
  import opened Common
  import opened Destination

  /** What a listed name stands for on the server. Reading a directory
      through channelSftp.get fails. */
  datatype Node = RegularFile(content: Bytes) | Directory

  /** One ChannelSftp.LsEntry of the listing of the source directory. */
  datatype RemoteEntry = RemoteEntry(filename: string, node: Node)

  datatype ZipEntry = ZipEntry(name: string, content: Bytes)

  /** What ZipInputStream yields from a stream: the entries it decodes, in
      stream order, and whether it then fails on malformed data instead of
      reaching the end. */
  datatype Archive = Archive(entries: seq<ZipEntry>, corrupt: bool)

  /** The configuration fields both SFTPCopyActionConfig versions share.
      Java null is None. */
  datatype CopyConfig = CopyConfig(
    srcDirectory: Path,
    destDirectory: Path,
    extractZipFiles: Option<bool>,
    variableNameHoldingFileList: Option<string>,
    fileNameRegex: Option<string>)

  const DefaultVariableName := "sftp.copied.file.names"

  /** getExtractZipFiles: true unless explicitly set to false. */
  function GetExtractZipFiles(cfg: CopyConfig): (b: bool)
    ensures b <==> cfg.extractZipFiles != Some(false)
  {
    if cfg.extractZipFiles.Some? then cfg.extractZipFiles.value else true
  }

  /** getVariableNameHoldingFileList: "sftp.copied.file.names" unless set. */
  function GetVariableNameHoldingFileList(cfg: CopyConfig): (name: string)
    ensures cfg.variableNameHoldingFileList.None? ==> name == DefaultVariableName
    ensures cfg.variableNameHoldingFileList.Some? ==> name == cfg.variableNameHoldingFileList.value
  {
    if cfg.variableNameHoldingFileList.Some? then cfg.variableNameHoldingFileList.value else DefaultVariableName
  }

  /** The settings of one copy run. `matches(name, regex)` is
      String.matches; `unzip` is the zip decoder. */
  datatype Settings = Settings(
    srcDirectory: Path,
    destination: Path,
    extractZipFiles: bool,
    fileNameRegex: Option<string>,
    matches: (string, string) -> bool,
    unzip: Bytes -> Archive)

  /** The settings a configuration gives, the destination path taken as
      already qualified. */
  function SettingsOf(cfg: CopyConfig, matches: (string, string) -> bool, unzip: Bytes -> Archive): Settings {
    Settings(cfg.srcDirectory, cfg.destDirectory, GetExtractZipFiles(cfg), cfg.fileNameRegex, matches, unzip)
  }

  const ZipSuffix := ".zip"

  predicate IsSelfOrParent(name: string) {
    name == "." || name == ".."
  }

  /** The entry filter: never "." or "..", and, when a non-empty regex is
      configured, only names that match it. */
  predicate Admits(s: Settings, name: string) {
    && !IsSelfOrParent(name)
    && (IsNullOrEmpty(s.fileNameRegex) || s.matches(name, s.fileNameRegex.value))
  }

  /** Whether an admitted entry is expanded rather than copied verbatim. */
  predicate Expands(s: Settings, name: string) {
    s.extractZipFiles && EndsWith(name, ZipSuffix)
  }

  /** completeFileName: the entry's path on the server. */
  function SourcePath(s: Settings, name: string): Path {
    Child(s.srcDirectory, name)
  }

  /** Where a verbatim copy of `name` lands. */
  function TargetPath(s: Settings, name: string): Path {
    Child(s.destination, name)
  }

  /** The writes copyJschZip makes, in stream order. */
  function ZipWrites(destination: Path, entries: seq<ZipEntry>): (w: seq<(Path, Bytes)>)
    ensures |w| == |entries|
    ensures forall i :: 0 <= i < |w| ==> w[i] == (Child(destination, entries[i].name), entries[i].content)
  {
    if entries == [] then []
    else
      var last := entries[|entries| - 1];
      ZipWrites(destination, entries[..|entries| - 1]) + [(Child(destination, last.name), last.content)]
  }

  /** The destination after an admitted entry is fetched, and the error that
      stops the run, if any. */
  datatype Fetched = Fetched(files: map<Path, Bytes>, error: Option<ActionError>)

  /** Fetching an admitted entry. An archive is read from the server and
      expanded into the destination directory; a directory cannot be read, so
      nothing is written. Otherwise the destination file is created first and
      then filled from the server; for a directory the read fails and the
      empty file stays behind. */
  function Fetch(s: Settings, files: map<Path, Bytes>, e: RemoteEntry): Fetched {
    if Expands(s, e.filename) then
      match e.node
      case Directory => Fetched(files, Some(RemoteFailure(SourcePath(s, e.filename))))
      case RegularFile(bytes) =>
        var archive := s.unzip(bytes);
        Fetched(Overlay(files, ZipWrites(s.destination, archive.entries)),
                if archive.corrupt then Some(StoreFailure(s.destination)) else None)
    else
      match e.node
      case Directory =>
        Fetched(files[TargetPath(s, e.filename) := []], Some(RemoteFailure(SourcePath(s, e.filename))))
      case RegularFile(bytes) => Fetched(files[TargetPath(s, e.filename) := bytes], None)
  }

  /** The destination writes a successful fetch of an admitted file makes, in
      order: the archive's entries, or the file itself. */
  function Writes(s: Settings, e: RemoteEntry): seq<(Path, Bytes)>
    requires e.node.RegularFile?
  {
    if Expands(s, e.filename) then ZipWrites(s.destination, s.unzip(e.node.content).entries)
    else [(TargetPath(s, e.filename), e.node.content)]
  }

  /** Whether fetching an admitted entry fails. */
  predicate FetchFails(s: Settings, e: RemoteEntry) {
    e.node.Directory? || (Expands(s, e.filename) && s.unzip(e.node.content).corrupt)
  }

  lemma FetchFailsExactly(s: Settings, files: map<Path, Bytes>, e: RemoteEntry)
    ensures Fetch(s, files, e).error.Some? <==> FetchFails(s, e)
  {
  }

  /** A fetch that does not fail makes exactly the writes of Writes, in
      order, and nothing else. */
  lemma FetchWrites(s: Settings, files: map<Path, Bytes>, e: RemoteEntry)
    requires !FetchFails(s, e)
    ensures Fetch(s, files, e).error.None?
    ensures Fetch(s, files, e).files == Overlay(files, Writes(s, e))
  {
    if !Expands(s, e.filename) {
      OverlayAppend(files, [], TargetPath(s, e.filename), e.node.content);
      assert [] + [(TargetPath(s, e.filename), e.node.content)] == Writes(s, e);
    }
  }

  /** A verbatim copy puts the server's bytes at destination/name and changes
      no other destination file. */
  lemma VerbatimCopyLands(s: Settings, files: map<Path, Bytes>, e: RemoteEntry)
    requires !Expands(s, e.filename) && e.node.RegularFile?
    ensures Fetch(s, files, e).error.None?
    ensures Fetch(s, files, e).files[TargetPath(s, e.filename)] == e.node.content
    ensures forall p :: p != TargetPath(s, e.filename) ==>
      (p in Fetch(s, files, e).files <==> p in files) &&
      (p in files ==> Fetch(s, files, e).files[p] == files[p])
  {
  }

  /** An expanded archive is never stored itself: unless one of its own
      entries has the archive's name, destination/archive-name is left as it
      was. */
  lemma ArchiveItselfNotStored(s: Settings, files: map<Path, Bytes>, e: RemoteEntry)
    requires Expands(s, e.filename) && e.node.RegularFile?
    requires forall i :: 0 <= i < |s.unzip(e.node.content).entries| ==>
      s.unzip(e.node.content).entries[i].name != e.filename
    ensures var r := Fetch(s, files, e);
      (TargetPath(s, e.filename) in r.files <==> TargetPath(s, e.filename) in files) &&
      (TargetPath(s, e.filename) in files ==> r.files[TargetPath(s, e.filename)] == files[TargetPath(s, e.filename)])
  {
    var entries := s.unzip(e.node.content).entries;
    var w := ZipWrites(s.destination, entries);
    forall j | 0 <= j < |w| ensures w[j].0 != TargetPath(s, e.filename) {
      if w[j].0 == TargetPath(s, e.filename) {
        ChildInjective(s.destination, entries[j].name, e.filename);
      }
    }
    OverlayUntouched(files, w, TargetPath(s, e.filename));
  }

  /** Every archive entry lands at destination/entry-name with the content of
      the last entry of that name in the stream. */
  lemma ArchiveEntriesLand(destination: Path, files: map<Path, Bytes>, entries: seq<ZipEntry>, i: nat)
    requires i < |entries|
    requires forall j :: i < j < |entries| ==> entries[j].name != entries[i].name
    ensures var r := Overlay(files, ZipWrites(destination, entries));
      Child(destination, entries[i].name) in r && r[Child(destination, entries[i].name)] == entries[i].content
  {
    var w := ZipWrites(destination, entries);
    forall j | i < j < |w| ensures w[j].0 != w[i].0 {
      if w[j].0 == w[i].0 {
        ChildInjective(destination, entries[j].name, entries[i].name);
      }
    }
    OverlayLastWins(files, w, i);
  }

  /** copyJschZip: every entry of the stream, in order, is written to
      destination/entry-name; a malformed stream fails after the entries
      before it were written. */
  method CopyJschZip(archive: Archive, store: FileStore, destination: Path) returns (error: Option<ActionError>)
    modifies store
    ensures store.files == Overlay(old(store.files), ZipWrites(destination, archive.entries))
    ensures store.dirs == old(store.dirs)
    ensures error == (if archive.corrupt then Some(StoreFailure(destination)) else None)
  {
    var i := 0;
    while i < |archive.entries|
      invariant 0 <= i <= |archive.entries|
      invariant store.files == Overlay(old(store.files), ZipWrites(destination, archive.entries[..i]))
      invariant store.dirs == old(store.dirs)
    {
      var entry := archive.entries[i];
      assert archive.entries[..i + 1][..i] == archive.entries[..i];
      store.Create(Child(destination, entry.name), entry.content);
      i := i + 1;
    }
    assert archive.entries[..i] == archive.entries;
    error := if archive.corrupt then Some(StoreFailure(destination)) else None;
  }

  /** The fetch of one admitted entry against the destination store. */
  method FetchEntry(s: Settings, store: FileStore, e: RemoteEntry) returns (error: Option<ActionError>)
    modifies store
    ensures store.files == Fetch(s, old(store.files), e).files
    ensures error == Fetch(s, old(store.files), e).error
    ensures store.dirs == old(store.dirs)
  {
    var source := SourcePath(s, e.filename);
    if Expands(s, e.filename) {
      match e.node
      case Directory =>
        error := Some(RemoteFailure(source));
      case RegularFile(bytes) =>
        error := CopyJschZip(s.unzip(bytes), store, s.destination);
    } else {
      var target := TargetPath(s, e.filename);
      store.Create(target, []);
      match e.node
      case Directory =>
        error := Some(RemoteFailure(source));
      case RegularFile(bytes) =>
        store.Create(target, bytes);
        error := None;
    }
  }

  /** The admitted entries, in listing order. */
  function AdmittedOnly(s: Settings, entries: seq<RemoteEntry>): (r: seq<RemoteEntry>)
    ensures |r| <= |entries|
    ensures forall e :: e in r ==> e in entries && Admits(s, e.filename)
    ensures forall i :: 0 <= i < |entries| && Admits(s, entries[i].filename) ==> entries[i] in r
  {
    if entries == [] then []
    else
      var last := entries[|entries| - 1];
      AdmittedOnly(s, entries[..|entries| - 1]) + (if Admits(s, last.filename) then [last] else [])
  }

  /** The filter keeps listing order: filtering a listing in two parts is
      filtering each part. */
  lemma {:induction false} AdmittedOnlyConcat(s: Settings, a: seq<RemoteEntry>, b: seq<RemoteEntry>)
    ensures AdmittedOnly(s, a + b) == AdmittedOnly(s, a) + AdmittedOnly(s, b)
  {
    if b != [] {
      var n := |b| - 1;
      assert (a + b)[..|a + b| - 1] == a + b[..n];
      AdmittedOnlyConcat(s, a, b[..n]);
    } else {
      assert a + b == a;
    }
  }

  /** The source paths of some entries, in order. */
  function SourcePaths(s: Settings, entries: seq<RemoteEntry>): (r: seq<Path>)
    ensures |r| == |entries|
    ensures forall i :: 0 <= i < |r| ==> r[i] == SourcePath(s, entries[i].filename)
  {
    if entries == [] then []
    else SourcePaths(s, entries[..|entries| - 1]) + [SourcePath(s, entries[|entries| - 1].filename)]
  }

  lemma SeqAssoc<T>(a: seq<T>, b: seq<T>, c: seq<T>)
    ensures (a + b) + c == a + (b + c)
  {
  }

  lemma SourcePathsSnoc(s: Settings, pre: seq<RemoteEntry>, last: RemoteEntry)
    ensures SourcePaths(s, pre + [last]) == SourcePaths(s, pre) + [SourcePath(s, last.filename)]
  {
    assert (pre + [last])[..|pre|] == pre;
  }
}
