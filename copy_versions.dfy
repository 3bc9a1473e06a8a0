/** How the two SFTPCopyAction versions relate: they do the same thing when
    tracking is off and no archive is expanded, and they differ on what an
    expanded archive adds to the published list. */
module CopyVersions {
  import opened Common
  import opened Transfer
  import LegacySftpCopy
  import SftpCopy

  /** The two states hold the same destination files and the same list. */
  predicate SameRun(a: LegacySftpCopy.CopyOutcome, b: SftpCopy.CopyOutcome) {
    a.state.files == b.state.files && a.state.copied == b.state.copied && a.error == b.error
  }

  /** With tracking off and no admitted archive expanded, both versions
      write the same files, publish the same list and fail alike; the legacy
      tracking table is left alone. */
  lemma {:induction false} VersionsAgreeWithoutArchivesOrTracking(
    s: Settings, t: LegacySftpCopy.Tracking, entries: seq<RemoteEntry>,
    files: map<Path, Bytes>, table: map<Digest, string>, copied: seq<Path>)
    requires !t.enabled
    requires forall e :: e in entries && Admits(s, e.filename) ==> !Expands(s, e.filename)
    ensures var a := LegacySftpCopy.CopyAll(s, t, entries, LegacySftpCopy.CopyState(files, table, copied));
      var b := SftpCopy.CopyAll(s, entries, SftpCopy.CopyState(files, copied));
      SameRun(a, b) && a.state.table == table
  {
    if entries != [] {
      var n := |entries| - 1;
      var last := entries[n];
      assert entries == entries[..n] + [last];
      forall e | e in entries[..n] ensures e in entries { }
      VersionsAgreeWithoutArchivesOrTracking(s, t, entries[..n], files, table, copied);
      LegacySftpCopy.CopyAllSnoc(s, t, entries[..n], last, LegacySftpCopy.CopyState(files, table, copied));
      SftpCopy.CopyAllSnoc(s, entries[..n], last, SftpCopy.CopyState(files, copied));
    }
  }

  /** An admitted archive that is expanded without failure is listed by the
      io.cdap version and not by the co.cask one; the files written are the
      same. */
  lemma ExpandedArchiveListedOnlyByNewVersion(
    s: Settings, t: LegacySftpCopy.Tracking, e: RemoteEntry, files: map<Path, Bytes>, table: map<Digest, string>)
    requires Admits(s, e.filename) && Expands(s, e.filename) && !FetchFails(s, e)
    ensures var a := LegacySftpCopy.CopyAll(s, t, [e], LegacySftpCopy.CopyState(files, table, []));
      var b := SftpCopy.CopyAll(s, [e], SftpCopy.CopyState(files, []));
      a.error.None? && b.error.None? && a.state.files == b.state.files &&
      a.state.copied == [] && b.state.copied == [SourcePath(s, e.filename)]
  {
    LegacySftpCopy.CopyAllSnoc(s, t, [], e, LegacySftpCopy.CopyState(files, table, []));
    SftpCopy.CopyAllSnoc(s, [], e, SftpCopy.CopyState(files, []));
    assert [] + [e] == [e];
    FetchFailsExactly(s, files, e);
  }

  /** With tracking off, both versions write the same files and fail alike
      on any listing, whatever they list; the legacy table is left alone. */
  lemma {:induction false} FilesAndErrorAgreeWithoutTracking(
    s: Settings, t: LegacySftpCopy.Tracking, entries: seq<RemoteEntry>,
    files: map<Path, Bytes>, table: map<Digest, string>, copied: seq<Path>)
    requires !t.enabled
    ensures var a := LegacySftpCopy.CopyAll(s, t, entries, LegacySftpCopy.CopyState(files, table, copied));
      var b := SftpCopy.CopyAll(s, entries, SftpCopy.CopyState(files, copied));
      a.state.files == b.state.files && a.error == b.error && a.state.table == table
  {
    if entries != [] {
      var n := |entries| - 1;
      var last := entries[n];
      assert entries == entries[..n] + [last];
      FilesAndErrorAgreeWithoutTracking(s, t, entries[..n], files, table, copied);
      LegacySftpCopy.CopyAllSnoc(s, t, entries[..n], last, LegacySftpCopy.CopyState(files, table, copied));
      SftpCopy.CopyAllSnoc(s, entries[..n], last, SftpCopy.CopyState(files, copied));
    }
  }

  /** Of the admitted entries, the co.cask version copies verbatim exactly
      those it would copy verbatim from the whole listing: the admitted ones
      that are not expanded archives, in listing order. */
  lemma {:induction false} VerbatimOfAdmitted(s: Settings, entries: seq<RemoteEntry>)
    ensures LegacySftpCopy.Verbatim(s, AdmittedOnly(s, entries)) == LegacySftpCopy.Verbatim(s, entries)
  {
    if entries != [] {
      var n := |entries| - 1;
      var last := entries[n];
      var pre := AdmittedOnly(s, entries[..n]);
      VerbatimOfAdmitted(s, entries[..n]);
      if Admits(s, last.filename) {
        assert AdmittedOnly(s, entries) == pre + [last];
        assert (pre + [last])[..|pre|] == pre;
      } else {
        assert AdmittedOnly(s, entries) == pre;
      }
    }
  }

  /** With tracking off, on any listing: both versions write the same files
      and fail alike, and when the run completes the co.cask list is the
      io.cdap list (every admitted entry) with the expanded archives left
      out, in the same order. */
  lemma VersionsAgreeWithoutTracking(
    s: Settings, t: LegacySftpCopy.Tracking, entries: seq<RemoteEntry>,
    files: map<Path, Bytes>, table: map<Digest, string>, copied: seq<Path>)
    requires !t.enabled
    ensures var a := LegacySftpCopy.CopyAll(s, t, entries, LegacySftpCopy.CopyState(files, table, copied));
      var b := SftpCopy.CopyAll(s, entries, SftpCopy.CopyState(files, copied));
      a.state.files == b.state.files && a.error == b.error && a.state.table == table &&
      (a.error.None? ==>
        b.state.copied == copied + SourcePaths(s, AdmittedOnly(s, entries)) &&
        a.state.copied == copied + SourcePaths(s, LegacySftpCopy.Verbatim(s, AdmittedOnly(s, entries))))
  {
    FilesAndErrorAgreeWithoutTracking(s, t, entries, files, table, copied);
    LegacySftpCopy.VerbatimEntriesListed(s, t, entries, LegacySftpCopy.CopyState(files, table, copied));
    SftpCopy.EveryAdmittedEntryListed(s, entries, SftpCopy.CopyState(files, copied));
    VerbatimOfAdmitted(s, entries);
  }
}
