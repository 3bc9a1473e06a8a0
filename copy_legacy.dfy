/** The co.cask SFTPCopyAction: copies one remote directory listing into the
    destination filesystem, expanding .zip archives, optionally dropping files
    whose MD5 is already in the tracking table, and publishes the
    comma-joined list of the files it kept. Archives are expanded but never
    listed. */
module LegacySftpCopy {
  import opened Common
  import opened Destination
  import opened Transfer
  import Remote
  import SftpActionConfig

  /** SFTPCopyActionConfig. The co.cask common configuration class is not
      part of this model; `base` stands for it with the same fields. */
  datatype LegacyCopyConfig = LegacyCopyConfig(
    base: SftpActionConfig.Config,
    copy: CopyConfig,
    trackFiles: Option<string>)

  function ToLowerAscii(s: string): (r: string)
    ensures |r| == |s|
    ensures forall i :: 0 <= i < |s| ==> r[i] == if 'A' <= s[i] <= 'Z' then (s[i] as int + 32) as char else s[i]
  {
    if s == [] then []
    else [if 'A' <= s[0] <= 'Z' then (s[0] as int + 32) as char else s[0]] + ToLowerAscii(s[1..])
  }

  /** trackFiles equals "yes" ignoring case. */
  predicate TracksFiles(cfg: LegacyCopyConfig) {
    cfg.trackFiles.Some? && ToLowerAscii(cfg.trackFiles.value) == "yes"
  }

  /** How duplicates are detected: whether tracking is on, the digest of a
      written file's content, and the destination paths whose delete reports
      false. */
  datatype Tracking = Tracking(enabled: bool, fingerprint: Bytes -> Digest, undeletable: set<Path>)

  /** The destination files, the tracking table and filesCopied. */
  datatype CopyState = CopyState(files: map<Path, Bytes>, table: map<Digest, string>, copied: seq<Path>)

  datatype CopyOutcome = CopyOutcome(state: CopyState, error: Option<ActionError>)

  /** One iteration of the copy loop. */
  function CopyStep(s: Settings, t: Tracking, st: CopyState, e: RemoteEntry): CopyOutcome {
    if !Admits(s, e.filename) then CopyOutcome(st, None)
    else
      var f := Fetch(s, st.files, e);
      if f.error.Some? || Expands(s, e.filename) then CopyOutcome(st.(files := f.files), f.error)
      else Keep(s, t, st.(files := f.files), e)
  }

  /** After a verbatim copy of `e` was written: list it, or, with tracking on
      and its digest already recorded, delete the copy again. */
  function Keep(s: Settings, t: Tracking, st: CopyState, e: RemoteEntry): CopyOutcome
    requires e.node.RegularFile?
  {
    var source := SourcePath(s, e.filename);
    var target := TargetPath(s, e.filename);
    if !t.enabled then CopyOutcome(st.(copied := st.copied + [source]), None)
    else
      var digest := t.fingerprint(e.node.content);
      if digest !in st.table then CopyOutcome(CopyState(st.files, st.table[digest := e.filename], st.copied + [source]), None)
      else if target in t.undeletable then CopyOutcome(st, Some(StoreFailure(target)))
      else CopyOutcome(st.(files := st.files - {target}), None)
  }

  /** The copy loop over a listing: each entry in order, stopping at the
      first error. */
  function CopyAll(s: Settings, t: Tracking, entries: seq<RemoteEntry>, init: CopyState): CopyOutcome {
    if entries == [] then CopyOutcome(init, None)
    else
      var prev := CopyAll(s, t, entries[..|entries| - 1], init);
      if prev.error.Some? then prev else CopyStep(s, t, prev.state, entries[|entries| - 1])
  }

  /** What `run` leaves behind once connected: ls of the source directory
      fails, or the loop runs over its listing. */
  function CopyListing(s: Settings, t: Tracking, listing: Option<seq<RemoteEntry>>, init: CopyState): CopyOutcome {
    if listing.None? then CopyOutcome(init, Some(RemoteFailure(s.srcDirectory)))
    else CopyAll(s, t, listing.value, init)
  }

  /** The admitted entries that are copied verbatim rather than expanded. */
  function Verbatim(s: Settings, entries: seq<RemoteEntry>): (r: seq<RemoteEntry>)
    ensures forall e :: e in r ==> e in entries && Admits(s, e.filename) && !Expands(s, e.filename)
  {
    if entries == [] then []
    else
      var last := entries[|entries| - 1];
      Verbatim(s, entries[..|entries| - 1])
        + (if Admits(s, last.filename) && !Expands(s, last.filename) then [last] else [])
  }

  // ---------------------------------------------------------------------
  // Properties of the copy loop

  /** Every admitted entry that is not expanded is among the verbatim ones. */
  lemma {:induction false} VerbatimComplete(s: Settings, entries: seq<RemoteEntry>)
    ensures forall i :: 0 <= i < |entries| && Admits(s, entries[i].filename) && !Expands(s, entries[i].filename) ==>
      entries[i] in Verbatim(s, entries)
  {
    if entries != [] {
      var n := |entries| - 1;
      VerbatimComplete(s, entries[..n]);
      assert forall i :: 0 <= i < n ==> entries[..n][i] == entries[i];
    }
  }

  /** The verbatim entries keep listing order: those of a listing in two
      parts are those of each part. */
  lemma {:induction false} VerbatimConcat(s: Settings, a: seq<RemoteEntry>, b: seq<RemoteEntry>)
    ensures Verbatim(s, a + b) == Verbatim(s, a) + Verbatim(s, b)
  {
    if b != [] {
      var n := |b| - 1;
      assert (a + b)[..|a + b| - 1] == a + b[..n];
      VerbatimConcat(s, a, b[..n]);
    } else {
      assert a + b == a;
    }
  }

  lemma {:induction false} ErrorPersists(s: Settings, t: Tracking, entries: seq<RemoteEntry>, init: CopyState, k: nat)
    requires k <= |entries| && CopyAll(s, t, entries[..k], init).error.Some?
    ensures CopyAll(s, t, entries, init) == CopyAll(s, t, entries[..k], init)
  {
    if k < |entries| {
      var n := |entries| - 1;
      assert entries[..n][..k] == entries[..k];
      ErrorPersists(s, t, entries[..n], init, k);
    } else {
      assert entries[..k] == entries;
    }
  }

  lemma CopyAllSnoc(s: Settings, t: Tracking, pre: seq<RemoteEntry>, e: RemoteEntry, init: CopyState)
    ensures CopyAll(s, t, pre + [e], init) ==
      var prev := CopyAll(s, t, pre, init);
      if prev.error.Some? then prev else CopyStep(s, t, prev.state, e)
  {
    assert (pre + [e])[..|pre|] == pre;
  }

  /** Entries the filter rejects ("." and "..", and names that do not match
      a non-empty regex) have no effect at all: the run is the run over the
      admitted entries alone. */
  lemma {:induction false} SkippedEntriesHaveNoEffect(s: Settings, t: Tracking, entries: seq<RemoteEntry>, init: CopyState)
    ensures CopyAll(s, t, entries, init) == CopyAll(s, t, AdmittedOnly(s, entries), init)
  {
    if entries != [] {
      var n := |entries| - 1;
      var last := entries[n];
      assert entries == entries[..n] + [last];
      SkippedEntriesHaveNoEffect(s, t, entries[..n], init);
      CopyAllSnoc(s, t, entries[..n], last, init);
      var pre := AdmittedOnly(s, entries[..n]);
      if Admits(s, last.filename) {
        assert AdmittedOnly(s, entries) == pre + [last];
        CopyAllSnoc(s, t, pre, last, init);
      } else {
        assert AdmittedOnly(s, entries) == pre;
      }
    }
  }

  /** Without tracking, a run that completes lists the source path of every
      admitted entry that is not an expanded archive, in listing order, and
      leaves the table alone. */
  lemma {:induction false} VerbatimEntriesListed(s: Settings, t: Tracking, entries: seq<RemoteEntry>, init: CopyState)
    requires !t.enabled
    ensures CopyAll(s, t, entries, init).state.table == init.table
    ensures CopyAll(s, t, entries, init).error.None? ==>
      CopyAll(s, t, entries, init).state.copied == init.copied + SourcePaths(s, Verbatim(s, entries))
  {
    if entries != [] {
      var n := |entries| - 1;
      var last := entries[n];
      assert entries == entries[..n] + [last];
      CopyAllSnoc(s, t, entries[..n], last, init);
      VerbatimEntriesListed(s, t, entries[..n], init);
      var pre := Verbatim(s, entries[..n]);
      if Admits(s, last.filename) && !Expands(s, last.filename) {
        assert Verbatim(s, entries) == pre + [last];
        SourcePathsSnoc(s, pre, last);
        SeqAssoc(init.copied, SourcePaths(s, pre), [SourcePath(s, last.filename)]);
      } else {
        assert Verbatim(s, entries) == pre;
      }
    }
  }

  /** Without tracking, the run fails exactly when some admitted entry cannot
      be fetched: a directory, or a malformed archive. */
  lemma {:induction false} FailsIffSomeFetchFails(s: Settings, t: Tracking, entries: seq<RemoteEntry>, init: CopyState)
    requires !t.enabled
    ensures CopyAll(s, t, entries, init).error.Some? <==>
      exists e :: e in entries && Admits(s, e.filename) && FetchFails(s, e)
  {
    if entries != [] {
      var n := |entries| - 1;
      FailsIffSomeFetchFails(s, t, entries[..n], init);
      assert forall e :: e in entries <==> e in entries[..n] || e == entries[n];
    }
  }

  /** Every path added to filesCopied is the source path of an admitted entry
      that was copied verbatim; earlier contents are kept. */
  lemma {:induction false} ListedPathsAreVerbatimEntries(s: Settings, t: Tracking, entries: seq<RemoteEntry>, init: CopyState)
    ensures var o := CopyAll(s, t, entries, init);
      |init.copied| <= |o.state.copied| && o.state.copied[..|init.copied|] == init.copied &&
      forall j :: |init.copied| <= j < |o.state.copied| ==>
        exists e :: e in entries && Admits(s, e.filename) && !Expands(s, e.filename) &&
          o.state.copied[j] == SourcePath(s, e.filename)
  {
    if entries != [] {
      var n := |entries| - 1;
      ListedPathsAreVerbatimEntries(s, t, entries[..n], init);
      forall e | e in entries[..n] ensures e in entries { }
    }
  }

  /** Neither an expanded archive, nor ".", "..", nor a name the regex
      rejects is ever listed. */
  lemma ArchivesAndSkippedNeverListed(s: Settings, t: Tracking, entries: seq<RemoteEntry>, init: CopyState, name: string)
    requires Expands(s, name) || !Admits(s, name)
    ensures var copied := CopyAll(s, t, entries, init).state.copied;
      forall j :: |init.copied| <= j < |copied| ==> copied[j] != SourcePath(s, name)
  {
    var o := CopyAll(s, t, entries, init);
    ListedPathsAreVerbatimEntries(s, t, entries, init);
    forall j | |init.copied| <= j < |o.state.copied| ensures o.state.copied[j] != SourcePath(s, name) {
      var e :| e in entries && Admits(s, e.filename) && !Expands(s, e.filename) &&
        o.state.copied[j] == SourcePath(s, e.filename);
      if o.state.copied[j] == SourcePath(s, name) {
        ChildInjective(s.srcDirectory, name, e.filename);
      }
    }
  }

  // ---------------------------------------------------------------------
  // Properties of tracking

  /** A recorded digest is never overwritten or removed. */
  lemma {:induction false} TableOnlyGrows(s: Settings, t: Tracking, entries: seq<RemoteEntry>, init: CopyState)
    ensures var o := CopyAll(s, t, entries, init);
      forall k :: k in init.table ==> k in o.state.table && o.state.table[k] == init.table[k]
  {
    if entries != [] {
      TableOnlyGrows(s, t, entries[..|entries| - 1], init);
    }
  }

  /** With tracking on, every listed file adds exactly one new digest. */
  lemma {:induction false} ListedCountMatchesNewDigests(s: Settings, t: Tracking, entries: seq<RemoteEntry>, init: CopyState)
    requires t.enabled
    ensures var o := CopyAll(s, t, entries, init);
      |o.state.copied| - |init.copied| == |o.state.table| - |init.table|
  {
    if entries != [] {
      ListedCountMatchesNewDigests(s, t, entries[..|entries| - 1], init);
    }
  }

  /** After a run with tracking that completes, the digest of every file it
      copied verbatim is in the table. */
  lemma {:induction false} CopiedDigestsRecorded(s: Settings, t: Tracking, entries: seq<RemoteEntry>, init: CopyState)
    requires t.enabled
    ensures var o := CopyAll(s, t, entries, init);
      o.error.None? ==>
        forall e :: e in entries && Admits(s, e.filename) && !Expands(s, e.filename) && e.node.RegularFile? ==>
          t.fingerprint(e.node.content) in o.state.table
  {
    if entries != [] {
      var n := |entries| - 1;
      var prev := CopyAll(s, t, entries[..n], init);
      CopiedDigestsRecorded(s, t, entries[..n], init);
      if prev.error.None? {
        TableOnlyGrows(s, t, [entries[n]], prev.state);
        assert [entries[n]][..0] == [];
        assert forall e :: e in entries <==> e in entries[..n] || e == entries[n];
      }
    }
  }

  /** When the digest of every file to be copied verbatim is already
      recorded, nothing is listed and the table does not change. */
  lemma {:induction false} AllRecordedListsNothing(s: Settings, t: Tracking, entries: seq<RemoteEntry>, init: CopyState)
    requires t.enabled
    requires forall e :: e in entries && Admits(s, e.filename) && !Expands(s, e.filename) && e.node.RegularFile? ==>
      t.fingerprint(e.node.content) in init.table
    ensures CopyAll(s, t, entries, init).state.copied == init.copied
    ensures CopyAll(s, t, entries, init).state.table == init.table
  {
    if entries != [] {
      var n := |entries| - 1;
      forall e | e in entries[..n] ensures e in entries { }
      AllRecordedListsNothing(s, t, entries[..n], init);
    }
  }

  /** When every digest is already recorded and no archive is expanded, a run
      that completes removes destination/name for every admitted entry: the
      duplicate is written over the earlier copy and then deleted. */
  lemma {:induction false} AllRecordedRemovesTargets(s: Settings, t: Tracking, entries: seq<RemoteEntry>, init: CopyState)
    requires t.enabled
    requires forall e :: e in entries && Admits(s, e.filename) ==> !Expands(s, e.filename)
    requires forall e :: e in entries && Admits(s, e.filename) && e.node.RegularFile? ==>
      t.fingerprint(e.node.content) in init.table
    ensures var o := CopyAll(s, t, entries, init);
      o.error.None? ==> forall e :: e in entries && Admits(s, e.filename) ==> TargetPath(s, e.filename) !in o.state.files
  {
    if entries != [] {
      var n := |entries| - 1;
      var prev := CopyAll(s, t, entries[..n], init);
      forall e | e in entries[..n] ensures e in entries { }
      AllRecordedRemovesTargets(s, t, entries[..n], init);
      AllRecordedListsNothing(s, t, entries[..n], init);
      assert forall e :: e in entries <==> e in entries[..n] || e == entries[n];
    }
  }

  /** Re-running with tracking over an unchanged listing after a run that
      completed lists nothing. */
  lemma RerunListsNothing(s: Settings, t: Tracking, entries: seq<RemoteEntry>, init: CopyState)
    requires t.enabled
    requires CopyAll(s, t, entries, init).error.None?
    ensures var first := CopyAll(s, t, entries, init).state;
      CopyAll(s, t, entries, CopyState(first.files, first.table, [])).state.copied == []
  {
    var first := CopyAll(s, t, entries, init).state;
    CopiedDigestsRecorded(s, t, entries, init);
    AllRecordedListsNothing(s, t, entries, CopyState(first.files, first.table, []));
  }

  /** Re-running with tracking over an unchanged listing without archives
      deletes the destination copies the first run made. */
  lemma RerunRemovesFirstCopies(s: Settings, t: Tracking, entries: seq<RemoteEntry>, init: CopyState)
    requires t.enabled
    requires forall e :: e in entries && Admits(s, e.filename) ==> !Expands(s, e.filename)
    requires CopyAll(s, t, entries, init).error.None?
    ensures var first := CopyAll(s, t, entries, init).state;
      var second := CopyAll(s, t, entries, CopyState(first.files, first.table, []));
      second.error.None? ==> forall e :: e in entries && Admits(s, e.filename) ==> TargetPath(s, e.filename) !in second.state.files
  {
    var first := CopyAll(s, t, entries, init).state;
    CopiedDigestsRecorded(s, t, entries, init);
    CompletedRunFetchedAll(s, t, entries, init);
    AllRecordedRemovesTargets(s, t, entries, CopyState(first.files, first.table, []));
  }

  /** A run that completes fetched every admitted entry without failure. */
  lemma {:induction false} CompletedRunFetchedAll(s: Settings, t: Tracking, entries: seq<RemoteEntry>, init: CopyState)
    ensures CopyAll(s, t, entries, init).error.None? ==>
      forall e :: e in entries && Admits(s, e.filename) ==> !FetchFails(s, e)
  {
    if entries != [] {
      var n := |entries| - 1;
      CompletedRunFetchedAll(s, t, entries[..n], init);
      assert forall e :: e in entries <==> e in entries[..n] || e == entries[n];
    }
  }

  // ---------------------------------------------------------------------
  // The digest getMD5 computes

  /** MD5 of zero bytes (d41d8cd98f00b204e9800998ecf8427e). */
  const Md5OfEmptyInput: Digest :=
    [0xd4, 0x1d, 0x8c, 0xd9, 0x8f, 0x00, 0xb2, 0x04, 0xe9, 0x80, 0x09, 0x98, 0xec, 0xf8, 0x42, 0x7e]

  /** getMD5 as written: the DigestInputStream is never read before digest()
      is taken, so the digest is that of zero bytes whatever the file holds. */
  function GetMd5AsWritten(content: Bytes): Digest {
    Md5OfEmptyInput
  }

  /** With the digest as written, the second of two files with different
      content is taken for a duplicate: it is deleted and not listed. */
  lemma AsWrittenDigestDropsDistinctFile(matches: (string, string) -> bool, unzip: Bytes -> Archive)
    ensures
      var s := Settings("/in", "/out", false, None, matches, unzip);
      var t := Tracking(true, GetMd5AsWritten, {});
      var entries := [RemoteEntry("a.txt", RegularFile([1])), RemoteEntry("b.txt", RegularFile([2]))];
      var o := CopyAll(s, t, entries, CopyState(map[], map[], []));
      o.error.None? && o.state.copied == ["/in/a.txt"] && "/out/b.txt" !in o.state.files
  {
    var s := Settings("/in", "/out", false, None, matches, unzip);
    var t := Tracking(true, GetMd5AsWritten, {});
    var a, b := RemoteEntry("a.txt", RegularFile([1])), RemoteEntry("b.txt", RegularFile([2]));
    var init := CopyState(map[], map[], []);
    CopyAllSnoc(s, t, [], a, init);
    assert [] + [a] == [a];
    assert Child("/out", "a.txt") == "/out/a.txt" && Child("/in", "a.txt") == "/in/a.txt";
    var first := CopyAll(s, t, [a], init);
    assert first == CopyOutcome(CopyState(map["/out/a.txt" := [1]], map[Md5OfEmptyInput := "a.txt"], ["/in/a.txt"]), None);
    CopyAllSnoc(s, t, [a], b, init);
    assert [a] + [b] == [a, b];
    assert "/out/a.txt" != "/out/b.txt" by { assert "/out/a.txt"[5] != "/out/b.txt"[5]; }
  }

  /** Digests of the files among `v` are pairwise different. */
  predicate DistinctDigests(t: Tracking, v: seq<RemoteEntry>) {
    forall i, j :: 0 <= i < j < |v| && v[i].node.RegularFile? && v[j].node.RegularFile? ==>
      t.fingerprint(v[i].node.content) != t.fingerprint(v[j].node.content)
  }

  function FingerprintsOf(t: Tracking, entries: seq<RemoteEntry>): set<Digest> {
    set e | e in entries && e.node.RegularFile? :: t.fingerprint(e.node.content)
  }

  lemma DistinctDigestsPrefix(t: Tracking, pre: seq<RemoteEntry>, last: RemoteEntry)
    requires DistinctDigests(t, pre + [last])
    ensures DistinctDigests(t, pre)
    ensures last.node.RegularFile? ==> t.fingerprint(last.node.content) !in FingerprintsOf(t, pre)
  {
    var v := pre + [last];
    forall i, j | 0 <= i < j < |pre| && pre[i].node.RegularFile? && pre[j].node.RegularFile?
      ensures t.fingerprint(pre[i].node.content) != t.fingerprint(pre[j].node.content)
    {
      assert pre[i] == v[i] && pre[j] == v[j];
    }
    if last.node.RegularFile? {
      forall e | e in pre && e.node.RegularFile?
        ensures t.fingerprint(e.node.content) != t.fingerprint(last.node.content)
      {
        var i :| 0 <= i < |pre| && pre[i] == e;
        assert v[i] == e && v[|pre|] == last;
      }
    }
  }

  /** A step over an entry that is not copied verbatim leaves the list and
      the table as they were. */
  lemma StepKeepsListing(s: Settings, t: Tracking, st: CopyState, e: RemoteEntry)
    requires !Admits(s, e.filename) || Expands(s, e.filename)
    ensures CopyStep(s, t, st, e).state.copied == st.copied
    ensures CopyStep(s, t, st, e).state.table == st.table
  {
  }

  /** A verbatim copy whose digest is new is listed and recorded. */
  lemma StepRecordsNewDigest(s: Settings, t: Tracking, st: CopyState, e: RemoteEntry)
    requires t.enabled && Admits(s, e.filename) && !Expands(s, e.filename) && e.node.RegularFile?
    requires t.fingerprint(e.node.content) !in st.table
    ensures CopyStep(s, t, st, e).error.None?
    ensures CopyStep(s, t, st, e).state.copied == st.copied + [SourcePath(s, e.filename)]
    ensures CopyStep(s, t, st, e).state.table == st.table[t.fingerprint(e.node.content) := e.filename]
  {
  }

  /** What DistinctContentAllKept states for one listing. */
  predicate KeptAll(s: Settings, t: Tracking, entries: seq<RemoteEntry>, init: CopyState) {
    var o := CopyAll(s, t, entries, init);
    o.error.None? ==>
      o.state.copied == init.copied + SourcePaths(s, Verbatim(s, entries)) &&
      o.state.table.Keys == init.table.Keys + FingerprintsOf(t, Verbatim(s, entries))
  }

  /** The step of DistinctContentAllKept for a last entry copied verbatim. */
  lemma KeptAllVerbatimStep(s: Settings, t: Tracking, pre: seq<RemoteEntry>, last: RemoteEntry, init: CopyState)
    requires t.enabled && Admits(s, last.filename) && !Expands(s, last.filename)
    requires KeptAll(s, t, pre, init)
    requires last.node.RegularFile? ==>
      t.fingerprint(last.node.content) !in init.table &&
      t.fingerprint(last.node.content) !in FingerprintsOf(t, Verbatim(s, pre))
    ensures Verbatim(s, pre + [last]) == Verbatim(s, pre) + [last]
    ensures KeptAll(s, t, pre + [last], init)
  {
    assert (pre + [last])[..|pre|] == pre;
    CopyAllSnoc(s, t, pre, last, init);
    var prev := CopyAll(s, t, pre, init);
    if prev.error.None? {
      if last.node.RegularFile? {
        KeptAllNewDigestStep(s, t, pre, last, init);
      } else {
        assert Fetch(s, prev.state.files, last).error.Some?;
      }
    }
  }

  lemma KeptAllNewDigestStep(s: Settings, t: Tracking, pre: seq<RemoteEntry>, last: RemoteEntry, init: CopyState)
    requires t.enabled && Admits(s, last.filename) && !Expands(s, last.filename) && last.node.RegularFile?
    requires CopyAll(s, t, pre, init).error.None?
    requires KeptAll(s, t, pre, init)
    requires t.fingerprint(last.node.content) !in init.table
    requires t.fingerprint(last.node.content) !in FingerprintsOf(t, Verbatim(s, pre))
    ensures KeptAll(s, t, pre + [last], init)
  {
    assert (pre + [last])[..|pre|] == pre;
    var prev := CopyAll(s, t, pre, init);
    CopyAllSnoc(s, t, pre, last, init);
    var v := Verbatim(s, pre);
    assert Verbatim(s, pre + [last]) == v + [last];
    NewDigestListed(s, t, prev.state, last, init, v);
  }

  lemma NewDigestListed(s: Settings, t: Tracking, st: CopyState, last: RemoteEntry, init: CopyState, v: seq<RemoteEntry>)
    requires t.enabled && Admits(s, last.filename) && !Expands(s, last.filename) && last.node.RegularFile?
    requires st.copied == init.copied + SourcePaths(s, v)
    requires st.table.Keys == init.table.Keys + FingerprintsOf(t, v)
    requires t.fingerprint(last.node.content) !in st.table
    ensures var o := CopyStep(s, t, st, last);
      o.error.None? &&
      o.state.copied == init.copied + SourcePaths(s, v + [last]) &&
      o.state.table.Keys == init.table.Keys + FingerprintsOf(t, v + [last])
  {
    StepRecordsNewDigest(s, t, st, last);
    SourcePathsSnoc(s, v, last);
    FingerprintsSnoc(t, v, last);
    SeqAssoc(init.copied, SourcePaths(s, v), [SourcePath(s, last.filename)]);
  }

  lemma FingerprintsSnoc(t: Tracking, v: seq<RemoteEntry>, last: RemoteEntry)
    requires last.node.RegularFile?
    ensures FingerprintsOf(t, v + [last]) == FingerprintsOf(t, v) + {t.fingerprint(last.node.content)}
  {
  }

  /** The step of DistinctContentAllKept for a last entry skipped or
      expanded. */
  lemma KeptAllOtherStep(s: Settings, t: Tracking, pre: seq<RemoteEntry>, last: RemoteEntry, init: CopyState)
    requires !Admits(s, last.filename) || Expands(s, last.filename)
    requires KeptAll(s, t, pre, init)
    ensures Verbatim(s, pre + [last]) == Verbatim(s, pre)
    ensures KeptAll(s, t, pre + [last], init)
  {
    assert (pre + [last])[..|pre|] == pre;
    CopyAllSnoc(s, t, pre, last, init);
    var prev := CopyAll(s, t, pre, init);
    if prev.error.None? {
      StepKeepsListing(s, t, prev.state, last);
    }
  }

  /** With a digest of the content, files whose digests differ from each
      other and from the recorded ones are all kept: the run lists what it
      would list without tracking and records each digest. */
  lemma {:induction false} DistinctContentAllKept(s: Settings, t: Tracking, entries: seq<RemoteEntry>, init: CopyState)
    requires t.enabled
    requires DistinctDigests(t, Verbatim(s, entries))
    requires forall e :: e in Verbatim(s, entries) && e.node.RegularFile? ==> t.fingerprint(e.node.content) !in init.table
    ensures KeptAll(s, t, entries, init)
  {
    if entries != [] {
      var n := |entries| - 1;
      var last := entries[n];
      assert entries == entries[..n] + [last];
      var pre := Verbatim(s, entries[..n]);
      if Admits(s, last.filename) && !Expands(s, last.filename) {
        assert Verbatim(s, entries) == pre + [last];
        DistinctDigestsPrefix(t, pre, last);
        forall e | e in pre ensures e in pre + [last] { }
        DistinctContentAllKept(s, t, entries[..n], init);
        KeptAllVerbatimStep(s, t, entries[..n], last, init);
      } else {
        assert Verbatim(s, entries) == pre;
        DistinctContentAllKept(s, t, entries[..n], init);
        KeptAllOtherStep(s, t, entries[..n], last, init);
      }
    }
  }

  // ---------------------------------------------------------------------
  // The action

  /** deleteFile: nothing to do when the path does not exist; otherwise it is
      deleted, and a delete that reports false is an IOException. */
  method DeleteFile(store: FileStore, p: Path) returns (error: Option<ActionError>)
    modifies store
    ensures !old(store.Exists(p)) ==> error.None? && store.files == old(store.files)
    ensures old(store.Exists(p)) ==>
      (error.None? <==> p in old(store.files) && p !in store.undeletable) &&
      store.files == (if error.None? then old(store.files) - {p} else old(store.files))
    ensures error.Some? ==> error == Some(StoreFailure(p))
    ensures store.dirs == old(store.dirs)
  {
    error := None;
    if store.Exists(p) {
      var deleted := store.Delete(p);
      if !deleted {
        error := Some(StoreFailure(p));
      }
    }
  }

  /** The loop of `run`: every listed entry in order. */
  method CopyFiles(s: Settings, t: Tracking, store: FileStore, table: TrackingTable, entries: seq<RemoteEntry>)
    returns (copied: seq<Path>, error: Option<ActionError>)
    requires t.undeletable == store.undeletable
    modifies store, table
    ensures var o := CopyAll(s, t, entries, CopyState(old(store.files), old(table.entries), []));
      store.files == o.state.files && table.entries == o.state.table && copied == o.state.copied && error == o.error
    ensures store.dirs == old(store.dirs)
  {
    ghost var init := CopyState(store.files, table.entries, []);
    copied, error := [], None;
    var i := 0;
    while i < |entries|
      invariant 0 <= i <= |entries|
      invariant CopyAll(s, t, entries[..i], init) == CopyOutcome(CopyState(store.files, table.entries, copied), None)
      invariant store.dirs == old(store.dirs) && error.None?
    {
      var e := entries[i];
      assert entries[..i + 1][..i] == entries[..i];
      if Admits(s, e.filename) {
        error := FetchEntry(s, store, e);
        if error.Some? {
          ErrorPersists(s, t, entries, init, i + 1);
          return;
        }
        if !Expands(s, e.filename) {
          var source := SourcePath(s, e.filename);
          if !t.enabled {
            copied := copied + [source];
          } else {
            var target := TargetPath(s, e.filename);
            var digest := t.fingerprint(store.files[target]);
            var processed := table.Read(digest);
            if processed.Some? {
              error := DeleteFile(store, target);
              if error.Some? {
                ErrorPersists(s, t, entries, init, i + 1);
                return;
              }
            } else {
              copied := copied + [source];
              table.Write(digest, e.filename);
            }
          }
        }
      }
      i := i + 1;
    }
    assert entries[..i] == entries;
  }

  /** `run`: create the destination directory if absent, connect with the
      password, list the source directory, copy, and publish the comma-joined
      list. Every failure propagates out of `run`; the session is closed on
      every path. The plugin as written is `Run` with `md5 := GetMd5AsWritten`
      (see the digest section above); the contract holds for every `md5`, that
      one included. */
  method Run(cfg: LegacyCopyConfig, md5: Bytes -> Digest, matches: (string, string) -> bool,
             unzip: Bytes -> Archive, listing: Option<seq<RemoteEntry>>,
             store: FileStore, table: TrackingTable, args: PipelineArguments, server: Remote.SftpServer)
    returns (error: Option<ActionError>)
    requires !server.connected
    modifies store, table, args, server
    ensures store.dirs == old(store.dirs) + (if old(store.Exists(cfg.copy.destDirectory)) then {} else {cfg.copy.destDirectory})
    ensures !server.connected
    ensures server.files == old(server.files) && server.dirs == old(server.dirs)
    ensures var connects := Remote.PasswordAuth(cfg.base.password) in server.authorized;
      var s := SettingsOf(cfg.copy, matches, unzip);
      var t := Tracking(TracksFiles(cfg), md5, store.undeletable);
      var o := CopyListing(s, t, listing, CopyState(old(store.files), old(table.entries), []));
      if !connects then
        error == Some(ConnectFailure) && server.sessions == old(server.sessions) &&
        store.files == old(store.files) && table.entries == old(table.entries) && args.values == old(args.values)
      else
        error == o.error && server.sessions == old(server.sessions) + 1 &&
        store.files == o.state.files && table.entries == o.state.table &&
        args.values == (if o.error.None?
                        then old(args.values)[GetVariableNameHoldingFileList(cfg.copy) := Join(o.state.copied, ',')]
                        else old(args.values))
  {
    var destination := cfg.copy.destDirectory;
    if !store.Exists(destination) {
      store.Mkdirs(destination);
    }
    var connected := server.Connect(Remote.PasswordAuth(cfg.base.password));
    if !connected {
      return Some(ConnectFailure);
    }
    var s := SettingsOf(cfg.copy, matches, unzip);
    var t := Tracking(TracksFiles(cfg), md5, store.undeletable);
    if listing.None? {
      server.Close();
      return Some(RemoteFailure(s.srcDirectory));
    }
    var copied;
    copied, error := CopyFiles(s, t, store, table, listing.value);
    if error.None? {
      args.Set(GetVariableNameHoldingFileList(cfg.copy), Join(copied, ','));
    }
    server.Close();
  }
}
