# SFTP actions: a verified model

This project models, in Dafny, the decision logic of the CDAP pipeline
actions of the `sftp-actions` plugin:

- **SFTPCopy**, in two versions.
  - The io.cdap version lists a directory on an SFTP server and copies every admitted entry into the destination filesystem. It expands `.zip` archives and publishes the comma-joined list of the copied source paths as a pipeline argument.
  - The older co.cask version also tracks files by MD5 in a key-value table. It does not list expanded archives.
- **SFTPPut**, in two versions. It uploads the files of a local path whose names match a regex into a directory on the server.
- **SFTPDelete**, in two versions. It removes each path of a comma-separated list from the server, optionally carrying on past failures.
- **SCPRemotetoRemote**. It logs in to a bastion host with a private key and runs one `scp` command there, from host A to host B.
- **SFTPActionConfig**. These are the settings the io.cdap actions share: port and passphrase defaults, the private key, the SSH properties, and the password-or-key choice.

Each loop of the source is a `method` with a `while` loop. It is proved against a specification function, a left fold over the listing from its last element (`CopyAll`, `PutAll`, `DeleteAll`). The properties of the actions are lemmas about those functions.

The objects the actions update are modelled as classes:
- the destination filesystem (`Destination.FileStore`)
- the tracking table (`Destination.TrackingTable`)
- the pipeline arguments (`Destination.PipelineArguments`)
- the SFTP server and its session (`Remote.SftpServer`)

Code that the actions call but whose internals are not modelled comes in as parameters:
- the regex engine (`matches`)
- the zip decoder (`unzip`)
- the digest (`md5`)
- the key-value list parser (`parse`)
- the server's directory listing (`listing`, where `None` means `ls` fails)
- the local listing and whether the local source exists

A Java exception becomes an `ActionError` value:
- The io.cdap actions catch exceptions and log them. Their `Run` returns what is logged (`logged`).
- The co.cask actions let exceptions propagate. Their `Run` returns the error (`error`).

Modules:
- `Common`: strings, paths, `Option`/`Result`, `Join`/`SplitOn`/`JavaSplit`, and `Overlay` (a sequence of map puts).
- `Utf8`: `getBytes(UTF_8)` and its inverse.
- `Destination`, `Remote`: the stateful collaborators.
- `SftpActionConfig`
- `Transfer`: the part of the copy both versions share.
- `SftpCopy`, `LegacySftpCopy`, `CopyVersions`
- `SftpPut`, `LegacySftpPut`
- `SftpDelete`, `LegacySftpDelete`
- `ScpRemoteToRemote`

Where the plugin's documentation and the code disagree, the model follows the code:
- **Copy does not recurse into subdirectories.**
  - `ls` of the source directory lists its subdirectories like files.
  - For a subdirectory, the verbatim copy creates the empty destination file before `get` fails. The empty file stays behind and the run fails (`Transfer.Fetch`).
- **Zip directory entries are written as files.** An archive's directory entries are written like any other entry (`Transfer.ZipWrites`).
  - Hadoop's `Path` drops the trailing "/" of an entry such as `sub/`, so `dest/sub` is created as an empty file.
  - A later entry `sub/c.txt` then needs `dest/sub` to be a directory, and the run fails in the plugin.
  - The model's destination is a map from path strings to contents, so `dest/sub` and `dest/sub/c.txt` coexist and the model's run succeeds. This difference is listed under "Left out".
- **A co.cask rerun with tracking deletes the first run's copies.** The duplicate is written over the first run's copy at the same destination path and then deleted (`LegacySftpCopy.RerunRemovesFirstCopies`).
- **An empty `fileNameRegex` means different things.**
  - Copy treats it as "no filter" (`Strings.isNullOrEmpty`).
  - Put passes it to `String.matches`, where it matches only the empty name (`SftpPut.GetFileNameRegex`).

## Model

| member | source | states |
|---|---|---|
| Utf8.DecodeEncode | src/main/java/io/cdap/plugin/common/SFTPActionConfig.java:87 | the UTF-8 bytes of any string decode back to that string |
| Common.JavaSplitJoin | src/main/java/io/cdap/plugin/SFTPDeleteAction.java:106 | `split(",")` of a comma-joined list gives back the list, provided no element holds a comma and the last one is non-empty; this is what makes a published copy list readable as a delete list |
| SftpActionConfig.GetPort | src/main/java/io/cdap/plugin/common/SFTPActionConfig.java:77 | the port is 22 when unset and the configured port otherwise |
| SftpActionConfig.PassphraseBytes | src/main/java/io/cdap/plugin/common/SFTPActionConfig.java:91-92 | no bytes exactly for a null or empty passphrase; otherwise bytes that decode to the passphrase |
| SftpActionConfig.GetPassphrase | src/main/java/io/cdap/plugin/common/SFTPActionConfig.java:91-92 | the same, for the configuration's passphrase |
| SftpActionConfig.GetPrivateKey | src/main/java/io/cdap/plugin/common/SFTPActionConfig.java:87 | the key bytes decode to the key and are at least as many as its characters |
| SftpActionConfig.SelectCredential | src/main/java/io/cdap/plugin/SFTPCopyAction.java:162-176 | the password connector is used exactly when the type is not "privatekey-select"; the key connector carries the decoded key and the passphrase bytes; a missing key fails exactly when the key type is chosen |
| SftpActionConfig.GetSshProperties | src/main/java/io/cdap/plugin/common/SFTPActionConfig.java:94-108 | StrictHostKeyChecking=no alone for null or empty input, otherwise that default overlaid with each parsed pair in order; the host-key entry is always present |
| SftpActionConfig.SshPropertiesKeys | src/main/java/io/cdap/plugin/common/SFTPActionConfig.java:94-108 | the keys are the host-key entry plus the parsed keys, and nothing else; the host-key value stays "no" unless a pair sets it |
| SftpActionConfig.SshPropertiesLastWins | src/main/java/io/cdap/plugin/common/SFTPActionConfig.java:101-107 | for a key given several times, the last pair's value is kept |
| Transfer.GetExtractZipFiles | src/main/java/io/cdap/plugin/SFTPCopyAction.java:109-111 | archives are expanded unless the setting is explicitly false |
| Transfer.GetVariableNameHoldingFileList | src/main/java/io/cdap/plugin/SFTPCopyAction.java:113-115 | "sftp.copied.file.names" when unset, the configured name otherwise |
| Transfer.ZipWrites | src/main/java/io/cdap/plugin/SFTPCopyAction.java:220-232 | one write per archive entry, in stream order, to destination/entry-name with the entry's bytes |
| Transfer.FetchFailsExactly | src/main/java/io/cdap/plugin/SFTPCopyAction.java:204-213 | fetching an admitted entry fails exactly for a directory or a malformed archive |
| Transfer.FetchWrites | src/main/java/io/cdap/plugin/SFTPCopyAction.java:204-213 | a fetch that does not fail makes exactly the writes of the archive's entries or of the file itself, in order, and nothing else |
| Transfer.VerbatimCopyLands | src/main/java/io/cdap/plugin/SFTPCopyAction.java:206-213 | a verbatim copy puts the server's bytes at destination/name and changes no other destination file |
| Transfer.ArchiveItselfNotStored | src/main/java/io/cdap/plugin/SFTPCopyAction.java:204-205 | an expanded archive is not itself stored at destination/archive-name |
| Transfer.ArchiveEntriesLand | src/main/java/io/cdap/plugin/SFTPCopyAction.java:220-232 | every archive entry lands at destination/entry-name with the content of the last entry of that name |
| Transfer.CopyJschZip | src/main/java/io/cdap/plugin/SFTPCopyAction.java:220-232 | the store becomes the old files overlaid with the archive's writes; a malformed stream fails after the entries before it |
| Transfer.FetchEntry | src/main/java/io/cdap/plugin/SFTPCopyAction.java:203-213 | the store and the error are those of `Fetch`: expand, copy verbatim, or leave an empty file behind when `get` fails |
| Transfer.AdmittedOnly | src/main/java/io/cdap/plugin/SFTPCopyAction.java:190-201 | the admitted entries are a sub-list of the listing: never "." or ".."; every other name when the regex is null or empty; otherwise the names the regex matches; every admitted entry of the listing is kept |
| Transfer.AdmittedOnlyConcat | src/main/java/io/cdap/plugin/SFTPCopyAction.java:190-201 | the filter keeps listing order: filtering a concatenation is the concatenation of the filtered parts |
| Transfer.SourcePaths | src/main/java/io/cdap/plugin/SFTPCopyAction.java:203 | each entry's completeFileName, srcDirectory/name, in order |
| SftpCopy.ErrorPersists | src/main/java/io/cdap/plugin/SFTPCopyAction.java:184-215 | once an entry fails, the later entries change nothing |
| SftpCopy.SkippedEntriesHaveNoEffect | src/main/java/io/cdap/plugin/SFTPCopyAction.java:190-201 | the run over a listing equals the run over its admitted entries alone |
| SftpCopy.FailsIffSomeFetchFails | src/main/java/io/cdap/plugin/SFTPCopyAction.java:184-215 | the loop fails exactly when some admitted entry is a directory or a malformed archive |
| SftpCopy.EveryAdmittedEntryListed | src/main/java/io/cdap/plugin/SFTPCopyAction.java:214 | a run that completes lists the source path of every admitted entry, archives included, in listing order |
| SftpCopy.DestinationIsOverlayOfWrites | src/main/java/io/cdap/plugin/SFTPCopyAction.java:184-215 | a run that completes leaves the earlier destination files overlaid with every admitted entry's writes in listing order |
| SftpCopy.GetFileSystemProperties | src/main/java/io/cdap/plugin/SFTPCopyAction.java:117-129 | empty for null or empty input; otherwise the parsed pairs put in order, with exactly the parsed keys |
| SftpCopy.CopyFiles | src/main/java/io/cdap/plugin/SFTPCopyAction.java:184-215 | the loop leaves the store, the list and the error as `CopyAll` specifies |
| SftpCopy.SftpCopyLogic | src/main/java/io/cdap/plugin/SFTPCopyAction.java:179-218 | a failing `ls` changes nothing; otherwise the loop runs, and only a loop that completes publishes the joined list under the variable name |
| SftpCopy.Run | src/main/java/io/cdap/plugin/SFTPCopyAction.java:150-177 | creates the destination directory when absent; a missing key, a refused login, a failing `ls` and a failing entry are all logged rather than raised; the session is closed on every path |
| LegacySftpCopy.ErrorPersists | src/main/java/co/cask/cdap/hydrator/action/plugin/SFTPCopyAction.java:145-193 | once an entry fails, the later entries change nothing |
| LegacySftpCopy.SkippedEntriesHaveNoEffect | src/main/java/co/cask/cdap/hydrator/action/plugin/SFTPCopyAction.java:151-163 | the run over a listing equals the run over its admitted entries alone |
| LegacySftpCopy.VerbatimConcat | src/main/java/co/cask/cdap/hydrator/action/plugin/SFTPCopyAction.java:168-191 | the verbatim entries keep listing order: those of a concatenation are the concatenation of each part's |
| LegacySftpCopy.VerbatimEntriesListed | src/main/java/co/cask/cdap/hydrator/action/plugin/SFTPCopyAction.java:168-191 | without tracking, a run that completes lists exactly the verbatim-copied entries in order and leaves the table alone |
| LegacySftpCopy.VerbatimComplete | src/main/java/co/cask/cdap/hydrator/action/plugin/SFTPCopyAction.java:168-191 | every admitted entry of the listing that is not an expanded archive is among the verbatim-copied entries |
| LegacySftpCopy.FailsIffSomeFetchFails | src/main/java/co/cask/cdap/hydrator/action/plugin/SFTPCopyAction.java:145-193 | without tracking, the run fails exactly when some admitted entry cannot be fetched |
| LegacySftpCopy.ListedPathsAreVerbatimEntries | src/main/java/co/cask/cdap/hydrator/action/plugin/SFTPCopyAction.java:177-191 | every listed path is the source path of an admitted entry copied verbatim; earlier list contents are kept |
| LegacySftpCopy.ArchivesAndSkippedNeverListed | src/main/java/co/cask/cdap/hydrator/action/plugin/SFTPCopyAction.java:168-169 | an expanded archive, ".", ".." or a name the regex rejects is never listed |
| LegacySftpCopy.TableOnlyGrows | src/main/java/co/cask/cdap/hydrator/action/plugin/SFTPCopyAction.java:177-188 | a recorded digest is never overwritten or removed |
| LegacySftpCopy.ListedCountMatchesNewDigests | src/main/java/co/cask/cdap/hydrator/action/plugin/SFTPCopyAction.java:177-188 | with tracking, each listed file adds exactly one digest to the table |
| LegacySftpCopy.CopiedDigestsRecorded | src/main/java/co/cask/cdap/hydrator/action/plugin/SFTPCopyAction.java:185-188 | after a run with tracking completes, the digest of every verbatim-copied file is in the table |
| LegacySftpCopy.AllRecordedListsNothing | src/main/java/co/cask/cdap/hydrator/action/plugin/SFTPCopyAction.java:181-184 | when every digest is already recorded, nothing is listed and the table is unchanged |
| LegacySftpCopy.AllRecordedRemovesTargets | src/main/java/co/cask/cdap/hydrator/action/plugin/SFTPCopyAction.java:181-184 | when every digest is already recorded and no archive is expanded, a run that completes removes destination/name for every admitted entry |
| LegacySftpCopy.RerunListsNothing | src/main/java/co/cask/cdap/hydrator/action/plugin/SFTPCopyAction.java:177-188 | a rerun over the same listing after a completed run lists nothing |
| LegacySftpCopy.RerunRemovesFirstCopies | src/main/java/co/cask/cdap/hydrator/action/plugin/SFTPCopyAction.java:171-184 | a rerun without archives that completes deletes the first run's destination copies |
| LegacySftpCopy.CompletedRunFetchedAll | src/main/java/co/cask/cdap/hydrator/action/plugin/SFTPCopyAction.java:145-193 | a run that completes fetched every admitted entry without failure |
| LegacySftpCopy.AsWrittenDigestDropsDistinctFile | src/main/java/co/cask/cdap/hydrator/action/plugin/SFTPCopyAction.java:210-214 | with getMD5 as written, the second of two files with different content is deleted and not listed |
| LegacySftpCopy.DistinctContentAllKept | src/main/java/co/cask/cdap/hydrator/action/plugin/SFTPCopyAction.java:177-188 | with a digest of the content, files with new, distinct digests are all listed as without tracking, and each digest is recorded |
| LegacySftpCopy.DeleteFile | src/main/java/co/cask/cdap/hydrator/action/plugin/SFTPCopyAction.java:235-242 | an absent path is left alone; an existing one is deleted, or the call fails with StoreFailure when the delete reports false |
| LegacySftpCopy.CopyFiles | src/main/java/co/cask/cdap/hydrator/action/plugin/SFTPCopyAction.java:145-193 | the loop leaves the store, the table, the list and the error as `CopyAll` specifies |
| LegacySftpCopy.Run | src/main/java/co/cask/cdap/hydrator/action/plugin/SFTPCopyAction.java:130-197 | creates the destination directory when absent, connects with the password, copies, and publishes the joined list only when nothing failed; every failure propagates; the plugin as written is this method with `md5` set to `GetMd5AsWritten`, and the contract holds for every `md5` |
| CopyVersions.VersionsAgreeWithoutArchivesOrTracking | src/main/java/co/cask/cdap/hydrator/action/plugin/SFTPCopyAction.java:145-193 | with tracking off and no archive expanded, both copy versions write the same files, list the same paths and fail alike |
| CopyVersions.ExpandedArchiveListedOnlyByNewVersion | src/main/java/io/cdap/plugin/SFTPCopyAction.java:204-214 | an expanded archive is listed by the io.cdap version and not by the co.cask one, and both write the same files |
| CopyVersions.FilesAndErrorAgreeWithoutTracking | src/main/java/co/cask/cdap/hydrator/action/plugin/SFTPCopyAction.java:145-193 | with tracking off, on any listing, both copy versions write the same files and fail alike, and the legacy table is left alone |
| CopyVersions.VerbatimOfAdmitted | src/main/java/co/cask/cdap/hydrator/action/plugin/SFTPCopyAction.java:168-191 | the co.cask version's verbatim copies among the admitted entries are those of the whole listing |
| CopyVersions.VersionsAgreeWithoutTracking | src/main/java/io/cdap/plugin/SFTPCopyAction.java:190-214 | with tracking off, on any listing, a completed run lists every admitted entry in the io.cdap version and the same list with the expanded archives left out in the co.cask one; files and errors agree |
| SftpPut.GetFileNameRegex | src/main/java/io/cdap/plugin/SFTPPutAction.java:82-84 | ".*" when unset, the configured regex otherwise |
| SftpPut.Selected | src/main/java/io/cdap/plugin/SFTPPutAction.java:138-141 | the selected entries are a sub-list of the local listing whose names match the regex, and every entry of the listing whose name matches is selected |
| SftpPut.SelectedConcat | src/main/java/io/cdap/plugin/SFTPPutAction.java:138-141 | the filter keeps listing order: selecting from a concatenation is the concatenation of the selections |
| SftpPut.ErrorPersists | src/main/java/io/cdap/plugin/SFTPPutAction.java:142-147 | once an upload fails, the later entries change nothing |
| SftpPut.UnmatchedEntriesIgnored | src/main/java/io/cdap/plugin/SFTPPutAction.java:138-141 | the upload over the listing equals the upload over the selected entries alone |
| SftpPut.FailsIffDirectorySelected | src/main/java/io/cdap/plugin/SFTPPutAction.java:142-147 | the upload fails exactly when the filter selects a local directory, which cannot be opened, or a file whose name is taken by a directory in the destination, where `put` fails |
| SftpPut.UploadIsOverlay | src/main/java/io/cdap/plugin/SFTPPutAction.java:142-147 | an upload that completes leaves the server's files overlaid with destDirectory/name for each selected file, in order |
| SftpPut.UploadLands | src/main/java/io/cdap/plugin/SFTPPutAction.java:142-147 | a selected file that no later selected entry shares a name with ends up at destDirectory/name with its content |
| SftpPut.PutFiles | src/main/java/io/cdap/plugin/SFTPPutAction.java:142-147 | the loop leaves the server's files and the error as `PutAll` specifies |
| Remote.ParentOfChild | src/main/java/io/cdap/plugin/SFTPPutAction.java:132 | the directory `mkdir` needs for destination/name is the destination itself, for any name without '/' |
| Remote.SftpServer.Mkdir | src/main/java/io/cdap/plugin/SFTPPutAction.java:131-135 | `mkdir` succeeds exactly when nothing exists at the path and its parent is a directory, and then adds that one directory |
| Remote.SftpServer.Put | src/main/java/io/cdap/plugin/SFTPPutAction.java:145 | `put` fails exactly when a directory has the target's name; otherwise it writes the content at working-directory/name and changes nothing else |
| SftpPut.NestedDestinationNeedsParent | src/main/java/io/cdap/plugin/SFTPPutAction.java:131-136 | a destination parent/name is created exactly when nothing is there and the parent is already a directory, so with a missing parent `cd` fails and nothing is uploaded |
| SftpPut.PutLogic | src/main/java/io/cdap/plugin/SFTPPutAction.java:128-148 | `mkdir` adds the destination directory only when nothing is there and its parent is a directory (it makes no parents), and its failure is ignored; a failing `cd` stops with RemoteFailure and no upload; otherwise the upload runs against the server's directories |
| SftpPut.Run | src/main/java/io/cdap/plugin/SFTPPutAction.java:105-126 | a missing source raises before any connection is made; a missing key or a refused login is logged; otherwise PutLogic runs and its failure is logged; the session is closed on every path |
| LegacySftpPut.Run | src/main/java/co/cask/cdap/hydrator/action/plugin/SFTPPutAction.java:80-116 | the same upload with the password only; every failure propagates |
| SftpDelete.ErrorPersists | src/main/java/io/cdap/plugin/SFTPDeleteAction.java:104-118 | once a removal fails and is rethrown, the later paths change nothing |
| SftpDelete.ReachedPathsRemoved | src/main/java/io/cdap/plugin/SFTPDeleteAction.java:104-118 | a loop that completes leaves exactly the earlier files minus the named paths |
| SftpDelete.ContinueOnErrorAttemptsAll | src/main/java/io/cdap/plugin/SFTPDeleteAction.java:108-116 | with continueOnError, the loop never fails and removes every named path; every path that was not a file at its turn is logged, and only paths of the list are; nothing is logged iff every path was present |
| SftpDelete.ContinueOnErrorLogsExactlyAbsent | src/main/java/io/cdap/plugin/SFTPDeleteAction.java:108-116 | with continueOnError, the log is exactly the paths that were not a file at their turn, in list order and with repetitions |
| SftpDelete.StrictStopsAtFirstFailure | src/main/java/io/cdap/plugin/SFTPDeleteAction.java:108-116 | without continueOnError, the loop fails iff some path is not a file at its turn; it then fails on the first such path, having removed exactly the paths before it |
| SftpDelete.DuplicatePathFailsWhenStrict | src/main/java/io/cdap/plugin/SFTPDeleteAction.java:109-114 | naming one file twice fails on the second removal without continueOnError |
| SftpDelete.DeleteFiles | src/main/java/io/cdap/plugin/SFTPDeleteAction.java:104-118 | the loop leaves the server's files, the logged warnings and the error as `DeleteAll` specifies |
| SftpDelete.Run | src/main/java/io/cdap/plugin/SFTPDeleteAction.java:82-102 | a null or empty list does nothing and connects to nothing; a missing key or a refused login is logged; otherwise the loop runs and its failure is logged |
| LegacySftpDelete.Run | src/main/java/co/cask/cdap/hydrator/action/plugin/SFTPDeleteAction.java:42-64 | the same with the password only; every failure propagates |
| ScpRemoteToRemote.GetPort | src/main/java/io/cdap/plugin/SCPRemotetoRemoteAction.java:197-199 | the port is 22 when unset and the configured port otherwise |
| ScpRemoteToRemote.GetPassphrase | src/main/java/io/cdap/plugin/SCPRemotetoRemoteAction.java:207-208 | no bytes for null; otherwise bytes that decode to the passphrase |
| ScpRemoteToRemote.GetPrivateKey | src/main/java/io/cdap/plugin/SCPRemotetoRemoteAction.java:205 | an unset key fails with MissingPrivateKey; otherwise the bytes decode to the key |
| ScpRemoteToRemote.RemoteSpecRoundTrip | src/main/java/io/cdap/plugin/SCPRemotetoRemoteAction.java:70-77 | `user@host:path` reads back into its three parts when the user holds no '@' and the host no ':' |
| ScpRemoteToRemote.Flag | src/main/java/io/cdap/plugin/SCPRemotetoRemoteAction.java:78-95 | an option is empty exactly when its setting is the "off" value, and the option otherwise |
| ScpRemoteToRemote.DirOption | src/main/java/io/cdap/plugin/SCPRemotetoRemoteAction.java:78-83 | empty exactly for "directory-off", "-r" otherwise |
| ScpRemoteToRemote.CompressOption | src/main/java/io/cdap/plugin/SCPRemotetoRemoteAction.java:84-89 | empty exactly for "compression-off", "-C" otherwise |
| ScpRemoteToRemote.VerboseOption | src/main/java/io/cdap/plugin/SCPRemotetoRemoteAction.java:90-95 | empty exactly for "verbose-off", "-v" otherwise |
| ScpRemoteToRemote.CommandIsJoinOfFields | src/main/java/io/cdap/plugin/SCPRemotetoRemoteAction.java:97-98 | the command is its six fields (scp, compression, verbosity, directory, source, destination) joined by single spaces |
| ScpRemoteToRemote.CommandFieldsRecoverable | src/main/java/io/cdap/plugin/SCPRemotetoRemoteAction.java:97-98 | when no user, host or path holds a space, splitting the command on spaces gives back the six fields, empty options in their places |
| ScpRemoteToRemote.AllOptionsOff | src/main/java/io/cdap/plugin/SCPRemotetoRemoteAction.java:78-98 | with every option off, the command is "scp" and four spaces before the two specs |
| ScpRemoteToRemote.Run | src/main/java/io/cdap/plugin/SCPRemotetoRemoteAction.java:58-103 | an unset key fails before connecting; a refused login propagates; an unset flag fails after connecting and leaves the session open; otherwise the command is run and the session is closed |

## Left out

- SFTPConnector is not part of this model: how JSch opens a session and an `sftp` channel. A connection succeeds exactly when the server accepts the credential (`Remote.SftpServer.Connect`). Host, port and user name are not checked. The SSH properties are computed but not applied.
- The filesystem properties are computed (`SftpCopy.GetFileSystemProperties`) but their effect on Hadoop's `Configuration` is not modelled.
- `FileSystem.makeQualified` and Hadoop path normalisation: paths are plain strings joined with "/".
- Relative paths in `mkdir`, `cd` and `rm`, and glob patterns in `rm`, are not modelled: paths are compared as given. Only `mkdir` resolves anything: the parent of a path without '/' is the working directory (`Remote.ParentDir`).
- A destination directory written with a trailing "/" is not normalised: `mkdir` takes the part before that "/" as its parent.
- KeyValueListParser, the regex engine, the zip decoder and MD5 are parameters (`parse`, `matches`, `unzip`, `md5`), because their code is not part of this model.
- LegacySftpCopy.TracksFiles: `toLowerCase` is modelled for ASCII letters only; other characters are left as they are.
- LegacySftpCopy.Run: the tracking table stores the file name as UTF-8 bytes; the model stores the string itself.
- The `instanceof ChannelSftp.LsEntry` check: the listing holds only entries.
- Transfer.ZipWrites: the destination is a flat map from path strings to contents, so a file and a path below it can coexist. In Hadoop, a zip directory entry `sub/` becomes a file `dest/sub`, and a later `sub/c.txt` fails; the model's run succeeds there.
- Read failures in the middle of a transfer, other than a directory being read or a malformed archive, are not modelled. Neither are I/O errors of the destination store other than a delete that reports false.
- The SFTP server refuses an operation only for the reasons its methods state: `rm` of a path that is not a file, `mkdir` where something exists or the parent is missing, `cd` into a non-directory, `put` onto a directory. Refusals for other reasons (permissions, quota, a lost connection) are not modelled.
- SftpDelete.DeleteAll: `rm` of an existing file always succeeds, so the lemmas that say every named file is removed (such as `ContinueOnErrorAttemptsAll`) assume the server refuses nothing for permission or other I/O reasons.
- Transactions around the tracking table (`context.execute`) are not modelled. Each read or write is one step.
- Logging, `configurePipeline`, `validate`, dataset creation and SCP's `verboseLogging` (which only reads the channel's output into the log) are left out.
- ScpRemoteToRemote.Run: the exit status of the remote `scp` is not modelled; the command is returned instead.
- ScpRemoteToRemote.Run: the bastion's host, port and user name are not checked.
- The co.cask SFTPActionConfig is not part of this model. The co.cask actions take the io.cdap configuration fields and use only the password.
- The static session of SFTPConnector is not modelled, and neither is concurrency between actions.

## Findings

| source | as written | input that shows it | evidently intended | confidence | as-written member | corrected member |
|---|---|---|---|---|---|---|
| src/main/java/co/cask/cdap/hydrator/action/plugin/SFTPCopyAction.java:210-214 | `getMD5` wraps the file in a DigestInputStream but never reads it before calling `digest()`, so every file gets the MD5 of zero bytes | tracking on, listing `a.txt` (content 1) then `b.txt` (content 2): the digest of `b.txt` equals the recorded one, so `b.txt` is deleted from the destination and not listed | the digest of the file's content, so that only files with identical content count as already processed | not executed | LegacySftpCopy.AsWrittenDigestDropsDistinctFile | LegacySftpCopy.DistinctContentAllKept |
