# Octave for Android: the package-installation engine

This project models the part of the Octave launcher activity
(`octaveMain.java`) that installs Octave's packages into the install root
`/data/data/<mPrefix>`:

- the version gate: a package is current when the empty marker file
  `/data/data/<mPrefix>/<package>.<version>` exists;
- `installPackage`, which processes three manifests in order (directories,
  file links, other links) and writes the marker only if no shell command
  reported an error;
- the manifest processors, with their prefix rewrite
  `/data/data/com.octave/` to `/data/data/<mPrefix>/`;
- the tree helpers `createDir`, `deleteDir` and `cleanHouse`;
- the error flag set by `exec`;
- `unpackAll` itself: home set-up, the donation packages, the donation-marker
  check, the update branch, and Octave and its add-ons.

The device filesystem is a value: a map from absolute paths (sequences of
segments) to nodes, which are directories, text files or symbolic links.
Links are nodes in their own right; only the existence test of
`processLinkFile` follows them (`FileTree.Present`). `FileTree.ValidFs`
says the map is a tree. The three shell commands the activity runs are
`chmod 0777`, `ln -s` and `rm -rf`. `Shell.Run` gives each one's effect on the
map, plus whether it wrote to its error stream. The package manager is a map
from package name to an optional version name. A set `locked` lists the
entries the system refuses to remove.

The activity is the class `Octave.OctaveMain`. Its fields are the filesystem,
`errOcc`, `home` and `askForDonation`. Each method is proved against a
function of the old state. The functions and their lemmas live in these
modules:

- `VersionGate`: the marker.
- `Manifests`: the manifest lines.
- `Installer`: packages, the home set-up, the update branch and `unpackAll`.
- `Text`: Java's `String.replace`, `String.split(" ")` and the tokenising that
  `Runtime.exec(String)` does.

An exception thrown inside `unpackAll` is modelled as a `thrown` flag (an
`ok` result of `false`). Examples are a failed `mkdir` in `createDir`, and a
link-manifest line with no second field. The code does not catch these per
package: the exception leaves `unpackAll` altogether, and the thread's own
handler only logs it. So the model stops the whole sequence at the first such
exception. A per-package recovery would behave differently, and the model
does not do that.

A link-manifest line's old entry is deleted at the path as written, before
the line is rewritten. With the default prefix `com.octave` the rewrite is the
identity, so this is harmless (`Manifests.DefaultRewriteIsIdentity`). With any
other prefix, a link path that mentions `/data/data/com.octave/` is rewritten
(`Manifests.RewriteMovesHome`),
so a link left over from an earlier install at the rewritten path stays in
place. `ln` then reports an error, and the package's marker is withheld
(`Manifests.LinkLineKeepsStaleLink`). Link paths that do not mention the
canonical home are not rewritten and are not affected.

The existence test before that deletion follows links, as `File.exists()`
does. So a dangling link at the link path (its target is gone) is not deleted,
and `ln` reports an error for it (`Manifests.LinkLineKeepsDanglingLink`). That
package is then never marked current, for as long as the link's target stays
missing.

Every stage of a launch removes only entries the system lets the installer
remove: the root and the locked entries always survive
(`FileTree.KeepsLocked`, carried by `Shell.Run`, the manifest functions and up
to `Installer.Unpack`).

## Model

The filesystem primitives `FileTree.MakeDir`, `FileTree.CreateNewFile` and
`FileTree.DeleteNode` (File.mkdir, createNewFile and delete), the single
manifest steps `Manifests.CreateDirAt` and `Manifests.DirLine`, and the marker
naming `VersionGate.VersionName` and `VersionGate.MarkerName` are the building
blocks of `Octave.OctaveMain.CreateDirNamed`, `Manifests.DirLines`,
`Manifests.LinkLine` and `VersionGate.CreateVersionFile`; the rows of those
members state what they promise.

| member | source | states |
|---|---|---|
| VersionGate.UpdateRequired | octave/src/com/octave/octaveMain.java:448-466 | a package the manager does not know is never pending |
| VersionGate.MarkerClosesGate | octave/src/com/octave/octaveMain.java:448-489 | once createVersionFile has run for a known package (install root a directory), updateRequired is false for it |
| VersionGate.OtherVersionStaysPending | octave/src/com/octave/octaveMain.java:448-489 | the marker of one version leaves the gate of any other version as it was, so an upgraded package is pending again |
| VersionGate.CreateVersionFile | octave/src/com/octave/octaveMain.java:468-489 | the filesystem is unchanged, or gains exactly the absent marker of the resolved version ("?" when unknown) as an empty file |
| VersionGate.CreateVersionFileIdempotent | octave/src/com/octave/octaveMain.java:468-489 | writing the marker twice is writing it once |
| VersionGate.CreateVersionFileKeepsValid | octave/src/com/octave/octaveMain.java:468-489 | writing the marker keeps the filesystem a tree |
| Octave.OctaveMain.CreateVersionFile | octave/src/com/octave/octaveMain.java:468-489 | the new filesystem is the marker-writing function of the old one; the flags and home are untouched |
| Octave.OctaveMain.Exec | octave/src/com/octave/octaveMain.java:332-354 | the filesystem follows the command's effect; the error flag is set when the command wrote to stderr and is never cleared |
| Shell.RunKeepsValid | octave/src/com/octave/octaveMain.java:332-354 | every command keeps the filesystem a tree |
| Shell.RemoveTreeOutcome | octave/src/com/octave/octaveMain.java:207-212 | rm -rf leaves everything outside its path alone, reports an error exactly when something there is protected, and removes the whole subtree when nothing is |
| Shell.Run | octave/src/com/octave/octaveMain.java:332-354 | a command never removes the root or a locked entry; only rm -rf removes anything; only ln -s adds an entry, at its second operand |
| Shell.ChmodFreshDir | octave/src/com/octave/octaveMain.java:324 | chmod 0777 on an existing directory opens it up and reports nothing |
| Installer.Manifested | octave/src/com/octave/octaveMain.java:244-249 | the three manifests never remove the root or a locked entry |
| Installer.Install | octave/src/com/octave/octaveMain.java:238-256 | a current or unknown package leaves the filesystem alone with the flag clear; after an error or exception, nothing beyond the manifests' work is done, so no marker; no protected entry is removed |
| Installer.CleanInstallIsCurrent | octave/src/com/octave/octaveMain.java:238-256 | an installation with no error and no exception makes the package current, so a second installation changes nothing |
| Installer.InstallKeepsValid | octave/src/com/octave/octaveMain.java:238-256 | installing a package keeps the filesystem a tree |
| Octave.OctaveMain.InstallPackage | octave/src/com/octave/octaveMain.java:238-256 | the new filesystem, the error flag and the exception outcome are those of the installation function; the flag starts clear |
| Manifests.DefaultRewriteIsIdentity | octave/src/com/octave/octaveMain.java:284 | with the default prefix com.octave the manifest rewrite changes no line |
| Text.ReplaceWithoutOccurrence | octave/src/com/octave/octaveMain.java:284 | a line without the canonical home is not rewritten |
| Text.ReplaceAll | octave/src/com/octave/octaveMain.java:284 | replacing a text by itself is the identity |
| Text.ReplaceFirst | octave/src/com/octave/octaveMain.java:284 | the first occurrence of the target is replaced, the text before it is kept and the scan resumes after it |
| Manifests.Rewrite | octave/src/com/octave/octaveMain.java:284 | a line that never mentions /data/data/com.octave/ is not rewritten |
| Manifests.RewriteFirst | octave/src/com/octave/octaveMain.java:284 | each mention of /data/data/com.octave/, left to right, becomes /data/data/<prefix>/ and the text before it is kept |
| Manifests.RewriteMovesHome | octave/src/com/octave/octaveMain.java:284 | a line under the canonical home that mentions it once is moved under /data/data/<prefix>/ with the rest unchanged |
| Text.JavaSplit | octave/src/com/octave/octaveMain.java:299 | no field holds a space; a line with a space has no trailing empty field; a line without one is a single field |
| Text.SplitJoin | octave/src/com/octave/octaveMain.java:299 | on a line that does not end with the separator, joining the fields of split with it gives the line back |
| Text.Tokens | octave/src/com/octave/octaveMain.java:305 | the words exec makes of a command line are non-empty and free of blanks |
| Text.ReplaceAround | octave/src/com/octave/octaveMain.java:304 | the rewrite works field by field around a character outside the target text |
| Text.ReplaceAvoids | octave/src/com/octave/octaveMain.java:304 | the rewrite adds no blank to a line when the prefix has none |
| Manifests.RewriteLinkLine | octave/src/com/octave/octaveMain.java:304-305 | a rewritten "target link" line still splits into the rewritten target and the rewritten link |
| Text.TwoWords | octave/src/com/octave/octaveMain.java:299 | a line of two blank-free words split on " " gives the two words, and so does the command-line tokeniser |
| Manifests.EnsureDir | octave/src/com/octave/octaveMain.java:313-325 | when createDir returns normally, no entry is lost and the path is present |
| Manifests.EnsureDirOutcome | octave/src/com/octave/octaveMain.java:313-325 | after createDir the path is present (as whatever entry was there, or a new directory) and every proper ancestor is a directory; no entry is lost or changed; new entries are 0777 directories on the path; a present path changes nothing |
| Manifests.EnsureDirIdempotent | octave/src/com/octave/octaveMain.java:313-325 | creating the same directory again changes nothing |
| Manifests.EnsureDirViaParent | octave/src/com/octave/octaveMain.java:314-316 | when the parent is missing, createDir succeeds exactly when creating the parent does |
| Manifests.EnsureDirUnderParent | octave/src/com/octave/octaveMain.java:317-324 | under an existing parent: an existing node is kept; otherwise a 0777 directory is made when the parent is a directory and mkdir fails otherwise |
| Manifests.EnsureDirStep | octave/src/com/octave/octaveMain.java:313-325 | createDir's outcome is that of creating the parent (when missing), then checking existence, then mkdir |
| Octave.OctaveMain.CreateDir | octave/src/com/octave/octaveMain.java:313-325 | the method succeeds exactly when the directory can be ensured, and then leaves the ensured filesystem; on failure it changes nothing; the flags are untouched |
| Octave.OctaveMain.MkdirChmod | octave/src/com/octave/octaveMain.java:321-324 | mkdir and chmod 0777 leave the new directory with mode 0777 and nothing else changed |
| Octave.OctaveMain.CreateDirNamed | octave/src/com/octave/octaveMain.java:327-330 | createDir(String) is createDir on the parsed path; a relative name fails |
| Manifests.DirLines | octave/src/com/octave/octaveMain.java:282-286 | the directory lines report nothing through stderr |
| Manifests.DirLinesKeep | octave/src/com/octave/octaveMain.java:282-286 | the directory lines never remove an entry |
| Manifests.ReadLines | octave/src/com/octave/octaveMain.java:281 | a manifest is read only when an entry is at its path |
| Manifests.DirFile | octave/src/com/octave/octaveMain.java:278-291 | processDirFile reports nothing through stderr and removes no entry |
| Manifests.DirLinesGrow | octave/src/com/octave/octaveMain.java:278-291 | processing directory lines keeps the tree, keeps every existing node, adds only 0777 directories, reports no error, and without an exception materialises every line's directory |
| Manifests.DirLinesSettled | octave/src/com/octave/octaveMain.java:278-291 | when every line's directory already exists, processing the lines changes nothing |
| Manifests.DirLinesIdempotent | octave/src/com/octave/octaveMain.java:278-291 | processing a directory manifest a second time changes nothing |
| Manifests.DirLinesStops | octave/src/com/octave/octaveMain.java:283-286 | after an exception no later line is processed |
| Octave.OctaveMain.ProcessDirFile | octave/src/com/octave/octaveMain.java:278-291 | the loop leaves the filesystem and the exception outcome of the directory-manifest function; the error flag is untouched |
| Manifests.LinkLine | octave/src/com/octave/octaveMain.java:299-305 | a line without a space throws; a line never removes the root or a locked entry |
| Manifests.LinkLines | octave/src/com/octave/octaveMain.java:298-306 | the link lines never remove the root or a locked entry |
| Manifests.LinkFile | octave/src/com/octave/octaveMain.java:293-311 | processLinkFile never removes the root or a locked entry |
| FileTree.Resolve | octave/src/com/octave/octaveMain.java:301 | following links ends at an entry that is not a link, and an entry that is not a link resolves to itself |
| Manifests.LinkLineInstalls | octave/src/com/octave/octaveMain.java:298-305 | for a "target link" line whose link is unaffected by the rewrite, with nothing at the link or a removable entry that File.exists() sees, the old entry is deleted and the link now points to the rewritten target, with no error |
| Manifests.LinkLineKeepsDanglingLink | octave/src/com/octave/octaveMain.java:300-305 | a dangling link at the link path is not deleted, so ln reports an error and nothing changes |
| Manifests.LinkLineKeepsStaleLink | octave/src/com/octave/octaveMain.java:300-305 | when the rewrite moves the link path onto an existing node, that node stays and ln reports an error |
| Manifests.LinkLinesKeepsValid | octave/src/com/octave/octaveMain.java:293-311 | processing link lines keeps the filesystem a tree |
| Manifests.LinkLinesStops | octave/src/com/octave/octaveMain.java:298-306 | after an exception no later line is processed |
| Octave.OctaveMain.ProcessLinkFile | octave/src/com/octave/octaveMain.java:293-311 | the loop leaves the filesystem, error flag and exception outcome of the link-manifest function |
| Octave.OctaveMain.LinkOne | octave/src/com/octave/octaveMain.java:299-305 | one line: a line without a second field throws and changes nothing; otherwise the result is the line's effect |
| Octave.DeleteTree | octave/src/com/octave/octaveMain.java:258-270 | deleteDir succeeds exactly when the node exists and nothing at or below it is protected, and then its whole subtree is gone; otherwise only clear nodes below it were removed |
| Octave.DeleteEntries | octave/src/com/octave/octaveMain.java:260-266 | the loop over the children either deletes every child's subtree (all of them clear) or stops at one that is not clear, leaving the directory |
| Octave.DeleteEntry | octave/src/com/octave/octaveMain.java:261-264 | one child: success removes its subtree and shows it clear; failure shows the directory not clear |
| Octave.OctaveMain.DeleteDir | octave/src/com/octave/octaveMain.java:258-270 | the method's outcome is deleteDir's on the filesystem value; the flags are untouched |
| Octave.ClearByChildren | octave/src/com/octave/octaveMain.java:259-269 | a node is clear exactly when it is removable and every child is clear, which is why the depth-first recursion decides correctly |
| Installer.TidyOutcome | octave/src/com/octave/octaveMain.java:356-372 | cleanHouse removes only entries of tmp, keeps the tree, leaves no deletable entry behind and a second pass changes nothing |
| Octave.OctaveMain.CleanHouse | octave/src/com/octave/octaveMain.java:356-372 | a missing tmp is left alone; a tmp that is not a directory throws; otherwise exactly the removable leaves among its entries are deleted |
| Installer.Leaves | octave/src/com/octave/octaveMain.java:362-369 | the entries cleanHouse deletes are entries of tmp that may be removed |
| Installer.Tidy | octave/src/com/octave/octaveMain.java:356-372 | cleanHouse adds nothing and removes no protected entry |
| Installer.DonorMarkedCases | octave/src/com/octave/octaveMain.java:179-199 | a donation shows exactly when one of the five markers donate5 ... donate100 exists in the install root |
| Octave.OctaveMain.CheckDonation | octave/src/com/octave/octaveMain.java:179-199 | the dialog is wanted exactly when no donation marker exists; nothing else changes |
| Installer.TryMakeDir | octave/src/com/octave/octaveMain.java:156 | mkdir with its result ignored removes nothing |
| Installer.TryCreateFile | octave/src/com/octave/octaveMain.java:164-168 | createNewFile with its failure ignored removes nothing |
| Installer.HomeSetup | octave/src/com/octave/octaveMain.java:152-171 | the home set-up removes no entry |
| Installer.HomeSetupKeepsValid | octave/src/com/octave/octaveMain.java:152-171 | the home set-up keeps the filesystem a tree |
| Installer.HomeSetupMakesRc | octave/src/com/octave/octaveMain.java:159-171 | without external storage, with the install root a directory, .octaverc exists after the set-up |
| Octave.OctaveMain.SetUpHome | octave/src/com/octave/octaveMain.java:152-171 | home is freeRoot on mounted storage and the install root otherwise; the filesystem and the flag follow the set-up function |
| Installer.SweepStaleClears | octave/src/com/octave/octaveMain.java:206-212 | with nothing under the install root protected, the update removes bin, mylib, unzippedFiles and freeRoot without an error |
| Installer.OpenRoot | octave/src/com/octave/octaveMain.java:203-204 | the two chmod commands remove no entry |
| Installer.SweepStale | octave/src/com/octave/octaveMain.java:206-212 | the four rm -rf commands never remove the root or a locked entry |
| Installer.MakeTmp | octave/src/com/octave/octaveMain.java:214-218 | creating and opening up tmp removes no entry |
| Installer.PrepareUpdate | octave/src/com/octave/octaveMain.java:201-220 | the update branch never removes the root or a locked entry |
| Installer.PrepareUpdateKeepsValid | octave/src/com/octave/octaveMain.java:201-220 | the update branch keeps the filesystem a tree |
| Octave.OctaveMain.ResetForUpdate | octave/src/com/octave/octaveMain.java:201-220 | the filesystem and the error flag follow the update-branch function |
| Octave.OctaveMain.OpenRootDirs | octave/src/com/octave/octaveMain.java:203-204 | the filesystem and the flag follow the two chmod commands |
| Octave.OctaveMain.RemoveStaleDirs | octave/src/com/octave/octaveMain.java:206-212 | the filesystem and the flag follow the four rm -rf commands |
| Octave.OctaveMain.MakeTmpDir | octave/src/com/octave/octaveMain.java:214-218 | the filesystem and the flag follow the mkdir of a missing tmp and its chmod |
| Installer.InstallAll | octave/src/com/octave/octaveMain.java:222-233 | installing a list never removes the root or a locked entry; an empty list changes nothing |
| Installer.InstallAllKeepsValid | octave/src/com/octave/octaveMain.java:173-177 | installing a list of packages keeps the filesystem a tree |
| Installer.InstallAllStops | octave/src/com/octave/octaveMain.java:222-233 | once an installation has thrown, no later package is installed |
| Octave.OctaveMain.InstallEach | octave/src/com/octave/octaveMain.java:222-233 | the run of installPackage calls leaves the state of the list-installation function |
| Octave.OctaveMain.UpgradeOctave | octave/src/com/octave/octaveMain.java:201-233 | the update branch when the prefix's package needs it, then Octave and its add-ons, as the upgrade function says |
| Installer.Upgrade | octave/src/com/octave/octaveMain.java:201-233 | the update branch and Octave's packages never remove the root or a locked entry |
| Installer.Unpack | octave/src/com/octave/octaveMain.java:150-236 | a whole launch never removes the root or a locked entry, and home is freeRoot on mounted storage and the install root otherwise |
| Installer.UnpackKeepsValid | octave/src/com/octave/octaveMain.java:150-236 | a whole unpacking keeps the filesystem a tree |
| Octave.OctaveMain.UnpackAll | octave/src/com/octave/octaveMain.java:150-236 | the filesystem, home, error flag, donation flag and exception outcome are those of the unpacking function of the old state |

## Left out

- UI and activity lifecycle (`onCreate`, `goMeasure`, the dialogs, the terminal intents), and the background thread that runs `unpackAll`: there is no behaviour here beyond one sequential call.
- Process spawning, waiting and stream handling in `exec`: a command is its effect and one error bit. An `IOException` from `Runtime.exec` itself is not modelled.
- The Android package manager and the storage state: they are inputs (a map, a `mounted` flag and the external storage path).
- The downloader service, archive extraction and file-name decoding: they are not part of this model.
- Symbolic links are followed only by the existence test of `processLinkFile` (`FileTree.Present`, at most 40 links; targets with `.` or `..` segments, and links inside a target's own path, are not resolved). Everywhere else a link is an entry of its own: the existence tests in `createDir`, `updateRequired`, `createVersionFile`, the donation check, the home set-up, the update branch and `cleanHouse` count a dangling link as present, and `isDirectory()`/`listFiles()` do not look through a link to a directory.
- Shell.Run: `chmod` and `rm -rf` take the whole path as one operand. `Runtime.exec` splits every command line at blanks, so for a path holding a blank the source runs the command on the separate words and reports the missing ones. The installer's own paths hold no blank; a manifest line, an external-storage path or a prefix with a blank is modelled as if it had none.
- Shell.ChmodFreshDir: in the source, a path holding a blank is split by `exec`; `chmod` then reports an error and the new directory keeps the mode mkdir gave it. The lemma states the blank-free behaviour for every path.
- Manifests.EnsureDirOutcome: "new entries are 0777 directories" and the absence of any error report hold for paths without blanks; for a path with a blank the source's `chmod` fails, the mode stays and `mErrOcc` is set.
- Manifests.EnsureDirUnderParent: the new directory is 0777 only for a name without blanks; with a blank the source's `chmod` fails and reports an error.
- Manifests.DirLines: "reports nothing through stderr" holds for lines without blanks; a directory line with a blank makes the source set `mErrOcc`, which withholds that package's marker.
- Manifests.DirFile: the same gap as `Manifests.DirLines`.
- Manifests.DirLinesGrow: "reports no error, adds only 0777 directories" holds for lines without blanks; see `Manifests.DirLines`.
- Octave.OctaveMain.CreateDir: "the error flag is untouched" holds for paths without blanks; for a path with a blank the source's `chmod` sets `mErrOcc`.
- Octave.OctaveMain.MkdirChmod: for a path with a blank the source's `chmod` leaves the mode mkdir gave and sets `mErrOcc`; the model opens the directory up silently.
- Octave.OctaveMain.CreateDirNamed: the same gap as `Octave.OctaveMain.CreateDir`.
- Octave.OctaveMain.ProcessDirFile: "the error flag is untouched" holds for lines without blanks; see `Manifests.DirLines`.
- Relative path names are not resolved: they parse to nothing, and every operation on them fails or is skipped.
- Permissions are reduced to the `locked` set of unremovable entries, plus the fixed modes mkdir and createNewFile give under the umask.
- Reading a manifest: an unreadable manifest is skipped. An I/O error part-way through is modelled as the end of the file.
- The reader's buffering and `close()` are not modelled.
- `mPrefix` is a constructor parameter rather than the constant `"com.octave"`, so that the rewrite can be studied for other prefixes.
- Octave.OctaveMain.InstallEach: the seventeen `installPackage` calls of `unpackAll` are written as two loops over the two package lists, `Installer.DonationPackages` and `Installer.OctavePackages`, rather than as seventeen statements. The order and the early stop are the same.
- Octave.OctaveMain.DeleteDir: the recursion runs on the filesystem value (`Octave.DeleteTree`), so the class method delegates to it. The order of `File.list()` is left open, and every order is covered.
- Octave.OctaveMain.CleanHouse: the printing of "Failed to delete" is not modelled, only the deletions. A tmp that is a link to a directory is treated as a non-directory.
