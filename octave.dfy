/**
 * The launcher activity's installation engine: the filesystem it works on,
 * its error flag, its home directory and its donation flag, and the methods
 * that change them. Each method is specified by the functions of the
 * Installer and Manifests modules.
 */
module Octave {
  import opened Options
  import opened Text
  import opened FileTree
  import opened Shell
  import opened VersionGate
  import opened Manifests
  import opened Installer

  /** The descendants of `p` reached through the children in `cs`. */
  ghost function Under(fs: FS, p: Path, cs: set<Path>): set<Path> {
    set x | x in fs && |x| > |p| && x[..|p| + 1] in cs
  }

  /** `fs` is `fs0` with some nodes below `p` removed, each of them clear. */
  ghost predicate Pruned(fs0: FS, fs: FS, locked: set<Path>, p: Path) {
    && (forall x :: x in fs ==> x in fs0 && fs[x] == fs0[x])
    && (forall x :: x in fs0 && x !in fs ==> IsPrefix(p, x) && Clear(fs0, locked, x))
  }

  /** The children of `p` with nothing protected at or below them. */
  ghost function ClearChildren(fs: FS, locked: set<Path>, p: Path): set<Path> {
    set c | c in Children(fs, p) && Clear(fs, locked, c)
  }

  lemma ChildShape(fs: FS, p: Path, c: Path)
    requires c in Children(fs, p)
    ensures |c| == |p| + 1 && IsPrefix(p, c) && c != p
  {
  }

  /** A child's subtree is a strictly smaller part of its parent's. */
  lemma SubtreeOfChild(fs: FS, p: Path, c: Path)
    requires p in fs && c in Children(fs, p)
    ensures |Subtree(fs, c)| < |Subtree(fs, p)|
  {
    var small, big := Subtree(fs, c), Subtree(fs, p);
    ChildShape(fs, p, c);
    forall x | x in small ensures x in big {
      PrefixChain(p, c, x);
    }
    assert p in big - small;
    assert big == small + (big - small);
  }

  /** The measure of deleteDir's recursion goes down at each child. */
  lemma ChildSmaller(fs0: FS, p: Path, done: set<Path>, c: Path)
    requires p in fs0 && c in Children(fs0, p) && c !in done
    ensures |Subtree(fs0 - Under(fs0, p, done), c)| < |Subtree(fs0, p)|
  {
    UnderIntact(fs0, p, done, c);
    SubtreeOfChild(fs0, p, c);
    assert Subtree(fs0 - Under(fs0, p, done), c) == Subtree(fs0, c);
  }

  /** Removing the subtrees of other children leaves everything below `c` as it was. */
  lemma UnderIntact(fs0: FS, p: Path, done: set<Path>, c: Path)
    requires c in Children(fs0, p) && c !in done
    ensures forall x :: IsPrefix(c, x) ==> (x in fs0 - Under(fs0, p, done) <==> x in fs0)
  {
    ChildShape(fs0, p, c);
  }

  lemma UnderGrow(fs0: FS, p: Path, done: set<Path>, c: Path)
    requires c in Children(fs0, p)
    ensures Under(fs0, p, done + {c}) == Under(fs0, p, done) + Subtree(fs0, c)
  {
    ChildShape(fs0, p, c);
  }

  /** Under a clear child, everything is clear. */
  lemma UnderClear(fs0: FS, locked: set<Path>, p: Path, done: set<Path>)
    requires done <= ClearChildren(fs0, locked, p)
    ensures forall x :: x in Under(fs0, p, done) ==> IsPrefix(p, x) && Clear(fs0, locked, x)
  {
    forall x | x in Under(fs0, p, done) ensures IsPrefix(p, x) && Clear(fs0, locked, x) {
      var d := x[..|p| + 1];
      ChildShape(fs0, p, d);
      assert IsPrefix(d, x);
      PrefixChain(p, d, x);
      ClearBelow(fs0, locked, d, x);
    }
  }

  /** Clear below `c` means the same in both states when they agree below `c`. */
  lemma ClearTransfer(fs0: FS, fsb: FS, locked: set<Path>, c: Path, x: Path)
    requires forall y :: IsPrefix(c, y) ==> (y in fsb <==> y in fs0)
    requires IsPrefix(c, x)
    ensures Clear(fsb, locked, x) <==> Clear(fs0, locked, x)
  {
    forall r | IsPrefix(x, r) ensures r in fsb <==> r in fs0 {
      PrefixChain(c, x, r);
    }
  }

  /** A node is clear when it is removable and each of its children is clear. */
  lemma ClearByChildren(fs: FS, locked: set<Path>, p: Path)
    requires ValidFs(fs) && p in fs
    ensures Clear(fs, locked, p) <==> Removable(locked, p) && forall c :: c in Children(fs, p) ==> Clear(fs, locked, c)
  {
    if Clear(fs, locked, p) {
      assert IsPrefix(p, p);
      forall c | c in Children(fs, p) ensures Clear(fs, locked, c) {
        ChildShape(fs, p, c);
        ClearBelow(fs, locked, p, c);
      }
    }
    if Removable(locked, p) && forall c :: c in Children(fs, p) ==> Clear(fs, locked, c) {
      forall r | r in fs && IsPrefix(p, r) ensures Removable(locked, r) {
        if r != p {
          DescendantChild(fs, p, r);
          var c := r[..|p| + 1];
          assert IsPrefix(c, r);
        }
      }
    }
  }

  /** What the caller learns when deleting child `c` failed. */
  lemma DeleteChildFailed(fs0: FS, locked: set<Path>, p: Path, done: set<Path>, c: Path, fsa: FS)
    requires ValidFs(fs0) && p in fs0 && done <= ClearChildren(fs0, locked, p) && c in Children(fs0, p) && c !in done
    requires var fsb := fs0 - Under(fs0, p, done);
      !(c in fsb && Clear(fsb, locked, c)) && Pruned(fsb, fsa, locked, c)
    ensures !Clear(fs0, locked, p) && p in fsa && Pruned(fs0, fsa, locked, p)
  {
    var fsb := fs0 - Under(fs0, p, done);
    UnderIntact(fs0, p, done, c);
    UnderClear(fs0, locked, p, done);
    ChildShape(fs0, p, c);
    assert IsPrefix(c, c);
    ClearTransfer(fs0, fsb, locked, c, c);
    ClearByChildren(fs0, locked, p);
    forall x | x in fs0 && x !in fsa ensures IsPrefix(p, x) && Clear(fs0, locked, x) {
      if x in fsb {
        PrefixChain(p, c, x);
        ClearTransfer(fs0, fsb, locked, c, x);
      }
    }
    assert p in fsb && !IsPrefix(c, p);
  }

  /** What the caller learns when deleting child `c` succeeded. */
  lemma DeleteChildSucceeded(fs0: FS, locked: set<Path>, p: Path, done: set<Path>, c: Path, fsa: FS)
    requires c in Children(fs0, p) && c !in done
    requires var fsb := fs0 - Under(fs0, p, done);
      c in fsb && Clear(fsb, locked, c) && fsa == fsb - Subtree(fsb, c)
    ensures fsa == fs0 - Under(fs0, p, done + {c}) && c in ClearChildren(fs0, locked, p)
  {
    var fsb := fs0 - Under(fs0, p, done);
    UnderIntact(fs0, p, done, c);
    UnderGrow(fs0, p, done, c);
    assert IsPrefix(c, c);
    ClearTransfer(fs0, fsb, locked, c, c);
    assert Subtree(fsb, c) == Subtree(fs0, c);
  }

  /** Once every child is gone, only `p` is left of its subtree. */
  lemma DeleteDirFinish(fs0: FS, locked: set<Path>, p: Path, fs: FS)
    requires ValidFs(fs0) && p in fs0
    requires fs == fs0 - Under(fs0, p, Children(fs0, p))
    requires Children(fs0, p) == ClearChildren(fs0, locked, p)
    ensures p in fs && Children(fs, p) == {}
    ensures Removable(locked, p) <==> Clear(fs0, locked, p)
    ensures fs - {p} == fs0 - Subtree(fs0, p)
    ensures Pruned(fs0, fs, locked, p)
  {
    UnderClear(fs0, locked, p, Children(fs0, p));
    ClearByChildren(fs0, locked, p);
    forall x | x in Subtree(fs0, p) && x != p ensures x in Under(fs0, p, Children(fs0, p)) {
      DescendantChild(fs0, p, x);
    }
    forall c | c in Children(fs0, p) ensures c in Under(fs0, p, Children(fs0, p)) {
      assert c[..|p| + 1] == c;
    }
  }

  /**
   * deleteDir on the filesystem value: the children of a directory are
   * deleted depth first, in whatever order File.list() gives them, and the
   * first failure ends the walk; then the node itself is deleted.
   */
  method DeleteTree(fs: FS, locked: set<Path>, p: Path) returns (success: bool, fs': FS)
    requires ValidFs(fs)
    ensures ValidFs(fs')
    ensures success <==> p in fs && Clear(fs, locked, p)
    ensures success ==> fs' == fs - Subtree(fs, p)
    ensures Pruned(fs, fs', locked, p)
    decreases |Subtree(fs, p)|, 2
  {
    fs' := fs;
    if p !in fs {
      return false, fs';
    }
    if fs[p].Dir? {
      success, fs' := DeleteEntries(fs, locked, p);
      if !success {
        return;
      }
      UnderKeepsValid(fs, locked, p, Children(fs, p));
    } else {
      forall x | x in fs && x != [] ensures Parent(x) != p {
        assert IsDirAt(fs, Parent(x));
      }
      assert Children(fs, p) == {} == ClearChildren(fs, locked, p);
      assert Under(fs, p, {}) == {};
    }
    DeleteDirFinish(fs, locked, p, fs');
    var deleted := DeleteNode(fs', locked, p);
    if deleted.None? {
      return false, fs';
    }
    DeleteNodeKeepsValid(fs', locked, p);
    fs' := deleted.value;
    success := true;
  }

  /** deleteDir's loop has deleted the children in `done` of `p`, each of
      them clear, and nothing else: `cur` is what is left. */
  ghost predicate EntriesGone(fs: FS, locked: set<Path>, p: Path, done: set<Path>, cur: FS) {
    && cur == fs - Under(fs, p, done)
    && done <= ClearChildren(fs, locked, p)
  }

  /** deleteDir's loop stopped at an entry it could not delete. */
  ghost predicate EntriesStuck(fs: FS, locked: set<Path>, p: Path, cur: FS) {
    ValidFs(cur) && !Clear(fs, locked, p) && p in cur && Pruned(fs, cur, locked, p)
  }

  lemma UnderKeepsValid(fs: FS, locked: set<Path>, p: Path, done: set<Path>)
    requires ValidFs(fs) && p in fs && done <= Children(fs, p)
    ensures ValidFs(fs - Under(fs, p, done))
  {
    var gone := Under(fs, p, done);
    forall x | x in fs && x !in gone && x != [] ensures Parent(x) !in gone {
      assert |Parent(x)| > |p| ==> Parent(x)[..|p| + 1] == x[..|p| + 1];
    }
    RemoveKeepsValid(fs, gone);
  }

  lemma EntriesStart(fs: FS, locked: set<Path>, p: Path)
    requires ValidFs(fs)
    ensures EntriesGone(fs, locked, p, {}, fs)
  {
    assert Under(fs, p, {}) == {};
  }

  /** The loop of deleteDir over the entries of `p`. */
  method DeleteEntries(fs: FS, locked: set<Path>, p: Path) returns (ok: bool, fs': FS)
    requires ValidFs(fs) && p in fs
    ensures ok ==> EntriesGone(fs, locked, p, Children(fs, p), fs')
    ensures !ok ==> EntriesStuck(fs, locked, p, fs')
    decreases |Subtree(fs, p)|, 1
  {
    fs' := fs;
    var todo := Children(fs, p);
    ghost var done: set<Path> := {};
    ghost var kids := todo;
    EntriesStart(fs, locked, p);
    while todo != {}
      invariant todo + done == kids && todo !! done
      invariant EntriesGone(fs, locked, p, done, fs')
      decreases |todo|
    {
      var c :| c in todo;
      ok, fs' := DeleteEntry(fs, locked, p, c, done, fs');
      if !ok {
        return;
      }
      todo := todo - {c};
      done := done + {c};
    }
    ok := true;
  }

  /** One pass of deleteDir's loop: deletes child `c` of `p` from `cur`,
      the children in `done` having been deleted before it. */
  method DeleteEntry(fs: FS, locked: set<Path>, p: Path, c: Path, ghost done: set<Path>, cur: FS)
    returns (ok: bool, fs': FS)
    requires ValidFs(fs) && p in fs && c in Children(fs, p) && c !in done
    requires EntriesGone(fs, locked, p, done, cur)
    ensures ok ==> EntriesGone(fs, locked, p, done + {c}, fs')
    ensures !ok ==> EntriesStuck(fs, locked, p, fs')
    decreases |Subtree(fs, p)|, 0
  {
    ChildSmaller(fs, p, done, c);
    UnderKeepsValid(fs, locked, p, done);
    ok, fs' := DeleteTree(cur, locked, c);
    if ok {
      DeleteChildSucceeded(fs, locked, p, done, c, fs');
    } else {
      DeleteChildFailed(fs, locked, p, done, c, fs');
    }
  }

  class OctaveMain {
    /** The device filesystem. */
    var fs: FS
    /** mErrOcc: set when a command wrote to its error stream. */
    var errOcc: bool
    /** mHome. */
    var home: string
    /** mAskForDonation. */
    var askForDonation: bool
    /** mPrefix: the install root's name under /data/data. */
    const prefix: string
    /** What the package manager knows. */
    const packages: PackageInfo
    /** The entries the system refuses to remove. */
    const locked: set<Path>

    ghost predicate Valid()
      reads this
    {
      ValidFs(fs)
    }

    constructor (fs0: FS, pm: PackageInfo, locked0: set<Path>, prefix0: string)
      requires ValidFs(fs0)
      ensures Valid()
      ensures fs == fs0 && packages == pm && locked == locked0 && prefix == prefix0
      ensures !errOcc && !askForDonation && home == InstallRoot(prefix0)
    {
      fs := fs0;
      packages := pm;
      locked := locked0;
      prefix := prefix0;
      errOcc := false;
      askForDonation := false;
      home := InstallRoot(prefix0);
    }

    /** exec: runs a command; anything on its error stream sets the flag,
        which only installPackage clears. */
    method Exec(cmd: Command)
      requires Valid()
      modifies this
      ensures Valid()
      ensures var e := Run(old(fs), locked, cmd); fs == e.fs && errOcc == (old(errOcc) || e.stderr)
      ensures home == old(home) && askForDonation == old(askForDonation)
    {
      var e := Run(fs, locked, cmd);
      RunKeepsValid(fs, locked, cmd);
      fs := e.fs;
      if e.stderr {
        errOcc := true;
      }
    }

    /**
     * createDir(File): creates the missing parents first, returns at once
     * when the directory exists, otherwise makes it and opens it up with
     * chmod 0777. `ok` is false when it throws (no parent, or mkdir fails).
     */
    method CreateDir(p: Path) returns (ok: bool)
      requires Valid() && WellFormed(p)
      modifies this
      ensures Valid()
      ensures ok == EnsureDir(old(fs), p).Some?
      ensures fs == EnsureDir(old(fs), p).GetOr(old(fs))
      ensures errOcc == old(errOcc) && home == old(home) && askForDonation == old(askForDonation)
      decreases |p|
    {
      if p == [] {
        return false;
      }
      EnsureDirStep(fs, p);
      var parent := Parent(p);
      if parent !in fs {
        ok := CreateDir(parent);
        if !ok {
          return;
        }
      }
      if p in fs {
        return true;
      }
      var made := MakeDir(fs, p);
      if made.None? {
        return false;
      }
      AddKeepsValid(fs, p, Dir(DefaultDirMode));
      MkdirChmod(p, made.value);
      ok := true;
    }

    /** The new directory `made` by mkdir is opened up with chmod 0777 on its
        absolute path. */
    method MkdirChmod(p: Path, made: FS)
      requires Valid() && WellFormed(p) && p !in fs && made == fs[p := Dir(DefaultDirMode)] && ValidFs(made)
      modifies this
      ensures Valid()
      ensures fs == old(fs)[p := Dir(ModeAll)]
      ensures errOcc == old(errOcc) && home == old(home) && askForDonation == old(askForDonation)
    {
      ghost var base := fs;
      fs := made;
      ChmodFreshDir(fs, locked, p);
      assert fs[p := Dir(ModeAll)] == base[p := Dir(ModeAll)];
      Exec(Chmod(Render(p)));
    }

    /** createDir(String). */
    method CreateDirNamed(path: string) returns (ok: bool)
      requires Valid()
      modifies this
      ensures Valid()
      ensures ok == CreateDirAt(old(fs), path).Some?
      ensures fs == CreateDirAt(old(fs), path).GetOr(old(fs))
      ensures errOcc == old(errOcc) && home == old(home) && askForDonation == old(askForDonation)
    {
      var dir := ParsePath(path);
      if dir.None? {
        return false;
      }
      ok := CreateDir(dir.value);
    }

    /**
     * processDirFile: every line, rewritten to the install root, names a
     * directory to create. A manifest that cannot be opened is skipped; an
     * exception from createDir leaves the loop (`ok` false).
     */
    method ProcessDirFile(dirFile: string) returns (ok: bool)
      requires Valid()
      modifies this
      ensures Valid()
      ensures var pr := DirFile(old(fs), prefix, dirFile);
        fs == pr.fs && ok == !pr.thrown && errOcc == (old(errOcc) || pr.stderr)
      ensures home == old(home) && askForDonation == old(askForDonation)
    {
      var read := ReadLines(fs, dirFile);
      if read.None? {
        return true;
      }
      var lines := read.value;
      ghost var fs0 := fs;
      var i := 0;
      while i < |lines|
        invariant 0 <= i <= |lines|
        invariant Valid()
        invariant DirLines(fs0, prefix, lines[..i]) == Progress(fs, false, false)
        invariant errOcc == old(errOcc) && home == old(home) && askForDonation == old(askForDonation)
      {
        DirLinesStep(fs0, prefix, lines, i);
        ok := CreateDirNamed(Rewrite(lines[i], prefix));
        if !ok {
          DirLinesStops(fs0, prefix, lines, i + 1);
          return;
        }
        i := i + 1;
      }
      assert lines[..i] == lines;
      ok := true;
    }

    /**
     * processLinkFile: for each line "<target> <link>", the link as written
     * is deleted if it exists, then "ln -s" runs on the rewritten line. A
     * line without a second field throws (`ok` false).
     */
    method ProcessLinkFile(linkFile: string) returns (ok: bool)
      requires Valid()
      modifies this
      ensures Valid()
      ensures var pr := LinkFile(old(fs), locked, prefix, linkFile);
        fs == pr.fs && ok == !pr.thrown && errOcc == (old(errOcc) || pr.stderr)
      ensures home == old(home) && askForDonation == old(askForDonation)
    {
      var read := ReadLines(fs, linkFile);
      if read.None? {
        return true;
      }
      var lines := read.value;
      ghost var fs0 := fs;
      ghost var err := false;
      var i := 0;
      while i < |lines|
        invariant 0 <= i <= |lines|
        invariant Valid()
        invariant LinkLines(fs0, locked, prefix, lines[..i]) == Progress(fs, err, false)
        invariant errOcc == (old(errOcc) || err)
        invariant home == old(home) && askForDonation == old(askForDonation)
      {
        LinkLinesStep(fs0, locked, prefix, lines, i);
        ghost var step := LinkLine(fs, locked, prefix, lines[i]);
        ok := LinkOne(lines[i]);
        if !ok {
          LinkLinesStops(fs0, locked, prefix, lines, i + 1);
          return;
        }
        err := err || step.value.stderr;
        i := i + 1;
      }
      assert lines[..i] == lines;
      ok := true;
    }

    /** The body of processLinkFile's loop, for one line. */
    method LinkOne(line: string) returns (ok: bool)
      requires Valid()
      modifies this
      ensures Valid()
      ensures ok == LinkLine(old(fs), locked, prefix, line).Some?
      ensures !ok ==> fs == old(fs) && errOcc == old(errOcc)
      ensures ok ==> var e := LinkLine(old(fs), locked, prefix, line).value;
        fs == e.fs && errOcc == (old(errOcc) || e.stderr)
      ensures home == old(home) && askForDonation == old(askForDonation)
    {
      var parts := JavaSplit(line, ' ');
      if |parts| < 2 {
        return false;
      }
      var tmpFile := ParsePath(parts[1]);
      if tmpFile.Some? && Present(fs, tmpFile.value) {
        var deleted := DeleteNode(fs, locked, tmpFile.value);
        if deleted.Some? {
          DeleteNodeKeepsValid(fs, locked, tmpFile.value);
          fs := deleted.value;
        }
      }
      Exec(SymLink(Tokens(Rewrite(line, prefix))));
      ok := true;
    }

    /** createVersionFile: writes the marker for the current version. */
    method CreateVersionFile(name: string)
      requires Valid()
      modifies this
      ensures Valid()
      ensures fs == VersionGate.CreateVersionFile(old(fs), packages, prefix, name)
      ensures errOcc == old(errOcc) && home == old(home) && askForDonation == old(askForDonation)
    {
      var version := VersionName(packages, name).GetOr("?");
      var versionFile := MarkerName(prefix, name, version);
      CreateVersionFileKeepsValid(fs, packages, prefix, name);
      if !Exists(fs, versionFile) {
        fs := CreateNewFile(fs, ParsePath(versionFile).value);
      }
    }

    /**
     * installPackage: clears the error flag; when the package needs work,
     * processes its directory, file and link manifests in that order and
     * writes the marker only if no command reported an error.
     */
    method InstallPackage(name: string) returns (ok: bool)
      requires Valid()
      modifies this
      ensures Valid()
      ensures var pr := Install(old(fs), locked, packages, prefix, name);
        fs == pr.fs && errOcc == pr.stderr && ok == !pr.thrown
      ensures home == old(home) && askForDonation == old(askForDonation)
    {
      var packageTop := LibDir(name);
      errOcc := false;
      ok := true;
      if UpdateRequired(fs, packages, prefix, name) {
        ok := ProcessDirFile(packageTop + DirManifest);
        if !ok {
          return;
        }
        ok := ProcessLinkFile(packageTop + FileManifest);
        if !ok {
          return;
        }
        ok := ProcessLinkFile(packageTop + LinkManifest);
        if !ok {
          return;
        }
        if !errOcc {
          CreateVersionFile(name);
        }
      }
    }

    /**
     * deleteDir: deletes the children of a directory depth first, stopping
     * with false at the first that cannot be deleted, then the node itself.
     * It succeeds exactly when nothing at or below `p` is protected, and then
     * the whole subtree is gone; otherwise it removes only nodes below `p`
     * whose own subtrees were clear.
     */
    method DeleteDir(p: Path) returns (success: bool)
      requires Valid()
      modifies this
      ensures Valid()
      ensures success <==> p in old(fs) && Clear(old(fs), locked, p)
      ensures success ==> fs == old(fs) - Subtree(old(fs), p)
      ensures Pruned(old(fs), fs, locked, p)
      ensures errOcc == old(errOcc) && home == old(home) && askForDonation == old(askForDonation)
    {
      success, fs := DeleteTree(fs, locked, p);
    }
  
    /**
     * cleanHouse: when the install root's tmp directory exists, each of its
     * entries is deleted if File.delete() allows it (a removable file, link or
     * empty directory); failures are only logged. `ok` is false when tmp is
     * not a directory: listFiles() then yields null and the loop throws.
     */
    method CleanHouse() returns (ok: bool)
      requires Valid()
      modifies this
      ensures Valid()
      ensures var t := TmpPath(prefix);
        ok == (t !in old(fs) || old(fs)[t].Dir?)
        && fs == (if t in old(fs) && old(fs)[t].Dir? then Tidy(old(fs), locked, t) else old(fs))
      ensures errOcc == old(errOcc) && home == old(home) && askForDonation == old(askForDonation)
    {
      var directory := TmpPath(prefix);
      if directory !in fs {
        return true;
      }
      if !fs[directory].Dir? {
        return false;
      }
      ghost var fs0 := fs;
      var files := Children(fs, directory);
      while files != {}
        invariant Valid()
        invariant files <= Children(fs0, directory)
        invariant fs == fs0 - (Leaves(fs0, locked, directory) - files)
        invariant errOcc == old(errOcc) && home == old(home) && askForDonation == old(askForDonation)
        decreases |files|
      {
        var file :| file in files;
        TidyStep(fs0, locked, directory, files, file);
        var deleted := DeleteNode(fs, locked, file);
        if deleted.Some? {
          DeleteNodeKeepsValid(fs, locked, file);
          fs := deleted.value;
        }
        files := files - {file};
      }
      ok := true;
    }

    /**
     * The donation check of unpackAll: the dialog is wanted unless one of
     * the donation markers exists in the install root.
     */
    method CheckDonation()
      modifies this
      ensures askForDonation == !DonorMarked(fs, prefix)
      ensures fs == old(fs) && errOcc == old(errOcc) && home == old(home)
    {
      var root := InstallRoot(prefix) + "/";
      DonorMarkedCases(fs, prefix);
      askForDonation := true;
      if Exists(fs, root + "donate5") {
        askForDonation := false;
      }
      if Exists(fs, root + "donate10") {
        askForDonation := false;
      }
      if Exists(fs, root + "donate25") {
        askForDonation := false;
      }
      if Exists(fs, root + "donate50") {
        askForDonation := false;
      }
      if Exists(fs, root + "donate100") {
        askForDonation := false;
      }
    }

    /**
     * The start of unpackAll: the home directory is freeRoot on mounted
     * external storage (created and opened up when missing) and the install
     * root otherwise; a missing .octaverc in it is created and opened up.
     */
    method SetUpHome(mounted: bool, external: string)
      requires Valid()
      modifies this
      ensures Valid()
      ensures home == HomeDir(prefix, mounted, external)
      ensures var e := HomeSetup(old(fs), locked, prefix, mounted, external);
        fs == e.fs && errOcc == (old(errOcc) || e.stderr)
      ensures askForDonation == old(askForDonation)
    {
      if mounted {
        home := external + "/freeRoot";
        if !Exists(fs, home) {
          TryMakeDirKeepsValid(fs, home);
          fs := TryMakeDir(fs, home);
          Exec(Chmod(home));
        }
      } else {
        home := InstallRoot(prefix);
      }
      var octaverc := home + "/.octaverc";
      if !Exists(fs, octaverc) {
        TryCreateFileKeepsValid(fs, octaverc);
        fs := TryCreateFile(fs, octaverc);
        Exec(Chmod(octaverc));
      }
    }

    /**
     * The update branch of unpackAll: opens up the install root and its lib
     * directory, removes the stale directories, creates tmp when missing and
     * opens it up.
     */
    method ResetForUpdate()
      requires Valid()
      modifies this
      ensures Valid()
      ensures var e := PrepareUpdate(old(fs), locked, prefix);
        fs == e.fs && errOcc == (old(errOcc) || e.stderr)
      ensures home == old(home) && askForDonation == old(askForDonation)
    {
      OpenRootDirs();
      RemoveStaleDirs();
      MakeTmpDir();
    }

    /** chmod 0777 on the install root, then on its lib directory. */
    method OpenRootDirs()
      requires Valid()
      modifies this
      ensures Valid()
      ensures var e := OpenRoot(old(fs), locked, prefix);
        fs == e.fs && errOcc == (old(errOcc) || e.stderr)
      ensures home == old(home) && askForDonation == old(askForDonation)
    {
      var root := InstallRoot(prefix);
      Exec(Chmod(root));
      Exec(Chmod(root + "/lib"));
    }

    /** rm -rf on each stale directory, in order. */
    method RemoveStaleDirs()
      requires Valid()
      modifies this
      ensures Valid()
      ensures var e := SweepStale(old(fs), locked, prefix);
        fs == e.fs && errOcc == (old(errOcc) || e.stderr)
      ensures home == old(home) && askForDonation == old(askForDonation)
    {
      Exec(RemoveTree(StalePath(prefix, 0)));
      Exec(RemoveTree(StalePath(prefix, 1)));
      Exec(RemoveTree(StalePath(prefix, 2)));
      Exec(RemoveTree(StalePath(prefix, 3)));
    }

    /** Makes tmp when it is missing, then opens it up with chmod 0777. */
    method MakeTmpDir()
      requires Valid()
      modifies this
      ensures Valid()
      ensures var e := MakeTmp(old(fs), locked, prefix);
        fs == e.fs && errOcc == (old(errOcc) || e.stderr)
      ensures home == old(home) && askForDonation == old(askForDonation)
    {
      var root := InstallRoot(prefix);
      var tmpDir := root + "/tmp/";
      if !Exists(fs, tmpDir) {
        TryMakeDirKeepsValid(fs, tmpDir);
        fs := TryMakeDir(fs, tmpDir);
      }
      Exec(Chmod(root + "/tmp"));
    }

    /**
     * unpackAll: the home set-up, the five donation packages, the donation
     * check, the update preparation when Octave itself needs it, then Octave
     * and its eleven add-ons. `ok` is false when an installation threw, which
     * ends the sequence.
     */
    method UnpackAll(mounted: bool, external: string) returns (ok: bool)
      requires Valid()
      modifies this
      ensures Valid()
      ensures var o := Unpack(old(fs), locked, packages, prefix, mounted, external, old(errOcc), old(askForDonation));
        fs == o.fs && home == o.home && errOcc == o.errOcc && askForDonation == o.askForDonation && ok == o.ok
    {
      SetUpHome(mounted, external);
      ok := InstallEach(DonationPackages);
      if !ok {
        return;
      }
      CheckDonation();
      ok := UpgradeOctave();
    }

    /** The update preparation when needed, then Octave and its add-ons. */
    method UpgradeOctave() returns (ok: bool)
      requires Valid()
      modifies this
      ensures Valid()
      ensures Upgrade(old(fs), locked, packages, prefix, old(errOcc)) == Progress(fs, errOcc, !ok)
      ensures home == old(home) && askForDonation == old(askForDonation)
    {
      if UpdateRequired(fs, packages, prefix, prefix) {
        ResetForUpdate();
      }
      ok := InstallEach(OctavePackages);
    }

    /**
     * installPackage on each name in order (unpackAll's runs of calls),
     * stopping when one throws. `ok` is false when one threw.
     */
    method InstallEach(names: seq<string>) returns (ok: bool)
      requires Valid()
      modifies this
      ensures Valid()
      ensures InstallAll(old(fs), locked, packages, prefix, names, old(errOcc)) == Progress(fs, errOcc, !ok)
      ensures home == old(home) && askForDonation == old(askForDonation)
    {
      ghost var fs0, err0 := fs, errOcc;
      ok := true;
      for k := 0 to |names|
        invariant Valid()
        invariant InstallAll(fs0, locked, packages, prefix, names[..k], err0) == Progress(fs, errOcc, false)
        invariant home == old(home) && askForDonation == old(askForDonation)
      {
        InstallAllStep(fs0, locked, packages, prefix, names, err0, k);
        ok := InstallPackage(names[k]);
        if !ok {
          InstallAllStops(fs0, locked, packages, prefix, names, err0, k + 1);
          return;
        }
      }
      assert names[..|names|] == names;
    }
  }
}
