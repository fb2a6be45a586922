/**
 * What one launch does to the device, as functions of the filesystem: the
 * installation of one package (gate, three manifests, marker), of a list of
 * packages, the preparation of the home directory and of an update, and the
 * whole unpacking sequence.
 */
module Installer {
  import opened Options
  import opened FileTree
  import opened Shell
  import opened VersionGate
  import opened Manifests

  /** Where the package `name` keeps its manifests. */
  function LibDir(name: string): string {
    "/data/data/" + name + "/lib/"
  }

  const DirManifest := "lib__install_dir.so"
  const FileManifest := "lib__install_file.so"
  const LinkManifest := "lib__install_link.so"

  /** The directory manifest, then the file manifest, then the link manifest;
      an exception stops the sequence, errors from ln accumulate. */
  function Manifested(fs: FS, locked: set<Path>, prefix: string, name: string): (r: Progress)
    ensures KeepsLocked(fs, r.fs, locked)
  {
    var lib := LibDir(name);
    var d := DirFile(fs, prefix, lib + DirManifest);
    if d.thrown then d
    else
      var f := LinkFile(d.fs, locked, prefix, lib + FileManifest);
      if f.thrown then Progress(f.fs, d.stderr || f.stderr, true)
      else
        var l := LinkFile(f.fs, locked, prefix, lib + LinkManifest);
        Progress(l.fs, d.stderr || f.stderr || l.stderr, l.thrown)
  }

  /**
   * installPackage: the error flag starts clear; a package that is current
   * (or unknown) is left alone; otherwise its manifests are processed and the
   * marker is written only when no command reported an error.
   */
  function Install(fs: FS, locked: set<Path>, pm: PackageInfo, prefix: string, name: string): (r: Progress)
    ensures !UpdateRequired(fs, pm, prefix, name) ==> r == Progress(fs, false, false)
    ensures UpdateRequired(fs, pm, prefix, name) && (r.stderr || r.thrown) ==>
      r == Manifested(fs, locked, prefix, name)
    ensures KeepsLocked(fs, r.fs, locked)
  {
    if !UpdateRequired(fs, pm, prefix, name) then Progress(fs, false, false)
    else
      var m := Manifested(fs, locked, prefix, name);
      if m.thrown || m.stderr then m
      else Progress(CreateVersionFile(m.fs, pm, prefix, name), false, false)
  }

  /** Installing packages one after the other until one throws; the error
      flag is the one the last installation left. */
  function InstallAll(fs: FS, locked: set<Path>, pm: PackageInfo, prefix: string, names: seq<string>, err: bool): (r: Progress)
    ensures KeepsLocked(fs, r.fs, locked)
    ensures names == [] ==> r == Progress(fs, err, false)
    decreases |names|
  {
    if names == [] then Progress(fs, err, false)
    else
      var pr := InstallAll(fs, locked, pm, prefix, names[..|names| - 1], err);
      if pr.thrown then pr else Install(pr.fs, locked, pm, prefix, names[|names| - 1])
  }

  /** The donation packages, installed first. */
  const DonationPackages := ["com.octave.donate5", "com.octave.donate10", "com.octave.donate25",
                             "com.octave.donate50", "com.octave.donate100"]

  /** Octave and its add-on packages, installed last. */
  const OctavePackages := ["com.octave", "com.octave.signal", "com.octave.mapping", "com.octave.fuzzy",
                           "com.octave.control", "com.octave.io", "com.octave.missing", "com.octave.optim",
                           "com.octave.statistics", "com.octave.specfun", "com.octave.ode", "com.octave.financial"]

  /** The entries in the install root whose presence shows a donation. */
  const DonorFlags := ["donate5", "donate10", "donate25", "donate50", "donate100"]

  predicate DonorMarked(fs: FS, prefix: string) {
    exists i :: 0 <= i < |DonorFlags| && Exists(fs, InstallRoot(prefix) + "/" + DonorFlags[i])
  }

  /** The donation markers, one by one. */
  lemma DonorMarkedCases(fs: FS, prefix: string)
    ensures var root := InstallRoot(prefix) + "/";
      DonorMarked(fs, prefix) <==>
        Exists(fs, root + "donate5") || Exists(fs, root + "donate10") || Exists(fs, root + "donate25")
        || Exists(fs, root + "donate50") || Exists(fs, root + "donate100")
  {
    var root := InstallRoot(prefix) + "/";
    assert DonorFlags[0] == "donate5" && DonorFlags[1] == "donate10" && DonorFlags[2] == "donate25";
    assert DonorFlags[3] == "donate50" && DonorFlags[4] == "donate100";
  }

  /** The home directory: freeRoot on mounted external storage, else the install root. */
  function HomeDir(prefix: string, mounted: bool, external: string): string {
    if mounted then external + "/freeRoot" else InstallRoot(prefix)
  }

  /** File.mkdir() with its result ignored. */
  function TryMakeDir(fs: FS, path: string): (r: FS)
    ensures forall x :: x in fs ==> x in r
  {
    match ParsePath(path)
    case Some(p) => MakeDir(fs, p).GetOr(fs)
    case None => fs
  }

  /** File.createNewFile() with its failure ignored. */
  function TryCreateFile(fs: FS, path: string): (r: FS)
    ensures forall x :: x in fs ==> x in r
  {
    match ParsePath(path)
    case Some(p) => CreateNewFile(fs, p)
    case None => fs
  }

  /** A missing freeRoot is created and opened up; a missing .octaverc is
      created and opened up. */
  function HomeSetup(fs: FS, locked: set<Path>, prefix: string, mounted: bool, external: string): (e: Effect)
    ensures forall x :: x in fs ==> x in e.fs
  {
    var home := HomeDir(prefix, mounted, external);
    var e1 := if mounted && !Exists(fs, home) then Run(TryMakeDir(fs, home), locked, Chmod(home)) else Effect(fs, false);
    var rc := home + "/.octaverc";
    if Exists(e1.fs, rc) then e1
    else
      var e2 := Run(TryCreateFile(e1.fs, rc), locked, Chmod(rc));
      Effect(e2.fs, e1.stderr || e2.stderr)
  }

  /** Opens up the install root and its lib directory. */
  function OpenRoot(fs: FS, locked: set<Path>, prefix: string): (e: Effect)
    ensures forall x :: x in fs ==> x in e.fs
  {
    var root := InstallRoot(prefix);
    var e1 := Run(fs, locked, Chmod(root));
    var e2 := Run(e1.fs, locked, Chmod(root + "/lib"));
    Effect(e2.fs, e1.stderr || e2.stderr)
  }

  /** The directories an update removes from the install root. */
  const StaleDirs := ["bin", "mylib", "unzippedFiles", "freeRoot"]

  /** The path string of the `i`th stale directory. */
  function StalePath(prefix: string, i: nat): string
    requires i < |StaleDirs|
  {
    InstallRoot(prefix) + "/" + StaleDirs[i]
  }

  /** rm -rf on each stale directory, in order. */
  function SweepStale(fs: FS, locked: set<Path>, prefix: string): (e: Effect)
    ensures KeepsLocked(fs, e.fs, locked)
  {
    var e3 := Run(fs, locked, RemoveTree(StalePath(prefix, 0)));
    var e4 := Run(e3.fs, locked, RemoveTree(StalePath(prefix, 1)));
    var e5 := Run(e4.fs, locked, RemoveTree(StalePath(prefix, 2)));
    var e6 := Run(e5.fs, locked, RemoveTree(StalePath(prefix, 3)));
    Effect(e6.fs, e3.stderr || e4.stderr || e5.stderr || e6.stderr)
  }

  /** Creates tmp when missing (File.mkdir() on "tmp/") and opens it up. */
  function MakeTmp(fs: FS, locked: set<Path>, prefix: string): (e: Effect)
    ensures forall x :: x in fs ==> x in e.fs
  {
    var root := InstallRoot(prefix);
    var tmp := root + "/tmp/";
    var fs7 := if Exists(fs, tmp) then fs else TryMakeDir(fs, tmp);
    Run(fs7, locked, Chmod(root + "/tmp"))
  }

  /**
   * Before Octave itself is updated: the install root and its lib directory
   * are opened up, the stale directories removed, and tmp created if missing
   * and opened up.
   */
  function PrepareUpdate(fs: FS, locked: set<Path>, prefix: string): (e: Effect)
    ensures KeepsLocked(fs, e.fs, locked)
  {
    var a := OpenRoot(fs, locked, prefix);
    var b := SweepStale(a.fs, locked, prefix);
    var c := MakeTmp(b.fs, locked, prefix);
    Effect(c.fs, a.stderr || b.stderr || c.stderr)
  }

  /** The state unpackAll leaves, and whether it ran to its end. */
  datatype Outcome = Outcome(fs: FS, home: string, errOcc: bool, askForDonation: bool, ok: bool)

  /**
   * unpackAll: home set-up, the donation packages, the donation check, the
   * update preparation when Octave itself needs updating, then Octave and
   * its add-ons. An exception anywhere ends the whole sequence.
   */
  function Unpack(fs: FS, locked: set<Path>, pm: PackageInfo, prefix: string, mounted: bool, external: string,
                  errOcc: bool, ask: bool): (o: Outcome)
    ensures KeepsLocked(fs, o.fs, locked)
    ensures o.home == HomeDir(prefix, mounted, external)
  {
    var home := HomeDir(prefix, mounted, external);
    var h := HomeSetup(fs, locked, prefix, mounted, external);
    var d := InstallAll(h.fs, locked, pm, prefix, DonationPackages, errOcc || h.stderr);
    if d.thrown then Outcome(d.fs, home, d.stderr, ask, false)
    else
      var asks := !DonorMarked(d.fs, prefix);
      var a := Upgrade(d.fs, locked, pm, prefix, d.stderr);
      Outcome(a.fs, home, a.stderr, asks, !a.thrown)
  }

  /** The last part of unpackAll: the update preparation when the package
      named by the prefix needs work, then Octave and its add-ons. */
  function Upgrade(fs: FS, locked: set<Path>, pm: PackageInfo, prefix: string, err: bool): (r: Progress)
    ensures KeepsLocked(fs, r.fs, locked)
  {
    var u := if UpdateRequired(fs, pm, prefix, prefix) then PrepareUpdate(fs, locked, prefix) else Effect(fs, false);
    InstallAll(u.fs, locked, pm, prefix, OctavePackages, err || u.stderr)
  }

  /** The install root's tmp directory, which cleanHouse empties. */
  function TmpPath(prefix: string): (t: Path)
    ensures ParsePath(InstallRoot(prefix) + "/tmp") == Some(t)
  {
    var s := InstallRoot(prefix) + "/tmp";
    assert s[0] == '/';
    ParsePath(s).value
  }

  /** The children of `t` that File.delete() can remove: removable leaves. */
  function Leaves(fs: FS, locked: set<Path>, t: Path): (r: set<Path>)
    ensures forall c :: c in r ==> c in Children(fs, t) && Removable(locked, c)
  {
    set c | c in Children(fs, t) && Removable(locked, c) && Children(fs, c) == {}
  }

  /** cleanHouse on a directory: every child that can be deleted is. */
  function Tidy(fs: FS, locked: set<Path>, t: Path): (r: FS)
    ensures forall x :: x in r ==> x in fs
    ensures KeepsLocked(fs, r, locked)
  {
    fs - Leaves(fs, locked, t)
  }

  // ---------------------------------------------------------------- lemmas

  lemma ManifestedKeepsValid(fs: FS, locked: set<Path>, prefix: string, name: string)
    requires ValidFs(fs)
    ensures ValidFs(Manifested(fs, locked, prefix, name).fs)
  {
    var lib := LibDir(name);
    var d := DirFile(fs, prefix, lib + DirManifest);
    if ReadLines(fs, lib + DirManifest).Some? {
      DirLinesGrow(fs, prefix, ReadLines(fs, lib + DirManifest).value);
    }
    if !d.thrown {
      var f := LinkFile(d.fs, locked, prefix, lib + FileManifest);
      if ReadLines(d.fs, lib + FileManifest).Some? {
        LinkLinesKeepsValid(d.fs, locked, prefix, ReadLines(d.fs, lib + FileManifest).value);
      }
      if !f.thrown && ReadLines(f.fs, lib + LinkManifest).Some? {
        LinkLinesKeepsValid(f.fs, locked, prefix, ReadLines(f.fs, lib + LinkManifest).value);
      }
    }
  }

  /** Installing a package keeps the filesystem a tree. */
  lemma InstallKeepsValid(fs: FS, locked: set<Path>, pm: PackageInfo, prefix: string, name: string)
    requires ValidFs(fs)
    ensures ValidFs(Install(fs, locked, pm, prefix, name).fs)
  {
    if UpdateRequired(fs, pm, prefix, name) {
      ManifestedKeepsValid(fs, locked, prefix, name);
      CreateVersionFileKeepsValid(Manifested(fs, locked, prefix, name).fs, pm, prefix, name);
    }
  }

  /**
   * An installation that neither threw nor saw an error leaves the package
   * current (when its install root is a directory), so the next launch does
   * not install it again.
   */
  lemma CleanInstallIsCurrent(fs: FS, locked: set<Path>, pm: PackageInfo, prefix: string, name: string)
    requires name in pm && '/' !in name && '/' !in VersionName(pm, name).value
    ensures var r := Install(fs, locked, pm, prefix, name);
      !r.thrown && !r.stderr && IsDirAt(r.fs, RootPath(prefix)) ==>
        && !UpdateRequired(r.fs, pm, prefix, name)
        && Install(r.fs, locked, pm, prefix, name) == Progress(r.fs, false, false)
  {
    var r := Install(fs, locked, pm, prefix, name);
    if UpdateRequired(fs, pm, prefix, name) && !r.thrown && !r.stderr && IsDirAt(r.fs, RootPath(prefix)) {
      var m := Manifested(fs, locked, prefix, name);
      var v := VersionName(pm, name).value;
      MarkerInRoot(prefix, name, v);
      var marker := RootPath(prefix) + [name + "." + v];
      assert marker != RootPath(prefix);
      assert IsDirAt(m.fs, RootPath(prefix));
      MarkerClosesGate(m.fs, pm, prefix, name);
    }
  }

  lemma {:induction false} InstallAllKeepsValid(fs: FS, locked: set<Path>, pm: PackageInfo, prefix: string, names: seq<string>, err: bool)
    requires ValidFs(fs)
    ensures ValidFs(InstallAll(fs, locked, pm, prefix, names, err).fs)
    decreases |names|
  {
    if names != [] {
      var pr := InstallAll(fs, locked, pm, prefix, names[..|names| - 1], err);
      InstallAllKeepsValid(fs, locked, pm, prefix, names[..|names| - 1], err);
      if !pr.thrown {
        InstallKeepsValid(pr.fs, locked, pm, prefix, names[|names| - 1]);
      }
    }
  }

  /** One more package of the list. */
  lemma InstallAllStep(fs: FS, locked: set<Path>, pm: PackageInfo, prefix: string, names: seq<string>, err: bool, k: nat)
    requires k < |names|
    ensures var pr := InstallAll(fs, locked, pm, prefix, names[..k], err);
      InstallAll(fs, locked, pm, prefix, names[..k + 1], err)
        == if pr.thrown then pr else Install(pr.fs, locked, pm, prefix, names[k])
  {
    assert names[..k + 1][..k] == names[..k];
  }

  /** Once an installation has thrown, no later package is installed. */
  lemma {:induction false} InstallAllStops(fs: FS, locked: set<Path>, pm: PackageInfo, prefix: string, names: seq<string>, err: bool, k: nat)
    requires k <= |names| && InstallAll(fs, locked, pm, prefix, names[..k], err).thrown
    ensures InstallAll(fs, locked, pm, prefix, names, err) == InstallAll(fs, locked, pm, prefix, names[..k], err)
    decreases |names|
  {
    if k < |names| {
      var init := names[..|names| - 1];
      assert init[..k] == names[..k];
      InstallAllStops(fs, locked, pm, prefix, init, err, k);
    } else {
      assert names[..k] == names;
    }
  }

  lemma HomeSetupKeepsValid(fs: FS, locked: set<Path>, prefix: string, mounted: bool, external: string)
    requires ValidFs(fs)
    ensures ValidFs(HomeSetup(fs, locked, prefix, mounted, external).fs)
  {
    var home := HomeDir(prefix, mounted, external);
    var fs1 := fs;
    if mounted && !Exists(fs, home) {
      fs1 := TryMakeDir(fs, home);
      TryMakeDirKeepsValid(fs, home);
      RunKeepsValid(fs1, locked, Chmod(home));
      fs1 := Run(fs1, locked, Chmod(home)).fs;
    }
    var rc := home + "/.octaverc";
    if !Exists(fs1, rc) {
      TryCreateFileKeepsValid(fs1, rc);
      RunKeepsValid(TryCreateFile(fs1, rc), locked, Chmod(rc));
    }
  }

  lemma TryMakeDirKeepsValid(fs: FS, path: string)
    requires ValidFs(fs)
    ensures ValidFs(TryMakeDir(fs, path))
  {
    if ParsePath(path).Some? && MakeDir(fs, ParsePath(path).value).Some? {
      AddKeepsValid(fs, ParsePath(path).value, Dir(DefaultDirMode));
    }
  }

  lemma TryCreateFileKeepsValid(fs: FS, path: string)
    requires ValidFs(fs)
    ensures ValidFs(TryCreateFile(fs, path))
  {
    if ParsePath(path).Some? {
      var p := ParsePath(path).value;
      if p != [] && p !in fs && IsDirAt(fs, Parent(p)) {
        AddKeepsValid(fs, p, File(DefaultFileMode, []));
      }
    }
  }

  lemma OpenRootKeepsValid(fs: FS, locked: set<Path>, prefix: string)
    requires ValidFs(fs)
    ensures ValidFs(OpenRoot(fs, locked, prefix).fs)
  {
    var root := InstallRoot(prefix);
    RunKeepsValid(fs, locked, Chmod(root));
    RunKeepsValid(Run(fs, locked, Chmod(root)).fs, locked, Chmod(root + "/lib"));
  }

  lemma SweepStaleKeepsValid(fs: FS, locked: set<Path>, prefix: string)
    requires ValidFs(fs)
    ensures ValidFs(SweepStale(fs, locked, prefix).fs)
  {
    var e3 := Run(fs, locked, RemoveTree(StalePath(prefix, 0)));
    RunKeepsValid(fs, locked, RemoveTree(StalePath(prefix, 0)));
    var e4 := Run(e3.fs, locked, RemoveTree(StalePath(prefix, 1)));
    RunKeepsValid(e3.fs, locked, RemoveTree(StalePath(prefix, 1)));
    var e5 := Run(e4.fs, locked, RemoveTree(StalePath(prefix, 2)));
    RunKeepsValid(e4.fs, locked, RemoveTree(StalePath(prefix, 2)));
    RunKeepsValid(e5.fs, locked, RemoveTree(StalePath(prefix, 3)));
  }

  lemma MakeTmpKeepsValid(fs: FS, locked: set<Path>, prefix: string)
    requires ValidFs(fs)
    ensures ValidFs(MakeTmp(fs, locked, prefix).fs)
  {
    var root := InstallRoot(prefix);
    TryMakeDirKeepsValid(fs, root + "/tmp/");
    var fs7 := if Exists(fs, root + "/tmp/") then fs else TryMakeDir(fs, root + "/tmp/");
    RunKeepsValid(fs7, locked, Chmod(root + "/tmp"));
  }

  lemma PrepareUpdateKeepsValid(fs: FS, locked: set<Path>, prefix: string)
    requires ValidFs(fs)
    ensures ValidFs(PrepareUpdate(fs, locked, prefix).fs)
  {
    OpenRootKeepsValid(fs, locked, prefix);
    var a := OpenRoot(fs, locked, prefix);
    SweepStaleKeepsValid(a.fs, locked, prefix);
    MakeTmpKeepsValid(SweepStale(a.fs, locked, prefix).fs, locked, prefix);
  }

  /** A whole launch keeps the filesystem a tree. */
  lemma UnpackKeepsValid(fs: FS, locked: set<Path>, pm: PackageInfo, prefix: string, mounted: bool, external: string,
                         errOcc: bool, ask: bool)
    requires ValidFs(fs)
    ensures ValidFs(Unpack(fs, locked, pm, prefix, mounted, external, errOcc, ask).fs)
  {
    var h := HomeSetup(fs, locked, prefix, mounted, external);
    HomeSetupKeepsValid(fs, locked, prefix, mounted, external);
    var d := InstallAll(h.fs, locked, pm, prefix, DonationPackages, errOcc || h.stderr);
    InstallAllKeepsValid(h.fs, locked, pm, prefix, DonationPackages, errOcc || h.stderr);
    if !d.thrown {
      if UpdateRequired(d.fs, pm, prefix, prefix) {
        PrepareUpdateKeepsValid(d.fs, locked, prefix);
      }
      var u := if UpdateRequired(d.fs, pm, prefix, prefix) then PrepareUpdate(d.fs, locked, prefix) else Effect(d.fs, false);
      InstallAllKeepsValid(u.fs, locked, pm, prefix, OctavePackages, d.stderr || u.stderr);
      assert Upgrade(d.fs, locked, pm, prefix, d.stderr).fs == InstallAll(u.fs, locked, pm, prefix, OctavePackages, d.stderr || u.stderr).fs;
    }
  }

  /** cleanHouse removes only children of the directory, keeps the tree
      valid, and a second pass finds nothing more to delete. */
  lemma TidyOutcome(fs: FS, locked: set<Path>, t: Path)
    requires ValidFs(fs)
    ensures var fs' := Tidy(fs, locked, t);
      && ValidFs(fs')
      && (forall x :: x in fs && x !in fs' ==> x in Children(fs, t))
      && Leaves(fs', locked, t) == {}
      && Tidy(fs', locked, t) == fs'
  {
    var gone := Leaves(fs, locked, t);
    var fs' := fs - gone;
    forall x | x in fs && x !in gone && x != [] ensures Parent(x) !in gone {
      assert x in Children(fs, Parent(x));
    }
    RemoveKeepsValid(fs, gone);
    forall c | c in Children(fs', t) && Removable(locked, c) ensures Children(fs', c) != {} {
      assert c !in gone;
      assert Children(fs, c) != {};
      var g :| g in Children(fs, c);
      assert g !in gone;
      assert g in Children(fs', c);
    }
  }

  /**
   * One entry of cleanHouse's loop, the entries outside `files` having been
   * handled: File.delete() succeeds exactly on a removable leaf, and then the
   * state is that of one entry fewer left to handle.
   */
  lemma TidyStep(fs: FS, locked: set<Path>, t: Path, files: set<Path>, file: Path)
    requires ValidFs(fs) && files <= Children(fs, t) && file in files
    ensures var cur := fs - (Leaves(fs, locked, t) - files);
      DeleteNode(cur, locked, file)
        == if file in Leaves(fs, locked, t) then Some(fs - (Leaves(fs, locked, t) - (files - {file}))) else None
  {
    var gone := Leaves(fs, locked, t) - files;
    var cur := fs - gone;
    forall x | x in Children(fs, file) ensures x in cur {
      assert |x| == |t| + 2;
    }
    assert Children(cur, file) == Children(fs, file);
    if file in Leaves(fs, locked, t) {
      assert Leaves(fs, locked, t) - (files - {file}) == gone + {file};
      assert cur - {file} == fs - (gone + {file});
    }
  }

  /** "<root>/<name>" for a plain name is one segment below the install root. */
  lemma InRoot(prefix: string, name: string)
    requires name != [] && '/' !in name
    ensures ParsePath(InstallRoot(prefix) + "/" + name) == Some(RootPath(prefix) + [name])
  {
    var s := InstallRoot(prefix) + "/" + name;
    assert s[1..] == InstallRoot(prefix)[1..] + "/" + name;
    SegmentsAppend(InstallRoot(prefix)[1..], name);
  }

  /** rm -rf of a path below a clear directory: the path is gone, nothing
      is reported, and no node appears. */
  lemma RemoveBelowClear(fs: FS, locked: set<Path>, r: Path, s: string, q: Path)
    requires ValidFs(fs) && Clear(fs, locked, r) && IsPrefix(r, q) && ParsePath(s) == Some(q)
    ensures var e := Run(fs, locked, RemoveTree(s));
      && ValidFs(e.fs) && !e.stderr && e.fs.Keys <= fs.Keys && q !in e.fs
  {
    assert IsPrefix(q, q);
    ClearBelow(fs, locked, r, q);
    RemoveTreeOutcome(fs, locked, s, q);
    RunKeepsValid(fs, locked, RemoveTree(s));
  }

  /** rm -rf of the `i`th stale directory while nothing under the install
      root is protected: it is gone, so are the ones removed before it, the
      rest stays clear and nothing is reported. */
  lemma RemoveStale(fs: FS, locked: set<Path>, prefix: string, i: nat)
    requires i < |StaleDirs|
    requires ValidFs(fs) && Clear(fs, locked, RootPath(prefix))
    requires forall j :: 0 <= j < i ==> RootPath(prefix) + [StaleDirs[j]] !in fs
    ensures var e := Run(fs, locked, RemoveTree(StalePath(prefix, i)));
      && ValidFs(e.fs) && !e.stderr && Clear(e.fs, locked, RootPath(prefix))
      && forall j :: 0 <= j <= i ==> RootPath(prefix) + [StaleDirs[j]] !in e.fs
  {
    var r, q := RootPath(prefix), RootPath(prefix) + [StaleDirs[i]];
    assert StaleDirs[i] != [] && '/' !in StaleDirs[i];
    InRoot(prefix, StaleDirs[i]);
    assert IsPrefix(r, q);
    RemoveBelowClear(fs, locked, r, StalePath(prefix, i), q);
  }

  /**
   * With nothing under the install root protected, the update removes every
   * stale directory without an error.
   */
  lemma SweepStaleClears(fs: FS, locked: set<Path>, prefix: string)
    requires ValidFs(fs) && Clear(fs, locked, RootPath(prefix))
    ensures var e := SweepStale(fs, locked, prefix);
      && !e.stderr
      && forall i :: 0 <= i < |StaleDirs| ==> RootPath(prefix) + [StaleDirs[i]] !in e.fs
  {
    var e3 := Run(fs, locked, RemoveTree(StalePath(prefix, 0)));
    RemoveStale(fs, locked, prefix, 0);
    var e4 := Run(e3.fs, locked, RemoveTree(StalePath(prefix, 1)));
    RemoveStale(e3.fs, locked, prefix, 1);
    var e5 := Run(e4.fs, locked, RemoveTree(StalePath(prefix, 2)));
    RemoveStale(e4.fs, locked, prefix, 2);
    RemoveStale(e5.fs, locked, prefix, 3);
  }

  /** chmod never removes a node. */
  lemma ChmodKeeps(fs: FS, locked: set<Path>, s: string, p: Path)
    requires p in fs
    ensures p in Run(fs, locked, Chmod(s)).fs
  {
  }

  /**
   * Without external storage the home is the install root; when that is a
   * directory, .octaverc exists in it once the set-up is done.
   */
  lemma HomeSetupMakesRc(fs: FS, locked: set<Path>, prefix: string, external: string)
    requires IsDirAt(fs, RootPath(prefix))
    ensures Exists(HomeSetup(fs, locked, prefix, false, external).fs, InstallRoot(prefix) + "/.octaverc")
  {
    var rc := InstallRoot(prefix) + "/.octaverc";
    assert rc == InstallRoot(prefix) + "/" + ".octaverc";
    InRoot(prefix, ".octaverc");
    var p := RootPath(prefix) + [".octaverc"];
    assert Parent(p) == RootPath(prefix);
    if !Exists(fs, rc) {
      ChmodKeeps(TryCreateFile(fs, rc), locked, rc, p);
    }
  }
}
