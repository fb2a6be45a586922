/**
 * The version gate: a package is installed at a version when the empty
 * marker file /data/data/<prefix>/<package>.<version> exists. The package
 * manager is an input map; a package missing from it is "not found".
 */
module VersionGate {
  import opened Options
  import opened FileTree

  /** The package manager: a package name maps to its versionName, which
      Android may leave null (None); a missing name is NameNotFoundException. */
  type PackageInfo = map<string, Option<string>>

  /** The version string the installer reads for `name`: None when the package
      is not installed; a null versionName reads as "null" once concatenated. */
  function VersionName(pm: PackageInfo, name: string): (r: Option<string>)
    ensures r.Some? <==> name in pm
  {
    if name in pm then Some(pm[name].GetOr("null")) else None
  }

  /** "/data/data/<prefix>", the directory holding the markers. */
  function InstallRoot(prefix: string): string {
    "/data/data/" + prefix
  }

  function MarkerName(prefix: string, name: string, version: string): string {
    InstallRoot(prefix) + "/" + name + "." + version
  }

  /** updateRequired: an installed package whose marker is absent needs work;
      a package the manager does not know never does. */
  function UpdateRequired(fs: FS, pm: PackageInfo, prefix: string, name: string): (r: bool)
    ensures r ==> name in pm
  {
    match VersionName(pm, name)
    case None => false
    case Some(v) => !Exists(fs, MarkerName(prefix, name, v))
  }

  /** createVersionFile: creates the marker for the current version ("?" for
      an unknown package) when it is absent; nothing else changes. */
  function CreateVersionFile(fs: FS, pm: PackageInfo, prefix: string, name: string): (r: FS)
    ensures var m := ParsePath(MarkerName(prefix, name, VersionName(pm, name).GetOr("?"))).value;
      r == fs || (m !in fs && r == fs[m := File(DefaultFileMode, [])])
  {
    var marker := MarkerName(prefix, name, VersionName(pm, name).GetOr("?"));
    match ParsePath(marker)
    case Some(p) => CreateNewFile(fs, p)
    case None => fs
  }

  // ---------------------------------------------------------------- lemmas

  /** The install root as a path. */
  function RootPath(prefix: string): Path {
    ParsePath(InstallRoot(prefix)).value
  }

  /** The marker of a plain package name and version sits directly in the
      install root. */
  lemma MarkerInRoot(prefix: string, name: string, version: string)
    requires '/' !in name && '/' !in version
    ensures ParsePath(MarkerName(prefix, name, version)) == Some(RootPath(prefix) + [name + "." + version])
  {
    var leaf := name + "." + version;
    assert '/' !in leaf;
    var m := MarkerName(prefix, name, version);
    assert m == InstallRoot(prefix) + "/" + leaf;
    assert m[1..] == InstallRoot(prefix)[1..] + "/" + leaf;
    SegmentsAppend(InstallRoot(prefix)[1..], leaf);
  }

  lemma CreateVersionFileKeepsValid(fs: FS, pm: PackageInfo, prefix: string, name: string)
    requires ValidFs(fs)
    ensures ValidFs(CreateVersionFile(fs, pm, prefix, name))
  {
    var m := ParsePath(MarkerName(prefix, name, VersionName(pm, name).GetOr("?"))).value;
    if m != [] && m !in fs && IsDirAt(fs, Parent(m)) {
      AddKeepsValid(fs, m, File(DefaultFileMode, []));
    }
  }

  /** Once the marker is written (its directory exists), the gate closes for
      the same package at the same version. */
  lemma MarkerClosesGate(fs: FS, pm: PackageInfo, prefix: string, name: string)
    requires name in pm && '/' !in name && '/' !in VersionName(pm, name).value
    requires IsDirAt(fs, RootPath(prefix))
    ensures !UpdateRequired(CreateVersionFile(fs, pm, prefix, name), pm, prefix, name)
  {
    var v := VersionName(pm, name).value;
    MarkerInRoot(prefix, name, v);
    var m := RootPath(prefix) + [name + "." + v];
    assert Parent(m) == RootPath(prefix);
  }

  /** Writing the marker twice is writing it once. */
  lemma CreateVersionFileIdempotent(fs: FS, pm: PackageInfo, prefix: string, name: string)
    ensures var once := CreateVersionFile(fs, pm, prefix, name);
      CreateVersionFile(once, pm, prefix, name) == once
  {
    var m := ParsePath(MarkerName(prefix, name, VersionName(pm, name).GetOr("?"))).value;
    var once := CreateVersionFile(fs, pm, prefix, name);
    if once != fs {
      assert m in once;
    }
  }

  /** A marker for one version does not close the gate for another: after an
      upgrade the package is pending again until its new marker is written. */
  lemma OtherVersionStaysPending(fs: FS, pm: PackageInfo, pm': PackageInfo, prefix: string, name: string)
    requires name in pm && name in pm'
    requires '/' !in name && '/' !in VersionName(pm, name).value && '/' !in VersionName(pm', name).value
    requires VersionName(pm, name) != VersionName(pm', name)
    ensures UpdateRequired(CreateVersionFile(fs, pm, prefix, name), pm', prefix, name)
        == UpdateRequired(fs, pm', prefix, name)
  {
    var v, v' := VersionName(pm, name).value, VersionName(pm', name).value;
    MarkerInRoot(prefix, name, v);
    MarkerInRoot(prefix, name, v');
    var m := RootPath(prefix) + [name + "." + v];
    var m' := RootPath(prefix) + [name + "." + v'];
    assert m[|m| - 1] == name + "." + v;
    assert m'[|m'| - 1] == name + "." + v';
    assert v == (name + "." + v)[|name| + 1..];
    assert v' == (name + "." + v')[|name| + 1..];
    assert m != m';
  }
}
