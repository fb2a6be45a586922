/**
 * The three manifests a package ships in its lib directory, and what
 * processing one line of each does: a directory line names a directory to
 * create with all its missing parents; a link line "<target> <link>" names
 * a symbolic link to (re)create. Every line first has the canonical prefix
 * /data/data/com.octave/ rewritten to the actual install root.
 */
module Manifests {
  import opened Options
  import opened Text
  import opened FileTree
  import opened Shell

  /** The install root the manifests are written against. */
  const CanonicalHome := "/data/data/com.octave/"
  /** The install root name the application ships with. */
  const DefaultPrefix := "com.octave"

  /** Every occurrence of the canonical home in a manifest line, scanned left
      to right, becomes the actual install root; a line that never mentions
      the canonical home is left as it is. */
  function Rewrite(line: string, prefix: string): (r: string)
    ensures (forall i :: !OccursAt(line, CanonicalHome, i)) ==> r == line
  {
    ReplaceWithoutOccurrence(line, CanonicalHome, "/data/data/" + prefix + "/");
    ReplaceAll(line, CanonicalHome, "/data/data/" + prefix + "/")
  }

  /** A line that starts with the canonical home and never mentions it again
      is moved to the actual install root. */
  lemma RewriteMovesHome(r: string, prefix: string)
    requires forall i :: !OccursAt(r, CanonicalHome, i)
    ensures Rewrite(CanonicalHome + r, prefix) == "/data/data/" + prefix + "/" + r
  {
    var home := "/data/data/" + prefix + "/";
    assert [] + CanonicalHome + r == CanonicalHome + r;
    ReplaceFirst([], CanonicalHome, r, home);
    ReplaceWithoutOccurrence(r, CanonicalHome, home);
  }

  /** Each occurrence of the canonical home, from left to right, is replaced:
      the text before it is kept and the rest of the line is rewritten in turn. */
  lemma RewriteFirst(a: string, b: string, prefix: string)
    requires forall i :: 0 <= i < |a| ==> !OccursAt(a + CanonicalHome + b, CanonicalHome, i)
    ensures Rewrite(a + CanonicalHome + b, prefix) == a + "/data/data/" + prefix + "/" + Rewrite(b, prefix)
  {
    var home := "/data/data/" + prefix + "/";
    ReplaceFirst(a, CanonicalHome, b, home);
    assert a + home + Rewrite(b, prefix) == a + "/data/data/" + prefix + "/" + Rewrite(b, prefix);
  }

  /** The prefixes of `p` that name a directory on the way to it, `p` included. */
  function Ancestry(p: Path): set<Path> {
    set k | 1 <= k <= |p| :: p[..k]
  }

  /** Some proper ancestor of `p` exists and is not a directory. */
  predicate Blocked(fs: FS, p: Path) {
    exists k :: 0 < k < |p| && p[..k] in fs && !fs[p[..k]].Dir?
  }

  /**
   * What createDir(File) does to the filesystem: None when it throws (the
   * root has no parent; mkdir fails under a non-directory), otherwise every
   * missing prefix of `p` is created with mode 0777 and everything present,
   * `p` itself included, is left as it is.
   */
  function EnsureDir(fs: FS, p: Path): (r: Option<FS>)
    ensures r.Some? ==> fs.Keys <= r.value.Keys && p in r.value
  {
    if p == [] || Blocked(fs, p) then None
    else
      assert p[..|p|] == p && p in Ancestry(p);
      Some(fs + map q | q in Ancestry(p) && q !in fs :: Dir(ModeAll))
  }

  /** Every node of `fs` stays as it is in `fs'`; every new node is a 0777 directory. */
  predicate GrowsDirs(fs: FS, fs': FS) {
    && (forall x :: x in fs ==> x in fs' && fs'[x] == fs[x])
    && (forall x :: x in fs' && x !in fs ==> fs'[x] == Dir(ModeAll))
  }

  /** The rewritten line names a path that exists, below directories. */
  predicate Materialized(fs: FS, prefix: string, line: string) {
    match ParsePath(Rewrite(line, prefix))
    case Some(p) => p != [] && p in fs && forall k :: 0 <= k < |p| ==> IsDirAt(fs, p[..k])
    case None => false
  }

  /** createDir(String): a relative name throws, as its parent is null. */
  function CreateDirAt(fs: FS, path: string): Option<FS> {
    match ParsePath(path)
    case Some(p) => EnsureDir(fs, p)
    case None => None
  }

  /** createDir(String) on a rewritten directory-manifest line. */
  function DirLine(fs: FS, prefix: string, line: string): Option<FS> {
    CreateDirAt(fs, Rewrite(line, prefix))
  }

  /** How far processing got: the filesystem, whether any command wrote to
      stderr, and whether a runtime exception escaped. */
  datatype Progress = Progress(fs: FS, stderr: bool, thrown: bool)

  /** processDirFile's loop over the lines it read: stops at the first line
      whose createDir throws. */
  function DirLines(fs: FS, prefix: string, lines: seq<string>): (r: Progress)
    ensures !r.stderr
    decreases |lines|
  {
    if lines == [] then Progress(fs, false, false)
    else
      var pr := DirLines(fs, prefix, lines[..|lines| - 1]);
      if pr.thrown then pr
      else
        match DirLine(pr.fs, prefix, lines[|lines| - 1])
        case None => Progress(pr.fs, false, true)
        case Some(fs') => Progress(fs', false, false)
  }

  /** The lines a BufferedReader delivers from a regular file; None when
      opening it throws FileNotFoundException. */
  function ReadLines(fs: FS, path: string): (r: Option<seq<string>>)
    ensures r.Some? ==> Exists(fs, path)
  {
    match ParsePath(path)
    case Some(p) => if p in fs && fs[p].File? then Some(fs[p].lines) else None
    case None => None
  }

  /** processDirFile: a manifest that cannot be opened is skipped. */
  function DirFile(fs: FS, prefix: string, dirFile: string): (r: Progress)
    ensures !r.stderr
    ensures forall x :: x in fs ==> x in r.fs
  {
    match ReadLines(fs, dirFile)
    case None => Progress(fs, false, false)
    case Some(lines) => DirLinesKeep(fs, prefix, lines); DirLines(fs, prefix, lines)
  }

  /** Directory lines never remove an entry. */
  lemma {:induction false} DirLinesKeep(fs: FS, prefix: string, lines: seq<string>)
    ensures forall x :: x in fs ==> x in DirLines(fs, prefix, lines).fs
    decreases |lines|
  {
    if lines != [] {
      DirLinesKeep(fs, prefix, lines[..|lines| - 1]);
    }
  }

  /**
   * One line of processLinkFile: None when the line has no second field
   * (the array access throws); otherwise the entry named by the second
   * field, as written in the manifest, is deleted when File.exists() sees
   * something there (links followed) and File.delete() can remove it, and
   * "ln -s <rewritten line>" runs.
   */
  function LinkLine(fs: FS, locked: set<Path>, prefix: string, line: string): (r: Option<Effect>)
    ensures ' ' !in line ==> r.None?
    ensures r.Some? ==> KeepsLocked(fs, r.value.fs, locked)
  {
    var parts := JavaSplit(line, ' ');
    if |parts| < 2 then None
    else
      var cleared :=
        match ParsePath(parts[1])
        case Some(p) =>
          if Present(fs, p) then (match DeleteNode(fs, locked, p) case Some(f) => f case None => fs) else fs
        case None => fs;
      Some(Run(cleared, locked, SymLink(Tokens(Rewrite(line, prefix)))))
  }

  /** processLinkFile's loop: errors from ln accumulate, an exception stops it. */
  function LinkLines(fs: FS, locked: set<Path>, prefix: string, lines: seq<string>): (r: Progress)
    ensures KeepsLocked(fs, r.fs, locked)
    decreases |lines|
  {
    if lines == [] then Progress(fs, false, false)
    else
      var pr := LinkLines(fs, locked, prefix, lines[..|lines| - 1]);
      if pr.thrown then pr
      else
        match LinkLine(pr.fs, locked, prefix, lines[|lines| - 1])
        case None => Progress(pr.fs, pr.stderr, true)
        case Some(e) => Progress(e.fs, pr.stderr || e.stderr, false)
  }

  /** processLinkFile: a manifest that cannot be opened is skipped. */
  function LinkFile(fs: FS, locked: set<Path>, prefix: string, linkFile: string): (r: Progress)
    ensures KeepsLocked(fs, r.fs, locked)
  {
    match ReadLines(fs, linkFile)
    case None => Progress(fs, false, false)
    case Some(lines) => LinkLines(fs, locked, prefix, lines)
  }

  // ---------------------------------------------------------- the rewrite

  /** Under the shipped install root the rewrite changes nothing. */
  lemma DefaultRewriteIsIdentity(line: string)
    ensures Rewrite(line, DefaultPrefix) == line
  {
    assert "/data/data/" + DefaultPrefix + "/" == CanonicalHome;
  }

  /** The two fields of a link line are rewritten independently, and a
      blank-free root keeps them two separate words. */
  lemma RewriteLinkLine(a: string, b: string, prefix: string)
    requires a != [] && b != [] && Avoids(a, Blanks) && Avoids(b, Blanks) && Avoids(prefix, Blanks)
    ensures Rewrite(a + [' '] + b, prefix) == Rewrite(a, prefix) + [' '] + Rewrite(b, prefix)
    ensures Tokens(Rewrite(a + [' '] + b, prefix)) == [Rewrite(a, prefix), Rewrite(b, prefix)]
  {
    var t := "/data/data/" + prefix + "/";
    assert ' ' !in CanonicalHome;
    ReplaceAround(a, ' ', b, CanonicalHome, t);
    assert Avoids(t, Blanks) by {
      assert forall j :: 0 <= j < |t| ==> t[j] in "/data" || t[j] in prefix;
    }
    ReplaceAvoids(a, CanonicalHome, t, Blanks);
    ReplaceAvoids(b, CanonicalHome, t, Blanks);
    assert Rewrite(a, prefix) != [] by {
      if |a| >= |CanonicalHome| && a[..|CanonicalHome|] == CanonicalHome {
        assert |Rewrite(a, prefix)| >= |t|;
      }
    }
    assert Rewrite(b, prefix) != [] by {
      if |b| >= |CanonicalHome| && b[..|CanonicalHome|] == CanonicalHome {
        assert |Rewrite(b, prefix)| >= |t|;
      }
    }
    TwoWords(Rewrite(a, prefix), Rewrite(b, prefix));
  }

  // ------------------------------------------------------------- createDir

  lemma GrowsDirsChain(f1: FS, f2: FS, f3: FS)
    requires GrowsDirs(f1, f2) && GrowsDirs(f2, f3)
    ensures GrowsDirs(f1, f3)
  {
  }

  /**
   * createDir on success: the tree stays valid, the directory exists with
   * every ancestor a directory, nothing present changes (so an existing
   * directory is untouched), and what is new is a 0777 directory on the way
   * to it.
   */
  lemma EnsureDirOutcome(fs: FS, p: Path)
    requires ValidFs(fs) && WellFormed(p) && EnsureDir(fs, p).Some?
    ensures var fs' := EnsureDir(fs, p).value;
      && ValidFs(fs')
      && p in fs'
      && (forall k :: 0 <= k < |p| ==> IsDirAt(fs', p[..k]))
      && GrowsDirs(fs, fs')
      && (forall x :: x in fs' && x !in fs ==> x in Ancestry(p))
      && (p in fs ==> fs' == fs)
  {
    var fs' := EnsureDir(fs, p).value;
    assert p == p[..|p|];
    forall k | 0 <= k < |p| ensures IsDirAt(fs', p[..k]) {
      if k == 0 {
        assert p[..0] == [];
      } else if p[..k] !in fs {
        assert p[..k] in Ancestry(p);
      }
    }
    forall x | x in fs' && x != [] ensures IsDirAt(fs', Parent(x)) {
      if x !in fs {
        var k :| 1 <= k <= |p| && x == p[..k];
        assert Parent(x) == p[..k - 1];
      }
    }
    forall x | x in fs' ensures WellFormed(x) {
      if x !in fs {
        var k :| 1 <= k <= |p| && x == p[..k];
      }
    }
    if p in fs {
      forall k | 1 <= k <= |p| ensures p[..k] in fs {
        if k < |p| {
          AncestorIsDir(fs, p, k);
        }
      }
      assert fs' == fs;
    }
  }

  /** createDir is idempotent: a second call changes nothing. */
  lemma EnsureDirIdempotent(fs: FS, p: Path)
    requires ValidFs(fs) && WellFormed(p) && EnsureDir(fs, p).Some?
    ensures EnsureDir(EnsureDir(fs, p).value, p) == EnsureDir(fs, p)
  {
    var fs' := EnsureDir(fs, p).value;
    EnsureDirOutcome(fs, p);
    EnsureDirOutcome(fs', p);
  }

  /** With the parent missing, a path is blocked exactly when its parent is. */
  lemma BlockedViaParent(fs: FS, p: Path)
    requires p != [] && Parent(p) !in fs
    ensures Blocked(fs, p) <==> Blocked(fs, Parent(p))
  {
    var q := Parent(p);
    if Blocked(fs, p) {
      var k :| 0 < k < |p| && p[..k] in fs && !fs[p[..k]].Dir?;
      assert p[..|q|] == q;
      assert k < |q|;
      assert q[..k] == p[..k];
    }
    if Blocked(fs, q) {
      var k :| 0 < k < |q| && q[..k] in fs && !fs[q[..k]].Dir?;
      assert q[..k] == p[..k];
    }
  }

  /** The directories on the way to `p` are those on the way to its parent, and `p`. */
  lemma AncestryViaParent(p: Path)
    requires p != []
    ensures Ancestry(p) == Ancestry(Parent(p)) + {p}
  {
    var q := Parent(p);
    assert p == p[..|p|];
    forall x | x in Ancestry(p) ensures x in Ancestry(q) + {p} {
      var k :| 1 <= k <= |p| && x == p[..k];
      if k < |p| { assert x == q[..k]; }
    }
    forall x | x in Ancestry(q) ensures x in Ancestry(p) {
      var k :| 1 <= k <= |q| && x == q[..k];
      assert x == p[..k];
    }
  }

  /** The recursion of createDir: a missing parent is created first. */
  lemma EnsureDirViaParent(fs: FS, p: Path)
    requires ValidFs(fs) && WellFormed(p) && p != [] && Parent(p) !in fs
    ensures EnsureDir(fs, p).Some? <==> EnsureDir(fs, Parent(p)).Some?
    ensures EnsureDir(fs, p).Some? ==>
      EnsureDir(fs, p).value == EnsureDir(fs, Parent(p)).value[p := Dir(ModeAll)]
  {
    var q := Parent(p);
    assert q != [];
    assert p !in fs;
    BlockedViaParent(fs, p);
    AncestryViaParent(p);
  }

  /** createDir one level at a time: the parent is made sure of first (when
      missing), then the directory itself is made unless it is there. */
  lemma EnsureDirStep(fs: FS, p: Path)
    requires ValidFs(fs) && WellFormed(p) && p != []
    ensures var base := if Parent(p) in fs then Some(fs) else EnsureDir(fs, Parent(p));
      && (base.Some? ==> ValidFs(base.value) && (p in base.value <==> p in fs))
      && (Parent(p) !in fs && base.Some? ==> IsDirAt(base.value, Parent(p)))
      && EnsureDir(fs, p) ==
        match base
        case None => None
        case Some(f) => if p in f then Some(f) else if IsDirAt(f, Parent(p)) then Some(f[p := Dir(ModeAll)]) else None
  {
    var q := Parent(p);
    if q in fs {
      EnsureDirUnderParent(fs, p);
    } else {
      EnsureDirViaParent(fs, p);
      assert p !in fs;
      if EnsureDir(fs, q).Some? {
        EnsureDirOutcome(fs, q);
        assert p !in Ancestry(q);
        assert q == q[..|q|];
      }
    }
  }

  /** The other case of the recursion: the parent exists. */
  lemma EnsureDirUnderParent(fs: FS, p: Path)
    requires ValidFs(fs) && WellFormed(p) && p != [] && Parent(p) in fs
    ensures p in fs ==> EnsureDir(fs, p) == Some(fs)
    ensures p !in fs ==> EnsureDir(fs, p) == if fs[Parent(p)].Dir? then Some(fs[p := Dir(ModeAll)]) else None
  {
    var q := Parent(p);
    assert p == p[..|p|];
    if p in fs {
      assert !Blocked(fs, p) by {
        forall k | 0 < k < |p| ensures IsDirAt(fs, p[..k]) {
          AncestorIsDir(fs, p, k);
        }
      }
      EnsureDirOutcome(fs, p);
    } else if fs[q].Dir? {
      forall k | 0 < k < |p| ensures IsDirAt(fs, p[..k]) {
        if k < |q| {
          AncestorIsDir(fs, q, k);
          assert q[..k] == p[..k];
        } else {
          assert p[..k] == q;
        }
      }
      var m := map x | x in Ancestry(p) && x !in fs :: Dir(ModeAll);
      assert m.Keys == {p} by {
        forall x | x in Ancestry(p) && x != p ensures x in fs {
          var k :| 1 <= k <= |p| && x == p[..k];
          if k < |q| {
            AncestorIsDir(fs, q, k);
            assert q[..k] == x;
          } else {
            assert x == q;
          }
        }
        assert p in Ancestry(p);
      }
      assert fs + m == fs[p := Dir(ModeAll)];
    } else {
      assert |q| > 0;
      assert p[..|q|] == q;
      assert Blocked(fs, p);
    }
  }

  // ---------------------------------------------------- the directory manifest

  lemma MaterializedGrows(fs: FS, fs': FS, prefix: string, line: string)
    requires GrowsDirs(fs, fs') && Materialized(fs, prefix, line)
    ensures Materialized(fs', prefix, line)
  {
    var p := ParsePath(Rewrite(line, prefix)).value;
    forall k | 0 <= k < |p| ensures IsDirAt(fs', p[..k]) {
      assert IsDirAt(fs, p[..k]);
    }
  }

  /** A line whose directory is already there changes nothing. */
  lemma MaterializedSettles(fs: FS, prefix: string, line: string)
    requires ValidFs(fs) && Materialized(fs, prefix, line)
    ensures DirLine(fs, prefix, line) == Some(fs)
  {
    var p := ParsePath(Rewrite(line, prefix)).value;
    assert !Blocked(fs, p) by {
      forall k | 0 < k < |p| ensures IsDirAt(fs, p[..k]) { }
    }
    EnsureDirOutcome(fs, p);
  }

  /**
   * Processing directory lines keeps the tree valid, never reports through
   * stderr, only adds 0777 directories, and (unless a line throws) leaves
   * the directory of every line in place.
   */
  lemma {:induction false} DirLinesGrow(fs: FS, prefix: string, lines: seq<string>)
    requires ValidFs(fs)
    ensures var pr := DirLines(fs, prefix, lines);
      && ValidFs(pr.fs) && !pr.stderr && GrowsDirs(fs, pr.fs)
      && (!pr.thrown ==> forall i :: 0 <= i < |lines| ==> Materialized(pr.fs, prefix, lines[i]))
    decreases |lines|
  {
    if lines != [] {
      var init := lines[..|lines| - 1];
      var pr := DirLines(fs, prefix, init);
      DirLinesGrow(fs, prefix, init);
      if !pr.thrown {
        var last := lines[|lines| - 1];
        match ParsePath(Rewrite(last, prefix))
        case None =>
        case Some(p) =>
          if EnsureDir(pr.fs, p).Some? {
            var fs' := EnsureDir(pr.fs, p).value;
            EnsureDirOutcome(pr.fs, p);
            GrowsDirsChain(fs, pr.fs, fs');
            forall i | 0 <= i < |lines| ensures Materialized(fs', prefix, lines[i]) {
              if i < |lines| - 1 {
                assert lines[i] == init[i];
                MaterializedGrows(pr.fs, fs', prefix, lines[i]);
              }
            }
          }
      }
    }
  }

  /** Lines whose directories are all present change nothing. */
  lemma {:induction false} DirLinesSettled(fs: FS, prefix: string, lines: seq<string>)
    requires ValidFs(fs)
    requires forall i :: 0 <= i < |lines| ==> Materialized(fs, prefix, lines[i])
    ensures DirLines(fs, prefix, lines) == Progress(fs, false, false)
    decreases |lines|
  {
    if lines != [] {
      DirLinesSettled(fs, prefix, lines[..|lines| - 1]);
      MaterializedSettles(fs, prefix, lines[|lines| - 1]);
    }
  }

  /** Processing a directory manifest a second time changes nothing. */
  lemma DirLinesIdempotent(fs: FS, prefix: string, lines: seq<string>)
    requires ValidFs(fs) && !DirLines(fs, prefix, lines).thrown
    ensures var fs' := DirLines(fs, prefix, lines).fs;
      DirLines(fs', prefix, lines) == Progress(fs', false, false)
  {
    DirLinesGrow(fs, prefix, lines);
    DirLinesSettled(DirLines(fs, prefix, lines).fs, prefix, lines);
  }

  // --------------------------------------------------------- the link manifests

  /** Processing a link line keeps the tree valid. */
  lemma LinkLineKeepsValid(fs: FS, locked: set<Path>, prefix: string, line: string)
    requires ValidFs(fs) && LinkLine(fs, locked, prefix, line).Some?
    ensures ValidFs(LinkLine(fs, locked, prefix, line).value.fs)
  {
    var parts := JavaSplit(line, ' ');
    var cleared := fs;
    if ParsePath(parts[1]).Some? {
      var p := ParsePath(parts[1]).value;
      if DeleteNode(fs, locked, p).Some? {
        cleared := fs - {p};
        DeleteNodeKeepsValid(fs, locked, p);
      }
    }
    RunKeepsValid(cleared, locked, SymLink(Tokens(Rewrite(line, prefix))));
  }

  lemma {:induction false} LinkLinesKeepsValid(fs: FS, locked: set<Path>, prefix: string, lines: seq<string>)
    requires ValidFs(fs)
    ensures ValidFs(LinkLines(fs, locked, prefix, lines).fs)
    decreases |lines|
  {
    if lines != [] {
      var pr := LinkLines(fs, locked, prefix, lines[..|lines| - 1]);
      LinkLinesKeepsValid(fs, locked, prefix, lines[..|lines| - 1]);
      if !pr.thrown && LinkLine(pr.fs, locked, prefix, lines[|lines| - 1]).Some? {
        LinkLineKeepsValid(pr.fs, locked, prefix, lines[|lines| - 1]);
      }
    }
  }

  /**
   * A well-formed link line "<a> <b>" whose link name the rewrite leaves
   * alone (always the case under the shipped root) installs the link: a
   * deletable entry already at `b` that File.exists() sees is replaced, and
   * ln reports nothing.
   */
  lemma LinkLineInstalls(fs: FS, locked: set<Path>, prefix: string, a: string, b: string, q: Path)
    requires a != [] && b != [] && Avoids(a, Blanks) && Avoids(b, Blanks) && Avoids(prefix, Blanks)
    requires ParsePath(b) == Some(q) && Rewrite(b, prefix) == b
    requires q != [] && IsDirAt(fs, Parent(q))
    requires q in fs ==> Present(fs, q) && Removable(locked, q) && Children(fs, q) == {}
    ensures LinkLine(fs, locked, prefix, a + [' '] + b) == Some(Effect((fs - {q})[q := Link(Rewrite(a, prefix))], false))
  {
    var line := a + [' '] + b;
    TwoWords(a, b);
    RewriteLinkLine(a, b, prefix);
    assert JavaSplit(line, ' ')[1] == b;
    var cleared := fs - {q};
    assert (match DeleteNode(fs, locked, q) case Some(f) => f case None => fs) == cleared;
    assert Parent(q) != q;
    LinkIntoDir(cleared, locked, Rewrite(a, prefix), b, q);
  }

  /**
   * A dangling link at the link name (its target gone, say after an update
   * renamed a library) is invisible to File.exists(), so it is not deleted;
   * ln then finds the name taken, reports it, and nothing changes.
   */
  lemma LinkLineKeepsDanglingLink(fs: FS, locked: set<Path>, prefix: string, a: string, b: string, q: Path)
    requires a != [] && b != [] && Avoids(a, Blanks) && Avoids(b, Blanks) && Avoids(prefix, Blanks)
    requires ParsePath(b) == Some(q) && Rewrite(b, prefix) == b
    requires q in fs && !Present(fs, q)
    ensures LinkLine(fs, locked, prefix, a + [' '] + b) == Some(Effect(fs, true))
  {
    var line := a + [' '] + b;
    TwoWords(a, b);
    RewriteLinkLine(a, b, prefix);
    assert JavaSplit(line, ' ')[1] == b;
  }

  /** ln -s into an existing directory under a free name makes the link. */
  lemma LinkIntoDir(fs: FS, locked: set<Path>, t: string, b: string, q: Path)
    requires ParsePath(b) == Some(q) && q != [] && q !in fs && IsDirAt(fs, Parent(q))
    ensures Run(fs, locked, SymLink([t, b])) == Effect(fs[q := Link(t)], false)
  {
  }

  /**
   * Under any other install root the file deleted is the one the line names
   * before the rewrite, so a link already at the rewritten name survives and
   * ln reports an error for it: the stale link is never replaced.
   */
  lemma LinkLineKeepsStaleLink(fs: FS, locked: set<Path>, prefix: string, a: string, b: string, q: Path)
    requires a != [] && b != [] && Avoids(a, Blanks) && Avoids(b, Blanks) && Avoids(prefix, Blanks)
    requires ParsePath(Rewrite(b, prefix)) == Some(q) && ParsePath(b) != Some(q) && q in fs
    ensures var e := LinkLine(fs, locked, prefix, a + [' '] + b);
      e.Some? && e.value.stderr && q in e.value.fs && e.value.fs[q] == fs[q]
  {
    TwoWords(a, b);
    RewriteLinkLine(a, b, prefix);
  }

  /** Once a line has thrown, the rest of the directory manifest is not read. */
  lemma {:induction false} DirLinesStops(fs: FS, prefix: string, lines: seq<string>, k: nat)
    requires k <= |lines| && DirLines(fs, prefix, lines[..k]).thrown
    ensures DirLines(fs, prefix, lines) == DirLines(fs, prefix, lines[..k])
    decreases |lines|
  {
    if k < |lines| {
      var init := lines[..|lines| - 1];
      assert init[..k] == lines[..k];
      DirLinesStops(fs, prefix, init, k);
    } else {
      assert lines[..k] == lines;
    }
  }

  /** Once a line has thrown, the rest of the link manifest is not read. */
  lemma {:induction false} LinkLinesStops(fs: FS, locked: set<Path>, prefix: string, lines: seq<string>, k: nat)
    requires k <= |lines| && LinkLines(fs, locked, prefix, lines[..k]).thrown
    ensures LinkLines(fs, locked, prefix, lines) == LinkLines(fs, locked, prefix, lines[..k])
    decreases |lines|
  {
    if k < |lines| {
      var init := lines[..|lines| - 1];
      assert init[..k] == lines[..k];
      LinkLinesStops(fs, locked, prefix, init, k);
    } else {
      assert lines[..k] == lines;
    }
  }

  /** One more line of the directory manifest. */
  lemma DirLinesStep(fs: FS, prefix: string, lines: seq<string>, k: nat)
    requires k < |lines|
    ensures var pr := DirLines(fs, prefix, lines[..k]);
      DirLines(fs, prefix, lines[..k + 1]) ==
        if pr.thrown then pr
        else match DirLine(pr.fs, prefix, lines[k])
          case None => Progress(pr.fs, false, true)
          case Some(fs') => Progress(fs', false, false)
  {
    assert lines[..k + 1][..k] == lines[..k];
  }

  /** One more line of a link manifest. */
  lemma LinkLinesStep(fs: FS, locked: set<Path>, prefix: string, lines: seq<string>, k: nat)
    requires k < |lines|
    requires !LinkLines(fs, locked, prefix, lines[..k]).thrown
    ensures var pr := LinkLines(fs, locked, prefix, lines[..k]);
      var e := LinkLine(pr.fs, locked, prefix, lines[k]);
      LinkLines(fs, locked, prefix, lines[..k + 1]) ==
        if e.None? then Progress(pr.fs, pr.stderr, true) else Progress(e.value.fs, pr.stderr || e.value.stderr, false)
  {
    assert lines[..k + 1][..k] == lines[..k];
  }
}
