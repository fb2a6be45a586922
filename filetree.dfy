/**
 * The device filesystem as the installer sees it through java.io.File: a map
 * from absolute paths (sequences of non-empty segments) to nodes. Symbolic
 * links are nodes in their own right; `Exists` looks at the entry itself, and
 * `Present` follows links as File.exists() does.
 */
module FileTree {
  import opened Options
  import opened Text

  type Path = seq<string>

  datatype Node =
    | Dir(mode: int)
    | File(mode: int, lines: seq<string>)  // a text file, as the lines a reader delivers
    | Link(target: string)

  type FS = map<Path, Node>

  /** Permission modes, as integers (0777, and the modes java.io.File leaves
      under the process umask). */
  const ModeAll := 511
  const DefaultDirMode := 448
  const DefaultFileMode := 384

  predicate WellFormed(p: Path) {
    forall i :: 0 <= i < |p| ==> p[i] != "" && '/' !in p[i]
  }

  /** The segments of a path string: repeated and trailing separators vanish,
      as java.io.File normalises them. */
  function Segments(s: string): (p: Path)
    ensures WellFormed(p)
  {
    NonEmpty(Fields(s, {'/'}))
  }

  /** new File(s) for an absolute `s`; a relative name yields None. */
  function ParsePath(s: string): (r: Option<Path>)
    ensures r.Some? <==> s != [] && s[0] == '/'
    ensures r.Some? ==> WellFormed(r.value)
  {
    if s != [] && s[0] == '/' then Some(Segments(s[1..])) else None
  }

  function JoinSlash(p: Path): string {
    if p == [] then "" else "/" + p[0] + JoinSlash(p[1..])
  }

  /** File.getAbsolutePath() of a path. */
  function Render(p: Path): string {
    if p == [] then "/" else JoinSlash(p)
  }

  function Parent(p: Path): Path
    requires p != []
  {
    p[..|p| - 1]
  }

  predicate IsDirAt(fs: FS, p: Path) {
    p in fs && fs[p].Dir?
  }

  /** A filesystem is a tree: the root is a directory and every other node
      sits in a directory. */
  ghost predicate ValidFs(fs: FS) {
    && IsDirAt(fs, [])
    && (forall p :: p in fs ==> WellFormed(p))
    && (forall p :: p in fs && p != [] ==> IsDirAt(fs, Parent(p)))
  }

  predicate IsPrefix(q: Path, r: Path) {
    |q| <= |r| && r[..|q|] == q
  }

  /** The node at `q` and every node below it. */
  function Subtree(fs: FS, q: Path): set<Path> {
    set r | r in fs && IsPrefix(q, r)
  }

  /** What File.list() yields for the directory `p`. */
  function Children(fs: FS, p: Path): set<Path> {
    set c | c in fs && c != [] && Parent(c) == p
  }

  /** Whether an entry is at the path a string names (links not followed). */
  predicate Exists(fs: FS, s: string) {
    match ParsePath(s)
    case Some(p) => p in fs
    case None => false
  }

  /** The number of links path resolution follows before it gives up. */
  const MaxLinkHops := 40

  /** Where the link at `p` with target `t` leads: an absolute target from
      the root, a relative one from the link's directory. */
  function LinkTarget(p: Path, t: string): Path {
    if t != [] && t[0] == '/' then Segments(t[1..])
    else (if p == [] then [] else Parent(p)) + Segments(t)
  }

  /** The entry `p` leads to once links are followed, at most `hops` of them;
      None for a dangling link, a loop, or nothing at `p`. */
  function Resolve(fs: FS, p: Path, hops: nat): (r: Option<Path>)
    ensures r.Some? ==> r.value in fs && !fs[r.value].Link?
    ensures p in fs && !fs[p].Link? ==> r == Some(p)
    decreases hops
  {
    if p !in fs then None
    else match fs[p]
      case Link(t) => if hops == 0 then None else Resolve(fs, LinkTarget(p, t), hops - 1)
      case _ => Some(p)
  }

  /** File.exists() on `p`: something is there once links are followed. */
  predicate Present(fs: FS, p: Path) {
    Resolve(fs, p, MaxLinkHops).Some?
  }

  /** Every entry `fs` loses on the way to `fs'` was one the system lets the
      installer remove: the root and the locked entries survive. */
  predicate KeepsLocked(fs: FS, fs': FS, locked: set<Path>) {
    forall x :: x in fs && x !in fs' ==> Removable(locked, x)
  }

  /** Whether the system lets the installer remove the entry at `p`: never the
      root, never an entry in `locked` (permissions, mount points). */
  predicate Removable(locked: set<Path>, p: Path) {
    p != [] && p !in locked
  }

  /** Every node at or below `p` may be removed. */
  predicate Clear(fs: FS, locked: set<Path>, p: Path) {
    forall r :: r in fs && IsPrefix(p, r) ==> Removable(locked, r)
  }

  /** File.mkdir(): creates `p` in an existing directory, or fails. */
  function MakeDir(fs: FS, p: Path): (r: Option<FS>)
    ensures r.Some? <==> p != [] && p !in fs && IsDirAt(fs, Parent(p))
    ensures r.Some? ==> r.value == fs[p := Dir(DefaultDirMode)]
  {
    if p != [] && p !in fs && IsDirAt(fs, Parent(p)) then Some(fs[p := Dir(DefaultDirMode)]) else None
  }

  /** File.createNewFile(): creates an empty file at an absent `p` inside an
      existing directory; otherwise (present, or an I/O error) nothing changes. */
  function CreateNewFile(fs: FS, p: Path): (r: FS)
    ensures r == fs || (p !in fs && p != [] && IsDirAt(fs, Parent(p)) && r == fs[p := File(DefaultFileMode, [])])
    ensures p != [] && p !in fs && IsDirAt(fs, Parent(p)) ==> p in r
  {
    if p != [] && p !in fs && IsDirAt(fs, Parent(p)) then fs[p := File(DefaultFileMode, [])] else fs
  }

  /** File.delete(): removes a file, a link or an empty directory. */
  function DeleteNode(fs: FS, locked: set<Path>, p: Path): (r: Option<FS>)
    ensures r.Some? <==> p in fs && Removable(locked, p) && Children(fs, p) == {}
    ensures r.Some? ==> r.value == fs - {p}
  {
    if p in fs && Removable(locked, p) && Children(fs, p) == {} then Some(fs - {p}) else None
  }

  // ---------------------------------------------------------------- lemmas

  lemma {:induction false} SegmentsJoin(p: Path)
    requires WellFormed(p) && p != []
    ensures Segments(p[0] + JoinSlash(p[1..])) == p
    decreases |p|
  {
    var rest := p[1..];
    assert p[0] != "" && '/' !in p[0];
    if rest == [] {
      SegmentsOfName(p[0]);
      assert p[0] + JoinSlash(rest) == p[0];
    } else {
      var tail := rest[0] + JoinSlash(rest[1..]);
      assert p[0] + JoinSlash(rest) == p[0] + ['/'] + tail;
      SegmentsPrepend(p[0], tail);
      SegmentsJoin(rest);
    }
  }

  /** A plain name is a single segment. */
  lemma SegmentsOfName(a: string)
    requires a != "" && '/' !in a
    ensures Segments(a) == [a]
  {
    FieldsOfPlain(a, {'/'});
    assert NonEmpty([a]) == [a] + NonEmpty([]);
  }

  /** A plain name followed by "/" contributes exactly one segment. */
  lemma SegmentsPrepend(a: string, r: string)
    requires a != "" && '/' !in a
    ensures Segments(a + ['/'] + r) == [a] + Segments(r)
  {
    FieldsAround(a, '/', r, {'/'});
    NonEmptyConcat(Fields(a, {'/'}), Fields(r, {'/'}));
    SegmentsOfName(a);
  }

  /** Parsing the absolute path name of a path gives the path back. */
  lemma ParseRender(p: Path)
    requires WellFormed(p)
    ensures ParsePath(Render(p)) == Some(p)
  {
    if p != [] {
      assert Render(p)[1..] == p[0] + JoinSlash(p[1..]);
      SegmentsJoin(p);
    }
  }

  /** Appending "/name" for a plain name adds exactly one segment. */
  lemma SegmentsAppend(a: string, b: string)
    requires b != [] && '/' !in b
    ensures Segments(a + "/" + b) == Segments(a) + [b]
  {
    assert a + "/" + b == a + ['/'] + b;
    FieldsAround(a, '/', b, {'/'});
    FieldsOfPlain(b, {'/'});
    NonEmptyConcat(Fields(a, {'/'}), Fields(b, {'/'}));
  }

  /** In a tree, every proper prefix of a node is a directory. */
  lemma {:induction false} AncestorIsDir(fs: FS, r: Path, k: nat)
    requires ValidFs(fs) && r in fs && k < |r|
    ensures IsDirAt(fs, r[..k])
    decreases |r|
  {
    if k < |r| - 1 {
      AncestorIsDir(fs, Parent(r), k);
      assert Parent(r)[..k] == r[..k];
    }
  }

  /** Removing a set of nodes keeps the tree valid when the root stays and no
      remaining node loses its parent. */
  lemma RemoveKeepsValid(fs: FS, gone: set<Path>)
    requires ValidFs(fs) && [] !in gone
    requires forall x :: x in fs && x !in gone && x != [] ==> Parent(x) !in gone
    ensures ValidFs(fs - gone)
  {
  }

  /** Deleting a node that has no children keeps the tree valid. */
  lemma DeleteNodeKeepsValid(fs: FS, locked: set<Path>, p: Path)
    requires ValidFs(fs) && DeleteNode(fs, locked, p).Some?
    ensures ValidFs(DeleteNode(fs, locked, p).value)
  {
    forall x | x in fs && x !in {p} && x != [] ensures Parent(x) !in {p} {
      assert x !in Children(fs, p);
    }
    RemoveKeepsValid(fs, {p});
  }

  /** Adding a well-formed node inside an existing directory keeps the tree valid. */
  lemma AddKeepsValid(fs: FS, p: Path, n: Node)
    requires ValidFs(fs) && WellFormed(p) && p != [] && IsDirAt(fs, Parent(p))
    requires p in fs ==> fs[p].Dir? == n.Dir? || Children(fs, p) == {}
    ensures ValidFs(fs[p := n])
  {
    var fs' := fs[p := n];
    forall x | x in fs' && x != [] ensures IsDirAt(fs', Parent(x)) {
      if x != p && Parent(x) == p {
        assert x in Children(fs, p);
      }
    }
  }

  /** Below a node, every deeper node passes through one of its children. */
  lemma DescendantChild(fs: FS, p: Path, r: Path)
    requires ValidFs(fs) && r in fs && IsPrefix(p, r) && r != p
    ensures r[..|p| + 1] in Children(fs, p)
  {
    var c := r[..|p| + 1];
    if |p| + 1 < |r| {
      AncestorIsDir(fs, r, |p| + 1);
    } else {
      assert c == r;
    }
    assert Parent(c) == p;
  }
}
