/**
 * The three shell commands the installer runs through Runtime.exec:
 * "chmod 0777 <path>", "ln -s <target> <link>" and "rm -rf <path>". Each is
 * modelled by its effect on the filesystem and by whether it writes to its
 * error stream, which is all the installer observes of a command.
 */
module Shell {
  import opened Options
  import opened Text
  import opened FileTree

  datatype Command =
    | Chmod(path: string)             // chmod 0777 <path>
    | SymLink(operands: seq<string>)  // ln -s <operands...>
    | RemoveTree(path: string)        // rm -rf <path>

  /** The filesystem after a command, and whether it printed to stderr. */
  datatype Effect = Effect(fs: FS, stderr: bool)

  function WithModeAll(n: Node): (r: Node)
    ensures r.Dir? == n.Dir?
  {
    match n
    case Dir(_) => Dir(ModeAll)
    case File(_, ls) => File(ModeAll, ls)
    case Link(t) => Link(t)
  }

  /** The nodes `rm -rf q` removes: those at or below `q` with nothing
      unremovable at or below them. */
  function Swept(fs: FS, locked: set<Path>, q: Path): set<Path> {
    set r | r in fs && IsPrefix(q, r) && Clear(fs, locked, r)
  }

  /**
   * One command. chmod reports a missing path; ln -s behaves as the
   * symlink system call on its first two operands (a missing operand, a
   * taken name or a missing directory is reported); rm -rf removes what it
   * can, stays silent about a missing path and reports what it could not
   * remove. Relative names are not resolved.
   */
  function Run(fs: FS, locked: set<Path>, cmd: Command): (e: Effect)
    ensures e.fs.Keys <= fs.Keys + (if cmd.SymLink? && |cmd.operands| >= 2 && ParsePath(cmd.operands[1]).Some?
                                   then {ParsePath(cmd.operands[1]).value} else {})
    ensures KeepsLocked(fs, e.fs, locked)
    ensures !cmd.RemoveTree? ==> forall x :: x in fs ==> x in e.fs
  {
    match cmd
    case Chmod(s) =>
      (match ParsePath(s)
       case None => Effect(fs, true)
       case Some(p) => if p in fs then Effect(fs[p := WithModeAll(fs[p])], false) else Effect(fs, true))
    case SymLink(ops) =>
      if |ops| < 2 then Effect(fs, true)
      else
        (match ParsePath(ops[1])
         case None => Effect(fs, true)
         case Some(q) =>
           if q != [] && q !in fs && IsDirAt(fs, Parent(q)) then Effect(fs[q := Link(ops[0])], false)
           else Effect(fs, true))
    case RemoveTree(s) =>
      (match ParsePath(s)
       case None => Effect(fs, false)
       case Some(q) =>
         var gone := Swept(fs, locked, q);
         Effect(fs - gone, Subtree(fs, q) - gone != {}))
  }

  // ---------------------------------------------------------------- lemmas

  lemma PrefixChain(a: Path, b: Path, c: Path)
    requires IsPrefix(a, b) && IsPrefix(b, c)
    ensures IsPrefix(a, c)
  {
    assert c[..|a|] == c[..|b|][..|a|];
  }

  /** Everything below a clear node is clear. */
  lemma ClearBelow(fs: FS, locked: set<Path>, p: Path, r: Path)
    requires Clear(fs, locked, p) && IsPrefix(p, r)
    ensures Clear(fs, locked, r)
  {
    forall s | s in fs && IsPrefix(r, s) ensures Removable(locked, s) {
      PrefixChain(p, r, s);
    }
  }

  /** Every command keeps the filesystem a tree. */
  lemma RunKeepsValid(fs: FS, locked: set<Path>, cmd: Command)
    requires ValidFs(fs)
    ensures ValidFs(Run(fs, locked, cmd).fs)
  {
    match cmd
    case Chmod(s) =>
      if ParsePath(s).Some? && ParsePath(s).value in fs {
        var p := ParsePath(s).value;
        if p == [] {
          assert ValidFs(fs[p := WithModeAll(fs[p])]);
        } else {
          AddKeepsValid(fs, p, WithModeAll(fs[p]));
        }
      }
    case SymLink(ops) =>
      if |ops| >= 2 && ParsePath(ops[1]).Some? {
        var q := ParsePath(ops[1]).value;
        if q != [] && q !in fs && IsDirAt(fs, Parent(q)) {
          AddKeepsValid(fs, q, Link(ops[0]));
        }
      }
    case RemoveTree(s) =>
      if ParsePath(s).Some? {
        var q := ParsePath(s).value;
        var gone := Swept(fs, locked, q);
        forall x | x in fs && x !in gone && x != [] ensures Parent(x) !in gone {
          if Parent(x) in gone {
            assert IsPrefix(Parent(x), x);
            ClearBelow(fs, locked, Parent(x), x);
            PrefixChain(q, Parent(x), x);
          }
        }
        RemoveKeepsValid(fs, gone);
      }
  }

  /** chmod 0777 on a directory just made opens it up and reports nothing. */
  lemma ChmodFreshDir(fs: FS, locked: set<Path>, p: Path)
    requires WellFormed(p) && p in fs && fs[p].Dir?
    ensures Run(fs, locked, Chmod(Render(p))) == Effect(fs[p := Dir(ModeAll)], false)
  {
    ParseRender(p);
  }

  /** Under a tree, a node below `q` means `q` itself exists. */
  lemma AbsentHasNoSubtree(fs: FS, q: Path)
    requires ValidFs(fs) && q !in fs
    ensures Subtree(fs, q) == {}
  {
    forall r | r in fs ensures !IsPrefix(q, r) {
      if IsPrefix(q, r) {
        assert r != q;
        AncestorIsDir(fs, r, |q|);
      }
    }
  }

  /**
   * rm -rf on an absolute path: nothing outside the subtree changes; the
   * command reports an error exactly when the path exists and something at or
   * below it cannot be removed; when nothing there is protected, the whole
   * subtree is gone.
   */
  lemma RemoveTreeOutcome(fs: FS, locked: set<Path>, s: string, q: Path)
    requires ValidFs(fs) && ParsePath(s) == Some(q)
    ensures var e := Run(fs, locked, RemoveTree(s));
      && (forall x :: x in fs && !IsPrefix(q, x) ==> x in e.fs && e.fs[x] == fs[x])
      && (e.stderr <==> q in fs && !Clear(fs, locked, q))
      && (Clear(fs, locked, q) ==> Subtree(e.fs, q) == {})
  {
    var gone := Swept(fs, locked, q);
    if q !in fs {
      AbsentHasNoSubtree(fs, q);
    } else if Clear(fs, locked, q) {
      forall r | r in Subtree(fs, q) ensures r in gone {
        ClearBelow(fs, locked, q, r);
      }
    } else {
      assert IsPrefix(q, q);
      assert q in Subtree(fs, q) - gone;
    }
  }
}
