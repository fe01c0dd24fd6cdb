/**
 * `renameDocument`: the entry keeps its directory and takes a new name. The
 * host `File.renameTo` moves the entry and everything below it. The provider
 * skips the rename when the target already exists, so nothing is overwritten.
 */
module Renaming {
  import opened Paths
  import opened FileTree
  import opened Naming

  /** `getParentFile()`, with the root standing for its own directory. */
  function ParentOrRoot(p: Path): Path {
    if p == [] then [] else Parent(p)
  }

  /** `new File(file.getParentFile(), displayName)`. */
  function RenameTarget(from: Path, displayName: string): Path {
    Parse(Render(ParentOrRoot(from)) + "/" + displayName)
  }

  /**
   * `File.renameTo` succeeds: the source exists in a writable directory, the
   * target is free, its directory is a writable directory, and the target is
   * not inside the source.
   */
  predicate RenameSucceeds(t: Tree, from: Path, to: Path) {
    from in t && to !in t && to != [] && ParentCanWrite(t, from) &&
    IsDirectory(t, Parent(to)) && CanWrite(t, Parent(to)) && !(from <= to)
  }

  /** The tree after moving `from` and its subtree to `to`. */
  function Moved(t: Tree, from: Path, to: Path): Tree {
    MoveInjective(from, to);
    (map k | k in t && !(from <= k) :: t[k]) +
    (map x | x in t && from <= x :: to + x[|from|..] := t[x])
  }

  /** Distinct entries of the moved subtree land on distinct paths. */
  lemma MoveInjective(from: Path, to: Path)
    ensures forall x1: Path, x2: Path ::
      from <= x1 && from <= x2 && to + x1[|from|..] == to + x2[|from|..] ==> x1 == x2
  {
    forall x1: Path, x2: Path | from <= x1 && from <= x2 && to + x1[|from|..] == to + x2[|from|..]
      ensures x1 == x2
    {
      assert x1[|from|..] == (to + x1[|from|..])[|to|..];
      assert x2[|from|..] == (to + x2[|from|..])[|to|..];
      assert x1 == x1[..|from|] + x1[|from|..];
      assert x2 == x2[..|from|] + x2[|from|..];
    }
  }

  /** The tree after `renameDocument`: moved when the target is free and the move succeeds. */
  ghost function AfterRename(t: Tree, from: Path, displayName: string): Tree {
    var to := RenameTarget(from, displayName);
    if to !in t && RenameSucceeds(t, from, to) then Moved(t, from, to) else t
  }

  /** The id `renameDocument` returns: always the target's, whatever happened. */
  function RenamedId(from: Path, displayName: string): string {
    Render(RenameTarget(from, displayName))
  }

  /** The id the call evidently means to return: the target's after a rename, the original otherwise. */
  function IntendedRenamedId(t: Tree, from: Path, displayName: string): string {
    var to := RenameTarget(from, displayName);
    if to !in t && RenameSucceeds(t, from, to) then Render(to) else Render(from)
  }

  /** A single-component name keeps the entry in its own directory. */
  lemma RenameTargetSibling(from: Path, name: Name)
    requires from != []
    ensures RenameTarget(from, name) == Parent(from) + [name]
  {
    CandidateInParent(Parent(from), name, 1);
  }

  /** An entry's ancestors are entries. */
  lemma AncestorExists(t: Tree, q: Path, k: Path)
    requires WellFormed(t) && k in t && q <= k
    ensures q in t
  {
    if |q| < |k| {
      AncestorIsDirectory(t, k, |q|);
      assert k[..|q|] == q;
    } else {
      assert q == k;
    }
  }

  /** An entry outside both subtrees keeps its place and its kind. */
  lemma MovedKeeps(t: Tree, from: Path, to: Path, k: Path)
    requires k in t && !(from <= k) && !(to <= k)
    ensures k in Moved(t, from, to) && Moved(t, from, to)[k] == t[k]
  {
    MoveInjective(from, to);
    var shifted := map x | x in t && from <= x :: to + x[|from|..] := t[x];
    assert k !in shifted;
  }

  /** An entry of the moved subtree reappears below `to`. */
  lemma MovedShifts(t: Tree, from: Path, to: Path, x: Path)
    requires x in t && from <= x
    ensures to + x[|from|..] in Moved(t, from, to) && Moved(t, from, to)[to + x[|from|..]] == t[x]
  {
    MoveInjective(from, to);
  }

  /** Every entry after the move is a kept entry or a shifted one. */
  lemma MovedOrigin(t: Tree, from: Path, to: Path, k: Path)
    requires k in Moved(t, from, to)
    ensures (k in t && !(from <= k)) || (to <= k && from + k[|to|..] in t)
  {
    MoveInjective(from, to);
    if !(k in t && !(from <= k)) {
      var x :| x in t && from <= x && k == to + x[|from|..];
      assert k[|to|..] == x[|from|..];
      assert x == from + x[|from|..];
    }
  }

  /** The source path is vacated. */
  lemma MovedVacates(t: Tree, from: Path, to: Path)
    requires WellFormed(t) && RenameSucceeds(t, from, to)
    ensures from !in Moved(t, from, to)
  {
    if from in Moved(t, from, to) {
      MovedOrigin(t, from, to, from);
      AncestorExists(t, to, from);
    }
  }

  /**
   * The moved entries: the source is gone, the target holds it, entries of the
   * old subtree reappear below the target, and every other entry is untouched.
   */
  lemma MovedContents(t: Tree, from: Path, to: Path)
    requires WellFormed(t) && RenameSucceeds(t, from, to)
    ensures from !in Moved(t, from, to)
    ensures to in Moved(t, from, to) && Moved(t, from, to)[to] == t[from]
    ensures forall x :: x in t && from <= x ==>
      to + x[|from|..] in Moved(t, from, to) && Moved(t, from, to)[to + x[|from|..]] == t[x]
    ensures forall k :: k in t && !(from <= k) ==> k in Moved(t, from, to) && Moved(t, from, to)[k] == t[k]
  {
    MovedVacates(t, from, to);
    forall x | x in t && from <= x
      ensures to + x[|from|..] in Moved(t, from, to) && Moved(t, from, to)[to + x[|from|..]] == t[x]
    {
      MovedShifts(t, from, to, x);
    }
    assert to + from[|from|..] == to;
    MovedShifts(t, from, to, from);
    forall k | k in t && !(from <= k)
      ensures k in Moved(t, from, to) && Moved(t, from, to)[k] == t[k]
    {
      if to <= k {
        AncestorExists(t, to, k);
      }
      MovedKeeps(t, from, to, k);
    }
  }

  /** Moving keeps every entry's directory in place. */
  lemma MovedWellFormed(t: Tree, from: Path, to: Path)
    requires WellFormed(t) && RenameSucceeds(t, from, to)
    ensures WellFormed(Moved(t, from, to))
  {
    forall k | k in Moved(t, from, to) && k != []
      ensures Parent(k) in Moved(t, from, to) && Moved(t, from, to)[Parent(k)].kind == Dir
    {
      MovedParent(t, from, to, k);
    }
  }

  lemma MovedParent(t: Tree, from: Path, to: Path, k: Path)
    requires WellFormed(t) && RenameSucceeds(t, from, to)
    requires k in Moved(t, from, to) && k != []
    ensures Parent(k) in Moved(t, from, to) && Moved(t, from, to)[Parent(k)].kind == Dir
  {
    MovedOrigin(t, from, to, k);
    if to <= k && from + k[|to|..] in t {
      MovedParentShifted(t, from, to, k);
    } else {
      MovedParentKept(t, from, to, k);
    }
  }

  /** The directory of a shifted entry is the target's directory or a shifted directory. */
  lemma MovedParentShifted(t: Tree, from: Path, to: Path, k: Path)
    requires WellFormed(t) && RenameSucceeds(t, from, to)
    requires to <= k && from + k[|to|..] in t
    ensures Parent(k) in Moved(t, from, to) && Moved(t, from, to)[Parent(k)].kind == Dir
  {
    var x := from + k[|to|..];
    if k == to {
      assert !(to <= Parent(to));
      MovedKeeps(t, from, to, Parent(to));
    } else {
      assert Parent(x) == from + Parent(k)[|to|..];
      assert Parent(k) == to + Parent(x)[|from|..];
      MovedShifts(t, from, to, Parent(x));
    }
  }

  /** The directory of a kept entry is kept too. */
  lemma MovedParentKept(t: Tree, from: Path, to: Path, k: Path)
    requires WellFormed(t) && RenameSucceeds(t, from, to)
    requires k in t && !(from <= k) && k != []
    ensures Parent(k) in Moved(t, from, to) && Moved(t, from, to)[Parent(k)].kind == Dir
  {
    assert Parent(k) <= k;
    if to <= Parent(k) {
      AncestorExists(t, to, k);
    }
    MovedKeeps(t, from, to, Parent(k));
  }

  /** The rename does not touch anything when the target already exists. */
  lemma ExistingTargetUntouched(t: Tree, from: Path, displayName: string)
    requires RenameTarget(from, displayName) in t
    ensures AfterRename(t, from, displayName) == t
  {
  }

  /**
   * As written, the returned id can name another document: renaming "/d/a" to
   * "b" when "/d/b" exists leaves both in place and still returns "/d/b".
   */
  lemma RenamedIdOnCollision()
    ensures var t: Tree := map[[] := Node(Dir, true), ["d"] := Node(Dir, true),
                               ["d", "a"] := Node(File, true), ["d", "b"] := Node(Dir, true)];
      var id := RenamedId(["d", "a"], "b");
      AfterRename(t, ["d", "a"], "b") == t && Parse(id) in t && t[Parse(id)] != t[["d", "a"]]
  {
    RenameTargetSibling(["d", "a"], "b");
    assert Parent(["d", "a"]) + ["b"] == ["d", "b"];
    ParseRender(["d", "b"]);
  }

  /** The intended id always names the renamed document in the tree after the call. */
  lemma IntendedRenamedIdNamesDocument(t: Tree, from: Path, displayName: string)
    requires WellFormed(t) && from in t
    ensures var after := AfterRename(t, from, displayName);
      var id := IntendedRenamedId(t, from, displayName);
      Parse(id) in after && after[Parse(id)] == t[from]
  {
    var to := RenameTarget(from, displayName);
    if to !in t && RenameSucceeds(t, from, to) {
      MovedContents(t, from, to);
      ParseRender(to);
    } else {
      ParseRender(from);
    }
  }
}
