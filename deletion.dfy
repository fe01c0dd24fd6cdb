/**
 * What `deleteRecursive` leaves behind. `File.delete()` removes an entry when its
 * directory is writable and, for a directory, when it is already empty.
 * Children go first, so an entry disappears exactly when every entry of its
 * subtree sits in a writable directory (`Removable`).
 */
module TreeDeletion {
  import opened Paths
  import opened FileTree

  /** `File.delete()` on `p` succeeds. */
  predicate DeleteSucceeds(t: Tree, p: Path) {
    p in t && ParentCanWrite(t, p) && Children(t, p) == {}
  }

  /** Deleting bottom-up removes `k`: every entry at or below `k` has a writable directory. */
  ghost predicate Removable(t: Tree, k: Path) {
    forall r :: r in t && k <= r ==> ParentCanWrite(t, r)
  }

  /** The tree after `deleteRecursive(p)`: the removable entries at or below `p` are gone. */
  ghost function Prune(t: Tree, p: Path): Tree {
    map k | k in t && !(p <= k && Removable(t, k)) :: t[k]
  }

  /** `k` lies strictly below `p`, inside one of the children listed in `kids`. */
  predicate Below(p: Path, kids: seq<Path>, k: Path) {
    |k| > |p| && p <= k && k[..|p| + 1] in kids
  }

  /** The tree after the children in `kids` have been deleted recursively. */
  ghost function PruneWhere(t: Tree, p: Path, kids: seq<Path>): Tree {
    map k | k in t && !(Below(p, kids, k) && Removable(t, k)) :: t[k]
  }

  predicate Distinct(s: seq<Path>) {
    forall i, j :: 0 <= i < j < |s| ==> s[i] != s[j]
  }

  /** No entry is attempted before one of its descendants. */
  predicate PostOrder(s: seq<Path>) {
    forall i, j :: 0 <= i < j < |s| ==> !(s[i] < s[j])
  }

  /** Removing an entry with no children keeps every parent in place. */
  lemma DeleteChildless(t: Tree, p: Path)
    requires WellFormed(t) && p in t && Children(t, p) == {}
    ensures WellFormed(t - {p})
  {
  }

  /** Every entry strictly below `p` lies inside one of `p`'s children. */
  lemma EnclosingChild(t: Tree, p: Path, r: Path)
    requires WellFormed(t) && r in t && p < r
    ensures r[..|p| + 1] in Children(t, p) && r[..|p| + 1] <= r
  {
    var c := r[..|p| + 1];
    if |r| > |p| + 1 {
      AncestorIsDirectory(t, r, |p| + 1);
    } else {
      assert c == r;
    }
    assert c[..|p|] == r[..|p|] == p;
    assert c in t.Keys && |c| == |p| + 1 && p < c;
  }

  /** Whether an entry below the child `c` is removable depends only on `c`'s subtree and `p`. */
  lemma RemovableFrame(t0: Tree, ti: Tree, p: Path, c: Path, k: Path)
    requires |c| == |p| + 1 && p < c && c <= k
    requires forall r :: c <= r ==> (r in ti <==> r in t0)
    requires forall r :: r in ti ==> r in t0 && ti[r] == t0[r]
    requires p in ti <==> p in t0
    ensures Removable(ti, k) <==> Removable(t0, k)
  {
    forall r | k <= r && r != []
      ensures CanWrite(ti, Parent(r)) <==> CanWrite(t0, Parent(r))
    {
      if |r| == |c| {
        assert Parent(r) == p;
      } else {
        assert c <= Parent(r);
      }
    }
  }

  /** Deleting one more child recursively extends the pruned region by that child's subtree. */
  lemma PruneStep(t0: Tree, p: Path, done: seq<Path>, c: Path)
    requires |c| == |p| + 1 && p < c && c !in done
    ensures Prune(PruneWhere(t0, p, done), c) == PruneWhere(t0, p, done + [c])
  {
    var ti := PruneWhere(t0, p, done);
    forall r | c <= r
      ensures r in ti <==> r in t0
    {
      assert r[..|p| + 1] == c;
    }
    forall k | c <= k
      ensures Removable(ti, k) <==> Removable(t0, k)
    {
      RemovableFrame(t0, ti, p, c, k);
    }
    forall k
      ensures Below(p, done + [c], k) <==> Below(p, done, k) || c <= k
    {
      if |k| > |p| && p <= k && k[..|p| + 1] == c {
        assert c <= k;
      }
    }
  }

  /** A directory is removable exactly when it is deletable itself and so is each child. */
  lemma RemovableSplit(t: Tree, p: Path, kids: seq<Path>)
    requires WellFormed(t) && p in t
    requires forall c :: c in kids <==> c in Children(t, p)
    ensures Removable(t, p) <==> ParentCanWrite(t, p) && forall c :: c in kids ==> Removable(t, c)
  {
    if ParentCanWrite(t, p) && forall c :: c in kids ==> Removable(t, c) {
      forall r | r in t && p <= r
        ensures ParentCanWrite(t, r)
      {
        if r != p {
          EnclosingChild(t, p, r);
        }
      }
    }
  }

  /** Every entry strictly below `p` lies below one of the listed children. */
  lemma AllBelow(t0: Tree, p: Path, kids: seq<Path>)
    requires WellFormed(t0)
    requires forall c :: c in kids <==> c in Children(t0, p)
    ensures forall k :: k in t0 && p < k ==> Below(p, kids, k)
  {
    forall k | k in t0 && p < k
      ensures Below(p, kids, k)
    {
      EnclosingChild(t0, p, k);
    }
  }

  /** Once the children are done, deleting `p` succeeds exactly when `p` is removable. */
  lemma FinishSucceeds(t0: Tree, p: Path, kids: seq<Path>)
    requires WellFormed(t0) && p in t0
    requires forall c :: c in kids <==> c in Children(t0, p)
    ensures DeleteSucceeds(PruneWhere(t0, p, kids), p) == Removable(t0, p)
  {
    var t := PruneWhere(t0, p, kids);
    assert ParentCanWrite(t, p) <==> ParentCanWrite(t0, p) by {
      if p != [] {
        assert !Below(p, kids, Parent(p));
      }
    }
    assert Children(t, p) == {} <==> forall c :: c in kids ==> Removable(t0, c) by {
      if Children(t, p) == {} {
        forall c | c in kids
          ensures Removable(t0, c)
        {
          assert c !in Children(t, p);
          assert c[..|p| + 1] == c;
        }
      } else {
        var c :| c in Children(t, p);
        assert c[..|p| + 1] == c;
      }
    }
    RemovableSplit(t0, p, kids);
  }

  lemma FinishPruneAt(t0: Tree, p: Path, kids: seq<Path>, k: Path)
    requires WellFormed(t0) && p in t0
    requires forall c :: c in kids <==> c in Children(t0, p)
    ensures var t := PruneWhere(t0, p, kids);
      k in (if Removable(t0, p) then t - {p} else t) <==> k in Prune(t0, p)
  {
    if k in t0 && p < k {
      EnclosingChild(t0, p, k);
      assert Below(p, kids, k);
    } else if k in t0 && k != p {
      assert !(p <= k);
    }
  }

  /** After all children, deleting `p` itself completes `Prune`. */
  lemma FinishPrune(t0: Tree, p: Path, kids: seq<Path>)
    requires WellFormed(t0) && p in t0
    requires forall c :: c in kids <==> c in Children(t0, p)
    ensures var t := PruneWhere(t0, p, kids);
      (if Removable(t0, p) then t - {p} else t) == Prune(t0, p)
  {
    var t := PruneWhere(t0, p, kids);
    var after := if Removable(t0, p) then t - {p} else t;
    var pruned := Prune(t0, p);
    forall k
      ensures k in after <==> k in pruned
    {
      FinishPruneAt(t0, p, kids, k);
    }
    assert after.Keys == pruned.Keys;
  }

  /** Attempts in one child's subtree, appended to those of earlier children. */
  lemma AttemptsStep(t0: Tree, p: Path, done: seq<Path>, c: Path, attempts: seq<Path>, a: seq<Path>)
    requires |c| == |p| + 1 && p < c && c !in done
    requires forall q :: q in attempts <==> q in t0 && Below(p, done, q)
    requires Distinct(attempts) && PostOrder(attempts)
    requires forall q :: q in a <==> q in t0 && c <= q
    requires Distinct(a) && PostOrder(a)
    ensures forall q :: q in attempts + a <==> q in t0 && Below(p, done + [c], q)
    ensures Distinct(attempts + a) && PostOrder(attempts + a)
  {
    var s := attempts + a;
    forall q
      ensures Below(p, done + [c], q) <==> Below(p, done, q) || c <= q
    {
      if |q| > |p| && p <= q && q[..|p| + 1] == c {
        assert c <= q;
      }
    }
    forall i, j | 0 <= i < |attempts| <= j < |s|
      ensures s[i] != s[j] && !(s[i] < s[j])
    {
      assert s[i] == attempts[i] && s[j] == a[j - |attempts|];
      assert attempts[i] in attempts && a[j - |attempts|] in a;
      assert s[j][..|p| + 1] == c;
      assert s[i][..|p| + 1] != c;
    }
    forall i, j | 0 <= i < j < |s|
      ensures s[i] != s[j] && !(s[i] < s[j])
    {
      if j < |attempts| {
        assert s[i] == attempts[i] && s[j] == attempts[j];
      } else if i >= |attempts| {
        assert s[i] == a[i - |attempts|] && s[j] == a[j - |attempts|];
      }
    }
  }

  /** The last attempt, on `p` itself, closes the subtree. */
  lemma AttemptsFinish(t0: Tree, p: Path, kids: seq<Path>, attempts: seq<Path>)
    requires WellFormed(t0) && p in t0
    requires forall c :: c in kids <==> c in Children(t0, p)
    requires forall q :: q in attempts <==> q in t0 && Below(p, kids, q)
    requires Distinct(attempts) && PostOrder(attempts)
    ensures forall q :: q in attempts + [p] <==> q in Subtree(t0, p)
    ensures Distinct(attempts + [p]) && PostOrder(attempts + [p])
  {
    AllBelow(t0, p, kids);
    forall q
      ensures q in attempts + [p] <==> q in Subtree(t0, p)
    {
      if q in Subtree(t0, p) && q != p {
        assert p < q;
      }
    }
    var s := attempts + [p];
    forall i | 0 <= i < |attempts|
      ensures s[i] != p && !(s[i] < p)
    {
      assert s[i] == attempts[i] && attempts[i] in attempts;
    }
  }

  /** A child's subtree is smaller than its parent's. */
  lemma ChildSubtreeSmaller(t0: Tree, ti: Tree, p: Path, c: Path)
    requires p in t0 && p < c
    requires forall r :: c <= r ==> (r in ti ==> r in t0)
    ensures |Subtree(ti, c)| < |Subtree(t0, p)|
  {
    assert Subtree(ti, c) <= Subtree(t0, p) - {p};
    SubsetCard(Subtree(ti, c), Subtree(t0, p) - {p});
  }

  lemma {:induction false} SubsetCard(a: set<Path>, b: set<Path>)
    requires a <= b
    ensures |a| <= |b|
    decreases |b|
  {
    if a != {} {
      var x :| x in a;
      SubsetCard(a - {x}, b - {x});
    }
  }

  /** Where every directory involved is writable, nothing at or below `p` survives. */
  lemma PruneAllWritable(t: Tree, p: Path)
    requires forall r :: r in t && p <= r ==> ParentCanWrite(t, r)
    ensures forall k :: k in Prune(t, p) <==> k in t && !(p <= k)
  {
  }

  /** An entry in a read-only directory survives together with all its ancestors up to `p`. */
  lemma ReadOnlyKeepsAncestors(t: Tree, p: Path, r: Path, k: Path)
    requires r in t && p <= k <= r && !ParentCanWrite(t, r)
    ensures k in t ==> k in Prune(t, p)
  {
  }

  /** The state of `deleteRecursive(p)` after the first `i` children of `kids`. */
  ghost predicate Partial(t0: Tree, p: Path, kids: seq<Path>, i: int, t: Tree, attempts: seq<Path>) {
    0 <= i <= |kids| && t == PruneWhere(t0, p, kids[..i]) &&
    (forall q :: q in attempts <==> q in t0 && Below(p, kids[..i], q)) &&
    Distinct(attempts) && PostOrder(attempts)
  }

  /** The listing `deleteRecursive` walks: every child once. */
  ghost predicate Listing(t0: Tree, p: Path, kids: seq<Path>) {
    WellFormed(t0) && p in t0 && Distinct(kids) &&
    forall c :: c in kids <==> c in Children(t0, p)
  }

  lemma PartialStart(t0: Tree, p: Path, kids: seq<Path>)
    ensures Partial(t0, p, kids, 0, t0, [])
  {
    assert PruneWhere(t0, p, kids[..0]) == t0;
  }

  /** The next child is still there, and its subtree is smaller than `p`'s. */
  lemma PartialNext(t0: Tree, p: Path, kids: seq<Path>, i: int, t: Tree, attempts: seq<Path>)
    requires Listing(t0, p, kids) && Partial(t0, p, kids, i, t, attempts) && i < |kids|
    ensures kids[i] in t && |Subtree(t, kids[i])| < |Subtree(t0, p)|
  {
    var c := kids[i];
    assert c in Children(t0, p);
    assert c[..|p| + 1] == c;
    assert c !in kids[..i];
    ChildSubtreeSmaller(t0, t, p, c);
  }

  /** Deleting the next child's subtree advances the state by one child. */
  lemma PartialStep(t0: Tree, p: Path, kids: seq<Path>, i: int, t: Tree, attempts: seq<Path>, t': Tree, a: seq<Path>)
    requires Listing(t0, p, kids) && Partial(t0, p, kids, i, t, attempts) && i < |kids|
    requires t' == Prune(t, kids[i])
    requires forall q :: q in a <==> q in Subtree(t, kids[i])
    requires Distinct(a) && PostOrder(a)
    ensures Partial(t0, p, kids, i + 1, t', attempts + a)
  {
    var c := kids[i];
    assert c in Children(t0, p);
    assert c !in kids[..i];
    PruneStep(t0, p, kids[..i], c);
    AttemptsStep(t0, p, kids[..i], c, attempts, a);
    assert kids[..i + 1] == kids[..i] + [c];
  }

  /** The final attempt on `p` completes the recursive delete. */
  lemma PartialFinish(t0: Tree, p: Path, kids: seq<Path>, t: Tree, attempts: seq<Path>)
    requires Listing(t0, p, kids) && Partial(t0, p, kids, |kids|, t, attempts)
    ensures DeleteSucceeds(t, p) == Removable(t0, p)
    ensures (if Removable(t0, p) then t - {p} else t) == Prune(t0, p)
    ensures forall q :: q in attempts + [p] <==> q in Subtree(t0, p)
    ensures Distinct(attempts + [p]) && PostOrder(attempts + [p])
  {
    assert kids[..|kids|] == kids;
    FinishSucceeds(t0, p, kids);
    FinishPrune(t0, p, kids);
    AttemptsFinish(t0, p, kids, attempts);
  }
}
