/**
 * The state-changing operations of the document provider: create, delete and
 * rename. The host directory hierarchy is the provider's one mutable field. Its
 * effects follow the `File` rules the other modules describe.
 */
module DocumentProvider {
  import opened Wrappers
  import opened Strings
  import opened Paths
  import opened MimeTypes
  import opened FileTree
  import opened Naming
  import opened TreeDeletion
  import opened Renaming

  /** `mkdir()` / `createNewFile()` succeeds: a fresh path inside a writable directory. */
  predicate CreateSucceeds(t: Tree, c: Path) {
    c != [] && c !in t && IsDirectory(t, Parent(c)) && CanWrite(t, Parent(c))
  }

  /** A directory for the directory marker, an empty file for any other type. */
  function KindFor(mimeType: string): Kind {
    if mimeType == MIME_TYPE_DIR then Dir else File
  }

  /** The result and tree after trying to create `c`, starting from `t0`. */
  predicate CreatedAs(t0: Tree, t: Tree, r: Result<string, Error>, c: Path, mimeType: string) {
    if CreateSucceeds(t0, c) then r == Ok(Render(c)) && t == t0[c := Node(KindFor(mimeType), true)]
    else r == Err(FileNotFound) && t == t0
  }

  /** A created entry sits in an existing directory and has no children yet. */
  lemma CreateKeepsWellFormed(t: Tree, c: Path, n: Node)
    requires WellFormed(t) && CreateSucceeds(t, c)
    ensures WellFormed(t[c := n])
  {
    forall k | k in t && k != []
      ensures Parent(k) != c
    {
      assert Parent(k) in t;
    }
  }

  /** A file has no children. */
  lemma FileHasNoChildren(t: Tree, p: Path)
    requires WellFormed(t) && p in t && !IsDirectory(t, p)
    ensures Children(t, p) == {}
  {
    FileHasEmptySubtree(t, p);
    forall c | c in Children(t, p)
      ensures c in Subtree(t, p) && c != p
    {
    }
  }

  /**
   * The collision loop of `createDocument`: the first candidate path that is
   * not an entry of `t`, and its number.
   */
  method FirstFreeCandidate(t: Tree, parentId: string, displayName: string) returns (newFile: Path, k: nat)
    ensures FirstFree(t.Keys, parentId, displayName, k) && newFile == Candidate(parentId, displayName, k)
  {
    ghost var bound := MaxChars(t.Keys);
    newFile := Candidate(parentId, displayName, 1);
    var noConflictId := 2;
    while newFile in t
      invariant noConflictId >= 2
      invariant newFile == Candidate(parentId, displayName, noConflictId - 1)
      invariant forall j :: 1 <= j < noConflictId - 1 ==> Candidate(parentId, displayName, j) in t
      invariant noConflictId <= Pow10(bound) + 2
      decreases Pow10(bound) + 2 - noConflictId
    {
      if noConflictId - 1 >= 2 && noConflictId - 1 >= Pow10(bound) {
        CandidateBound(t.Keys, parentId, displayName, noConflictId - 1);
      }
      newFile := Candidate(parentId, displayName, noConflictId);
      noConflictId := noConflictId + 1;
    }
    k := noConflictId - 1;
  }

  class Provider {
    /** The host directory hierarchy. */
    var tree: Tree

    ghost predicate Valid()
      reads this
    {
      WellFormed(tree)
    }

    constructor (t: Tree)
      requires WellFormed(t)
      ensures tree == t && Valid()
    {
      tree := t;
    }

    /**
     * `createDocument`: tries the candidate names in turn until one does not
     * exist, then makes a directory or an empty file there.
     */
    method CreateDocument(parentId: string, mimeType: string, displayName: string)
      returns (r: Result<string, Error>)
      requires Valid()
      modifies this
      ensures Valid()
      ensures exists k :: (FirstFree(old(tree).Keys, parentId, displayName, k) &&
        CreatedAs(old(tree), tree, r, Candidate(parentId, displayName, k), mimeType))
    {
      var t := tree;
      var newFile, k := FirstFreeCandidate(t, parentId, displayName);
      if CreateSucceeds(t, newFile) {
        CreateKeepsWellFormed(t, newFile, Node(KindFor(mimeType), true));
        tree := t[newFile := Node(KindFor(mimeType), true)];
        r := Ok(Render(newFile));
      } else {
        r := Err(FileNotFound);
      }
      assert CreatedAs(t, tree, r, Candidate(parentId, displayName, k), mimeType);
    }

    /** `File.delete()`: removes an entry with no children from a writable directory. */
    method DeleteNode(p: Path) returns (ok: bool)
      requires Valid()
      modifies this
      ensures Valid()
      ensures ok == DeleteSucceeds(old(tree), p)
      ensures tree == if ok then old(tree) - {p} else old(tree)
    {
      ok := DeleteSucceeds(tree, p);
      if ok {
        DeleteChildless(tree, p);
        tree := tree - {p};
      }
    }

    /**
     * `deleteRecursive`: deletes every child's subtree, then the entry itself,
     * attempting each entry of the subtree exactly once, children before parents.
     */
    method DeleteRecursive(p: Path) returns (attempts: seq<Path>)
      requires Valid() && p in tree
      modifies this
      decreases |Subtree(tree, p)|
      ensures Valid()
      ensures forall q :: q in attempts <==> q in old(Subtree(tree, p))
      ensures Distinct(attempts) && PostOrder(attempts)
      ensures tree == Prune(old(tree), p)
    {
      ghost var t0 := tree;
      var kids: seq<Path> := [];
      if IsDirectory(tree, p) {
        kids := ListFiles(tree, p);
      } else {
        FileHasNoChildren(tree, p);
      }
      PartialStart(t0, p, kids);
      attempts := [];
      var i := 0;
      while i < |kids|
        invariant Valid()
        invariant Partial(t0, p, kids, i, tree, attempts)
      {
        PartialNext(t0, p, kids, i, tree, attempts);
        ghost var before := tree;
        var a := DeleteRecursive(kids[i]);
        PartialStep(t0, p, kids, i, before, attempts, tree, a);
        attempts := attempts + a;
        i := i + 1;
      }
      PartialFinish(t0, p, kids, tree, attempts);
      var ok := DeleteNode(p);
      attempts := attempts + [p];
    }

    /**
     * `deleteDocument`: a directory is deleted recursively and never reports
     * failure; a file that cannot be deleted raises FileNotFoundException.
     */
    method DeleteDocument(documentId: string) returns (r: Outcome<Error>)
      requires Valid()
      modifies this
      ensures Valid()
      ensures var p := Parse(documentId);
        r.Fail? <==> p !in old(tree) || (!IsDirectory(old(tree), p) && !DeleteSucceeds(old(tree), p))
      ensures var p := Parse(documentId);
        tree == if p in old(tree) then Prune(old(tree), p) else old(tree)
    {
      var file := GetFileForDocId(tree, documentId);
      if file.Err? {
        return Fail(FileNotFound);
      }
      var p := file.value;
      if IsDirectory(tree, p) {
        var attempts := DeleteRecursive(p);
        r := Pass;
      } else {
        FileHasNoChildren(tree, p);
        assert PruneWhere(tree, p, []) == tree;
        FinishSucceeds(tree, p, []);
        FinishPrune(tree, p, []);
        var ok := DeleteNode(p);
        r := if ok then Pass else Fail(FileNotFound);
      }
    }

    /**
     * `renameDocument`: moves the entry to its new name when that name is free
     * and `renameTo` succeeds, and returns the new name's id in every case.
     */
    method RenameDocument(documentId: string, displayName: string) returns (r: Result<string, Error>)
      requires Valid()
      modifies this
      ensures Valid()
      ensures r.Err? <==> Parse(documentId) !in old(tree)
      ensures r.Ok? ==> (r.value == RenamedId(Parse(documentId), displayName) &&
        tree == AfterRename(old(tree), Parse(documentId), displayName))
      ensures r.Err? ==> tree == old(tree)
      ensures var from := Parse(documentId);
        var to := RenameTarget(from, displayName);
        r.Ok? && to !in old(tree) && RenameSucceeds(old(tree), from, to) ==>
          r.value == IntendedRenamedId(old(tree), from, displayName)
    {
      var file := GetFileForDocId(tree, documentId);
      if file.Err? {
        return Err(FileNotFound);
      }
      var from := file.value;
      var newFile := RenameTarget(from, displayName);
      if !(newFile in tree) && RenameSucceeds(tree, from, newFile) {
        MovedWellFormed(tree, from, newFile);
        tree := Moved(tree, from, newFile);
      }
      r := Ok(Render(newFile));
    }
  }
}
