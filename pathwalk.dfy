/**
 * `findDocumentPath`: the ids from a parent document down to one of its
 * descendants, built by walking upward from the descendant.
 */
module PathWalk {
  import opened Wrappers
  import opened Paths
  import opened FileTree

  /** The ids of `doc`'s ancestors from `parent` down to `doc`, both included. */
  function Chain(parent: Path, doc: Path): seq<string>
    requires parent <= doc
  {
    IdsFrom(doc, |parent|)
  }

  /** The ids of the prefixes of `doc` with at least `lo` components, shortest first. */
  function IdsFrom(doc: Path, lo: nat): seq<string>
    requires lo <= |doc| + 1
  {
    seq(|doc| + 1 - lo, i requires 0 <= i < |doc| + 1 - lo => Render(doc[..lo + i]))
  }

  lemma IdsFromStep(doc: Path, k: nat)
    requires k <= |doc|
    ensures [Render(doc[..k])] + IdsFrom(doc, k + 1) == IdsFrom(doc, k)
  {
  }

  /**
   * The chain starts at the parent's id, ends at the document's id, has one id
   * per level between them, and each id names the parent directory of the next.
   */
  lemma ChainShape(parent: Path, doc: Path)
    requires parent <= doc
    ensures var c := Chain(parent, doc);
      && |c| == |doc| - |parent| + 1
      && c[0] == Render(parent)
      && c[|c| - 1] == Render(doc)
      && forall i :: 0 <= i < |c| - 1 ==> ParentOf(Parse(c[i + 1])) == Some(Parse(c[i]))
  {
    var c := Chain(parent, doc);
    assert doc[..|parent|] == parent;
    assert doc[..|doc|] == doc;
    forall i | 0 <= i < |c| - 1
      ensures ParentOf(Parse(c[i + 1])) == Some(Parse(c[i]))
    {
      ParseRender(doc[..|parent| + i + 1]);
      ParseRender(doc[..|parent| + i]);
      assert doc[..|parent| + i + 1][..|parent| + i] == doc[..|parent| + i];
    }
  }

  /** `findDocumentPath(File parent, File doc)` */
  method FindDocumentPath(t: Tree, parent: Path, doc: Path) returns (r: Result<seq<string>, Error>)
    ensures r.Ok? <==> doc in t && parent <= doc
    ensures r.Ok? ==> r.value == Chain(parent, doc)
  {
    if doc !in t {
      return Err(FileNotFound);
    }
    DirContainsFileIffPrefix(parent, doc);
    if !DirContainsFile(Some(GetDocIdForFile(parent)), Some(GetDocIdForFile(doc))) {
      return Err(FileNotFound);
    }
    var ids: seq<string> := [];
    var d: Option<Path> := Some(doc);
    ghost var k: int := |doc|;
    while d.Some? && DirContainsFile(Some(GetDocIdForFile(parent)), Some(GetDocIdForFile(d.value)))
      invariant |parent| - 1 <= k <= |doc|
      invariant d.Some? <==> k >= 0
      invariant d.Some? ==> d.value == doc[..k]
      invariant ids == IdsFrom(doc, k + 1)
      decreases k + 1
    {
      DirContainsFileIffPrefix(parent, d.value);
      IdsFromStep(doc, k);
      ids := [GetDocIdForFile(d.value)] + ids;
      d := ParentOf(d.value);
      k := k - 1;
    }
    if d.Some? {
      DirContainsFileIffPrefix(parent, d.value);
    }
    assert k == |parent| - 1;
    r := Ok(ids);
  }

  /** A path query's answer: the root id (only when no parent was given) and the ids. */
  datatype DocumentPath = DocumentPath(rootId: Option<string>, path: seq<string>)

  /** The parent id a path query walks from: the given one, or the base directory's. */
  function StartId(base: Path, parentId: Option<string>): string {
    if parentId.Some? then parentId.value else GetDocIdForFile(base)
  }

  /**
   * `findDocumentPath(String parentDocumentId, String childDocumentId)`; the base
   * directory read from the working-directory file is the parameter `baseDir`.
   */
  method FindPath(t: Tree, baseDir: Option<Path>, parentId: Option<string>, childId: string)
    returns (r: Result<DocumentPath, Error>)
    ensures r.Ok? <==> baseDir.Some?
                       && Parse(StartId(baseDir.value, parentId)) in t
                       && Parse(childId) in t
                       && Parse(StartId(baseDir.value, parentId)) <= Parse(childId)
    ensures r.Ok? ==> r.value.path == Chain(Parse(StartId(baseDir.value, parentId)), Parse(childId))
    ensures r.Ok? ==> r.value.rootId == (if parentId.None? then Some(Render(baseDir.value)) else None)
  {
    if baseDir.None? {
      return Err(FileNotFound);
    }
    var rootId := if parentId.None? then Some(GetDocIdForFile(baseDir.value)) else None;
    var start := StartId(baseDir.value, parentId);
    var parent := GetFileForDocId(t, start);
    if parent.Err? {
      return Err(FileNotFound);
    }
    var doc := GetFileForDocId(t, childId);
    if doc.Err? {
      return Err(FileNotFound);
    }
    var ids := FindDocumentPath(t, parent.value, doc.value);
    if ids.Err? {
      return Err(FileNotFound);
    }
    r := Ok(DocumentPath(rootId, ids.value));
  }
}
