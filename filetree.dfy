/**
 * The host directory hierarchy the document provider exposes: a finite map from
 * absolute paths to entries. Every entry except the root sits in a directory
 * that is itself an entry. Document ids are the entries' absolute path strings.
 */
module FileTree {
  import opened Wrappers
  import opened Strings
  import opened Paths
  import opened MimeTypes

  datatype Kind = File | Dir

  /** One host entry: its kind and whether `File.canWrite()` holds for it. */
  datatype Node = Node(kind: Kind, writable: bool)

  type Tree = map<Path, Node>

  /** The single exception the provider throws: `FileNotFoundException`. */
  datatype Error = FileNotFound

  function Parent(p: Path): Path
    requires p != []
  {
    p[..|p| - 1]
  }

  /** Every non-root entry's parent is a directory entry. */
  ghost predicate WellFormed(t: Tree) {
    forall p :: p in t && p != [] ==> Parent(p) in t && t[Parent(p)].kind == Dir
  }

  /** `File.isDirectory()`: false for a path that does not exist. */
  predicate IsDirectory(t: Tree, p: Path) {
    p in t && t[p].kind == Dir
  }

  /** `File.canWrite()`: false for a path that does not exist. */
  predicate CanWrite(t: Tree, p: Path) {
    p in t && t[p].writable
  }

  /** `getParentFile().canWrite()` for a non-root path. */
  predicate ParentCanWrite(t: Tree, p: Path) {
    p != [] && CanWrite(t, Parent(p))
  }

  /** The entries directly inside `p`. */
  function Children(t: Tree, p: Path): set<Path> {
    set c | c in t.Keys && |c| == |p| + 1 && p < c
  }

  /** `p` and every entry below it. */
  function Subtree(t: Tree, p: Path): set<Path> {
    set c | c in t.Keys && p <= c
  }

  /** Every ancestor of an entry of a well-formed tree is a directory entry. */
  lemma {:induction false} AncestorIsDirectory(t: Tree, p: Path, k: nat)
    requires WellFormed(t) && p in t && k < |p|
    ensures IsDirectory(t, p[..k])
    decreases |p| - k
  {
    if k + 1 < |p| {
      AncestorIsDirectory(t, p, k + 1);
      assert Parent(p[..k + 1]) == p[..k];
    } else {
      assert Parent(p) == p[..k];
    }
  }

  /** A file has nothing below it. */
  lemma FileHasEmptySubtree(t: Tree, p: Path)
    requires WellFormed(t) && p in t && t[p].kind == File
    ensures Subtree(t, p) == {p}
  {
    forall c | c in Subtree(t, p)
      ensures c == p
    {
      if |c| > |p| {
        assert c[..|p|] == p;
        AncestorIsDirectory(t, c, |p|);
      }
    }
  }

  /** `getDocIdForFile`: a document id is the absolute path. */
  function GetDocIdForFile(p: Path): string {
    Render(p)
  }

  /** `getFileForDocId`: the path the id denotes, if an entry exists there. */
  function GetFileForDocId(t: Tree, docId: string): (r: Result<Path, Error>)
    ensures r.Ok? ==> r.value in t
  {
    var f := Parse(docId);
    if f in t then Ok(f) else Err(FileNotFound)
  }

  /** Ids round-trip: every entry is found again under its own id. */
  lemma DocIdRoundTrip(t: Tree, p: Path)
    requires p in t
    ensures GetFileForDocId(t, GetDocIdForFile(p)) == Ok(p)
  {
    ParseRender(p);
  }

  /** A row of the provider's document cursor (size and modification time omitted). */
  datatype Row = Row(documentId: string, displayName: string, mimeType: string, flags: bv32)

  /**
   * `includeFile` for a given file: absent for the root, whose missing parent
   * makes `getParentFile().canWrite()` throw a NullPointerException.
   */
  function EntryRow(t: Tree, p: Path, table: map<string, string>): (r: Option<Row>)
    ensures r.Some? <==> p != []
    ensures r.Some? ==> Parse(r.value.documentId) == p && r.value.displayName == NameOf(p)
    ensures r.Some? ==> ((r.value.flags & FLAG_SUPPORTS_DELETE != 0) <==> CanWrite(t, Parent(p)))
    ensures r.Some? ==> ((r.value.flags & FLAG_SUPPORTS_WRITE != 0) <==> !IsDirectory(t, p) && CanWrite(t, p))
  {
    if p == [] then None
    else
      ParseRender(p);
      var mime := GetMimeType(IsDirectory(t, p), NameOf(p), table);
      var flags := DocumentFlags(IsDirectory(t, p), CanWrite(t, p), ParentCanWrite(t, p), mime);
      Some(Row(GetDocIdForFile(p), NameOf(p), mime, flags))
  }

  /** `File.listFiles()` on a directory: its children, each once, in an unspecified order. */
  method ListFiles(t: Tree, p: Path) returns (kids: seq<Path>)
    ensures forall c :: c in kids <==> c in Children(t, p)
    ensures forall i, j :: 0 <= i < j < |kids| ==> kids[i] != kids[j]
  {
    var rest := Children(t, p);
    kids := [];
    while rest != {}
      invariant forall c :: c in kids || c in rest <==> c in Children(t, p)
      invariant forall c :: c in kids ==> c !in rest
      invariant forall i, j :: 0 <= i < j < |kids| ==> kids[i] != kids[j]
      decreases |rest|
    {
      var c :| c in rest;
      kids := kids + [c];
      rest := rest - {c};
    }
  }
}
