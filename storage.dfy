/**
 * The scoped-storage bridge: POSIX-like requests against the content tree the
 * user granted. The tree is a map from content addresses to documents; a
 * document's children are listed by address, in the order a children query
 * returns them. Creating a child `name` under `parent` makes the document
 * `parent + "%2F" + Uri.encode(name)`.
 */
module Storage {
  import opened Wrappers
  import opened Strings
  import opened MimeTypes
  import opened ScopedAddress

  /** `EXISTS_TYPE` */
  datatype ExistsType = NONE | FOLDER | FILE

  /** What a document query yields: an exception, a null cursor, or rows of MIME types. */
  datatype QueryResult = Threw | NullCursor | Rows(mimeTypes: seq<string>)

  datatype Doc = Doc(name: string, mime: string, data: seq<bv8>, children: seq<string>)

  /** A descriptor handed out by `openContentUri`; its number is its index. */
  datatype Descriptor = Descriptor(address: string, mode: string)

  /** How a copy ended; the caller of `contentUriCopyFile` sees none of it. */
  datatype CopyOutcome = Copied | SkippedExisting | Failed

  /** What `openContentUri` does after classifying the address. */
  datatype OpenAction = Reject | CreateThenOpen | OpenExisting

  const CHUNK := 1024

  predicate IsFolder(d: Doc) {
    d.mime == MIME_TYPE_DIR
  }

  /** The classification of `contentUriElementExists` from the first row's MIME type. */
  function Classify(q: QueryResult): (e: ExistsType)
    ensures e == NONE <==> !(q.Rows? && |q.mimeTypes| > 0)
    ensures e == FOLDER <==> q.Rows? && |q.mimeTypes| > 0 && q.mimeTypes[0] == MIME_TYPE_DIR
    ensures e == FILE <==> q.Rows? && |q.mimeTypes| > 0 && q.mimeTypes[0] != MIME_TYPE_DIR
  {
    match q
    case Threw => NONE
    case NullCursor => NONE
    case Rows(m) => if |m| == 0 then NONE else if m[0] == MIME_TYPE_DIR then FOLDER else FILE
  }

  /** Querying one address: its own row, or an exception for an address with no document. */
  function Query(docs: map<string, Doc>, address: string): QueryResult {
    if address in docs then Rows([docs[address].mime]) else Threw
  }

  function ClassifyIn(docs: map<string, Doc>, address: string): ExistsType {
    Classify(Query(docs, address))
  }

  /** The three classes line up with the documents of the tree. */
  lemma ClassifyInTree(docs: map<string, Doc>, address: string)
    ensures ClassifyIn(docs, address) == NONE <==> address !in docs
    ensures ClassifyIn(docs, address) == FOLDER <==> address in docs && IsFolder(docs[address])
    ensures ClassifyIn(docs, address) == FILE <==> address in docs && !IsFolder(docs[address])
  {
  }

  function ChildAddress(parent: string, name: string): string {
    parent + SEP + Encode(name)
  }

  /** `DocumentFile.fromTreeUri(parent).createDirectory/createFile(name)` yields a document. */
  predicate CanCreateChild(docs: map<string, Doc>, parent: string, name: string) {
    parent in docs && IsFolder(docs[parent]) && ChildAddress(parent, name) !in docs
  }

  /** The tree with a new, empty child `name` under `parent`. */
  function AddChild(docs: map<string, Doc>, parent: string, name: string, mime: string): map<string, Doc>
    requires parent in docs
  {
    var c := ChildAddress(parent, name);
    docs[parent := docs[parent].(children := docs[parent].children + [c])][c := Doc(name, mime, [], [])]
  }

  /** Every listed child is a document, and only folders list children. */
  ghost predicate Linked(docs: map<string, Doc>) {
    (forall a, c :: a in docs && c in docs[a].children ==> c in docs) &&
    (forall a :: a in docs && !IsFolder(docs[a]) ==> docs[a].children == [])
  }

  lemma AddChildLinked(docs: map<string, Doc>, parent: string, name: string, mime: string)
    requires Linked(docs) && CanCreateChild(docs, parent, name)
    ensures Linked(AddChild(docs, parent, name, mime))
  {
  }

  /** The new document is the parent's last child and is listed under its name. */
  lemma AddChildListed(docs: map<string, Doc>, parent: string, name: string, mime: string)
    requires CanCreateChild(docs, parent, name)
    ensures var after := AddChild(docs, parent, name, mime);
      var c := ChildAddress(parent, name);
      after[parent].children == docs[parent].children + [c] &&
      ListedName(after[c]) == if mime == MIME_TYPE_DIR then name + "/" else name
  {
  }

  /** A created folder is classified as a folder, a created file as a file. */
  lemma AddChildClassifies(docs: map<string, Doc>, parent: string, name: string, mime: string)
    requires CanCreateChild(docs, parent, name)
    ensures ClassifyIn(AddChild(docs, parent, name, mime), ChildAddress(parent, name)) ==
      if mime == MIME_TYPE_DIR then FOLDER else FILE
    ensures forall a :: a in docs ==> ClassifyIn(AddChild(docs, parent, name, mime), a) == ClassifyIn(docs, a)
  {
  }

  /**
   * For an ASCII leaf name and a path without the root in it, the document the
   * bridge creates lands exactly on the normalized address that was classified.
   */
  lemma CreatedAtNormalized(root: string, dir: string, name: string)
    requires root != [] && !Contains(dir + "/" + name, root)
    requires name != [] && '/' !in name && IsAscii(name)
    ensures var n := NormalizeUri(root, dir + "/" + name);
      var sp := GetPathAndFilenameFromUri(n);
      sp.Some? && Decode(sp.value.1) == name && ChildAddress(sp.value.0, Decode(sp.value.1)) == n
  {
    NormalizeWithoutRoot(root, dir + "/" + name);
    CreatedWhereSplit(root, dir, name);
    SplitEncoded(root, dir, name);
    DecodeEncode(name);
  }

  /** `openContentUri`'s decision from the classification and the mode. */
  function OpenDispatch(e: ExistsType, mode: string): (a: OpenAction)
    ensures a == CreateThenOpen <==> mode != "" && e == NONE && mode != "r" && mode != "rw"
    ensures a == OpenExisting <==> mode != "" && e == FILE
  {
    if mode == "" then Reject
    else match e
      case FOLDER => Reject
      case NONE => if mode == "r" || mode == "rw" then Reject else CreateThenOpen
      case FILE => OpenExisting
  }

  /** The modes `openFileDescriptor` accepts; any other throws. */
  predicate ValidMode(mode: string) {
    mode in ["r", "w", "wt", "wa", "rw", "rwt"]
  }

  /** The descriptor table after an open that succeeds or, returning -1, does not. */
  predicate Opened(before: seq<Descriptor>, after: seq<Descriptor>, fd: int, address: string, mode: string, succeeds: bool) {
    if succeeds then fd == |before| && after == before + [Descriptor(address, mode)]
    else fd == -1 && after == before
  }

  /** How a folder or a file appears in a listing: folders carry a trailing '/'. */
  function ListedName(d: Doc): string {
    if IsFolder(d) then d.name + "/" else d.name
  }

  /** A listed name keeps the document's name and ends in '/' exactly for a folder. */
  lemma ListedNameMarksFolders(d: Doc)
    requires !EndsWith(d.name, "/")
    ensures StartsWith(ListedName(d), d.name)
    ensures EndsWith(ListedName(d), "/") <==> IsFolder(d)
  {
  }

  /** The number of bytes one `read` into the 1024-byte buffer returns at `pos`. */
  function ChunkAt(total: int, pos: int): (len: int)
    requires 0 <= pos <= total
    ensures 0 <= len <= CHUNK && pos + len <= total
    ensures len == 0 <==> pos == total
  {
    if total - pos < CHUNK then total - pos else CHUNK
  }

  class StorageOperations {
    /** The granted tree's address. */
    const root: string
    var docs: map<string, Doc>
    var descriptors: seq<Descriptor>

    ghost predicate Valid()
      reads this
    {
      Linked(docs)
    }

    constructor (grantedRoot: string, tree: map<string, Doc>)
      requires Linked(tree)
      ensures root == grantedRoot && docs == tree && descriptors == [] && Valid()
    {
      root := grantedRoot;
      docs := tree;
      descriptors := [];
    }

    /** `normalizeUri` for this bridge's root. */
    function Normalize(input: string): (r: string)
      ensures StartsWith(r, root)
    {
      NormalizeUri(root, input)
    }

    /** `contentUriElementExists` */
    function ElementExists(address: string): ExistsType
      reads this
    {
      ClassifyIn(docs, address)
    }

    /** Creating `name` under the document `parent`, as the content provider does. */
    method CreateChild(parent: string, name: string, mime: string) returns (ok: bool)
      requires Valid()
      modifies this
      ensures Valid() && descriptors == old(descriptors)
      ensures ok == CanCreateChild(old(docs), parent, name)
      ensures docs == if ok then AddChild(old(docs), parent, name, mime) else old(docs)
    {
      ok := CanCreateChild(docs, parent, name);
      if ok {
        AddChildLinked(docs, parent, name, mime);
        docs := AddChild(docs, parent, name, mime);
      }
    }

    /** `contentUriCreateFile`: an octet-stream document named by the decoded leaf. */
    method ContentUriCreateFile(rootTreeUri: string, fileName: string) returns (ok: bool)
      requires Valid()
      modifies this
      ensures Valid() && descriptors == old(descriptors)
      ensures ok == CanCreateChild(old(docs), rootTreeUri, Decode(fileName))
      ensures docs == if ok then AddChild(old(docs), rootTreeUri, Decode(fileName), OCTET_STREAM) else old(docs)
    {
      ok := CreateChild(rootTreeUri, Decode(fileName), OCTET_STREAM);
    }

    /**
     * `contentUriCreateDirectory`: a folder is already there; a missing address
     * is created as a folder under its split parent; a file, or an address that
     * cannot be split, fails.
     */
    method ContentUriCreateDirectory(dirUri: string) returns (ok: bool)
      requires Valid()
      modifies this
      ensures Valid() && descriptors == old(descriptors)
      ensures var n := NormalizeUri(root, dirUri);
        ClassifyIn(old(docs), n) == FOLDER ==> ok && docs == old(docs)
      ensures var n := NormalizeUri(root, dirUri);
        ClassifyIn(old(docs), n) == FILE ==> !ok && docs == old(docs)
      ensures var n := NormalizeUri(root, dirUri);
        var sp := GetPathAndFilenameFromUri(n);
        ClassifyIn(old(docs), n) == NONE ==>
          ok == (sp.Some? && CanCreateChild(old(docs), sp.value.0, Decode(sp.value.1))) &&
          docs == if ok then AddChild(old(docs), sp.value.0, Decode(sp.value.1), MIME_TYPE_DIR) else old(docs)
    {
      var normalized := NormalizeUri(root, dirUri);
      match ElementExists(normalized)
      case FOLDER =>
        ok := true;
      case NONE =>
        var pathComponents := GetPathAndFilenameFromUri(normalized);
        if pathComponents.None? {
          ok := false;
        } else {
          ok := CreateChild(pathComponents.value.0, Decode(pathComponents.value.1), MIME_TYPE_DIR);
        }
      case FILE =>
        ok := false;
    }

    /** `openFileDescriptor(uri, mode).detachFd()`: a descriptor for an existing file and a valid mode. */
    method OpenFileDescriptor(address: string, mode: string) returns (fd: int)
      modifies this
      ensures docs == old(docs)
      ensures Opened(old(descriptors), descriptors, fd, address, mode,
        address in docs && !IsFolder(docs[address]) && ValidMode(mode))
    {
      if address in docs && !IsFolder(docs[address]) && ValidMode(mode) {
        fd := |descriptors|;
        descriptors := descriptors + [Descriptor(address, mode)];
      } else {
        fd := -1;
      }
    }

    /**
     * `openContentUri`: -1 for an empty mode or a folder; a missing address is
     * created first unless the mode is "r" or "rw"; then the descriptor, or -1.
     */
    method OpenContentUri(uriString: string, mode: string) returns (fd: int)
      requires Valid()
      modifies this
      ensures Valid()
      ensures var n := NormalizeUri(root, uriString);
        OpenDispatch(ClassifyIn(old(docs), n), mode) == Reject ==>
          fd == -1 && docs == old(docs) && descriptors == old(descriptors)
      ensures var n := NormalizeUri(root, uriString);
        OpenDispatch(ClassifyIn(old(docs), n), mode) == OpenExisting ==>
          docs == old(docs) && Opened(old(descriptors), descriptors, fd, n, mode, ValidMode(mode))
      ensures var n := NormalizeUri(root, uriString);
        var sp := GetPathAndFilenameFromUri(n);
        var created := sp.Some? && CanCreateChild(old(docs), sp.value.0, Decode(sp.value.1));
        OpenDispatch(ClassifyIn(old(docs), n), mode) == CreateThenOpen ==>
          docs == (if created then AddChild(old(docs), sp.value.0, Decode(sp.value.1), OCTET_STREAM) else old(docs)) &&
          Opened(old(descriptors), descriptors, fd, n, mode, created && n in docs && !IsFolder(docs[n]) && ValidMode(mode))
    {
      if mode == "" {
        return -1;
      }
      var uri := NormalizeUri(root, uriString);
      var found := ElementExists(uri);
      if found == FOLDER {
        return -1;
      }
      if found == NONE {
        if !(mode == "r" || mode == "rw") {
          var pathComponents := GetPathAndFilenameFromUri(uri);
          if pathComponents.None? {
            return -1;
          }
          var ok := ContentUriCreateFile(pathComponents.value.0, pathComponents.value.1);
          if !ok {
            return -1;
          }
        } else {
          return -1;
        }
      }
      fd := OpenFileDescriptor(uri, mode);
    }

    /** `listFolderUri`: one name per child in order, folders with a trailing '/'; empty when the address is not a document. */
    method ListFolderUri(uriString: string) returns (names: seq<string>)
      requires Valid()
      ensures var n := NormalizeUri(root, uriString);
        var kids := if n in docs then docs[n].children else [];
        |names| == |kids| && forall i :: 0 <= i < |kids| ==> names[i] == ListedName(docs[kids[i]])
    {
      var uri := NormalizeUri(root, uriString);
      var kids: seq<string> := [];
      if uri in docs {
        kids := docs[uri].children;
      }
      names := [];
      var i := 0;
      while i < |kids|
        invariant 0 <= i <= |kids|
        invariant |names| == i
        invariant forall j :: 0 <= j < i ==> names[j] == ListedName(docs[kids[j]])
      {
        var child := docs[kids[i]];
        if !IsFolder(child) {
          names := names + [child.name];
        } else {
          names := names + [child.name + "/"];
        }
        i := i + 1;
      }
    }

    /**
     * Opening `out` with mode "w" truncates it; the copy loop then appends each
     * chunk `read` returns until it returns nothing.
     */
    method WriteAll(out: string, input: seq<bv8>)
      requires Valid() && out in docs
      modifies this
      ensures Valid() && descriptors == old(descriptors)
      ensures docs == old(docs)[out := old(docs)[out].(data := input)]
    {
      ghost var before := docs;
      docs := docs[out := docs[out].(data := [])];
      var pos := 0;
      var len := ChunkAt(|input|, pos);
      while len > 0
        invariant 0 <= pos <= |input| && len == ChunkAt(|input|, pos)
        invariant docs == before[out := before[out].(data := input[..pos])]
        invariant descriptors == old(descriptors)
        decreases |input| - pos
      {
        assert input[..pos + len] == input[..pos] + input[pos..pos + len];
        docs := docs[out := docs[out].(data := docs[out].data + input[pos..pos + len])];
        pos := pos + len;
        len := ChunkAt(|input|, pos);
      }
      assert input[..pos] == input;
    }

    /**
     * `contentUriCopyFile`: copies `src` into `dstParentDirUri` under its own
     * name, in chunks of at most 1024 bytes, unless that name already exists.
     * `src` is `None` when the source file cannot be opened.
     */
    method ContentUriCopyFile(srcName: string, src: Option<seq<bv8>>, dstParentDirUri: string)
      returns (outcome: CopyOutcome)
      requires Valid()
      modifies this
      ensures Valid() && descriptors == old(descriptors)
      ensures var out := NormalizeUri(root, dstParentDirUri + "/" + srcName);
        ClassifyIn(old(docs), out) != NONE ==> outcome == SkippedExisting && docs == old(docs)
      ensures var out := NormalizeUri(root, dstParentDirUri + "/" + srcName);
        outcome == SkippedExisting <==> ClassifyIn(old(docs), out) != NONE
      ensures var out := NormalizeUri(root, dstParentDirUri + "/" + srcName);
        var sp := GetPathAndFilenameFromUri(out);
        var created := ClassifyIn(old(docs), out) == NONE && sp.Some? &&
          CanCreateChild(old(docs), sp.value.0, Decode(sp.value.1));
        var afterCreate := if created then AddChild(old(docs), sp.value.0, Decode(sp.value.1), OCTET_STREAM) else old(docs);
        (outcome == Copied <==> created && src.Some? && out in afterCreate) &&
        (outcome == Copied ==> docs == afterCreate[out := afterCreate[out].(data := src.value)]) &&
        (outcome == Failed ==> docs == afterCreate)
    {
      var normalizedOutputUri := NormalizeUri(root, dstParentDirUri + "/" + srcName);
      if ElementExists(normalizedOutputUri) != NONE {
        return SkippedExisting;
      }
      var pathComponents := GetPathAndFilenameFromUri(normalizedOutputUri);
      if pathComponents.None? {
        return Failed;
      }
      var ok := ContentUriCreateFile(pathComponents.value.0, pathComponents.value.1);
      if !ok {
        return Failed;
      }
      if src.None? || normalizedOutputUri !in docs {
        return Failed;
      }
      WriteAll(normalizedOutputUri, src.value);
      outcome := Copied;
    }
  }
}
