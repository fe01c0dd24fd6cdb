# EDOPro storage bridge, modelled in Dafny

This project models the two storage components of the EDOPro Android client.

**The document provider** (`EdoproDocumentProvider`) exposes a directory tree of the host
filesystem to the Android Storage Access Framework. Document ids are absolute paths. The
model covers:

- the descendant tests `dirContainsFile` and `isChildDocument`;
- both `findDocumentPath` overloads;
- creation with " (n)" suffixes on name collisions;
- recursive deletion, deletion and renaming;
- the breadth-first name search, capped at 50 results;
- MIME classification and the capability flags of a document row.

The host tree is a map from paths (sequences of non-empty, slash-free components) to entries.
Each entry has a kind and a writable bit. `File.delete`, `mkdir`, `createNewFile` and
`renameTo` succeed by the usual directory-permission rules: the containing directory must be
writable, and a directory must be empty before it is deleted.

**The scoped-storage bridge** (`StorageOperations`) turns the game's POSIX-like paths into
content addresses below a granted tree address. The model covers:

- `normalizeUri`, with `Uri.encode` and `Uri.decode` written out;
- the split of an address at its last encoded separator "%2F";
- classification of an address as missing, folder or file;
- creation of directories and files;
- opening a descriptor;
- listing a folder;
- copying a file in 1024-byte chunks.

The content tree is a map from content addresses to documents. Each document records its
children in query order.

Modules:

- `Wrappers`: `Option`, `Result`, `Outcome`.
- `Strings`: the Java `String` operations used.
- `Paths`: paths, ids and the descendant tests.
- `MimeTypes`: `getMimeType` and the flag word.
- `FileTree`: the host tree, id lookup, cursor rows and `listFiles`.
- `PathWalk`: `findDocumentPath`.
- `Search`: `querySearchDocuments`.
- `Naming`: the candidate names `createDocument` tries.
- `TreeDeletion`: what `deleteRecursive` leaves.
- `Renaming`: `renameDocument`'s move.
- `DocumentProvider`: the class `Provider`, whose one mutable field is the host tree.
- `ScopedAddress`: address encoding and splitting.
- `Storage`: the class `StorageOperations`, over the content tree and a descriptor table.

Parameters stand in for the environment:

- the platform's extension-to-MIME table;
- the home directory prefix (`getFilesDir().getParent()`);
- the base directory (`getBaseDir()`, read from a file);
- the bytes of a source file.

## Model

| member | source | states |
|---|---|---|
| Paths.ParentOf | src/main/java/io.github.edo9300.edopro/EdoproDocumentProvider.java:134-137 | `getParentFile()` is absent exactly for the root; otherwise it is the path minus its last component |
| Paths.DirContainsFileIffPrefix | src/main/java/io.github.edo9300.edopro/EdoproDocumentProvider.java:112-123 | on the ids of two paths, `dirContainsFile` holds exactly when the directory's components are a prefix of the file's: equal paths are contained, and a sibling whose name merely extends the directory's name is not |
| Paths.NullNeverContained | src/main/java/io.github.edo9300.edopro/EdoproDocumentProvider.java:113 | a null directory or file is never contained |
| Paths.ParseRender | src/main/java/io.github.edo9300.edopro/EdoproDocumentProvider.java:291-302 | reading an absolute path string back with `new File` gives the same path |
| Paths.RenderInjective | src/main/java/io.github.edo9300.edopro/EdoproDocumentProvider.java:291-293 | distinct entries have distinct document ids |
| Paths.IsChildDocumentNotBoundarySafe | src/main/java/io.github.edo9300.edopro/EdoproDocumentProvider.java:280-283 | "/a/bc" counts as a child document of "/a/b", although `dirContainsFile` rejects the pair |
| Paths.IsChildDocumentDisagrees | src/main/java/io.github.edo9300.edopro/EdoproDocumentProvider.java:280-283 | the same pair as paths: the path ["a","bc"] is not below ["a","b"], yet its id passes the prefix test |
| Paths.IsChildDocumentReflexive | src/main/java/io.github.edo9300.edopro/EdoproDocumentProvider.java:280-283 | every document id is a child document of itself |
| Paths.DirContainsImpliesIsChild | src/main/java/io.github.edo9300.edopro/EdoproDocumentProvider.java:280-283 | whatever `dirContainsFile` accepts, `isChildDocument` accepts too |
| MimeTypes.ExtensionOfSplit | src/main/java/io.github.edo9300.edopro/EdoproDocumentProvider.java:308-311 | the extension is the lower-cased text after the last dot, whatever dots precede it |
| MimeTypes.FileMimeType | src/main/java/io.github.edo9300.edopro/EdoproDocumentProvider.java:304-319 | for a file `base.ext`, a table hit on the lower-cased extension wins; otherwise "lua", "md" and "log" give text/plain and anything else gives application/octet-stream |
| MimeTypes.NoDotIsBinary | src/main/java/io.github.edo9300.edopro/EdoproDocumentProvider.java:309-317 | a file name without a dot is application/octet-stream |
| MimeTypes.DirectoryMimeType | src/main/java/io.github.edo9300.edopro/EdoproDocumentProvider.java:305-306 | a directory is always the directory MIME type |
| MimeTypes.UpperCaseExtension | src/main/java/io.github.edo9300.edopro/EdoproDocumentProvider.java:311-315 | extensions are looked up in lower case: "SCRIPT.LUA" is text/plain |
| MimeTypes.DocumentFlags | src/main/java/io.github.edo9300.edopro/EdoproDocumentProvider.java:336-347 | each flag bit is set exactly under its condition: write for a writable file, create for a writable directory, delete and rename for a writable parent, thumbnail for an image type; no other bit is set |
| FileTree.GetFileForDocId | src/main/java/io.github.edo9300.edopro/EdoproDocumentProvider.java:298-302 | an id resolves only to an existing entry; otherwise it fails with FileNotFoundException |
| FileTree.DocIdRoundTrip | src/main/java/io.github.edo9300.edopro/EdoproDocumentProvider.java:285-302 | `getFileForDocId(getDocIdForFile(f))` finds `f` again for every entry |
| FileTree.EntryRow | src/main/java/io.github.edo9300.edopro/EdoproDocumentProvider.java:328-357 | a row exists for every entry except the root, whose missing parent makes the flag computation throw; its id reads back as the entry, its name is the last component, and its delete and write flags match the permissions |
| FileTree.ListFiles | src/main/java/io.github.edo9300.edopro/EdoproDocumentProvider.java:211 | `listFiles()` yields each child of the directory exactly once |
| PathWalk.FindDocumentPath | src/main/java/io.github.edo9300.edopro/EdoproDocumentProvider.java:125-140 | succeeds exactly when the document exists below (or at) the parent, and then returns the ids from the parent down to the document |
| PathWalk.ChainShape | src/main/java/io.github.edo9300.edopro/EdoproDocumentProvider.java:133-139 | that list starts at the parent's id and ends at the document's id, has one id per level, and each id is the parent directory of the next |
| PathWalk.FindPath | src/main/java/io.github.edo9300.edopro/EdoproDocumentProvider.java:142-155 | fails without a base directory or when either id is missing or not nested; otherwise returns the chain, with the root id set exactly when no parent id was given |
| Search.UpperCaseQueryMatchesNothing | src/main/java/io.github.edo9300.edopro/EdoproDocumentProvider.java:270 | names are lower-cased but the query is not, so a query with an upper-case letter matches nothing |
| Search.QuerySearchDocuments | src/main/java/io.github.edo9300.edopro/EdoproDocumentProvider.java:243-278 | fails exactly for a missing root; returns at most 50 distinct matching files (inside home, reached through directories inside home, name contains the query), in non-decreasing depth; every matching file left out is at least as deep as every result, so the cap keeps the shallowest matches; with fewer than 50 results, every matching file is among them |
| Naming.SuffixAfterExtension | src/main/java/io.github.edo9300.edopro/EdoproDocumentProvider.java:188-191 | the names tried are "x", "x (2)", "x (3)", …, and the suffix follows the extension ("a.txt (2)") |
| Naming.CandidateInParent | src/main/java/io.github.edo9300.edopro/EdoproDocumentProvider.java:188-191 | for a single-component display name, every candidate is a direct child of the parent directory |
| Naming.FirstFreeUnique | src/main/java/io.github.edo9300.edopro/EdoproDocumentProvider.java:189-192 | the first free candidate is unique |
| Naming.CandidateBound | src/main/java/io.github.edo9300.edopro/EdoproDocumentProvider.java:189-192 | candidates numbered from 10^b on do not exist in a tree whose paths have at most b characters, so the collision loop ends |
| DocumentProvider.FirstFreeCandidate | src/main/java/io.github.edo9300.edopro/EdoproDocumentProvider.java:188-192 | the collision loop ends, on the first candidate name that is not an entry, and returns that candidate and its number |
| DocumentProvider.CreateKeepsWellFormed | src/main/java/io.github.edo9300.edopro/EdoproDocumentProvider.java:193-199 | a successful `mkdir` / `createNewFile` keeps every entry inside a directory |
| DocumentProvider.Provider.CreateDocument | src/main/java/io.github.edo9300.edopro/EdoproDocumentProvider.java:186-207 | takes the first candidate name that does not exist; creates a directory for the directory type and an empty file otherwise; returns its id, or FileNotFoundException when creation fails, leaving the tree unchanged |
| TreeDeletion.DeleteChildless | src/main/java/io.github.edo9300.edopro/EdoproDocumentProvider.java:214 | deleting an entry without children keeps the tree well formed |
| DocumentProvider.Provider.DeleteNode | src/main/java/io.github.edo9300.edopro/EdoproDocumentProvider.java:214 | `delete()` succeeds exactly for an existing, childless entry in a writable directory, and removes only it |
| TreeDeletion.FinishSucceeds | src/main/java/io.github.edo9300.edopro/EdoproDocumentProvider.java:209-215 | once the children are done, deleting the entry itself succeeds exactly when every entry of its subtree sits in a writable directory |
| TreeDeletion.FinishPrune | src/main/java/io.github.edo9300.edopro/EdoproDocumentProvider.java:209-215 | after the children, the final `delete()` completes the tree that bottom-up deletion leaves |
| DocumentProvider.Provider.DeleteRecursive | src/main/java/io.github.edo9300.edopro/EdoproDocumentProvider.java:209-215 | tries `delete()` once on every entry of the subtree, children before parents, and removes exactly the entries whose subtree lies wholly in writable directories |
| TreeDeletion.PruneAllWritable | src/main/java/io.github.edo9300.edopro/EdoproDocumentProvider.java:209-215 | when every directory involved is writable, nothing at or below the entry survives |
| TreeDeletion.ReadOnlyKeepsAncestors | src/main/java/io.github.edo9300.edopro/EdoproDocumentProvider.java:209-215 | an entry in a read-only directory survives, and so do all its ancestors up to the deleted entry |
| DocumentProvider.Provider.DeleteDocument | src/main/java/io.github.edo9300.edopro/EdoproDocumentProvider.java:217-225 | a missing id, or a file that cannot be deleted, raises FileNotFoundException; a directory is deleted recursively and never reports failure |
| Renaming.RenameTargetSibling | src/main/java/io.github.edo9300.edopro/EdoproDocumentProvider.java:230 | a single-component new name keeps the entry in its own directory |
| Renaming.MovedContents | src/main/java/io.github.edo9300.edopro/EdoproDocumentProvider.java:231 | after `renameTo`, the old path is gone, the new path holds the entry, every entry of the old subtree reappears at the same place below the new path, and every entry outside the moved subtree is untouched |
| Renaming.MovedWellFormed | src/main/java/io.github.edo9300.edopro/EdoproDocumentProvider.java:231 | moving a subtree keeps every entry inside a directory |
| Renaming.ExistingTargetUntouched | src/main/java/io.github.edo9300.edopro/EdoproDocumentProvider.java:231 | an existing target is never overwritten: the tree stays as it was |
| Renaming.RenamedIdOnCollision | src/main/java/io.github.edo9300.edopro/EdoproDocumentProvider.java:227-235 | renaming "/d/a" to "b" when "/d/b" exists changes nothing, yet returns "/d/b", which names a different document |
| Renaming.IntendedRenamedIdNamesDocument | src/main/java/io.github.edo9300.edopro/EdoproDocumentProvider.java:227-235 | the corrected id always names the renamed document in the tree after the call |
| DocumentProvider.Provider.RenameDocument | src/main/java/io.github.edo9300.edopro/EdoproDocumentProvider.java:227-235 | fails exactly for a missing id; otherwise moves the entry when the target is free and `renameTo` succeeds, and returns the target's id in every case; after a real move that id is the intended one |
| ScopedAddress.NormalizeUri | src/main/java/io.github.edo9300.edopro/StorageOperations.java:31-33 | the address starts with the granted root, and the encoded part holds no raw '/' |
| ScopedAddress.NoRawSlash | src/main/java/io.github.edo9300.edopro/StorageOperations.java:32 | `Uri.encode` never leaves a raw '/' |
| ScopedAddress.EncodeJoin | src/main/java/io.github.edo9300.edopro/StorageOperations.java:32 | encoding "a/b" gives the encodings of "a" and "b" around "%2F" |
| ScopedAddress.EncodeNoSep | src/main/java/io.github.edo9300.edopro/StorageOperations.java:32 | a name without '/' encodes to text without "%2F" |
| ScopedAddress.RemovesInnerRoot | src/main/java/io.github.edo9300.edopro/StorageOperations.java:32 | every occurrence of the root string is removed from the input, not just a leading one |
| ScopedAddress.NormalizeWithoutRoot | src/main/java/io.github.edo9300.edopro/StorageOperations.java:32 | a path without the root string in it is just encoded behind the root |
| ScopedAddress.DecodeEncode | src/main/java/io.github.edo9300.edopro/StorageOperations.java:143 | `Uri.decode` undoes `Uri.encode` on ASCII text |
| ScopedAddress.GetPathAndFilenameFromUri | src/main/java/io.github.edo9300.edopro/StorageOperations.java:95-104 | after one trailing "%2F" is dropped, the split fails exactly when no "%2F" is left; otherwise parent + "%2F" + leaf rebuilds the input, and the leaf holds no "%2F" |
| ScopedAddress.SplitAtLast | src/main/java/io.github.edo9300.edopro/StorageOperations.java:95-104 | an address ending in "%2F" and a leaf free of separators splits into exactly that parent and leaf |
| ScopedAddress.SplitEncoded | src/main/java/io.github.edo9300.edopro/StorageOperations.java:95-104 | splitting the normalized form of "a/b" gives the address of "a" and the encoding of "b" |
| ScopedAddress.CreatedWhereSplit | src/main/java/io.github.edo9300.edopro/StorageOperations.java:115-117 | for an ASCII leaf, the split parent plus the re-encoded decoded leaf is the address that was split |
| Storage.Classify | src/main/java/io.github.edo9300.edopro/StorageOperations.java:71-93 | NONE for an exception, a null cursor or no rows; otherwise FOLDER exactly when the first row's type is the directory type, FILE for any other type |
| Storage.ClassifyInTree | src/main/java/io.github.edo9300.edopro/StorageOperations.java:76-86 | on the content tree: NONE exactly for a missing address, FOLDER for a folder, FILE for any other document |
| Storage.AddChildClassifies | src/main/java/io.github.edo9300.edopro/StorageOperations.java:118-121 | a created folder then classifies as FOLDER and a created file as FILE; every other address keeps its class |
| Storage.CreatedAtNormalized | src/main/java/io.github.edo9300.edopro/StorageOperations.java:109-117 | for an ASCII name and a path without the root string in it, the bridge creates the document at exactly the normalized address it classified |
| Storage.AddChildListed | src/main/java/io.github.edo9300.edopro/StorageOperations.java:208-216 | a created document becomes its folder's last child and is listed under its name, with a trailing '/' for a folder |
| Storage.OpenDispatch | src/main/java/io.github.edo9300.edopro/StorageOperations.java:158-175 | a missing address is created first exactly when the mode is non-empty and is neither "r" nor "rw"; an existing file is opened exactly when the mode is non-empty; everything else returns -1 |
| Storage.ListedNameMarksFolders | src/main/java/io.github.edo9300.edopro/StorageOperations.java:209-216 | a listed name keeps the document's name and ends in '/' exactly for a folder |
| Storage.ChunkAt | src/main/java/io.github.edo9300.edopro/StorageOperations.java:249-253 | each read returns at most 1024 bytes, never past the end, and returns 0 only at the end |
| Storage.StorageOperations.Normalize | src/main/java/io.github.edo9300.edopro/StorageOperations.java:31-33 | every normalized address lies below the granted root |
| Storage.StorageOperations.CreateChild | src/main/java/io.github.edo9300.edopro/StorageOperations.java:118-121 | `createDirectory` / `createFile` succeed exactly under an existing folder when the child's address is free; they add the child and change nothing else |
| Storage.StorageOperations.ContentUriCreateFile | src/main/java/io.github.edo9300.edopro/StorageOperations.java:137-153 | creates an application/octet-stream document named by the decoded leaf, or reports false and changes nothing |
| Storage.StorageOperations.ContentUriCreateDirectory | src/main/java/io.github.edo9300.edopro/StorageOperations.java:106-135 | an existing folder gives true and an existing file false, both without change; a missing address is created as a folder under its split parent, and true means that creation succeeded |
| Storage.StorageOperations.OpenFileDescriptor | src/main/java/io.github.edo9300.edopro/StorageOperations.java:176-182 | a descriptor is handed out exactly for an existing file and a valid mode; otherwise the result is -1 |
| Storage.StorageOperations.OpenContentUri | src/main/java/io.github.edo9300.edopro/StorageOperations.java:155-191 | an empty mode, a folder, or a missing address with mode "r" or "rw" returns -1 and changes nothing; a missing address with any other mode is created first; the result is a fresh descriptor or -1 |
| Storage.StorageOperations.ListFolderUri | src/main/java/io.github.edo9300.edopro/StorageOperations.java:193-229 | one name per child in query order, folders with a trailing '/'; empty for an address that is not a document |
| Storage.StorageOperations.WriteAll | src/main/java/io.github.edo9300.edopro/StorageOperations.java:247-253 | opening with "w" and writing every chunk leaves the output document holding exactly the source bytes |
| Storage.StorageOperations.ContentUriCopyFile | src/main/java/io.github.edo9300.edopro/StorageOperations.java:231-259 | the copy is skipped exactly when the target already exists, and then nothing changes; the copy succeeds exactly when the file is created at the target address and the source is readable, and the target then holds the source bytes; a failure after creation leaves an empty file |

## Left out

- The cursor plumbing of `queryRoots`, `queryDocument` and `queryChildDocuments`: rows are modelled by `FileTree.EntryRow` and listings by `FileTree.ListFiles`. The size, last-modified and icon columns are not modelled.
- `openDocument`, `openDocumentThumbnail`, `getDocumentType` and `onCreate` only forward to the platform.
- `getBaseDir` reads a file from the working directory; the base directory is a parameter.
- A canonical path is taken to be the absolute path, because the model has no symbolic links. The `IOException` branch of the home test is therefore unreachable.
- Every document id is read as an absolute path; relative ids are not modelled. "." and ".." are ordinary names.
- Renaming the filesystem root: `getParentFile()` is null there and Java resolves the new name against the working directory; the model resolves it against "/".
- The host permission model is reduced to one writable bit per entry. Ownership, sticky bits, a full disk and I/O errors are not modelled; an `IOException` from `createNewFile` counts as a failed creation.
- DocumentProvider.Provider.CreateDocument: the collision counter is unbounded; Java's `int` would wrap after 2^31 - 1 collisions.
- Search.QuerySearchDocuments: returns the matched paths, each standing for the row `EntryRow` gives it. It states the bound, distinctness, depth order, that the cap keeps the shallowest matches, and completeness below 50 results. It does not state the order among entries of the same depth, because `listFiles` has no specified order.
- ScopedAddress.DecodeEncode: proved for ASCII text only. Non-ASCII characters are encoded as UTF-8 escapes, but decoding turns each escaped byte into one character instead of reassembling UTF-8. Malformed escapes are kept literally.
- `String.toLowerCase` is modelled for ASCII letters only (`Strings.ToLower`). The search's name test and the MIME extension lookup use it, so locale-dependent and non-ASCII case mapping is not modelled.
- `Uri.parse(s).toString()` is taken to give back `s`.
- The document provider behind a granted tree is reduced to `Storage.StorageOperations.CreateChild`. Its own collision renaming, display-name sanitising and extension handling are not modelled.
- A query on a missing address is modelled as throwing; a null cursor or an empty cursor classifies the same way.
- Descriptors are recorded as handed out and never closed; the descriptor the copy opens is not recorded.
- Storage.StorageOperations.ContentUriCopyFile: the copy reads full 1024-byte chunks until the end; short reads and I/O errors in the middle of a copy are not modelled. The source file is a parameter, absent when it cannot be opened.
- `contentUriRemoveFile`, `hasAccess`, `closeQuietly`, logging and the API-level annotations are outside the modelled components.
- Concurrent access to either tree is not modelled.
- MainActivity.java is not part of this model.

Where the documentation and the code disagree, the model follows the code. On a name collision, `renameDocument` returns the target's id; it does not signal "not found".

## Findings

| source | as written | input that shows it | evidently intended | confidence | as-written member | corrected member |
|---|---|---|---|---|---|---|
| src/main/java/io.github.edo9300.edopro/EdoproDocumentProvider.java:231-234 | when the target exists or `renameTo` fails, `getDocIdForFile(file)` is computed and discarded, and the target's id is returned anyway | tree with file "/d/a" and directory "/d/b"; `renameDocument("/d/a", "b")` leaves both in place and returns "/d/b" | return the original id when nothing was renamed | not executed; high | Renaming.RenamedIdOnCollision | Renaming.IntendedRenamedIdNamesDocument |
| src/main/java/io.github.edo9300.edopro/EdoproDocumentProvider.java:280-283 | `isChildDocument` is a raw string-prefix test | `isChildDocument("/a/b", "/a/bc")` is true although "/a/bc" is a sibling | a component-boundary test, as `dirContainsFile` performs | not executed; medium | Paths.IsChildDocumentNotBoundarySafe | Paths.DirContainsFileIffPrefix |
