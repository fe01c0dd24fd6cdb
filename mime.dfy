/**
 * MIME classification of host entries and the capability flags reported for
 * each entry (`getMimeType` and the flag part of `includeFile`). The platform's
 * extension table (`MimeTypeMap`) is an injected map from lower-case
 * extensions to MIME types.
 */
module MimeTypes {
  import opened Strings

  /** `DocumentsContract.Document.MIME_TYPE_DIR` */
  const MIME_TYPE_DIR := "vnd.android.document/directory"
  const OCTET_STREAM := "application/octet-stream"
  const TEXT_PLAIN := "text/plain"

  /** Extensions the provider reads as plain text when the table has no entry. */
  predicate IsTextExtension(ext: string) {
    ext == "lua" || ext == "md" || ext == "log"
  }

  /** The lower-cased text after the last '.', if the name has a dot. */
  function Extension(name: string): (r: string)
    requires '.' in name
  {
    ToLower(name[LastIndexOfChar(name, '.') + 1..])
  }

  /** `getMimeType` */
  function GetMimeType(isDirectory: bool, name: string, table: map<string, string>): string {
    if isDirectory then MIME_TYPE_DIR
    else if '.' in name && Extension(name) in table then table[Extension(name)]
    else if '.' in name && IsTextExtension(Extension(name)) then TEXT_PLAIN
    else OCTET_STREAM
  }

  /** The extension is what follows the last dot, whatever the name's earlier dots. */
  lemma ExtensionOfSplit(base: string, ext: string)
    requires '.' !in ext
    ensures '.' in base + "." + ext
    ensures Extension(base + "." + ext) == ToLower(ext)
  {
    var name := base + "." + ext;
    assert name[|base|] == '.';
    var i := LastIndexOfChar(name, '.');
    assert i == |base|;
    assert name[i + 1..] == ext;
  }

  /**
   * For a file named `base.ext` (no dot in `ext`): a table hit on the lower-cased
   * extension wins, "lua", "md" and "log" fall back to text/plain, anything else
   * is a generic binary.
   */
  lemma FileMimeType(base: string, ext: string, table: map<string, string>)
    requires '.' !in ext
    ensures var m := GetMimeType(false, base + "." + ext, table);
      && (ToLower(ext) in table ==> m == table[ToLower(ext)])
      && (ToLower(ext) !in table && IsTextExtension(ToLower(ext)) ==> m == TEXT_PLAIN)
      && (ToLower(ext) !in table && !IsTextExtension(ToLower(ext)) ==> m == OCTET_STREAM)
  {
    ExtensionOfSplit(base, ext);
  }

  /** A file name without a dot is a generic binary. */
  lemma NoDotIsBinary(name: string, table: map<string, string>)
    requires '.' !in name
    ensures GetMimeType(false, name, table) == OCTET_STREAM
  {
  }

  /** Directories are always the directory marker, whatever their name. */
  lemma DirectoryMimeType(name: string, table: map<string, string>)
    ensures GetMimeType(true, name, table) == MIME_TYPE_DIR
  {
  }

  /** Upper-case extensions are looked up in lower case: "SCRIPT.LUA" is text/plain. */
  lemma UpperCaseExtension()
    ensures GetMimeType(false, "SCRIPT.LUA", map[]) == TEXT_PLAIN
  {
    ExtensionOfSplit("SCRIPT", "LUA");
    assert ToLower("LUA") == "lua";
  }

  // ---------------------------------------------------------------- flags

  /** Bit values of `DocumentsContract.Document.FLAG_*`. */
  const FLAG_SUPPORTS_THUMBNAIL: bv32 := 1
  const FLAG_SUPPORTS_WRITE: bv32 := 2
  const FLAG_SUPPORTS_DELETE: bv32 := 4
  const FLAG_DIR_SUPPORTS_CREATE: bv32 := 8
  const FLAG_SUPPORTS_RENAME: bv32 := 64

  /**
   * The flag word `includeFile` computes from an entry's kind, whether it and its
   * parent directory are writable, and its MIME type.
   */
  function DocumentFlags(isDirectory: bool, canWrite: bool, parentCanWrite: bool, mimeType: string): (f: bv32)
    ensures (f & FLAG_SUPPORTS_WRITE != 0) <==> !isDirectory && canWrite
    ensures (f & FLAG_DIR_SUPPORTS_CREATE != 0) <==> isDirectory && canWrite
    ensures (f & FLAG_SUPPORTS_DELETE != 0) <==> parentCanWrite
    ensures (f & FLAG_SUPPORTS_RENAME != 0) <==> parentCanWrite
    ensures (f & FLAG_SUPPORTS_THUMBNAIL != 0) <==> StartsWith(mimeType, "image/")
    ensures f & !(FLAG_SUPPORTS_THUMBNAIL | FLAG_SUPPORTS_WRITE | FLAG_SUPPORTS_DELETE
                  | FLAG_DIR_SUPPORTS_CREATE | FLAG_SUPPORTS_RENAME) == 0
  {
    var f0: bv32 := 0;
    var f1 := if isDirectory then (if canWrite then f0 | FLAG_DIR_SUPPORTS_CREATE else f0)
              else if canWrite then f0 | FLAG_SUPPORTS_WRITE else f0;
    var f2 := if parentCanWrite then f1 | FLAG_SUPPORTS_DELETE | FLAG_SUPPORTS_RENAME else f1;
    if StartsWith(mimeType, "image/") then f2 | FLAG_SUPPORTS_THUMBNAIL else f2
  }
}
