/**
 * Absolute paths of the host filesystem and the two descendant tests of the
 * document provider. A path is a sequence of components; `Render` gives the
 * string `File.getAbsolutePath()` returns for it, which is also the document id.
 */
module Paths {
  import opened Wrappers
  import opened Strings

  /** One path component: non-empty and free of the separator. */
  type Name = s: string | s != [] && '/' !in s witness "a"

  type Path = seq<Name>

  /** "/c0/c1/.../cn" for a non-empty path, "" for the empty one. */
  function Slashed(p: Path): string {
    if p == [] then [] else "/" + p[0] + Slashed(p[1..])
  }

  /** The absolute path string of `p`; the filesystem root is "/". */
  function Render(p: Path): string {
    if p == [] then "/" else Slashed(p)
  }

  /** Splits `s` at '/' and drops empty components; `cur` is the component being read. */
  function ParseFrom(s: string, cur: string): seq<Name>
    requires '/' !in cur
    decreases |s|
  {
    if s == [] then (if cur == [] then [] else [cur])
    else if s[0] == '/' then (if cur == [] then [] else [cur]) + ParseFrom(s[1..], [])
    else ParseFrom(s[1..], cur + [s[0]])
  }

  /**
   * The path `new File(s)` denotes: repeated and trailing separators collapse,
   * every string is read as an absolute path.
   */
  function Parse(s: string): Path {
    ParseFrom(s, [])
  }

  /** `getParentFile()`: absent for the root. */
  function ParentOf(p: Path): (r: Option<Path>)
    ensures r.Some? <==> p != []
    ensures r.Some? ==> r.value + [p[|p| - 1]] == p
  {
    if p == [] then None else Some(p[..|p| - 1])
  }

  /** `getName()`: the last component, "" for the root. */
  function NameOf(p: Path): string {
    if p == [] then "" else p[|p| - 1]
  }

  /**
   * `dirContainsFile`: false for a null argument, true for equal paths, and
   * otherwise a prefix test against the directory path followed by '/'.
   */
  function DirContainsFile(dir: Option<string>, file: Option<string>): bool {
    if dir.None? || file.None? then false
    else if dir.value == file.value then true
    else
      var dirPath := if EndsWith(dir.value, "/") then dir.value else dir.value + "/";
      StartsWith(file.value, dirPath)
  }

  /** `isChildDocument`: a raw string-prefix test on the two ids. */
  function IsChildDocument(parentId: string, documentId: string): bool {
    StartsWith(documentId, parentId)
  }

  // ---------------------------------------------------------------- Parse and Render

  lemma {:induction false} ParseChunk(c: string, rest: string, cur: string)
    requires '/' !in c && '/' !in cur
    ensures ParseFrom(c + rest, cur) == ParseFrom(rest, cur + c)
    decreases |c|
  {
    if c == [] {
      assert c + rest == rest;
      assert cur + c == cur;
    } else {
      assert (c + rest)[0] == c[0];
      assert (c + rest)[1..] == c[1..] + rest;
      ParseChunk(c[1..], rest, cur + [c[0]]);
      assert cur + [c[0]] + c[1..] == cur + c;
    }
  }

  lemma {:induction false} ParseSlashed(q: Path, c: Name)
    ensures ParseFrom(Slashed(q), c) == [c] + q
    decreases |q|
  {
    if q != [] {
      var s := Slashed(q);
      assert s == "/" + q[0] + Slashed(q[1..]);
      assert s[0] == '/' && s[1..] == q[0] + Slashed(q[1..]);
      ParseChunk(q[0], Slashed(q[1..]), []);
      assert [] + q[0] == q[0];
      ParseSlashed(q[1..], q[0]);
      assert [c] + ([q[0]] + q[1..]) == [c] + q;
    }
  }

  /** Document ids round-trip: the path of the id of `p` is `p`. */
  lemma {:induction false} ParseRender(p: Path)
    ensures Parse(Render(p)) == p
  {
    if p == [] {
      assert Render(p) == "/";
      assert ParseFrom("/", []) == [] + ParseFrom([], []);
    } else {
      var s := Slashed(p);
      assert s == "/" + p[0] + Slashed(p[1..]);
      assert s[0] == '/' && s[1..] == p[0] + Slashed(p[1..]);
      ParseChunk(p[0], Slashed(p[1..]), []);
      assert [] + p[0] == p[0];
      ParseSlashed(p[1..], p[0]);
      assert [p[0]] + p[1..] == p;
    }
  }

  /** Two paths with the same id are the same path. */
  lemma RenderInjective(p: Path, q: Path)
    requires Render(p) == Render(q)
    ensures p == q
  {
    ParseRender(p);
    ParseRender(q);
  }

  // ---------------------------------------------------------------- containment

  lemma {:induction false} SlashedAppend(p: Path, q: Path)
    ensures Slashed(p + q) == Slashed(p) + Slashed(q)
    decreases |p|
  {
    if p == [] {
      assert p + q == q;
    } else {
      assert (p + q)[0] == p[0] && (p + q)[1..] == p[1..] + q;
      SlashedAppend(p[1..], q);
    }
  }

  lemma {:induction false} SlashedShape(p: Path)
    requires p != []
    ensures |Slashed(p)| >= 2 && Slashed(p)[0] == '/' && Slashed(p)[|Slashed(p)| - 1] != '/'
    decreases |p|
  {
    if |p| > 1 {
      SlashedShape(p[1..]);
    } else {
      assert Slashed(p) == "/" + p[0];
    }
  }

  /**
   * Two component-led strings where the first, followed by '/', is a prefix of
   * the second: their leading components agree and the rests keep the relation.
   */
  lemma FirstComponent(a: Name, ra: string, b: Name, rb: string)
    requires ra == [] || ra[0] == '/'
    requires rb == [] || rb[0] == '/'
    requires a + ra + "/" <= b + rb
    ensures a == b && ra + "/" <= rb
  {
    var X, Y := a + ra + "/", b + rb;
    var n, m := |a|, |b|;
    assert X == Y[..|X|];
    assert X[n] == '/' && Y[n] == '/';
    assert forall i :: 0 <= i < m ==> Y[i] == b[i];
    assert n >= m;
    assert forall i :: 0 <= i < n ==> X[i] == a[i];
    assert rb != [] ==> Y[m] == '/';
    assert n <= m;
    assert a == X[..n] && b == Y[..n];
    assert ra + "/" == X[n..] && rb == Y[n..];
  }

  /** A directory id followed by '/' is a prefix of a file id only for a proper prefix path. */
  lemma {:induction false} SlashedBoundary(d: Path, f: Path)
    requires d != []
    requires StartsWith(Slashed(f), Slashed(d) + "/")
    ensures d < f
    decreases |d|
  {
    if f == [] {
      assert false;
    }
    if d[1..] != [] {
      SlashedShape(d[1..]);
    }
    if f[1..] != [] {
      SlashedShape(f[1..]);
    }
    var X := d[0] + Slashed(d[1..]) + "/";
    var Y := f[0] + Slashed(f[1..]);
    assert Slashed(d) + "/" == "/" + X;
    assert Slashed(f) == "/" + Y;
    assert X == ("/" + X)[1..] && Y[..|X|] == ("/" + Y)[1..|X| + 1];
    FirstComponent(d[0], Slashed(d[1..]), f[0], Slashed(f[1..]));
    if d[1..] == [] {
      assert f[1..] != [];
      assert d == [d[0]] && f == [f[0]] + f[1..];
    } else {
      SlashedBoundary(d[1..], f[1..]);
      assert d == [d[0]] + d[1..] && f == [f[0]] + f[1..];
    }
  }

  /**
   * `dirContainsFile` is boundary safe: on the ids of two paths it holds exactly
   * when the directory's components are a prefix of the file's.
   */
  lemma DirContainsFileIffPrefix(d: Path, f: Path)
    ensures DirContainsFile(Some(Render(d)), Some(Render(f))) <==> d <= f
  {
    if d == [] {
      if f != [] {
        SlashedShape(f);
      }
    } else {
      SlashedShape(d);
      assert !EndsWith(Render(d), "/");
      if Render(d) == Render(f) {
        RenderInjective(d, f);
      } else {
        if d == f {
          assert false;
        }
        if StartsWith(Render(f), Render(d) + "/") {
          if f == [] {
            assert false;
          }
          SlashedBoundary(d, f);
        }
        if d < f {
          SlashedAppend(d, f[|d|..]);
          assert d + f[|d|..] == f;
          SlashedShape(f[|d|..]);
        }
      }
    }
  }

  /** A null directory or file is never contained. */
  lemma NullNeverContained(p: Option<string>)
    ensures !DirContainsFile(None, p) && !DirContainsFile(p, None)
  {
  }

  /** The raw prefix test accepts a sibling whose name merely extends the directory's. */
  lemma IsChildDocumentNotBoundarySafe()
    ensures IsChildDocument("/a/b", "/a/bc")
    ensures !DirContainsFile(Some("/a/b"), Some("/a/bc"))
  {
    assert "/a/b" <= "/a/bc";
    var dirPath := "/a/b" + "/";
    assert "/a/bc"[4] != dirPath[4];
  }

  /** The same pair as paths: ["a","bc"] is not below ["a","b"], yet its id is "a child". */
  lemma IsChildDocumentDisagrees()
    ensures IsChildDocument(Render(["a", "b"]), Render(["a", "bc"]))
    ensures !(["a", "b"] <= ["a", "bc"])
  {
    assert Render(["a", "b"]) == "/a/b";
    assert Render(["a", "bc"]) == "/a/bc";
    assert "/a/b" <= "/a/bc";
  }

  /** Every string is a child document of itself. */
  lemma IsChildDocumentReflexive(id: string)
    ensures IsChildDocument(id, id)
  {
  }

  /** Whatever `dirContainsFile` accepts, `isChildDocument` accepts too. */
  lemma DirContainsImpliesIsChild(dir: string, file: string)
    requires DirContainsFile(Some(dir), Some(file))
    ensures IsChildDocument(dir, file)
  {
    if dir != file && !EndsWith(dir, "/") {
      assert dir <= dir + "/";
    }
  }

  // ---------------------------------------------------------------- sizes

  /** The number of characters in a path's components. */
  function Chars(p: Path): nat {
    if p == [] then 0 else |p[0]| + Chars(p[1..])
  }

  /** The number of characters of `s` other than '/'. */
  function NonSlash(s: string): nat {
    if s == [] then 0 else (if s[0] == '/' then 0 else 1) + NonSlash(s[1..])
  }

  lemma {:induction false} CharsAppend(p: Path, q: Path)
    ensures Chars(p + q) == Chars(p) + Chars(q)
    decreases |p|
  {
    if p != [] {
      assert (p + q)[0] == p[0] && (p + q)[1..] == p[1..] + q;
      CharsAppend(p[1..], q);
    } else {
      assert p + q == q;
    }
  }

  lemma {:induction false} NonSlashAppend(a: string, b: string)
    ensures NonSlash(a + b) == NonSlash(a) + NonSlash(b)
    decreases |a|
  {
    if a != [] {
      assert (a + b)[0] == a[0] && (a + b)[1..] == a[1..] + b;
      NonSlashAppend(a[1..], b);
    } else {
      assert a + b == b;
    }
  }

  lemma {:induction false} NonSlashNoSlash(s: string)
    requires '/' !in s
    ensures NonSlash(s) == |s|
    decreases |s|
  {
    if s != [] {
      NonSlashNoSlash(s[1..]);
    }
  }

  /** Parsing keeps every character except the separators. */
  lemma {:induction false} ParseChars(s: string, cur: string)
    requires '/' !in cur
    ensures Chars(ParseFrom(s, cur)) == |cur| + NonSlash(s)
    decreases |s|
  {
    if s == [] {
      if cur != [] {
        assert Chars([cur]) == |cur| + Chars([]);
      }
    } else if s[0] == '/' {
      var head: seq<Name> := if cur == [] then [] else [cur];
      ParseChars(s[1..], []);
      CharsAppend(head, ParseFrom(s[1..], []));
      if cur != [] {
        assert Chars([cur]) == |cur| + Chars([]);
      }
    } else {
      ParseChars(s[1..], cur + [s[0]]);
    }
  }

  /** Some bound on the size of every path in a finite set. */
  ghost function MaxChars(paths: set<Path>): (b: nat)
    ensures forall p :: p in paths ==> Chars(p) <= b
  {
    if paths == {} then 0
    else
      var p :| p in paths;
      var rest := MaxChars(paths - {p});
      if Chars(p) > rest then Chars(p) else rest
  }
}
