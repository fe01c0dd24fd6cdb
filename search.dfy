/**
 * `querySearchDocuments`: a breadth-first walk below a root document that
 * collects at most 50 files whose lower-cased name contains the query, and
 * neither matches nor descends into entries whose canonical path lies outside
 * the application's home directory.
 */
module Search {
  import opened Wrappers
  import opened Strings
  import opened Paths
  import opened FileTree

  const MAX_SEARCH_RESULTS := 50

  /** The name test of the search: the query itself is not lower-cased. */
  predicate NameMatches(name: string, query: string) {
    Contains(ToLower(name), query)
  }

  /** Every entry from `root` down to, but excluding, `p` lies inside `home`. */
  predicate AncestorsInside(root: Path, p: Path, home: string) {
    forall k :: |root| <= k < |p| ==> StartsWith(Render(p[..k]), home)
  }

  /** A file below `root` that the search reports when it is reached. */
  ghost predicate Match(t: Tree, home: string, root: Path, query: string, p: Path) {
    && p in t
    && root <= p
    && AncestorsInside(root, p, home)
    && StartsWith(Render(p), home)
    && !IsDirectory(t, p)
    && NameMatches(NameOf(p), query)
  }

  /** A query with an upper-case letter matches no name. */
  lemma UpperCaseQueryMatchesNothing(name: string, query: string, j: nat)
    requires j < |query| && IsUpper(query[j])
    ensures !NameMatches(name, query)
  {
  }

  // ---------------------------------------------------------------- loop invariant

  /** Every visited entry lies below `root` and was reached from a visited parent. */
  ghost predicate VisitedOk(t: Tree, root: Path, visited: set<Path>) {
    && visited <= t.Keys
    && forall x :: x in visited ==> root <= x && (x == root || Parent(x) in visited)
  }

  /** What holds of every queued entry. */
  ghost predicate Queued(t: Tree, home: string, root: Path, visited: set<Path>, x: Path) {
    && x in t && root <= x && AncestorsInside(root, x, home)
    && x !in visited
    && (x == root || Parent(x) in visited)
  }

  /** The queue holds distinct unvisited entries, in depth order, spanning at most two depths. */
  ghost predicate PendingOk(t: Tree, home: string, root: Path, pending: seq<Path>, visited: set<Path>) {
    && (forall i :: 0 <= i < |pending| ==> Queued(t, home, root, visited, pending[i]))
    && (forall i, j :: 0 <= i < j < |pending| ==> pending[i] != pending[j])
    && (forall i, j :: 0 <= i < j < |pending| ==> |pending[i]| <= |pending[j]| <= |pending[i]| + 1)
  }

  /** The hits so far are distinct visited matches, no deeper than anything still queued. */
  ghost predicate HitsOk(t: Tree, home: string, root: Path, query: string,
                         hits: seq<Path>, pending: seq<Path>, visited: set<Path>) {
    && (forall i :: 0 <= i < |hits| ==> Match(t, home, root, query, hits[i]) && hits[i] in visited)
    && (forall i, j :: 0 <= i < j < |hits| ==> hits[i] != hits[j] && |hits[i]| <= |hits[j]|)
    && (forall i, j :: 0 <= i < |hits| && 0 <= j < |pending| ==> |hits[i]| <= |pending[j]|)
  }

  /** Every match not yet reported lies at or below a queued entry. */
  ghost predicate FrontierOk(t: Tree, home: string, root: Path, query: string,
                             hits: seq<Path>, pending: seq<Path>) {
    forall p :: Match(t, home, root, query, p) ==>
      p in hits || exists i :: 0 <= i < |pending| && pending[i] <= p
  }

  /** A child of the dequeued directory may be queued once its parent is visited. */
  lemma ChildQueued(t: Tree, home: string, root: Path, visited: set<Path>, f: Path, c: Path)
    requires VisitedOk(t, root, visited)
    requires Queued(t, home, root, visited, f) && StartsWith(Render(f), home)
    requires c in Children(t, f)
    ensures Queued(t, home, root, visited + {f}, c)
    ensures |c| == |f| + 1 && c != root && Parent(c) == f
  {
    assert c[..|f|] == f;
    assert Parent(c) == f;
    forall k | |root| <= k < |c|
      ensures StartsWith(Render(c[..k]), home)
    {
      if k < |f| {
        assert c[..k] == f[..k];
      }
    }
  }

  /** An entry still queued behind the dequeued head stays queued. */
  lemma OtherStillQueued(t: Tree, home: string, root: Path, visited: set<Path>, f: Path, x: Path)
    requires Queued(t, home, root, visited, x) && x != f
    ensures Queued(t, home, root, visited + {f}, x)
  {
  }

  /** Dequeuing the head and, for a directory inside home, queuing its children keeps the queue invariant. */
  lemma PendingStep(t: Tree, home: string, root: Path, before: seq<Path>, visited: set<Path>,
                    kids: seq<Path>, expand: bool)
    requires before != []
    requires VisitedOk(t, root, visited) && PendingOk(t, home, root, before, visited)
    requires expand ==> IsDirectory(t, before[0]) && StartsWith(Render(before[0]), home)
    requires expand ==> forall c :: c in kids <==> c in Children(t, before[0])
    requires forall i, j :: 0 <= i < j < |kids| ==> kids[i] != kids[j]
    requires !expand ==> kids == []
    ensures VisitedOk(t, root, visited + {before[0]})
    ensures PendingOk(t, home, root, before[1..] + kids, visited + {before[0]})
  {
    var f := before[0];
    var v := visited + {f};
    var after := before[1..] + kids;
    assert Queued(t, home, root, visited, f);
    forall i | 0 <= i < |after|
      ensures Queued(t, home, root, v, after[i])
      ensures i >= |before| - 1 ==> |after[i]| == |f| + 1 && Parent(after[i]) == f
    {
      if i < |before| - 1 {
        assert after[i] == before[i + 1];
        assert before[0] != before[i + 1];
        OtherStillQueued(t, home, root, visited, f, after[i]);
      } else {
        assert after[i] in kids;
        ChildQueued(t, home, root, visited, f, after[i]);
      }
    }
    forall i, j | 0 <= i < j < |after|
      ensures after[i] != after[j] && |after[i]| <= |after[j]| <= |after[i]| + 1
    {
      if j < |before| - 1 {
        assert after[i] == before[i + 1] && after[j] == before[j + 1];
      } else if i < |before| - 1 {
        assert after[i] == before[i + 1];
        assert |f| <= |after[i]| <= |f| + 1;
        assert Queued(t, home, root, visited, after[i]);
      } else {
        assert after[i] == kids[i - |before| + 1] && after[j] == kids[j - |before| + 1];
      }
    }
  }

  /** The dequeued head, when it is a match inside home, extends the hits in order. */
  lemma HitsStep(t: Tree, home: string, root: Path, query: string, hits: seq<Path>,
                 before: seq<Path>, visited: set<Path>, kids: seq<Path>, hit: bool)
    requires before != []
    requires PendingOk(t, home, root, before, visited)
    requires HitsOk(t, home, root, query, hits, before, visited)
    requires hit ==> Match(t, home, root, query, before[0])
    requires forall c :: c in kids ==> |c| == |before[0]| + 1
    ensures HitsOk(t, home, root, query, hits + (if hit then [before[0]] else []),
                   before[1..] + kids, visited + {before[0]})
  {
    var f := before[0];
    var hits' := hits + (if hit then [f] else []);
    var after := before[1..] + kids;
    forall i, j | 0 <= i < |hits'| && 0 <= j < |after|
      ensures |hits'[i]| <= |after[j]|
    {
      if j < |before| - 1 {
        assert after[j] == before[j + 1];
      } else {
        assert after[j] in kids;
      }
    }
  }

  /** A match at or below the dequeued head is reported now or lies below one of its children. */
  lemma BelowHead(t: Tree, home: string, root: Path, query: string, f: Path, p: Path)
    returns (c: Path)
    requires WellFormed(t)
    requires Match(t, home, root, query, p) && f <= p && f != p && root <= f
    ensures StartsWith(Render(f), home) && IsDirectory(t, f)
    ensures c in Children(t, f) && c <= p
  {
    assert p[..|f|] == f;
    AncestorIsDirectory(t, p, |f|);
    c := p[..|f| + 1];
    if |f| + 1 < |p| {
      AncestorIsDirectory(t, p, |f| + 1);
    } else {
      assert c == p;
    }
    assert c[..|f|] == f;
  }

  lemma AppendIndex(a: seq<Path>, b: seq<Path>, j: nat)
    requires j < |b|
    ensures (a + b)[|a| + j] == b[j]
  {
  }

  /** Dequeuing the head keeps every unreported match at or below a queued entry. */
  lemma FrontierStep(t: Tree, home: string, root: Path, query: string, hits: seq<Path>,
                     before: seq<Path>, kids: seq<Path>, expand: bool, hit: bool)
    requires WellFormed(t) && before != [] && root <= before[0]
    requires FrontierOk(t, home, root, query, hits, before)
    requires expand == (StartsWith(Render(before[0]), home) && IsDirectory(t, before[0]))
    requires expand ==> forall c :: c in kids <==> c in Children(t, before[0])
    requires hit == (StartsWith(Render(before[0]), home) && !IsDirectory(t, before[0])
                     && NameMatches(NameOf(before[0]), query))
    ensures FrontierOk(t, home, root, query, hits + (if hit then [before[0]] else []), before[1..] + kids)
  {
    var f := before[0];
    var hits' := hits + (if hit then [f] else []);
    var after := before[1..] + kids;
    forall p | Match(t, home, root, query, p)
      ensures p in hits' || exists i :: 0 <= i < |after| && after[i] <= p
    {
      if p !in hits {
        var i :| 0 <= i < |before| && before[i] <= p;
        if i > 0 {
          assert after[i - 1] == before[i];
        } else if f != p {
          var c := BelowHead(t, home, root, query, f, p);
          var j :| 0 <= j < |kids| && kids[j] == c;
          AppendIndex(before[1..], kids, j);
        }
      }
    }
  }

  // ---------------------------------------------------------------- the search

  /**
   * `querySearchDocuments`, returning the matched files in the order their rows
   * are added (each row is `EntryRow` of its file). `home` is the parent of the
   * application's files directory; a canonical path is the absolute path.
   */
  method QuerySearchDocuments(t: Tree, home: string, rootId: string, query: string)
    returns (r: Result<seq<Path>, Error>)
    requires WellFormed(t)
    ensures r.Err? <==> Parse(rootId) !in t
    ensures r.Ok? ==> |r.value| <= MAX_SEARCH_RESULTS
    ensures r.Ok? ==> forall i :: 0 <= i < |r.value| ==> Match(t, home, Parse(rootId), query, r.value[i])
    ensures r.Ok? ==> forall i, j :: 0 <= i < j < |r.value| ==> r.value[i] != r.value[j]
    ensures r.Ok? ==> forall i, j :: 0 <= i < j < |r.value| ==> |r.value[i]| <= |r.value[j]|
    ensures r.Ok? && |r.value| < MAX_SEARCH_RESULTS ==>
              forall p :: Match(t, home, Parse(rootId), query, p) ==> p in r.value
    ensures r.Ok? ==> forall p, i ::
              (Match(t, home, Parse(rootId), query, p) && p !in r.value && 0 <= i < |r.value|) ==>
              |r.value[i]| <= |p|
  {
    var parent := GetFileForDocId(t, rootId);
    if parent.Err? {
      return Err(FileNotFound);
    }
    var root := parent.value;
    var pending := [root];
    var hits: seq<Path> := [];
    ghost var visited: set<Path> := {};
    forall p | Match(t, home, root, query, p)
      ensures pending[0] <= p
    {
    }
    while pending != [] && |hits| < MAX_SEARCH_RESULTS
      invariant |hits| <= MAX_SEARCH_RESULTS
      invariant VisitedOk(t, root, visited)
      invariant PendingOk(t, home, root, pending, visited)
      invariant HitsOk(t, home, root, query, hits, pending, visited)
      invariant FrontierOk(t, home, root, query, hits, pending)
      decreases |t.Keys - visited|
    {
      var file := pending[0];
      ghost var before, oldHits, oldVisited := pending, hits, visited;
      pending := pending[1..];
      visited := visited + {file};
      assert t.Keys - visited == (t.Keys - oldVisited) - {file};
      var isInsideHome := StartsWith(GetDocIdForFile(file), home);
      var kids: seq<Path> := [];
      if isInsideHome {
        if IsDirectory(t, file) {
          kids := ListFiles(t, file);
          pending := pending + kids;
        } else if NameMatches(NameOf(file), query) {
          hits := hits + [file];
        }
      }
      ghost var expand := isInsideHome && IsDirectory(t, file);
      ghost var hit := isInsideHome && !IsDirectory(t, file) && NameMatches(NameOf(file), query);
      assert pending == before[1..] + kids;
      assert hits == oldHits + (if hit then [file] else []);
      PendingStep(t, home, root, before, oldVisited, kids, expand);
      HitsStep(t, home, root, query, oldHits, before, oldVisited, kids, hit);
      FrontierStep(t, home, root, query, oldHits, before, kids, expand, hit);
    }
    forall p, i | Match(t, home, root, query, p) && p !in hits && 0 <= i < |hits|
      ensures |hits[i]| <= |p|
    {
      var j :| 0 <= j < |pending| && pending[j] <= p;
      assert |hits[i]| <= |pending[j]|;
    }
    r := Ok(hits);
  }
}
