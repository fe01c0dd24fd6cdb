/**
 * The names `createDocument` tries in turn: the display name itself, then the
 * display name followed by " (2)", " (3)", and so on. Each candidate is resolved
 * the way `new File(parentDocumentId, name)` resolves it.
 */
module Naming {
  import opened Strings
  import opened Paths

  /** The k-th name tried: `name` for k = 1, `name + " (k)"` from k = 2 on. */
  function CandidateName(name: string, k: nat): string {
    if k <= 1 then name else name + " (" + Dec(k) + ")"
  }

  /** The path of `new File(parentId, CandidateName(name, k))`. */
  function Candidate(parentId: string, name: string, k: nat): Path {
    Parse(parentId + "/" + CandidateName(name, k))
  }

  /** `k` is the first candidate that does not exist in `taken`. */
  ghost predicate FirstFree(taken: set<Path>, parentId: string, name: string, k: nat) {
    k >= 1 && Candidate(parentId, name, k) !in taken &&
    forall j :: 1 <= j < k ==> Candidate(parentId, name, j) in taken
  }

  /** At most one candidate is the first free one. */
  lemma FirstFreeUnique(taken: set<Path>, parentId: string, name: string, k1: nat, k2: nat)
    requires FirstFree(taken, parentId, name, k1) && FirstFree(taken, parentId, name, k2)
    ensures k1 == k2
  {
  }

  /** The suffix follows the whole display name, extension included. */
  lemma SuffixAfterExtension()
    ensures CandidateName("x", 1) == "x"
    ensures CandidateName("x", 2) == "x (2)"
    ensures CandidateName("x", 3) == "x (3)"
    ensures CandidateName("a.txt", 2) == "a.txt (2)"
  {
    assert Dec(2) == "2" && Dec(3) == "3";
  }

  /**
   * For a display name that is a single component, every candidate is a direct
   * child of the parent directory.
   */
  lemma {:induction false} CandidateInParent(parent: Path, name: Name, k: nat)
    ensures CandidateName(name, k) != [] && '/' !in CandidateName(name, k)
    ensures Candidate(Render(parent), name, k) == parent + [CandidateName(name, k)]
  {
    var c: Name := CandidateName(name, k);
    assert Slashed([c]) == "/" + c + Slashed([]);
    SlashedAppend(parent, [c]);
    ParseRender(parent + [c]);
    if parent == [] {
      assert Render(parent) + "/" + c == "/" + Slashed([c]);
      assert ParseFrom("/" + Slashed([c]), []) == [] + ParseFrom(Slashed([c]), []);
      assert Render([c]) == Slashed([c]);
    } else {
      assert Render(parent) + "/" + c == Slashed(parent + [c]);
    }
  }

  /** Every candidate from k = 2 on is at least as long as the decimal digits of k. */
  lemma CandidateChars(parentId: string, name: string, k: nat)
    requires k >= 2
    ensures Chars(Candidate(parentId, name, k)) >= |Dec(k)|
  {
    var x := parentId + "/" + name + " (";
    var y := Dec(k) + ")";
    assert parentId + "/" + CandidateName(name, k) == x + y;
    ParseChars(x + y, []);
    NonSlashAppend(x, y);
    NonSlashNoSlash(y);
  }

  /**
   * Among the candidates numbered 2 or more, none numbered at least
   * 10^b exists in a tree whose paths have at most `b` characters.
   */
  lemma CandidateBound(taken: set<Path>, parentId: string, name: string, k: nat)
    requires k >= 2 && k >= Pow10(MaxChars(taken))
    ensures Candidate(parentId, name, k) !in taken
  {
    CandidateChars(parentId, name, k);
    DecLength(k, MaxChars(taken));
  }
}
