/**
 * Assignments of words to slots, what makes one consistent, and what a solution of
 * the puzzle is. The validator method and the search are proved against these.
 */
module Assignments {
  import opened Wrappers
  import opened Grid
  import opened Domains

  type Assignment = map<Variable, Word>

  /** Every assigned word has its slot's length. */
  predicate LengthsMatch(a: Assignment) {
    forall v :: v in a ==> |a[v]| == v.length
  }

  /** Words `wu` for `u` and `wv` for `v` agree at the overlap of `u` with `v`, if any. */
  predicate PairAgrees(cw: Crossword, u: Variable, wu: Word, v: Variable, wv: Word) {
    match Overlap(cw, u, v)
    case None => true
    case Some((p, q)) => Agree(wu, wv, p, q)
  }

  /** Every two distinct crossing slots agree at their shared cell. */
  predicate OverlapsAgree(cw: Crossword, a: Assignment) {
    forall u, v :: u in a && v in a && u != v ==> PairAgrees(cw, u, a[u], v, a[v])
  }

  /** No word is used for two slots. */
  predicate WordsDistinct(a: Assignment) {
    forall u, v :: u in a && v in a && u != v ==> a[u] != a[v]
  }

  /**
   * What the validator checks for one pair of assigned slots: agreement at their
   * overlap and distinct words. `OverlapsAgree` and `WordsDistinct` ask this of every pair.
   */
  predicate PairValid(cw: Crossword, a: Assignment, u: Variable, v: Variable)
    requires u in a && v in a
  {
    PairAgrees(cw, u, a[u], v, a[v]) && a[u] != a[v]
  }

  /** The three conditions the validator checks. */
  predicate IsConsistent(cw: Crossword, a: Assignment) {
    LengthsMatch(a) && OverlapsAgree(cw, a) && WordsDistinct(a)
  }

  /** `s` contains `a` as a sub-map. */
  predicate Extends(s: Assignment, a: Assignment) {
    forall v :: v in a ==> v in s && s[v] == a[v]
  }

  /** A solution of the puzzle: one word per slot, consistent. */
  predicate IsSolution(cw: Crossword, s: Assignment) {
    s.Keys == VarSet(cw) && IsConsistent(cw, s)
  }

  /** Every word of `s` is still a candidate of its slot in `d`. */
  predicate Within(s: Assignment, d: Domains) {
    forall v :: v in s ==> v in d && s[v] in d[v]
  }

  /** Pruning from `d0` to `d` lost no solution. */
  ghost predicate KeepsSolutions(cw: Crossword, d0: Domains, d: Domains) {
    forall s :: IsSolution(cw, s) && Within(s, d0) ==> Within(s, d)
  }

  /** `s` is a solution that extends `a` with candidates taken from `d`. */
  predicate SolutionThrough(cw: Crossword, d: Domains, a: Assignment, s: Assignment) {
    && IsSolution(cw, s)
    && Extends(s, a)
    && forall v :: v in s && v !in a ==> v in d && s[v] in d[v]
  }

  lemma PairAgreesSymmetric(cw: Crossword, u: Variable, wu: Word, v: Variable, wv: Word)
    requires Symmetric(cw)
    ensures PairAgrees(cw, u, wu, v, wv) == PairAgrees(cw, v, wv, u, wu)
  {
    assert Overlap(cw, v, u) == Flip(Overlap(cw, u, v));
  }

  /** Consistency is inherited by every sub-assignment. */
  lemma ConsistentSubAssignment(cw: Crossword, s: Assignment, a: Assignment)
    requires Extends(s, a) && IsConsistent(cw, s)
    ensures IsConsistent(cw, a)
  {
    assert forall u, v :: u in a && v in a && u != v ==> PairAgrees(cw, u, s[u], v, s[v]);
  }

  /** Node consistency keeps every solution: a solution's words have the right length. */
  lemma NodeFilteredKeepsSolutions(cw: Crossword, d: Domains)
    ensures KeepsSolutions(cw, d, NodeFiltered(d))
  {
  }

  /** Revision never removes a word of a solution: the solution's word for `y` supports it. */
  lemma ReviseKeepsSolution(cw: Crossword, d: Domains, x: Variable, y: Variable, s: Assignment)
    requires IsSolution(cw, s) && Within(s, d)
    requires x in VarSet(cw) && y in VarSet(cw) && x != y && Overlap(cw, x, y).Some?
    ensures s[x] in Revised(d[x], d[y], Overlap(cw, x, y).value.0, Overlap(cw, x, y).value.1)
  {
    var (p, q) := Overlap(cw, x, y).value;
    assert PairAgrees(cw, x, s[x], y, s[y]);
    assert s[y] in d[y] && s[y] != s[x] && Agree(s[x], s[y], p, q);
  }

  /**
   * One AC-3 step, the revision of arc (x, y) from store `d` to store `d'`: it keeps
   * the loop's facts about the store and, when it changes x's domain, lowers the total size.
   */
  lemma RevisionStep(cw: Crossword, d0: Domains, d: Domains, d': Domains, x: Variable, y: Variable, changed: bool)
    requires WellFormed(cw) && d.Keys == VarSet(cw)
    requires x in d && y in d && x != y
    requires Overlap(cw, x, y).None? ==> !changed && d' == d
    requires Overlap(cw, x, y).Some? ==>
      d' == d[x := Revised(d[x], d[y], Overlap(cw, x, y).value.0, Overlap(cw, x, y).value.1)]
    requires changed <==> d'[x] < d[x]
    requires Shrunk(d0, d) && KeepsSolutions(cw, d0, d) && Indexable(cw, d)
    requires AllArcConsistent(cw, d0) ==> d == d0
    ensures Shrunk(d0, d') && KeepsSolutions(cw, d0, d') && Indexable(cw, d')
    ensures changed ==> Overlap(cw, x, y).Some? && TotalSize(d', cw.variables) < TotalSize(d, cw.variables)
    ensures !changed ==> d' == d && ArcConsistent(cw, d, x, y)
    ensures AllArcConsistent(cw, d0) ==> !changed
  {
    if Overlap(cw, x, y).Some? {
      var (p, q) := Overlap(cw, x, y).value;
      forall s | IsSolution(cw, s) && Within(s, d0) ensures Within(s, d') {
        ReviseKeepsSolution(cw, d, x, y, s);
      }
      TotalSizeShrinks(d, x, d'[x], cw.variables);
      if !changed {
        assert d'[x] == d[x];
        assert d' == d;
      }
      if AllArcConsistent(cw, d0) {
        ConsistentArcUnrevised(cw, d, x, y);
      }
    }
  }

  /**
   * A solution through `a` that gives `v` the word `w` is also a solution through
   * `a` extended with that choice, and that extension is consistent.
   */
  lemma ThroughChoice(cw: Crossword, d: Domains, a: Assignment, v: Variable, w: Word, s: Assignment)
    requires SolutionThrough(cw, d, a, s) && v !in a && v in s && s[v] == w
    ensures SolutionThrough(cw, d, a[v := w], s)
    ensures IsConsistent(cw, a[v := w])
  {
    ConsistentSubAssignment(cw, s, a[v := w]);
  }

  /**
   * Extending `a` by a candidate `w` of `v` keeps solutions through the extension
   * solutions through `a`.
   */
  lemma ChoiceThrough(cw: Crossword, d: Domains, a: Assignment, v: Variable, w: Word, r: Assignment)
    requires v in d && w in d[v] && v !in a
    requires SolutionThrough(cw, d, a[v := w], r)
    ensures SolutionThrough(cw, d, a, r)
  {
  }

  /** A choice for `v` that is inconsistent, or has no solution through it, is used by no solution through `a`. */
  lemma FailedChoice(cw: Crossword, d: Domains, a: Assignment, v: Variable, w: Word, a': Assignment)
    requires v in VarSet(cw) && v !in a && a' == a[v := w]
    requires !IsConsistent(cw, a') || forall s :: !SolutionThrough(cw, d, a', s)
    ensures forall s :: SolutionThrough(cw, d, a, s) ==> s[v] != w
  {
    forall s | SolutionThrough(cw, d, a, s) ensures s[v] != w {
      if s[v] == w {
        ThroughChoice(cw, d, a, v, w, s);
      }
    }
  }

  /** No solution through `a` gives slot `v` any of the words `ws`. */
  ghost predicate ChoicesExcluded(cw: Crossword, d: Domains, a: Assignment, v: Variable, ws: seq<Word>) {
    forall s :: SolutionThrough(cw, d, a, s) && v in s ==> s[v] !in ws
  }

  /** When the choice `ws[k]` fails, the excluded choices grow from `ws[..k]` to `ws[..k + 1]`. */
  lemma ExcludeChoice(cw: Crossword, d: Domains, a: Assignment, v: Variable, ws: seq<Word>, k: nat)
    requires k < |ws|
    requires ChoicesExcluded(cw, d, a, v, ws[..k])
    requires forall s :: SolutionThrough(cw, d, a, s) && v in s ==> s[v] != ws[k]
    ensures ChoicesExcluded(cw, d, a, v, ws[..k + 1])
  {
    assert ws[..k + 1] == ws[..k] + [ws[k]];
  }

  /** Some letter `k` of the word assigned to a slot of `vs` lies in `cell`. */
  ghost predicate CoveredAmong(a: Assignment, vs: set<Variable>, cell: (int, int)) {
    exists v, k :: v in vs && v in a && 0 <= k < |a[v]| && Cell(v, k) == cell
  }

  /** One of the first `n` letters of slot `v` lies in `cell`. */
  ghost predicate CoveredByPrefix(v: Variable, n: nat, cell: (int, int)) {
    exists k :: 0 <= k < n && Cell(v, k) == cell
  }

  /** Some assigned word puts the letter `ch` in `cell`. */
  ghost predicate Written(a: Assignment, cell: (int, int), ch: char) {
    exists v, k :: v in a && 0 <= k < |a[v]| && Cell(v, k) == cell && a[v][k] == ch
  }

  /** A slot's letters lie in pairwise different cells. */
  lemma CellInjective(v: Variable, k: int, m: int)
    requires Cell(v, k) == Cell(v, m)
    ensures k == m
  {
  }

  /** Covering by the whole of one more slot's word. */
  lemma CoveredAmongAdd(a: Assignment, vs: set<Variable>, v: Variable, cell: (int, int))
    requires v in a
    ensures CoveredAmong(a, vs + {v}, cell) <==> CoveredAmong(a, vs, cell) || CoveredByPrefix(v, |a[v]|, cell)
  {
    if CoveredByPrefix(v, |a[v]|, cell) {
      var k :| 0 <= k < |a[v]| && Cell(v, k) == cell;
      assert v in vs + {v};
    }
  }

  /**
   * In a grid whose shared cells are exactly the recorded overlaps, a consistent
   * assignment puts one letter in each cell: two assigned letters in the same cell agree.
   */
  lemma {:induction false} SameCellSameLetter(cw: Crossword, a: Assignment, u: Variable, ku: nat, v: Variable, kv: nat)
    requires CellsMatchOverlaps(cw) && a.Keys <= VarSet(cw) && LengthsMatch(a) && OverlapsAgree(cw, a)
    requires u in a && v in a && ku < |a[u]| && kv < |a[v]| && Cell(u, ku) == Cell(v, kv)
    ensures a[u][ku] == a[v][kv]
  {
    if u == v {
      CellInjective(u, ku, kv);
    } else {
      assert Overlap(cw, u, v) == Some((ku, kv));
      assert PairAgrees(cw, u, a[u], v, a[v]);
    }
  }

  /**
   * Two distinct slots left with the same single candidate cannot both be filled:
   * no solution draws its words from such domains, crossing or not.
   */
  lemma SharedSingletonUnsolvable(cw: Crossword, d: Domains, u: Variable, v: Variable, w: Word)
    requires u in VarSet(cw) && v in VarSet(cw) && u != v
    requires u in d && v in d && d[u] == {w} && d[v] == {w}
    ensures forall s :: IsSolution(cw, s) ==> !Within(s, d)
  {
  }
}
