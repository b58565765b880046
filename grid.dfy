/**
 * The crossword grid as the solver sees it: word slots (variables), the overlap
 * table between ordered pairs of slots and the word list. Building these from the
 * structure and word files is not part of this model; a grid is taken as a
 * well-formed input.
 */
module Grid {
  import opened Wrappers

  type Word = string

  datatype Direction = Across | Down

  /** A word slot: the row `i` and column `j` of its first cell, its orientation and length. */
  datatype Variable = Variable(i: int, j: int, direction: Direction, length: nat)

  /**
   * `variables` lists the slots in the fixed order in which the grid enumerates them;
   * `overlaps` maps an ordered pair of distinct slots to the index into each slot's
   * word of their shared cell, or to None when they do not cross.
   */
  datatype Crossword = Crossword(
    height: nat,
    width: nat,
    variables: seq<Variable>,
    overlaps: map<(Variable, Variable), Option<(nat, nat)>>,
    words: set<Word>)

  predicate NoDup<T(==)>(s: seq<T>) {
    forall i, j :: 0 <= i < j < |s| ==> s[i] != s[j]
  }

  /**
   * Lists the elements of `s`, each once, in some order: Python's iteration over a set
   * or over a dict's keys, whose order the program does not fix.
   */
  method Enumerate<T>(s: set<T>) returns (xs: seq<T>)
    ensures NoDup(xs)
    ensures forall x :: x in xs <==> x in s
  {
    xs := [];
    var pending := s;
    while pending != {}
      invariant pending <= s
      invariant NoDup(xs)
      invariant forall x :: x in xs <==> x in s - pending
      decreases pending
    {
      var x :| x in pending;
      assert x !in xs;
      xs := xs + [x];
      pending := pending - {x};
    }
  }

  function VarSet(cw: Crossword): set<Variable> {
    set v | v in cw.variables
  }

  /** The overlap of `u` with `v`, read as None for a pair the table does not hold. */
  function Overlap(cw: Crossword, u: Variable, v: Variable): Option<(nat, nat)> {
    if (u, v) in cw.overlaps then cw.overlaps[(u, v)] else None
  }

  function Flip(o: Option<(nat, nat)>): Option<(nat, nat)> {
    match o
    case None => None
    case Some((p, q)) => Some((q, p))
  }

  /** The cell (row, column) holding letter `k` of slot `v`. */
  function Cell(v: Variable, k: int): (int, int) {
    (v.i + (if v.direction == Down then k else 0), v.j + (if v.direction == Across then k else 0))
  }

  predicate InGrid(cw: Crossword, cell: (int, int)) {
    0 <= cell.0 < cw.height && 0 <= cell.1 < cw.width
  }

  /** Two words agree at an overlap when both letters exist and are equal. */
  predicate Agree(wu: Word, wv: Word, p: nat, q: nat) {
    p < |wu| && q < |wv| && wu[p] == wv[q]
  }

  /**
   * What the grid guarantees: slots are distinct, every ordered pair of distinct slots
   * has an entry, the table is symmetric, and an overlap indexes into both slots and
   * names cells that coincide.
   */
  ghost predicate WellFormed(cw: Crossword) {
    && NoDup(cw.variables)
    && (forall u, v :: u in cw.variables && v in cw.variables && u != v ==> (u, v) in cw.overlaps)
    && Symmetric(cw)
    && (forall u, v :: Overlap(cw, u, v).Some? ==>
          Overlap(cw, u, v).value.0 < u.length && Overlap(cw, u, v).value.1 < v.length &&
          Cell(u, Overlap(cw, u, v).value.0) == Cell(v, Overlap(cw, u, v).value.1))
  }

  /** The overlap of `v` with `u` is that of `u` with `v`, read the other way round. */
  ghost predicate Symmetric(cw: Crossword) {
    forall u, v :: Overlap(cw, v, u) == Flip(Overlap(cw, u, v))
  }

  /** Two distinct slots share a cell only at their recorded overlap. */
  ghost predicate CellsMatchOverlaps(cw: Crossword) {
    forall u, v, ku, kv ::
      u in cw.variables && v in cw.variables && u != v &&
      0 <= ku < u.length && 0 <= kv < v.length && Cell(u, ku) == Cell(v, kv) ==>
      Overlap(cw, u, v) == Some((ku, kv))
  }

  /** The slots that cross `v`, among `vs`, in the order of `vs`. */
  function NeighborsIn(cw: Crossword, v: Variable, vs: seq<Variable>): (ns: seq<Variable>)
    ensures forall u :: u in ns <==> u in vs && u != v && Overlap(cw, v, u).Some?
    ensures NoDup(vs) ==> NoDup(ns)
  {
    if vs == [] then []
    else
      var rest := NeighborsIn(cw, v, vs[1..]);
      if vs[0] != v && Overlap(cw, v, vs[0]).Some? then [vs[0]] + rest else rest
  }

  /** `neighbors(v)` of the grid: every other slot that `v` crosses. */
  function Neighbors(cw: Crossword, v: Variable): seq<Variable> {
    NeighborsIn(cw, v, cw.variables)
  }

  /** A slot's degree: how many slots it crosses. */
  function Degree(cw: Crossword, v: Variable): nat {
    |Neighbors(cw, v)|
  }

  lemma {:induction false} DistinctCard<T>(s: seq<T>)
    requires NoDup(s)
    ensures |set x | x in s| == |s|
  {
    if s != [] {
      DistinctCard(s[1..]);
      assert (set x | x in s) == {s[0]} + (set x | x in s[1..]);
      assert s[0] !in (set x | x in s[1..]);
    }
  }

  /** Adding one more element of `s` to `ks` leaves fewer elements of `s` outside it. */
  lemma AddOneCard<T>(s: set<T>, ks: set<T>, v: T)
    requires v in s && v !in ks
    ensures |s - (ks + {v})| < |s - ks|
  {
    assert s - (ks + {v}) == (s - ks) - {v};
  }

  /** A subset is the whole set exactly when it is as large. */
  lemma SubsetCard<T>(a: set<T>, b: set<T>)
    requires a <= b
    ensures |a| == |b| <==> a == b
  {
    assert b == a + (b - a);
    assert a * (b - a) == {};
  }
}
