/**
 * The domain store: each slot's set of candidate words, and the pure facts about
 * node consistency, arc revision and arc consistency that the solver's methods are
 * proved against.
 */
module Domains {
  import opened Wrappers
  import opened Grid

  type Domains = map<Variable, set<Word>>

  /** `d` only lost words relative to `d0`: same slots, each domain a subset. */
  predicate Shrunk(d0: Domains, d: Domains) {
    d.Keys == d0.Keys && forall v :: v in d ==> d[v] <= d0[v]
  }

  /** `d` and `d'` have the same slots and differ at most at slot `v`. */
  predicate SameExcept(d: Domains, d': Domains, v: Variable) {
    d'.Keys == d.Keys && forall u :: u in d && u != v ==> d'[u] == d[u]
  }

  predicate NodeConsistentAt(d: Domains, v: Variable)
    requires v in d
  {
    forall w :: w in d[v] ==> |w| == v.length
  }

  /** Every remaining word has its slot's length (the unary constraint). */
  predicate NodeConsistent(d: Domains) {
    forall v :: v in d ==> NodeConsistentAt(d, v)
  }

  /** The words of `ws` of length `n`. */
  function OfLength(ws: set<Word>, n: nat): set<Word> {
    set w | w in ws && |w| == n
  }

  /** The store that node consistency leaves behind. */
  function NodeFiltered(d: Domains): (r: Domains)
    ensures Shrunk(d, r)
    ensures NodeConsistent(r)
    ensures forall v, w :: v in d && w in d[v] && |w| == v.length ==> w in r[v]
  {
    map v | v in d :: OfLength(d[v], v.length)
  }

  lemma OfLengthStep(done: set<Word>, w: Word, n: nat)
    ensures OfLength(done + {w}, n) == OfLength(done, n) + (if |w| == n then {w} else {})
  {
  }

  /** Every word of `ws` has a letter at index `k`. */
  predicate ReachesIndex(ws: set<Word>, k: nat) {
    forall w :: w in ws ==> k < |w|
  }

  /** Every overlap index of a slot lies inside every word of that slot's domain. */
  ghost predicate Indexable(cw: Crossword, d: Domains) {
    forall u, v :: u in d && Overlap(cw, u, v).Some? ==> ReachesIndex(d[u], Overlap(cw, u, v).value.0)
  }

  lemma NodeConsistentIndexable(cw: Crossword, d: Domains)
    requires WellFormed(cw) && NodeConsistent(d)
    ensures Indexable(cw, d)
  {
    forall u, v | u in d && Overlap(cw, u, v).Some?
      ensures ReachesIndex(d[u], Overlap(cw, u, v).value.0)
    {
      assert NodeConsistentAt(d, u);
    }
  }

  /**
   * `xw` has a support in `ys` at overlap (p, q): a different word whose letter q
   * equals letter p of `xw`. An equal word never counts as support.
   */
  predicate Supported(xw: Word, ys: set<Word>, p: nat, q: nat) {
    exists yw :: yw in ys && yw != xw && Agree(xw, yw, p, q)
  }

  /** The words of `xs` that keep a support in `ys`. */
  function Revised(xs: set<Word>, ys: set<Word>, p: nat, q: nat): (r: set<Word>)
    ensures r <= xs
  {
    set xw | xw in xs && Supported(xw, ys, p, q)
  }

  lemma RevisedStep(done: set<Word>, xw: Word, ys: set<Word>, p: nat, q: nat)
    ensures Revised(done + {xw}, ys, p, q) ==
      Revised(done, ys, p, q) + (if Supported(xw, ys, p, q) then {xw} else {})
  {
  }

  /** Arc (x, y) is consistent: every word of x has a support in y, or x and y do not cross. */
  predicate ArcConsistent(cw: Crossword, d: Domains, x: Variable, y: Variable)
    requires x in d && y in d
  {
    match Overlap(cw, x, y)
    case None => true
    case Some((p, q)) => forall xw :: xw in d[x] ==> Supported(xw, d[y], p, q)
  }

  predicate AllArcConsistent(cw: Crossword, d: Domains) {
    forall x, y :: x in d && y in d && x != y ==> ArcConsistent(cw, d, x, y)
  }

  /** The arcs (n, x) for each `n` of `ns`, in order: the pushes that follow a change of x. */
  function ArcsTo(ns: seq<Variable>, x: Variable): (arcs: seq<(Variable, Variable)>)
    ensures |arcs| == |ns|
    ensures forall k :: 0 <= k < |ns| ==> arcs[k] == (ns[k], x)
  {
    if ns == [] then [] else [(ns[0], x)] + ArcsTo(ns[1..], x)
  }

  /** Popping the last arc of a worklist leaves the rest in front of it. */
  lemma PopLast(arcs: seq<(Variable, Variable)>)
    requires |arcs| > 0
    ensures arcs == arcs[..|arcs| - 1] + [arcs[|arcs| - 1]]
  {
  }

  /** An arc joins two distinct slots of the grid. */
  predicate IsArc(cw: Crossword, arc: (Variable, Variable)) {
    arc.0 in VarSet(cw) && arc.1 in VarSet(cw) && arc.0 != arc.1
  }

  predicate ArcsValid(cw: Crossword, arcs: seq<(Variable, Variable)>) {
    forall k :: 0 <= k < |arcs| ==> IsArc(cw, arcs[k])
  }

  lemma PushKeepsArcsValid(cw: Crossword, rest: seq<(Variable, Variable)>, x: Variable)
    requires ArcsValid(cw, rest) && x in VarSet(cw)
    ensures ArcsValid(cw, rest + ArcsTo(Neighbors(cw, x), x))
  {
  }

  /** AC-3's worklist invariant: every arc that is not pending is consistent. */
  predicate PendingCovers(cw: Crossword, d: Domains, arcs: seq<(Variable, Variable)>) {
    forall x, y :: x in d && y in d && x != y && (x, y) !in arcs ==> ArcConsistent(cw, d, x, y)
  }

  /** A worklist holding every arc between crossing slots covers every inconsistent arc. */
  lemma SeedCovers(cw: Crossword, d: Domains, arcs: seq<(Variable, Variable)>)
    requires d.Keys <= VarSet(cw)
    requires forall x, y :: (x, y) in arcs <==> x in cw.variables && y in Neighbors(cw, x)
    ensures PendingCovers(cw, d, arcs)
    ensures ArcsValid(cw, arcs)
  {
    forall k | 0 <= k < |arcs| ensures IsArc(cw, arcs[k]) {
      var (x, y) := arcs[k];
      assert (x, y) in arcs;
    }
    forall x, y | x in d && y in d && x != y && (x, y) !in arcs
      ensures ArcConsistent(cw, d, x, y)
    {
      assert y !in Neighbors(cw, x);
    }
  }

  /** Revising a consistent arc removes nothing. */
  lemma ConsistentArcUnrevised(cw: Crossword, d: Domains, x: Variable, y: Variable)
    requires x in d && y in d && Overlap(cw, x, y).Some?
    requires ArcConsistent(cw, d, x, y)
    ensures Revised(d[x], d[y], Overlap(cw, x, y).value.0, Overlap(cw, x, y).value.1) == d[x]
  {
  }

  /** After revision the arc is consistent. */
  lemma RevisedArcConsistent(cw: Crossword, d: Domains, x: Variable, y: Variable)
    requires x in d && y in d && x != y && Overlap(cw, x, y).Some?
    ensures ArcConsistent(cw, d[x := Revised(d[x], d[y], Overlap(cw, x, y).value.0, Overlap(cw, x, y).value.1)], x, y)
  {
  }

  /** Narrowing the source domain of a consistent arc, the target unchanged, keeps it consistent. */
  lemma ArcConsistentNarrowed(cw: Crossword, d: Domains, d': Domains, x: Variable, y: Variable)
    requires x in d && y in d && x in d' && y in d'
    requires d'[x] <= d[x] && d'[y] == d[y]
    requires ArcConsistent(cw, d, x, y)
    ensures ArcConsistent(cw, d', x, y)
  {
  }

  /**
   * Popping arc (x, y) whose revision changed nothing: the rest of the worklist still
   * covers every inconsistent arc.
   */
  lemma {:induction false} CoverAfterUnchanged(cw: Crossword, d: Domains, rest: seq<(Variable, Variable)>, x: Variable, y: Variable)
    requires x in d && y in d && x != y
    requires PendingCovers(cw, d, rest + [(x, y)])
    requires ArcConsistent(cw, d, x, y)
    ensures PendingCovers(cw, d, rest)
  {
    forall u, v | u in d && v in d && u != v && (u, v) !in rest
      ensures ArcConsistent(cw, d, u, v)
    {
      if (u, v) != (x, y) {
        assert (u, v) !in rest + [(x, y)];
      }
    }
  }

  /**
   * Popping arc (x, y) whose revision shrank x's domain to `r`: once every arc
   * (n, x) from a neighbour n of x is pushed, the worklist covers every inconsistent arc.
   */
  lemma {:induction false} CoverAfterShrink(cw: Crossword, d: Domains, rest: seq<(Variable, Variable)>,
                                            x: Variable, y: Variable, arcs: seq<(Variable, Variable)>)
    requires Symmetric(cw) && d.Keys <= VarSet(cw)
    requires x in d && y in d && x != y && Overlap(cw, x, y).Some?
    requires PendingCovers(cw, d, rest + [(x, y)])
    requires arcs == rest + ArcsTo(Neighbors(cw, x), x)
    ensures PendingCovers(cw, d[x := Revised(d[x], d[y], Overlap(cw, x, y).value.0, Overlap(cw, x, y).value.1)], arcs)
  {
    var (p, q) := Overlap(cw, x, y).value;
    var d' := d[x := Revised(d[x], d[y], p, q)];
    forall u, v | u in d' && v in d' && u != v && (u, v) !in arcs
      ensures ArcConsistent(cw, d', u, v)
    {
      assert (u, v) !in rest;
      if (u, v) == (x, y) {
        RevisedArcConsistent(cw, d, x, y);
      } else if v == x {
        assert u !in Neighbors(cw, x);
        assert Overlap(cw, u, x) == Flip(Overlap(cw, x, u));
      } else {
        assert (u, v) !in rest + [(x, y)];
        ArcConsistentNarrowed(cw, d, d', u, v);
      }
    }
  }

  /** Sum of the domain sizes of the slots `vs`: AC-3's termination measure. */
  function TotalSize(d: Domains, vs: seq<Variable>): nat
    requires forall v :: v in vs ==> v in d
  {
    if vs == [] then 0 else |d[vs[0]]| + TotalSize(d, vs[1..])
  }

  /** Strictly shrinking one slot's domain strictly lowers the total size. */
  lemma {:induction false} TotalSizeShrinks(d: Domains, x: Variable, r: set<Word>, vs: seq<Variable>)
    requires x in d && r <= d[x]
    requires forall v :: v in vs ==> v in d
    ensures TotalSize(d[x := r], vs) <= TotalSize(d, vs)
    ensures r < d[x] && x in vs ==> TotalSize(d[x := r], vs) < TotalSize(d, vs)
  {
    if vs != [] {
      TotalSizeShrinks(d, x, r, vs[1..]);
      if vs[0] == x {
        assert d[x] == r + (d[x] - r) && r * (d[x] - r) == {};
        if r < d[x] {
          assert d[x] - r != {};
        }
      }
    }
  }
}
