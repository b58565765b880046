/**
 * The CSP engine of the crossword generator: the domain store of a
 * `CrosswordCreator`, its propagation (node consistency, arc revision, AC-3) and
 * its heuristic backtracking search.
 */
module Generate {
  import opened Wrappers
  import opened Grid
  import opened Domains
  import opened Assignments

  class CrosswordCreator {
    const crossword: Crossword
    /** Each slot's remaining candidate words. */
    var domains: Domains

    /** The grid is well formed, every slot has a domain and domains only hold listed words. */
    ghost predicate Valid()
      reads this
    {
      && WellFormed(crossword)
      && domains.Keys == VarSet(crossword)
      && forall v :: v in domains ==> domains[v] <= crossword.words
    }

    /** Every slot starts with the whole word list. */
    constructor (crossword: Crossword)
      requires WellFormed(crossword)
      ensures this.crossword == crossword
      ensures Valid()
      ensures domains == map v | v in VarSet(crossword) :: crossword.words
    {
      this.crossword := crossword;
      domains := map v | v in crossword.variables :: crossword.words;
    }

    /** Removes from each domain every word whose length is not its slot's length. */
    method EnforceNodeConsistency()
      requires Valid()
      modifies this
      ensures Valid()
      ensures domains == NodeFiltered(old(domains))
    {
      var domain := domains;
      ghost var filtered := NodeFiltered(domain);
      var vs := crossword.variables;
      for i := 0 to |vs|
        invariant Shrunk(domain, domains)
        invariant forall k :: 0 <= k < i ==> domains[vs[k]] == filtered[vs[k]]
        invariant forall k :: i <= k < |vs| ==> domains[vs[k]] == domain[vs[k]]
      {
        var v := vs[i];
        FilterSlot(v, domain[v]);
        forall k | 0 <= k < |vs| && k != i ensures vs[k] != v { }
      }
      forall v | v in domains ensures domains[v] == filtered[v] {
        var k :| 0 <= k < |vs| && vs[k] == v;
      }
    }

    /** The inner loop of node consistency: drops from v's domain each of `words` of the wrong length. */
    method FilterSlot(v: Variable, words: set<Word>)
      requires v in domains && domains[v] == words
      modifies this
      ensures SameExcept(old(domains), domains, v)
      ensures domains[v] == OfLength(words, v.length)
    {
      var pending := words;
      assert pending + OfLength(words - pending, v.length) == pending;
      while pending != {}
        invariant pending <= words
        invariant SameExcept(old(domains), domains, v)
        invariant domains[v] == pending + OfLength(words - pending, v.length)
        decreases pending
      {
        var word :| word in pending;
        ghost var done := words - pending;
        OfLengthStep(done, word, v.length);
        if v.length != |word| {
          domains := domains[v := domains[v] - {word}];
        }
        pending := pending - {word};
        assert words - pending == done + {word};
      }
    }

    /**
     * Removes from x's domain every word without a support in y's domain at their
     * overlap; returns whether x's domain changed. Without an overlap it changes nothing.
     */
    method Revise(x: Variable, y: Variable) returns (revised: bool)
      requires Valid()
      requires x in VarSet(crossword) && y in VarSet(crossword) && x != y
      requires Overlap(crossword, x, y).Some? ==>
        ReachesIndex(domains[x], Overlap(crossword, x, y).value.0) &&
        ReachesIndex(domains[y], Overlap(crossword, x, y).value.1)
      modifies this
      ensures Valid()
      ensures Overlap(crossword, x, y).None? ==> !revised && domains == old(domains)
      ensures Overlap(crossword, x, y).Some? ==>
        domains == old(domains)[x := Revised(old(domains)[x], old(domains)[y],
                                              Overlap(crossword, x, y).value.0, Overlap(crossword, x, y).value.1)]
      ensures revised <==> domains[x] < old(domains)[x]
    {
      var overlap := crossword.overlaps[(x, y)];
      if overlap.None? {
        return false;
      }
      var (xIndex, yIndex) := overlap.value;
      var xDomain := domains[x];
      var ys := domains[y];
      revised := false;
      var pending := xDomain;
      assert pending + Revised(xDomain - pending, ys, xIndex, yIndex) == pending;
      while pending != {}
        invariant pending <= xDomain
        invariant SameExcept(old(domains), domains, x)
        invariant domains[x] == pending + Revised(xDomain - pending, ys, xIndex, yIndex)
        invariant revised <==> Revised(xDomain - pending, ys, xIndex, yIndex) != xDomain - pending
        decreases pending
      {
        var xWord :| xWord in pending;
        var matchFound := false;
        var remaining := ys;
        while remaining != {}
          invariant remaining <= ys
          invariant !matchFound
          invariant forall yWord :: yWord in ys - remaining && yWord != xWord ==> !Agree(xWord, yWord, xIndex, yIndex)
          decreases remaining
        {
          var yWord :| yWord in remaining;
          remaining := remaining - {yWord};
          if xWord == yWord {
            continue;
          }
          if xWord[xIndex] == yWord[yIndex] {
            matchFound := true;
            assert Supported(xWord, ys, xIndex, yIndex) by {
              assert yWord in ys && yWord != xWord && Agree(xWord, yWord, xIndex, yIndex);
            }
            break;
          }
        }
        assert matchFound == Supported(xWord, ys, xIndex, yIndex);
        ghost var done := xDomain - pending;
        ghost var done' := done + {xWord};
        RevisedStep(done, xWord, ys, xIndex, yIndex);
        if !matchFound {
          domains := domains[x := domains[x] - {xWord}];
          revised := true;
        }
        pending := pending - {xWord};
        assert xDomain - pending == done';
      }
      assert xDomain - pending == xDomain;
      assert domains[x] == Revised(xDomain, ys, xIndex, yIndex);
    }

    /** The initial worklist: every arc (v, n) from a slot v to a slot n that crosses it. */
    method SeedArcs() returns (arcs: seq<(Variable, Variable)>)
      requires WellFormed(crossword)
      ensures forall x, y :: (x, y) in arcs <==> x in crossword.variables && y in Neighbors(crossword, x)
    {
      arcs := [];
      var vs := crossword.variables;
      for i := 0 to |vs|
        invariant forall x, y :: (x, y) in arcs <==> x in vs[..i] && y in Neighbors(crossword, x)
      {
        var v := vs[i];
        var neighbors := Neighbors(crossword, v);
        assert vs[..i + 1] == vs[..i] + [v];
        for k := 0 to |neighbors|
          invariant forall x, y :: (x, y) in arcs <==>
            (x in vs[..i] && y in Neighbors(crossword, x)) || (x == v && y in neighbors[..k])
        {
          assert neighbors[..k + 1] == neighbors[..k] + [neighbors[k]];
          arcs := arcs + [(v, neighbors[k])];
        }
        assert neighbors[..|neighbors|] == neighbors;
      }
      assert vs[..|vs|] == vs;
    }

    /**
     * AC-3 over a LIFO worklist seeded with every arc. A revision that changes x's
     * domain pushes (n, x) for every neighbour n of x; one that empties it fails.
     */
    method Ac3() returns (ok: bool)
      requires Valid() && Indexable(crossword, domains)
      modifies this
      ensures Valid() && Indexable(crossword, domains)
      ensures Shrunk(old(domains), domains)
      ensures KeepsSolutions(crossword, old(domains), domains)
      ensures ok ==> AllArcConsistent(crossword, domains)
      ensures !ok ==> exists v :: v in domains && domains[v] == {} && old(domains)[v] != {}
      ensures old(AllArcConsistent(crossword, domains)) ==> ok && domains == old(domains)
    {
      var arcs := SeedArcs();
      SeedCovers(crossword, domains, arcs);
      while |arcs| > 0
        invariant Valid() && Indexable(crossword, domains)
        invariant Shrunk(old(domains), domains)
        invariant KeepsSolutions(crossword, old(domains), domains)
        invariant PendingCovers(crossword, domains, arcs)
        invariant ArcsValid(crossword, arcs)
        invariant old(AllArcConsistent(crossword, domains)) ==> domains == old(domains)
        decreases TotalSize(domains, crossword.variables), |arcs|
      {
        var emptied;
        arcs, emptied := PropagateArc(arcs, old(domains));
        if emptied {
          return false;
        }
      }
      ok := true;
      assert PendingCovers(crossword, domains, []);
    }

    /**
     * One round of the AC-3 loop: pops the last arc (x, y) and revises x against y;
     * when that shrinks x's domain to nothing it reports so, and when it shrinks it
     * otherwise it pushes the arcs into x. `d0` is the domain store AC-3 started from.
     */
    method PropagateArc(arcs: seq<(Variable, Variable)>, ghost d0: Domains)
      returns (arcs': seq<(Variable, Variable)>, emptied: bool)
      requires |arcs| > 0
      requires Valid() && Indexable(crossword, domains)
      requires Shrunk(d0, domains) && KeepsSolutions(crossword, d0, domains)
      requires PendingCovers(crossword, domains, arcs) && ArcsValid(crossword, arcs)
      requires AllArcConsistent(crossword, d0) ==> domains == d0
      modifies this
      ensures Valid() && Indexable(crossword, domains)
      ensures Shrunk(d0, domains) && KeepsSolutions(crossword, d0, domains)
      ensures AllArcConsistent(crossword, d0) ==> !emptied && domains == d0
      ensures emptied ==> exists v :: v in domains && domains[v] == {} && d0[v] != {}
      ensures !emptied ==> PendingCovers(crossword, domains, arcs') && ArcsValid(crossword, arcs')
      ensures !emptied ==>
        TotalSize(domains, crossword.variables) < TotalSize(old(domains), crossword.variables) ||
        (domains == old(domains) && |arcs'| < |arcs|)
      ensures var (x, y) := arcs[|arcs| - 1];
        (Overlap(crossword, x, y).None? ==> domains == old(domains)) &&
        (Overlap(crossword, x, y).Some? ==>
          domains == old(domains)[x := Revised(old(domains)[x], old(domains)[y],
                                                Overlap(crossword, x, y).value.0, Overlap(crossword, x, y).value.1)])
      ensures emptied <==> domains != old(domains) && domains[arcs[|arcs| - 1].0] == {}
      ensures !emptied ==>
        arcs' == arcs[..|arcs| - 1] +
                 if domains == old(domains) then [] else ArcsTo(Neighbors(crossword, arcs[|arcs| - 1].0), arcs[|arcs| - 1].0)
    {
      var arc := arcs[|arcs| - 1];
      assert IsArc(crossword, arc);
      var (x, y) := arc;
      var rest := arcs[..|arcs| - 1];
      PopLast(arcs);
      RevisionArgumentsIndexable(x, y);
      var changed := Revise(x, y);
      RevisionStep(crossword, d0, old(domains), domains, x, y, changed);
      if changed {
        if |domains[x]| == 0 {
          assert domains[x] == {} && d0[x] != {} by {
            assert old(domains)[x] <= d0[x];
          }
          return rest, true;
        }
        arcs' := PushArcsTo(rest, x);
        PushKeepsArcsValid(crossword, rest, x);
        CoverAfterShrink(crossword, old(domains), rest, x, y, arcs');
      } else {
        arcs' := rest;
        CoverAfterUnchanged(crossword, old(domains), rest, x, y);
      }
      emptied := false;
    }

    /** Appends (n, x) to the worklist for every neighbour n of x, in slot order. */
    method PushArcsTo(rest: seq<(Variable, Variable)>, x: Variable) returns (arcs: seq<(Variable, Variable)>)
      ensures arcs == rest + ArcsTo(Neighbors(crossword, x), x)
    {
      arcs := rest;
      var neighbors := Neighbors(crossword, x);
      for k := 0 to |neighbors|
        invariant arcs == rest + ArcsTo(neighbors[..k], x)
      {
        assert ArcsTo(neighbors[..k + 1], x) == ArcsTo(neighbors[..k], x) + [(neighbors[k], x)];
        arcs := arcs + [(neighbors[k], x)];
      }
      assert neighbors[..|neighbors|] == neighbors;
    }

    /** The overlap indices of arc (x, y) lie inside the words of both domains. */
    lemma RevisionArgumentsIndexable(x: Variable, y: Variable)
      requires Valid() && Indexable(crossword, domains)
      requires x in domains && y in domains
      ensures Overlap(crossword, x, y).Some? ==>
        ReachesIndex(domains[x], Overlap(crossword, x, y).value.0) &&
        ReachesIndex(domains[y], Overlap(crossword, x, y).value.1)
    {
      assert Overlap(crossword, y, x) == Flip(Overlap(crossword, x, y));
    }

    /** An assignment is complete when it has as many entries as there are slots. */
    function AssignmentComplete(a: Assignment): (complete: bool)
      requires WellFormed(crossword)
      ensures a.Keys <= VarSet(crossword) ==> (complete <==> a.Keys == VarSet(crossword))
    {
      DistinctCard(crossword.variables);
      if a.Keys <= VarSet(crossword) then
        SubsetCard(a.Keys, VarSet(crossword));
        |a| == |crossword.variables|
      else
        |a| == |crossword.variables|
    }

    /**
     * The validator: first every word's length, then every pair of assigned slots in
     * dict order, which fails on a letter clash at their overlap or on a repeated word.
     */
    method Consistent(a: Assignment) returns (ok: bool)
      requires WellFormed(crossword) && a.Keys <= VarSet(crossword)
      ensures ok <==> IsConsistent(crossword, a)
    {
      var keys := Enumerate(a.Keys);
      for i := 0 to |keys|
        invariant forall k :: 0 <= k < i ==> |a[keys[k]]| == keys[k].length
      {
        var v := keys[i];
        if v.length != |a[v]| {
          return false;
        }
      }
      assert LengthsMatch(a) by {
        forall v | v in a ensures |a[v]| == v.length {
          var k :| 0 <= k < |keys| && keys[k] == v;
        }
      }
      ok := CheckPairs(a, keys);
      if ok {
        forall u, v | u in a && v in a && u != v
          ensures PairAgrees(crossword, u, a[u], v, a[v]) && a[u] != a[v]
        {
          var p :| 0 <= p < |keys| && keys[p] == u;
          var q :| 0 <= q < |keys| && keys[q] == v;
          PairAgreesSymmetric(crossword, u, a[u], v, a[v]);
          if q < p {
            assert PairValid(crossword, a, v, u);
          } else {
            assert PairValid(crossword, a, u, v);
          }
        }
      }
    }

    /** The validator's loop over pairs: `keys[p]` against every later `keys[q]`. */
    method CheckPairs(a: Assignment, keys: seq<Variable>) returns (ok: bool)
      requires WellFormed(crossword) && a.Keys <= VarSet(crossword) && LengthsMatch(a)
      requires NoDup(keys) && forall k :: 0 <= k < |keys| ==> keys[k] in a
      ensures ok <==> forall p, q :: 0 <= p < q < |keys| ==> PairValid(crossword, a, keys[p], keys[q])
    {
      for i := 0 to |keys|
        invariant forall p, q :: 0 <= p < i && p < q < |keys| ==> PairValid(crossword, a, keys[p], keys[q])
      {
        var val1 := keys[i];
        for j := i + 1 to |keys|
          invariant forall q :: i < q < j ==> PairValid(crossword, a, val1, keys[q])
        {
          var val2 := keys[j];
          assert val1 != val2 && val1 in VarSet(crossword) && val2 in VarSet(crossword);
          var nodeConsistent := true;
          var overlap := crossword.overlaps[(val1, val2)];
          if overlap.Some? {
            var (val1Index, val2Index) := overlap.value;
            if a[val1][val1Index] != a[val2][val2Index] {
              nodeConsistent := false;
            }
          }
          if !nodeConsistent || a[val1] == a[val2] {
            return false;
          }
        }
      }
      return true;
    }

    /**
     * The order in which variable selection ranks the slots at positions `m` and `k`
     * of the slot list: fewer remaining values first, then higher degree, then the
     * earlier position. `m` ranks no worse than `k`.
     */
    predicate RanksBefore(m: nat, k: nat)
      reads this
      requires m < |crossword.variables| && k < |crossword.variables|
      requires crossword.variables[m] in domains && crossword.variables[k] in domains
    {
      var (u, v) := (crossword.variables[m], crossword.variables[k]);
      |domains[u]| < |domains[v]| ||
      (|domains[u]| == |domains[v]| &&
       (Degree(crossword, u) > Degree(crossword, v) || (Degree(crossword, u) == Degree(crossword, v) && m <= k)))
    }

    /**
     * Minimum remaining values with the degree heuristic as a tie-break: scanning the
     * slots in order, an unassigned slot replaces the current choice when its domain is
     * smaller, or equally small and its degree strictly larger. So the choice is the
     * unassigned slot that ranks first by `RanksBefore`.
     */
    method SelectUnassignedVariable(a: Assignment) returns (minVar: Option<Variable>)
      requires NoDup(crossword.variables) && VarSet(crossword) <= domains.Keys
      ensures minVar.None? <==> VarSet(crossword) <= a.Keys
      ensures minVar.Some? ==> minVar.value in VarSet(crossword) && minVar.value !in a
      ensures minVar.Some? ==> forall m, k ::
        0 <= m < |crossword.variables| && crossword.variables[m] == minVar.value &&
        0 <= k < |crossword.variables| && crossword.variables[k] !in a ==>
        RanksBefore(m, k)
      ensures minVar.Some? ==> forall v :: v in VarSet(crossword) && v !in a ==>
        |domains[minVar.value]| <= |domains[v]|
    {
      var vs := crossword.variables;
      minVar := None;
      var minNbOfValues: Option<nat> := None;
      ghost var minIndex: nat := 0;
      for i := 0 to |vs|
        invariant minVar.None? <==> minNbOfValues.None?
        invariant minVar.None? <==> forall k :: 0 <= k < i ==> vs[k] in a
        invariant minVar.Some? ==>
          minIndex < i && vs[minIndex] == minVar.value && minVar.value !in a &&
          minNbOfValues.value == |domains[minVar.value]|
        invariant minVar.Some? ==> forall k :: 0 <= k < i && vs[k] !in a ==> RanksBefore(minIndex, k)
      {
        var v := vs[i];
        if v !in a {
          var nbOfValues := |domains[v]|;
          if minNbOfValues.None? || nbOfValues <= minNbOfValues.value {
            if minNbOfValues.Some? && nbOfValues == minNbOfValues.value {
              if |Neighbors(crossword, v)| > |Neighbors(crossword, minVar.value)| {
                minVar := Some(v);
                minNbOfValues := Some(nbOfValues);
                minIndex := i;
              }
            } else {
              minVar := Some(v);
              minNbOfValues := Some(nbOfValues);
              minIndex := i;
            }
          }
        }
      }
      forall v | v in VarSet(crossword) && (minVar.None? || v !in a)
        ensures minVar.None? ==> v in a
        ensures minVar.Some? ==> |domains[minVar.value]| <= |domains[v]|
      {
        var k :| 0 <= k < |vs| && vs[k] == v;
      }
    }

    /**
     * The value ordering as written: the candidates are listed in domain order and only
     * the first one is scored (by how many words it would rule out of the unassigned
     * neighbours) before returning. A positive score sorts it behind the others, which
     * all score 0; an empty domain returns None.
     */
    method OrderDomainValues(targetVar: Variable, a: Assignment) returns (values: Option<seq<Word>>)
      requires Valid() && Indexable(crossword, domains)
      requires targetVar in VarSet(crossword)
      modifies this
      ensures domains == old(domains)
      ensures values.None? <==> domains[targetVar] == {}
      ensures values.Some? ==> NoDup(values.value)
      ensures values.Some? ==> forall w :: w in values.value <==> w in domains[targetVar]
    {
      var candidates := Enumerate(domains[targetVar]);
      var neighbors := Neighbors(crossword, targetVar);
      var unassignedNeighbors := [];
      for k := 0 to |crossword.variables|
        invariant forall n :: n in unassignedNeighbors ==> n in neighbors && n !in a
      {
        var v := crossword.variables[k];
        if v !in a && v in neighbors {
          unassignedNeighbors := unassignedNeighbors + [v];
        }
      }
      if |candidates| == 0 {
        assert forall w :: w !in domains[targetVar];
        return None;
      }
      var value := candidates[0];
      assert value in domains[targetVar];
      var score := 0;
      for k := 0 to |unassignedNeighbors|
        invariant domains == old(domains)
      {
        var neighbor := unassignedNeighbors[k];
        var prevDomains := domains;
        var prevNbOfValues := |domains[neighbor]|;
        ScoringArgumentsIndexable(targetVar, neighbor, value);
        domains := domains[targetVar := {value}];
        var _ := Revise(neighbor, targetVar);
        score := score + (prevNbOfValues - |domains[neighbor]|);
        domains := prevDomains;
      }
      if score > 0 {
        values := Some(candidates[1..] + [candidates[0]]);
      } else {
        values := Some(candidates);
      }
    }

    /** Revising a neighbour against the single word `value` of the target stays in range. */
    lemma ScoringArgumentsIndexable(targetVar: Variable, neighbor: Variable, value: Word)
      requires Valid() && Indexable(crossword, domains)
      requires targetVar in domains && value in domains[targetVar]
      requires neighbor in domains && neighbor != targetVar
      ensures Overlap(crossword, neighbor, targetVar).Some? ==>
        ReachesIndex(domains[neighbor], Overlap(crossword, neighbor, targetVar).value.0) &&
        ReachesIndex({value}, Overlap(crossword, neighbor, targetVar).value.1)
    {
      assert Overlap(crossword, targetVar, neighbor) == Flip(Overlap(crossword, neighbor, targetVar));
    }

    /**
     * Backtracking search from the partial assignment `a`: a complete `a` is returned
     * as it is; otherwise the selected slot tries each ordered candidate on a copy of
     * `a`, recursing on every consistent copy, and the first success is returned.
     */
    method Backtrack(a: Assignment) returns (result: Option<Assignment>)
      requires Valid() && Indexable(crossword, domains)
      requires a.Keys <= VarSet(crossword)
      modifies this
      decreases |VarSet(crossword) - a.Keys|, 1
      ensures domains == old(domains)
      ensures result.Some? ==> result.value.Keys == VarSet(crossword) && Extends(result.value, a)
      ensures result.Some? ==> result.value == a || SolutionThrough(crossword, domains, a, result.value)
      ensures result.Some? && IsConsistent(crossword, a) ==> IsSolution(crossword, result.value)
      ensures result.None? ==> forall s :: !SolutionThrough(crossword, domains, a, s)
    {
      if AssignmentComplete(a) {
        return Some(a);
      }
      var currVar := SelectUnassignedVariable(a);
      var v := currVar.value;
      var listOfValues := OrderDomainValues(v, a);
      if listOfValues.None? {
        return None;
      }
      var values := listOfValues.value;
      ghost var d := domains;
      for k := 0 to |values|
        invariant domains == d
        invariant ChoicesExcluded(crossword, d, a, v, values[..k])
      {
        result := TryValue(a, v, values[k]);
        if result.Some? {
          return;
        }
        ExcludeChoice(crossword, d, a, v, values, k);
      }
      assert values[..|values|] == values;
      return None;
    }

    /**
     * One round of the search loop: `a` extended with `v` set to `val` (a copy, so `a`
     * itself is untouched) is checked and, when consistent, searched from. A failure
     * means no solution through `a` gives `v` the word `val`.
     */
    method TryValue(a: Assignment, v: Variable, val: Word) returns (result: Option<Assignment>)
      requires Valid() && Indexable(crossword, domains)
      requires a.Keys <= VarSet(crossword) && v in VarSet(crossword) && v !in a && val in domains[v]
      modifies this
      decreases |VarSet(crossword) - a.Keys|, 0
      ensures domains == old(domains)
      ensures result.Some? ==> SolutionThrough(crossword, domains, a, result.value)
      ensures result.None? ==> forall s :: SolutionThrough(crossword, domains, a, s) ==> s[v] != val
    {
      var assignmentWithAddedValue := a[v := val];
      assert assignmentWithAddedValue.Keys == a.Keys + {v};
      AddOneCard(VarSet(crossword), a.Keys, v);
      var ok := Consistent(assignmentWithAddedValue);
      result := None;
      if ok {
        result := Backtrack(assignmentWithAddedValue);
        if result.Some? {
          ChoiceThrough(crossword, domains, a, v, val, result.value);
          return;
        }
      }
      FailedChoice(crossword, domains, a, v, val, assignmentWithAddedValue);
    }

    /**
     * Node consistency, then AC-3 (whose verdict is not consulted), then the search
     * from the empty assignment. A result is a solution built from the starting
     * domains; None means the starting domains hold no solution at all.
     */
    method Solve() returns (result: Option<Assignment>)
      requires Valid()
      modifies this
      ensures Valid() && Shrunk(old(domains), domains)
      ensures result.Some? ==> IsSolution(crossword, result.value) && Within(result.value, old(domains))
      ensures result.None? ==> forall s :: IsSolution(crossword, s) ==> !Within(s, old(domains))
    {
      ghost var d0 := domains;
      EnforceNodeConsistency();
      NodeFilteredKeepsSolutions(crossword, d0);
      NodeConsistentIndexable(crossword, domains);
      var _ := Ac3();
      assert IsConsistent(crossword, map[]);
      result := Backtrack(map[]);
      forall s | IsSolution(crossword, s) && Within(s, d0) ensures Within(s, domains) && SolutionThrough(crossword, domains, map[], s) {
      }
    }

    /**
     * The grid of letters an assignment spells: each assigned word is written cell by
     * cell from its slot's first cell along its direction; unwritten cells hold None.
     */
    method LetterGrid(a: Assignment) returns (letters: array2<Option<char>>)
      requires forall v, k {:trigger Cell(v, k)} :: v in a && 0 <= k < |a[v]| ==> InGrid(crossword, Cell(v, k))
      ensures fresh(letters)
      ensures letters.Length0 == crossword.height && letters.Length1 == crossword.width
      ensures Spells(letters, a, a.Keys)
      ensures CellsMatchOverlaps(crossword) && a.Keys <= VarSet(crossword) &&
              LengthsMatch(a) && OverlapsAgree(crossword, a) ==>
        forall v, k :: v in a && 0 <= k < |a[v]| && InGrid(crossword, Cell(v, k)) ==>
          letters[Cell(v, k).0, Cell(v, k).1] == Some(a[v][k])
    {
      letters := new Option<char>[crossword.height, crossword.width]((_, _) => None);
      var pending := a.Keys;
      while pending != {}
        invariant pending <= a.Keys
        invariant letters.Length0 == crossword.height && letters.Length1 == crossword.width
        invariant Spells(letters, a, a.Keys - pending)
        decreases pending
      {
        var variable :| variable in pending;
        WriteWord(letters, a, variable, a.Keys - pending);
        pending := pending - {variable};
        assert a.Keys - pending == (a.Keys - (pending + {variable})) + {variable};
      }
      if CellsMatchOverlaps(crossword) && a.Keys <= VarSet(crossword) && LengthsMatch(a) && OverlapsAgree(crossword, a) {
        forall v, k | v in a && 0 <= k < |a[v]|
          ensures letters[Cell(v, k).0, Cell(v, k).1] == Some(a[v][k])
        {
          var (r, c) := Cell(v, k);
          assert InGrid(crossword, (r, c));
          assert CoveredAmong(a, a.Keys, (r, c));
          var u, m :| u in a && 0 <= m < |a[u]| && Cell(u, m) == (r, c) && a[u][m] == letters[r, c].value;
          SameCellSameLetter(crossword, a, u, m, v, k);
        }
      }
    }

    /**
     * The grid `letters` holds exactly the letters that the words of the slots `done`
     * put there: a cell is filled iff one of them covers it, with one of their letters.
     */
    ghost predicate Spells(letters: array2<Option<char>>, a: Assignment, done: set<Variable>)
      reads letters
    {
      forall r, c :: 0 <= r < letters.Length0 && 0 <= c < letters.Length1 ==>
        (letters[r, c].Some? <==> CoveredAmong(a, done, (r, c))) &&
        (letters[r, c].Some? ==> Written(a, (r, c), letters[r, c].value))
    }

    /**
     * The inner loop of the letter grid: writes the word of `variable`, letter by letter.
     * Its cells then hold its letters and every other cell keeps its contents.
     */
    method WriteWord(letters: array2<Option<char>>, a: Assignment, variable: Variable, ghost done: set<Variable>)
      requires variable in a
      requires forall k :: 0 <= k < |a[variable]| ==>
        0 <= Cell(variable, k).0 < letters.Length0 && 0 <= Cell(variable, k).1 < letters.Length1
      requires Spells(letters, a, done)
      modifies letters
      ensures forall k :: 0 <= k < |a[variable]| ==>
        letters[Cell(variable, k).0, Cell(variable, k).1] == Some(a[variable][k])
      ensures forall r, c ::
        0 <= r < letters.Length0 && 0 <= c < letters.Length1 && !CoveredByPrefix(variable, |a[variable]|, (r, c)) ==>
        letters[r, c] == old(letters[r, c])
      ensures Spells(letters, a, done + {variable})
    {
      var word := a[variable];
      for k := 0 to |word|
        invariant forall m :: 0 <= m < k ==> letters[Cell(variable, m).0, Cell(variable, m).1] == Some(word[m])
        invariant forall r, c ::
          0 <= r < letters.Length0 && 0 <= c < letters.Length1 && !CoveredByPrefix(variable, k, (r, c)) ==>
          letters[r, c] == old(letters[r, c])
      {
        var (i, j) := Cell(variable, k);
        letters[i, j] := Some(word[k]);
        forall m | 0 <= m < k + 1
          ensures letters[Cell(variable, m).0, Cell(variable, m).1] == Some(word[m])
        {
          if m < k {
            if Cell(variable, m) == (i, j) {
              CellInjective(variable, m, k);
            }
          }
        }
        forall r, c | 0 <= r < letters.Length0 && 0 <= c < letters.Length1 && CoveredByPrefix(variable, k, (r, c))
          ensures CoveredByPrefix(variable, k + 1, (r, c))
        {
          var m :| 0 <= m < k && Cell(variable, m) == (r, c);
        }
      }
      forall r, c | 0 <= r < letters.Length0 && 0 <= c < letters.Length1
        ensures letters[r, c].Some? <==> CoveredAmong(a, done + {variable}, (r, c))
        ensures letters[r, c].Some? ==> Written(a, (r, c), letters[r, c].value)
      {
        CoveredAmongAdd(a, done, variable, (r, c));
        if CoveredByPrefix(variable, |word|, (r, c)) {
          var m :| 0 <= m < |word| && Cell(variable, m) == (r, c);
          assert letters[r, c] == Some(word[m]);
        }
      }
    }
  }
}
