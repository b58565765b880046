# Crossword CSP engine

A Dafny model of the constraint engine of a crossword generator. The generator's
`CrosswordCreator` (in `generate.py`) treats every word slot of a grid as a CSP variable.
It keeps a domain store `domains` that maps each slot to its set of candidate words.
It makes the store node consistent (word length) and then arc consistent with AC-3.
Arc revision never counts an identical word as support. It then runs backtracking
search. The search picks variables by minimum remaining values with a degree
tie-break, orders values with the (truncated) least-constraining-value routine, and
checks every extension with a validator. The validator wants right lengths, agreement
at overlaps, and pairwise distinct words.

Layout:

- `wrappers.dfy`: `Option`, the model's `None`.
- `grid.dfy` (module `Grid`): slots (`Variable`), the grid (`Crossword`), the overlap
  table and `Neighbors`. These come from `crossword.py`, which is not part of this
  model. The grid is a well-formed input (`WellFormed`). Slots are distinct, every
  ordered pair of distinct slots has an entry, and the table is symmetric. An overlap
  indexes into both slots and names a shared cell.
- `domains.dfy` (module `Domains`): the domain store as a value. It holds the
  specification functions of node consistency (`NodeFiltered`) and of revision
  (`Supported`, `Revised`). It also holds arc consistency, AC-3's worklist invariant
  and its termination measure.
- `assignments.dfy` (module `Assignments`): assignments, the validator's three
  conditions (`IsConsistent`), solutions, and the facts the search and AC-3 proofs
  rely on. Pruning keeps every solution, and a failed choice excludes that word.
- `generate.dfy` (module `Generate`): class `CrosswordCreator`, whose field `domains`
  the methods update in place, as the program does.

The main results:

- `Ac3`: domains only shrink, and every solution drawn from the old domains survives.
  Success means every arc is consistent. Failure means some non-empty domain became
  empty. On an already arc-consistent store it succeeds and changes nothing, so a
  second run after a successful one is a no-op. It terminates by the measure (total
  domain size, worklist length).
- `Backtrack`: the result extends its input and has exactly one word per slot. It is
  a solution whenever the input is consistent. When it fails, no solution extends
  the input with words from the current domains, so the search is also complete.
- `Solve`: sound and complete with respect to the initial domains.

## Model

| member | source | states |
|---|---|---|
| Generate.CrosswordCreator.constructor | generate.py:8-16 | every slot of the grid starts with the whole word list as its domain |
| Generate.CrosswordCreator.EnforceNodeConsistency | generate.py:96-106 | the new store is the old one with each domain restricted to words of its slot's length |
| Generate.CrosswordCreator.FilterSlot | generate.py:104-106 | one slot's domain becomes its words of the right length; no other slot changes |
| Domains.NodeFiltered | generate.py:96-106 | node filtering only removes words; afterwards every word has its slot's length, and every right-length word is kept |
| Domains.NodeConsistentIndexable | generate.py:130 | after node consistency every overlap index lies inside every candidate word of both slots, so the letter lookups are defined |
| Generate.CrosswordCreator.Revise | generate.py:108-142 | no overlap: returns False and changes nothing; otherwise x's domain becomes exactly its words with a supporting y-word (different word, same letter at the overlap), nothing else changes, and the result is True iff x's domain strictly shrank |
| Domains.Revised | generate.py:125-136 | revision only removes words from x's domain |
| Domains.ConsistentArcUnrevised | generate.py:125-136 | revising an arc that is already consistent removes nothing |
| Domains.RevisedArcConsistent | generate.py:125-136 | after revision the arc (x, y) is consistent |
| Domains.ArcConsistentNarrowed | generate.py:164-175 | narrowing the source domain of a consistent arc keeps it consistent |
| Assignments.ReviseKeepsSolution | generate.py:125-136 | revision never removes a word of a solution drawn from the store, because the solution's y-word is a different, agreeing support |
| Generate.CrosswordCreator.SeedArcs | generate.py:154-160 | the initial worklist holds exactly the arcs (v, n) for every slot v and neighbour n |
| Domains.SeedCovers | generate.py:154-160 | the seeded worklist contains every arc between distinct slots that may be inconsistent, and only arcs of the grid |
| Generate.CrosswordCreator.Ac3 | generate.py:144-178 | domains only shrink and keep every solution; True means all arcs are consistent; False means a non-empty domain became empty; on an arc-consistent store it returns True and changes nothing |
| Generate.CrosswordCreator.PropagateArc | generate.py:165-175 | the last arc (x, y) is popped; the new store is the old one with x revised against y, or unchanged when x and y do not cross; it fails iff that revision changed x's domain to empty; otherwise the new worklist is the rest, followed by (n, x) for every neighbour n of x when the store changed; the worklist invariant is kept, and either the total domain size drops or the store is unchanged and the worklist is shorter |
| Generate.CrosswordCreator.PushArcsTo | generate.py:173-175 | the worklist gains (n, x) for each neighbour n of x, in order, at its end |
| Domains.PushKeepsArcsValid | generate.py:173-175 | pushed arcs join distinct slots of the grid |
| Domains.CoverAfterUnchanged | generate.py:164-168 | popping an arc whose revision changed nothing keeps the worklist invariant |
| Domains.CoverAfterShrink | generate.py:168-175 | popping an arc whose revision shrank x, then pushing every arc into x, keeps the worklist invariant |
| Domains.TotalSizeShrinks | generate.py:164-175 | shrinking a domain never raises the total domain size, and a strict shrink lowers it: the termination measure of AC-3 |
| Assignments.RevisionStep | generate.py:168-175 | one revision keeps the store shrunk, solution-preserving and indexable; a change lowers the total size; no change on an arc-consistent store |
| Domains.ArcsTo | generate.py:174-175 | the arcs pushed after a change of x are (n, x) for each neighbour n, in order |
| Generate.CrosswordCreator.RevisionArgumentsIndexable | generate.py:130 | the overlap indices of a popped arc lie inside the words of both domains |
| Generate.CrosswordCreator.AssignmentComplete | generate.py:180-187 | for an assignment of grid slots, the length test holds iff every slot is assigned |
| Generate.CrosswordCreator.Consistent | generate.py:189-213 | returns True iff every word has its slot's length, every two crossing assigned slots agree at their overlap, and no two assigned slots hold the same word |
| Generate.CrosswordCreator.CheckPairs | generate.py:200-211 | the pair loop succeeds iff every pair of listed slots, in list order, agrees at its overlap and holds different words |
| Assignments.PairAgreesSymmetric | generate.py:204-209 | checking a pair in either order gives the same verdict, because the overlap table is symmetric |
| Assignments.ConsistentSubAssignment | generate.py:189-213 | every sub-assignment of a consistent assignment is consistent |
| Generate.CrosswordCreator.SelectUnassignedVariable | generate.py:260-285 | None iff every slot is assigned; otherwise an unassigned slot with the fewest remaining values; on equal counts a later slot replaces the choice only with strictly higher degree, so the choice ranks first among the unassigned slots |
| Generate.CrosswordCreator.OrderDomainValues | generate.py:216-258 | the store is unchanged; None iff the slot's domain is empty; otherwise a duplicate-free listing of exactly that domain |
| Generate.CrosswordCreator.ScoringArgumentsIndexable | generate.py:245-247 | the revision that scores a candidate stays within the words' letters |
| Generate.CrosswordCreator.Backtrack | generate.py:287-319 | the store is unchanged; a result extends the input with exactly one word per slot and is a solution whenever the input is consistent; None means no solution extends the input with words from the domains |
| Generate.CrosswordCreator.TryValue | generate.py:306-316 | a copy of the assignment extended with the candidate is validated and searched; success yields a solution through the assignment; failure means no such solution uses that candidate |
| Assignments.ThroughChoice | generate.py:306-313 | a solution that uses the candidate passes through the extended assignment, and that extension is consistent |
| Assignments.ChoiceThrough | generate.py:311-313 | a solution found below an extension is a solution through the original assignment |
| Assignments.FailedChoice | generate.py:310-316 | an inconsistent candidate, or one whose search failed, is used by no solution through the assignment |
| Assignments.ExcludeChoice | generate.py:306-316 | each failed candidate joins the candidates that no solution uses |
| Assignments.NodeFilteredKeepsSolutions | generate.py:96-106 | node filtering keeps every solution's words |
| Generate.CrosswordCreator.Solve | generate.py:88-94 | the result is a solution built from the starting domains; None means the starting domains hold no solution |
| Assignments.SharedSingletonUnsolvable | generate.py:210 | two slots left with the same single word admit no solution, whether they cross or not |
| Generate.CrosswordCreator.LetterGrid | generate.py:18-32 | a fresh height-by-width grid whose filled cells are exactly the cells covered by an assigned word, each with a letter some word puts there; for a consistent assignment on a grid whose shared cells are its overlaps, every word can be read back at its slot |
| Generate.CrosswordCreator.WriteWord | generate.py:26-31 | each cell of the slot holds that slot's letter; every other cell keeps its old contents; the grid then spells the words written so far plus this one |
| Assignments.CoveredAmongAdd | generate.py:26-31 | the cells covered by a set of words plus one more are those of the set plus those of the new word |
| Assignments.SameCellSameLetter | generate.py:26-31 | in a consistent assignment, two letters written to the same cell are equal, so the write order does not matter |
| Grid.NeighborsIn | generate.py:158 | the neighbours of v are exactly the other slots whose overlap with v is set, listed without duplicates |
| Grid.Enumerate | generate.py:195-202 | iteration over a dict's keys (and, at generate.py:228, over a domain set) visits each element exactly once |

## Left out

- `print`, `save` and `main` (generate.py:34-86, 321-347): terminal and image output through PIL, a font file, float pixel arithmetic, command-line arguments and file loading.
- `crossword.py` is not part of this model. `Crossword`, `Variable`, the overlap table and the word list are taken as a well-formed input (`Grid.WellFormed`); the neighbour relation is derived from the overlap table (`Grid.Neighbors`). Parsing and overlap computation are not modelled.
- `ac3` with a caller-supplied `arcs` list: `solve` never passes one, so only the seeding from every (slot, neighbour) pair is modelled.
- Iteration order of the domain sets and of assignment dicts is not fixed by the model: each such loop picks an arbitrary next element. The slot list has one fixed order. Nothing is proved about which particular permutation `order_domain_values` returns.
- `neighbors(x)` is a Python set, iterated in hash order (generate.py:158-159, 171-175). The model lists it in slot-list order (`Grid.Neighbors`), so AC-3's seeding and pushes use that one order. `PushArcsTo` and `PropagateArc` state that order; no contract of `Ac3` depends on it.
- Generate.CrosswordCreator.OrderDomainValues: only the behaviour as written is modelled. The `return` sits inside the loop over candidates, so only the first candidate is scored. A positive score moves it behind the others; otherwise the listing is kept. The full least-constraining-value ranking that the docstring describes never runs, and no property of ranking quality is stated.
- Generate.CrosswordCreator.Revise requires every overlap index to lie inside the words of both domains. The program raises IndexError when it reads a letter past a word's end (generate.py:130). The requires excludes every such store, and also some stores the program handles without error: an empty y domain, or a y domain holding only the x-word itself, where the letters are never read. Every call after node consistency meets the requires (`NodeConsistentIndexable`), which is how `solve` calls it.
- Generate.CrosswordCreator.Ac3 can return True while some domain is empty, when node consistency emptied it and no revision touched it afterwards. That is the program's behaviour, so the contract says only that False means an emptied domain.
- Generate.CrosswordCreator.LetterGrid requires every assigned letter's cell to lie inside the grid. The program raises IndexError for a cell past the edge and silently wraps a negative index. Neither case arises for slots of a loaded grid.
- `copy.deepcopy` is modelled by its effect: dictionaries and sets are values, so a trial extension never touches the caller's assignment, and the restored store equals the saved one.
- `float('inf')` in variable selection is modelled as "no candidate yet" (`None`).
- Python's unbounded integers need no wrap-around; Dafny's `int` and `nat` match them.
