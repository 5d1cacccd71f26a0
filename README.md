# Rooks that cannot all make a knight move — a Dafny model

The program searches an n-by-n board for a placement of k rooks, no two on a
row or a column, from which the rooks cannot all be relocated by one knight
move each so that, taken in tuple order, no relocated rook shares a row or a
column with any rook before it. It is generate-and-test:

* **Board geometry** (`Board`): squares `Pos(v, h)`, the rook attack
  relation, the board bounds, the fixed table of the eight knight offsets, and
  a mutable `Position` whose `AllHorseMoves` steps it through the table and
  puts it back.
* **Relocation checker** (`Relocation.Check`): a depth-first backtracking
  search over an `array<Pos>` that stands for the shared tuple of
  `Position` objects. Rook `i` is overwritten with each table destination in
  turn; an in-board one that attacks no rook `j < i` is kept and the search
  recurses to `i + 1`, succeeding at `i == n - 1`. On failure every rook is
  put back; on success nothing is put back and the array holds the
  relocation found. `Check` is proved sound and complete against the
  existential predicate `Relocatable` ("some choice of knight moves for rooks
  `i..n-1` is in board and non-attacking"), and its frame behaviour (restored
  on false, winning relocation on true, everything outside `i..n-1`
  untouched) is stated in its postconditions.
* **Placement enumerator** (`Combinatorics`, `Enumerator.RookPlacements`):
  Dafny has no `itertools`, so lexicographic combinations and
  k-permutations of `0..n-1` are defined as sequences and proved sound,
  complete and strictly lexicographically sorted. `RookPlacements` runs the
  source's nested loops, refills one buffer of `k` squares field by field and
  stops the column loop at the first permutation whose first column exceeds
  `(n - 1) >> 1`; it is proved equal to the filtered nested product
  `Placements(n, k)`, which is in turn characterised as exactly the rook
  placements with rows increasing along the tuple and the first rook in the
  left half.
* **Driver** (`Search.SearchBadPerm`): returns the first enumerated placement
  the checker rejects, or `None`. Because the knight table is symmetric under
  a change of sign of the column offset, mirroring a placement left-right
  does not change whether it can be relocated (`Relocation.MirrorRelocatable`),
  so `None` means that every row-ordered rook placement, left half or right
  half, can be relocated (`Search.SymmetryReduction`).

Where the code and the prose description of the program differ, the model
follows the code:

* For `k = 0` the code does not yield one empty placement: it evaluates
  `hs[0]` on the empty permutation and raises `IndexError`. The enumerator and
  the driver therefore require `k >= 1`.
* `check` ends its recursion at `i == n - 1`, not at the end of the tuple, and
  indexes `rooks_perm[i]` before testing anything. It is only safe when
  `i < n <= len(rooks_perm)`, which `Check` requires. The driver therefore
  requires `n <= k`. With `k < n` the code can index past the tuple. With
  `k > n` there is no row combination, and the driver returns `None`.
* `max_first_index = (n - 1) >> 1` is written `(n - 1) / 2`. Dafny's
  division by a positive divisor rounds down, exactly like the shift, for
  every `n`.

Files: `board.dfy`, `relocation.dfy`, `combinatorics.dfy`, `enumerator.dfy`,
`search.dfy`. Dafny is given all of them together.

## Model

| member | source | states |
|---|---|---|
| `Board.AttacksSymmetric` | main.py:16-17 | the attack relation (same row or same column) is symmetric, and every square attacks itself |
| `Board.HorseMoveShape` | main.py:7-8 | the offset table holds exactly the knight moves: one coordinate changes by 1 and the other by 2, in either order |
| `Board.Flip` | main.py:7-8 | each table entry has a partner entry with the same row offset and the opposite column offset |
| `Board.MirrorMove` | main.py:7-8 | the left-right mirror is an involution, keeps squares on the board, keeps the attack relation, and maps knight moves to knight moves |
| `Board.HorseMovesUpToMembers` | main.py:28-31 | after `d` table entries, the recorded squares are exactly the in-board destinations of those entries, at most `d` of them |
| `Board.HorseMovesNone` | main.py:28-31 | when no table entry lands on the board, nothing is recorded |
| `Board.HorseMovesMembers` | main.py:22-33 | the squares `all_horse_moves` yields are exactly the in-board knight destinations, at most 8 |
| `Board.Position.constructor` | main.py:11-14 | a new position holds the given row and column |
| `Board.Position.AllHorseMoves` | main.py:22-33 | the sequence of squares the position takes at each yield is the in-board table destinations in table order, and afterwards the position is back at its starting square |
| `Relocation.AttacksEarlier` | main.py:44-50 | the `bad_try` flag is set exactly when rook `i` attacks some rook with a smaller index |
| `Relocation.Check` | main.py:39-55 | returns true exactly when rooks `i..n-1` can be relocated; on true the array holds such a relocation and rooks outside `i..n-1` are untouched; on false the array is unchanged |
| `Relocation.Accept` | main.py:52-53 | the search's success paths (last index, or the recursive call succeeded) witness that rooks `i..n-1` can be relocated, and the array then holds such a relocation |
| `Relocation.Rejected` | main.py:43-55 | a candidate off the board, one attacking an earlier rook, or one from which the rest fails, is used by no relocation |
| `Relocation.Extend` | main.py:52-53 | an accepted square for rook `i` followed by a relocation of the rest (or nothing, at `i == n-1`) is a relocation from `i` |
| `Relocation.Restrict` | main.py:43-53 | a relocation from `i` puts rook `i` on an in-board knight destination attacking no earlier rook, and its rest is a relocation from `i + 1` of the tuple with rook `i` moved |
| `Relocation.RelocatableStep` | main.py:39-55 | rooks `i..n-1` can be relocated exactly when some table move of rook `i` is in board, attacks no earlier rook and, unless `i == n-1`, leaves the rest relocatable |
| `Relocation.ViaIsStep` | main.py:43-55 | a square some relocation uses for rook `i` is one the search accepts and can finish from |
| `Relocation.SomeVia` | main.py:43 | every relocation moves rook `i` along one of the eight table entries |
| `Relocation.MirrorRelocation` | main.py:65-66 | the mirror image of a relocation is a relocation of the mirrored tuple |
| `Relocation.MirrorRelocatable` | main.py:74-77 | a tuple can be relocated exactly when its mirror image can |
| `Relocation.NoMoveNoRelocation` | main.py:43-55 | a rook none of whose table destinations is on the board yields no move, and the search from it fails |
| `Relocation.SmallBoardFails` | main.py:43-55 | on a board of side 1 or 2, a rook on the board has no knight move and the search fails |
| `Relocation.CentreOfThreeFails` | main.py:43-55 | a rook at the centre of a 3-by-3 board has no knight move and the search fails |
| `Combinatorics.LexLessIrreflexive` | main.py:73-75 | the lexicographic order is strict |
| `Combinatorics.LexSortedNoDuplicates` | main.py:73-75 | a strictly lexicographically sorted list repeats no entry, so no combination or permutation is enumerated twice |
| `Combinatorics.CombosSound` | main.py:73 | every listed combination has `k` strictly increasing elements within `lo..n-1` |
| `Combinatorics.CombosComplete` | main.py:73 | every strictly increasing `k`-sequence within `lo..n-1` is listed |
| `Combinatorics.CombosLexSorted` | main.py:73 | combinations are listed in strictly increasing lexicographic order |
| `Combinatorics.CombinationsSpec` | main.py:73 | `combinations(range(n), k)` lists exactly the increasing `k`-sequences within `0..n-1`, in lexicographic order |
| `Combinatorics.PermsSound` | main.py:75 | every listed permutation has `k` distinct elements of the pool |
| `Combinatorics.PermsFromSound` | main.py:75 | the same for the permutations listed from pool index `j` on |
| `Combinatorics.PermsFromHeads` | main.py:75 | a permutation listed from pool index `j` on starts with a pool element at index `j` or later |
| `Combinatorics.PermsFromContains` | main.py:75 | the permutations starting with pool element `j` are among those listed from any earlier index |
| `Combinatorics.PermsComplete` | main.py:75 | every sequence of `k` distinct pool elements is listed |
| `Combinatorics.PermsLexSorted` | main.py:75 | over an increasing pool, permutations are listed in strictly increasing lexicographic order |
| `Combinatorics.PermsFromLexSorted` | main.py:75 | the same for the permutations listed from pool index `j` on |
| `Combinatorics.PermutationsSpec` | main.py:75 | `permutations(range(n), k)` lists exactly the `k`-sequences of distinct elements of `0..n-1`, in lexicographic order |
| `Enumerator.PermutationsNonEmpty` | main.py:75-77 | for `k >= 1` every permutation has a first element, and first elements never decrease along the list |
| `Enumerator.RowPlacementsMembers` | main.py:75-83 | for one row set, the yielded placements are the zips of the rows with the column sequences whose first column passes the bound |
| `Enumerator.AllPlacementsMembers` | main.py:73-83 | the yielded placements are the zips of a row combination with a column permutation whose first column passes the bound |
| `Enumerator.BreakIsFilter` | main.py:76-77 | once one permutation's first column is above the bound, no later one passes it, so the `break` yields what a filter yields |
| `Enumerator.PlacementsSpec` | main.py:62-83 | a placement is enumerated exactly when it has `k` in-board rooks, rows strictly increasing, columns distinct, and first column at most `(n-1) >> 1` |
| `Enumerator.RookPlacementNonAttacking` | main.py:62-64 | no two rooks of such a placement attack each other |
| `Enumerator.Fill` | main.py:79-81 | after the field-by-field loop the buffer holds rook `i` at `(vs[i], hs[i])` for every `i`, whatever it held before |
| `Enumerator.RookPlacements` | main.py:62-83 | the buffer contents at successive yields are the row combinations (outer) times the column permutations (inner) with first column at most `(n-1) >> 1`, in that order |
| `Search.SymmetryReduction` | main.py:65-66 | if every enumerated placement can be relocated, so can every row-ordered rook placement, whichever half its first rook is in |
| `Search.SearchBadPerm` | main.py:86-105 | returns the first enumerated placement that cannot be relocated (a valid rook placement), or `None` exactly when all enumerated placements, and hence all row-ordered rook placements, can be relocated |

## Left out

- `main`, `time.perf_counter` and every `print` (main.py:100, 108-123): timing and console output.
- The `cnt`/`MAX_CNT` progress counter (main.py:94-100): it only drives the progress output.
- `rooks_perm_to_str` (main.py:58-59): display formatting.
- The default arguments `n = N = 12` and `k = None` (main.py:6, 39, 62, 68-69, 86, 91-92): every parameter is explicit. The run with `n = 12` and its outcome (main.py:110) are not modelled.
- Generator suspension. In `Check` the generator of rook `i` is written out as a loop that overwrites the rook with each table destination and restores it after the last one. A success returns at once and restores nothing. `AllHorseMoves` returns the squares the position takes at its yields instead of suspending.
- Laziness of `rooks_permutations`: `RookPlacements` returns the buffer contents at every yield, and the driver consumes them afterwards. This gives the same sequence as the interleaved run. Every yield rewrites all `k` cells of the buffer, so a relocation left behind by a successful `check` never reaches a later placement.
- Object identity: the tuple of distinct `Position` objects is an array of coordinate values. The driver gives each placement to `Check` in a fresh array, so the aliasing between the reused yield buffer and the returned placement (main.py:71, 83, 103) is not modelled. The returned value equals the buffer's contents, because `check` restores them when it returns false.
- The crashes of the source are excluded by preconditions rather than modelled as outcomes: `k = 0` (`hs[0]` on an empty tuple), `check` reaching an index past the tuple when `n > len(rooks_perm)`, and `itertools.combinations` rejecting a negative `k` (`k` is a `nat`).
- The number of enumerated placements is not proved as a closed formula. `Enumerator.PlacementsSpec` characterises the enumerated set exactly instead.
