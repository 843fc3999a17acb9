# Sudoku solver and popcount variants, modelled in Dafny

This project models two programs from the blog's companion code.

**The Sudoku solver** (`sudoku/Sudoku.cpp`, `sudoku/Sudoku.h`, `sudoku/SudokuSolver.cpp`).
It solves Sudokus of any rank up to 35 by candidate propagation. The block partition may be any
partition into `rank` blocks of `rank` cells each.

The `Sudoku` object is the class `SudokuEngine.Sudoku`. Its fields are the ones the C++ class
updates in place:

- `field`: the cell values; 0 means blank.
- `blockMap`: for each (block, number), the cell of the block that holds the number, or -1.
- `blankBlocks`: the blank cells of each block.
- `blankCandidates`: a `std::map` from each blank cell to its ascending candidate list.

Two ghost predicates state what the proofs are about:

- `Valid()`: this bookkeeping agrees with the field, and the field has no conflict.
- `Sound(s)`: a solution `s` is still reachable. It extends the field and keeps each blank
  cell's number among that cell's candidates.

Every candidate-removal strategy is proved to keep `Valid()` and to keep every reachable
solution. The strategies are naked pair, naked triple, X-wing, pointing from a block onto a line,
from a line into a block, and the two-line and three-line block groups. Each strategy's removal is
justified by a lemma in `SudokuRules` that says the removed number cannot sit in that cell in any
such solution. `solve()` is proved to fill only blank cells and to keep every reachable solution.
Its ghost trace of candidate counts starts at the initial count and falls strictly, staying above 0,
while the loop goes on. The last entry, which is the final count, is 0 or did not fall.

The command-line `main()` of `SudokuSolver.cpp` is modelled as well: its argument checks, the
integer square root, and the regular block partition. In the source this `main()` is compiled
only when `COMMANDLINE_INPUT` is nonzero; the default build uses a hard-coded puzzle instead.

Module layout:

| module | what it holds |
|---|---|
| `SudokuCodec` | the cell letters (`number()`, `letter()`, both `parse()` overloads) |
| `SudokuGrid` | geometry, conflict-freedom, solutions, and the text `toString()` writes |
| `SudokuChecks` | `isBlockPartitionValid()` and `validate()` |
| `SudokuState` | the state predicates and the lemmas about placing and removing |
| `SudokuRules` | the strategies' exclusion lemmas |
| `SudokuPatterns` | the pattern scans, which are the lambdas and loops of each strategy |
| `SudokuEngine` | the class |
| `SudokuSolverMain` | `isqrt()`, the regular partition and `main()`'s argument checks |

**The popcount variants** (`popcount/popcount.cpp`). `Popcount` models the table-driven and
bit-parallel population counts on `bv32`. Every variant is proved equal to one reference count,
`Pop`.

## Model

| member | source | states |
|---|---|---|
| SudokuCodec.ToLower | sudoku/Sudoku.cpp:41-42 | capitals map to lower case, and every other character is left alone |
| SudokuCodec.Number | sudoku/Sudoku.cpp:34-50 | a letter's value lies in 0..35; it is below 10 exactly for digits and is 0 exactly for '0' |
| SudokuCodec.LetterAsWritten | sudoku/Sudoku.cpp:52-63 | as written, letter() gives a character exactly for 0 <= n < 35, and number() of that character is n |
| SudokuCodec.Letter | sudoku/Sudoku.h:161-166 | the corrected letter(): every value 0..35 gets a digit or lower-case letter whose number() is that value |
| SudokuCodec.LetterAsWrittenMissesZ | sudoku/Sudoku.cpp:56 | 'z' has value 35; letter() as written has no character for 35, and the corrected one gives 'z' |
| SudokuCodec.LetterAgrees | sudoku/Sudoku.cpp:52-63 | below 35 the corrected letter() agrees with the one as written |
| SudokuCodec.NumberOfLetter | sudoku/Sudoku.h:153-166 | number(letter(n)) == n for every value 0..35 |
| SudokuCodec.LetterOfNumber | sudoku/Sudoku.h:153-166 | letter(number(c)) is c in lower case, for every accepted letter |
| SudokuCodec.CapitalsAsLower | sudoku/Sudoku.cpp:39-42 | a capital decodes to the same value as its lower-case letter |
| SudokuCodec.CellValue | sudoku/Sudoku.cpp:76-92 | a cell's value is in 0..35; it is 0 exactly for '0', or for a blank mark when a placeholder is set |
| SudokuCodec.BlankMarksAreEmpty | sudoku/Sudoku.cpp:85-86 | ' ', '*' and '.' each read as an empty cell, whichever placeholder was chosen |
| SudokuCodec.Decoded | sudoku/Sudoku.cpp:65-92 | decoding keeps the length, and every value is in range |
| SudokuCodec.DecodeEncoded | sudoku/Sudoku.cpp:65-74 | decoding the letters of a value sequence gives the values back |
| SudokuCodec.EncodeDecoded | sudoku/Sudoku.cpp:65-74 | encoding decoded letters gives the original text in lower case |
| SudokuCodec.Parse | sudoku/Sudoku.cpp:65-92 | both parse() overloads: the first `length` characters, decoded one by one |
| SudokuGrid.CellAt | sudoku/Sudoku.cpp:256-273 | the cell at (r, c) lies in the grid and has row r and column c |
| SudokuGrid.PositionCoordinates | sudoku/Sudoku.cpp:411-412 | every position is the cell at its row position / rank and its column position % rank |
| SudokuGrid.LineCell | sudoku/Sudoku.cpp:977-979 | cell j of line i lies on row i and column j when horizontal, and the reverse otherwise |
| SudokuGrid.PeersDiffer | sudoku/Sudoku.cpp:139-198 | in a field without conflicts, two distinct cells sharing a group never hold the same nonzero value |
| SudokuGrid.AbsentByParts | sudoku/Sudoku.cpp:405-429 | n is absent around p exactly when p's row, p's column and p's block all lack n |
| SudokuGrid.SolutionValueAbsent | sudoku/Sudoku.cpp:124-135 | a solution's number at p is absent from p's peers in every field the solution extends |
| SudokuGrid.Without | sudoku/Sudoku.cpp:21-32 | erasing x removes exactly one entry when x is present, and keeps the list otherwise |
| SudokuGrid.WithoutFirst | sudoku/Sudoku.cpp:21-32 | Without erases the first occurrence of x and keeps the rest in order |
| SudokuGrid.WithoutAscending | sudoku/Sudoku.cpp:542-550 | erasing from an ascending candidate list keeps it ascending and removes x, and only x |
| SudokuGrid.RenderedFlat | sudoku/Sudoku.cpp:1547-1560 | toString(false) is the cell letters themselves |
| SudokuGrid.RenderedUnlined | sudoku/Sudoku.cpp:1547-1560 | dropping the newlines of toString(true) gives the cell letters back |
| SudokuGrid.RenderedLength | sudoku/Sudoku.cpp:1547-1560 | line by line, n letters in rows of `width` get (n - 1) / width newlines |
| SudokuChecks.IsBlockPartitionValid | sudoku/Sudoku.cpp:200-218 | the partition is accepted iff every id lies in [1, rank] and each id occurs exactly rank times |
| SudokuChecks.ScanLine | sudoku/Sudoku.cpp:160-180 | the scan of one line, with flags indexed by value, returns 0 iff the line repeats no value, and otherwise a value found twice |
| SudokuChecks.ScanBlock | sudoku/Sudoku.cpp:183-195 | the scan of one block returns 0 iff the block repeats no value, and otherwise a value found in two of its cells |
| SudokuChecks.ScanLines | sudoku/Sudoku.cpp:160-180 | all rows (or all columns): a conflict is reported iff one exists, and the reported value is repeated in a line |
| SudokuChecks.ScanBlocks | sudoku/Sudoku.cpp:182-195 | all blocks: a conflict is reported iff one exists, and the reported value is repeated in a block |
| SudokuChecks.Validate | sudoku/Sudoku.cpp:139-198 | the corrected validate(): it reports a repeated value iff some row, column or block repeats one |
| SudokuChecks.ScanLineAsWritten | sudoku/Sudoku.cpp:164-167 | as written, the row scan (and likewise the column scan) never reports a repeat |
| SudokuChecks.ValidateAsWritten | sudoku/Sudoku.cpp:139-198 | as written, validate() reports a conflict exactly when some block repeats a value |
| SudokuChecks.RowRepeatGoesThrough | sudoku/Sudoku.cpp:160-169 | a 4 x 4 grid whose first row repeats 1 while every block is clean: the scan as written accepts it, the intended one rejects it |
| SudokuState.RemoveElement | sudoku/Sudoku.cpp:21-32 | removeElement erases the first occurrence, and reports whether the element was there |
| SudokuState.WithoutTwice | sudoku/Sudoku.cpp:542-550 | erasing the same number twice from a candidate list is the same as erasing it once |
| SudokuState.MapIndex | sudoku/Sudoku.cpp:225-238 | the map slot (b - 1) * rank + (n - 1) lies in the map, and distinct (b, n) pairs get distinct slots |
| SudokuState.AbsentNumbers | sudoku/Sudoku.cpp:129-135 | the numbers 1..k absent around p, in ascending order, and exactly those |
| SudokuState.SoundBeforeShrinking | sudoku/Sudoku.cpp:542-550 | a solution reachable after candidates are crossed out was reachable before |
| SudokuState.RemovalConsistent | sudoku/Sudoku.cpp:542-550 | erasing a number from one candidate list keeps the state consistent and only shrinks the candidates |
| SudokuState.RemovalSound | sudoku/Sudoku.cpp:542-550 | erasing a number that no reachable solution puts at that cell keeps every reachable solution |
| SudokuState.RemovalKeeps | sudoku/Sudoku.cpp:542-550 | a strategy's removal keeps the state consistent, only shrinks the candidates and keeps every solution |
| SudokuState.PeersSymmetric | sudoku/Sudoku.cpp:275-319 | sharing a row, a column or a block is symmetric |
| SudokuState.CrossingOutPlaces | sudoku/Sudoku.cpp:275-319 | crossing n out of the column, then the row, then the block, and dropping p's entry, gives exactly the candidates after placing n at p |
| SudokuState.PlacedShaped | sudoku/Sudoku.cpp:240-248 | writing a value in 1..rank into a grid that was in shape keeps it in shape |
| SudokuState.PlacedMap | sudoku/Sudoku.cpp:316-318 | recording the placement in the block map keeps the map true to the field |
| SudokuState.PlacedCandidates | sudoku/Sudoku.cpp:275-319 | after a placement, the candidate keys are again exactly the blank cells, each list being the absent numbers |
| SudokuState.PlacedBlankBlocks | sudoku/Sudoku.cpp:316-317 | dropping the filled cell from its block's blank list keeps the blank lists true to the field |
| SudokuState.PlacingConsistent | sudoku/Sudoku.cpp:275-319 | completing a placement with updateNumber leaves a consistent state |
| SudokuState.PlacingSound | sudoku/Sudoku.cpp:240-248 | placing n at p keeps every reachable solution that has n at p |
| SudokuState.PlacedSound | sudoku/Sudoku.cpp:240-248 | the converse: a solution reachable after the placement was reachable before |
| SudokuState.PlacingConflictFree | sudoku/Sudoku.cpp:377-429 | writing n at a blank cell keeps the field conflict-free exactly when isSafe's condition holds, that is, n is absent around the cell |
| SudokuState.AgreeingConflictFree | sudoku/Sudoku.cpp:139-198 | a field that some solution extends has no conflict |
| SudokuState.CountZero | sudoku/Sudoku.cpp:1502-1508 | the candidate count is 0 exactly when every blank cell has run out of candidates |
| SudokuState.CountMonotone | sudoku/Sudoku.cpp:1502-1508 | fewer blank cells, each with no more candidates, never raise the count |
| SudokuState.CountShrinks | sudoku/Sudoku.cpp:1502-1508 | crossing candidates out never raises the count |
| SudokuState.CountAfterPlacing | sudoku/Sudoku.cpp:1502-1508 | placing a number never raises the count |
| SudokuRules.SeatsApart | sudoku/Sudoku.cpp:139-198 | in a solution, two distinct cells of one group hold different numbers |
| SudokuRules.Seat | sudoku/Sudoku.cpp:449-535 | a group that lacks n has, in every reachable solution, n at a blank cell that still has n among its candidates |
| SudokuRules.UnplacedByMap | sudoku/Sudoku.cpp:225-230 | a map slot holding -1 means the block does not hold that number |
| SudokuRules.UnplacedNearCandidate | sudoku/Sudoku.cpp:129-135 | a cell that still has candidate n shows that none of its groups holds n |
| SudokuRules.NakedSingleForced | sudoku/Sudoku.cpp:431-447 | a blank cell with n as its only candidate holds n in every reachable solution |
| SudokuRules.HiddenSingleForced | sudoku/Sudoku.cpp:449-535 | a cell that is the only holder of n in one of its groups holds n in every reachable solution |
| SudokuRules.NakedPairExcludes | sudoku/Sudoku.cpp:559-751 | two cells of one group whose candidates are both [a, b] leave neither a nor b to any other cell of the group |
| SudokuRules.PairClears | sudoku/Sudoku.cpp:613-703 | a naked pair rules both of its numbers out of every other cell of its group, in every reachable solution |
| SudokuRules.NakedTripleExcludes | sudoku/Sudoku.cpp:772-884 | three cells of one group whose candidates lie in a set of three numbers leave none of those numbers to the other cells |
| SudokuRules.TripleClears | sudoku/Sudoku.cpp:817-882 | a naked triple rules its three numbers out of every other cell of its group, in every solution reachable from the strategy's start |
| SudokuRules.PointingExcludes | sudoku/Sudoku.cpp:890-959 | when all of a group's candidates n lie in a second group, the second group's other cells do not hold n |
| SudokuRules.TwoGroupsExclude | sudoku/Sudoku.cpp:1026-1113 | two groups whose candidates n lie in two crossing groups fill both of those; the other cells of the crossing groups do not hold n |
| SudokuRules.ThreeGroupsExclude | sudoku/Sudoku.cpp:1265-1372 | the same with three groups and three crossing groups |
| SudokuRules.CoverOf | sudoku/Sudoku.cpp:1335-1367 | the one of three covering groups that holds a given cell |
| SudokuRules.OnlyHolder | sudoku/Sudoku.cpp:464-491 | a histogram count of 1 names one cell, the last recorded holder, and no other listed cell holds n |
| SudokuRules.NoHolder | sudoku/Sudoku.cpp:464-475 | a count of 0 means that no listed cell holds n |
| SudokuRules.CountedOnce | sudoku/Sudoku.cpp:464-475 | when exactly one listed cell holds n, the count is 1 and the recorded position is that cell |
| SudokuRules.NoneCounted | sudoku/Sudoku.cpp:464-475 | when no listed cell holds n, the count is 0 |
| SudokuRules.CountedHiddenSingle | sudoku/Sudoku.cpp:464-491 | over a group's cells, a count of 1 recorded at p holds iff p is the group's hidden single for n |
| SudokuRules.RowListed | sudoku/Sudoku.cpp:494-506 | the cells of row r, in column order, list the row |
| SudokuRules.ColumnListed | sudoku/Sudoku.cpp:509-519 | the cells of column c, in row order, list the column |
| SudokuRules.BlockListed | sudoku/Sudoku.cpp:522-532 | the blank list of block b lists the block |
| SudokuRules.LineListed | sudoku/Sudoku.cpp:973-998 | the cells of a line, in order, list the line |
| SudokuRules.HolderGroupsCover | sudoku/Sudoku.cpp:906-931 | every listed cell with candidate n contributes its group to the holder groups |
| SudokuRules.HolderWitness | sudoku/Sudoku.cpp:906-931 | every holder group comes from a listed cell with candidate n |
| SudokuRules.ConfinedByHolders | sudoku/Sudoku.cpp:906-935 | the holder groups of a group's cells confine its candidates n |
| SudokuRules.PointingClears | sudoku/Sudoku.cpp:935-950 | pointing rules n out of the target group's cells outside the source group, in every reachable solution |
| SudokuRules.TwoGroupsClear | sudoku/Sudoku.cpp:1235-1260 | the two-group pattern rules n out of the rest of both crossing groups |
| SudokuRules.ThreeGroupsClear | sudoku/Sudoku.cpp:1335-1367 | the three-group pattern rules n out of the rest of the three crossing groups |
| SudokuRules.HolderGroupsPrefix | sudoku/Sudoku.cpp:1195-1214 | holder groups only grow as more cells are scanned |
| SudokuRules.HolderGroupsWithin | sudoku/Sudoku.cpp:1195-1214 | holder groups lie within a set when every listed holder's group does |
| SudokuPatterns.LackingGrows | sudoku/Sudoku.cpp:631-655 | crossing the numbers out of one more cell extends the set of cleared cells |
| SudokuPatterns.PairedMembers | sudoku/Sudoku.cpp:600-611 | the eviction keeps only records whose pair occurs at least twice |
| SudokuPatterns.PairedComplete | sudoku/Sudoku.cpp:600-611 | the eviction keeps every record whose pair occurs at least twice |
| SudokuPatterns.PairedCells | sudoku/Sudoku.cpp:600-611 | the kept records are still distinct cells with exactly the two recorded candidates |
| SudokuPatterns.PairPartner | sudoku/Sudoku.cpp:613-626 | a record whose pair occurs twice has a partner record with the same pair |
| SudokuPatterns.SomePair | sudoku/Sudoku.cpp:586-598 | a positive count names a record that carries that pair |
| SudokuPatterns.CountPairs | sudoku/Sudoku.cpp:586-598 | the statistics loop counts, for every pair it sees, how many records carry it |
| SudokuPatterns.KeepPaired | sudoku/Sudoku.cpp:600-611 | the eviction loop keeps, in order, exactly the records whose pair was counted twice or more |
| SudokuPatterns.TripleGroup | sudoku/Sudoku.cpp:795-814 | getGroup: a group holding all three cells, trying the row, then the column, then the block; NoGroup iff none does |
| SudokuPatterns.Insert | sudoku/Sudoku.cpp:832-838 | std::set::emplace: the result is ascending and holds the old members plus x |
| SudokuPatterns.InsertAll | sudoku/Sudoku.cpp:832-838 | the emplace loop over a list: ascending, holding the old members plus the list's |
| SudokuPatterns.Union3 | sudoku/Sudoku.cpp:830-840 | the numbers that are candidates of at least one of the three cells |
| SudokuPatterns.SetOfAscending | sudoku/Sudoku.cpp:840 | an ascending sequence holds as many distinct numbers as it has entries, so size() counts the union |
| SudokuPatterns.BlockLines | sudoku/Sudoku.cpp:906-931 | sameRow iff the block's holders of n lie on at most one row, sameColumn likewise, and row and column are those of a holder |
| SudokuPatterns.BlockLine | sudoku/Sudoku.cpp:1118-1147 | the projection gives a line iff the block's holders of n lie on exactly one line, and then that line |
| SudokuPatterns.TakeSeats | sudoku/Sudoku.cpp:1195-1214 | the seat-taking scan finds distinct holder lines; with at most `seats` found it has found them all |
| SudokuPatterns.SeatScanWithin | sudoku/Sudoku.cpp:1195-1214 | the lines found so far are holder lines of the block |
| SudokuPatterns.SeatScanAll | sudoku/Sudoku.cpp:1195-1214 | a scan that passed every cell found exactly the holder lines |
| SudokuPatterns.BlockTwoLines | sudoku/Sudoku.cpp:1189-1224 | the projection gives two lines, in order, iff the holders lie on exactly two lines, and then those |
| SudokuPatterns.BlockThreeLines | sudoku/Sudoku.cpp:1267-1314 | the projection gives three lines, in order, iff the holders lie on exactly three lines, and then those |
| SudokuPatterns.SortThree | sudoku/Sudoku.cpp:1303-1311 | the three swaps sort three distinct numbers into increasing order |
| SudokuPatterns.LineBlock | sudoku/Sudoku.cpp:975-998 | the line scan gives a block index > 0 iff the line's holders of n lie in exactly one block, and then that block |
| SudokuPatterns.LineBlockSplit | sudoku/Sudoku.cpp:988-993 | two holders in different blocks mean that the holders span at least two blocks |
| SudokuPatterns.LineBlockSettled | sudoku/Sudoku.cpp:1000 | a scan that ended without a split found the one block, or found no holder |
| SudokuPatterns.XWingLinesAt | sudoku/Sudoku.cpp:1063-1072 | every collected record holds for the candidates |
| SudokuPatterns.XWingLinesJoin | sudoku/Sudoku.cpp:1063-1072 | joining two lists of true records gives a list of true records |
| SudokuPatterns.LinePair | sudoku/Sudoku.cpp:1028-1058 | project gives a value iff the line's holders of n sit on exactly two crossing lines, and then it is a true record of them |
| SudokuPatterns.LineCrowded | sudoku/Sudoku.cpp:1045-1050 | a third holder means the line is not an X-wing line |
| SudokuPatterns.LinePairSettled | sudoku/Sudoku.cpp:1054-1057 | a scan that took two seats found exactly the line's crossing lines, and those confine its holders |
| SudokuPatterns.CollectXWings | sudoku/Sudoku.cpp:1063-1072 | the collection holds a true record for every (line, number) pair with two crossing lines, in increasing order |
| SudokuPatterns.XWingsCollectedStep | sudoku/Sudoku.cpp:1063-1072 | appending the records of the next line keeps the collection true, ordered and complete up to that line |
| SudokuPatterns.LineXWings | sudoku/Sudoku.cpp:1064-1071 | one line's records: true, in increasing number order, and none missing |
| SudokuPatterns.RecordedJoin | sudoku/Sudoku.cpp:1063-1072 | appending a line's records keeps the earlier ones and adds that line's |
| SudokuPatterns.RecordedKept | sudoku/Sudoku.cpp:1064-1071 | appending a record keeps every number already recorded and adds the new one |
| SudokuEngine.Written | sudoku/Sudoku.cpp:1479-1499 | writing a batch of steps keeps the number of cells |
| SudokuEngine.WrittenCells | sudoku/Sudoku.cpp:1479-1499 | steps that agree with one grid leave each step's number in its cell and every other cell as it was |
| SudokuEngine.GroupSingles | sudoku/Sudoku.cpp:478-491 | after counting over a group, the numbers counted once are exactly the group's hidden singles, at the recorded cells |
| SudokuEngine.Sudoku.Create | sudoku/Sudoku.cpp:94-137 | the constructor rejects a bad rank, then a bad partition, then a clue repeated in a row, column or block (the intended check, not validate() as written; see Left out) and reports it; otherwise it builds a valid engine whose field is the clues, and every solution of the clues is reachable |
| SudokuEngine.Sudoku.Init | sudoku/Sudoku.cpp:108-136 | once the checks pass: the field is the clues, the bookkeeping is valid, each candidate list is the absent numbers, and every solution is reachable |
| SudokuEngine.Sudoku.IndexClues | sudoku/Sudoku.cpp:114-122 | the first loop records every clue in the map and every blank cell in its block's blank list |
| SudokuEngine.Sudoku.CollectCandidates | sudoku/Sudoku.cpp:124-136 | the second loop gives each blank cell, and only blank cells, the numbers absent around it |
| SudokuEngine.Sudoku.Candidates | sudoku/Sudoku.cpp:129-133 | a blank cell's candidates are the numbers 1..rank that isSafe accepts, in order |
| SudokuEngine.MapGains | sudoku/Sudoku.cpp:118-119 | the slot of a clue's (block, number) is still empty when the first loop reaches the clue |
| SudokuEngine.BlankBlockGains | sudoku/Sudoku.cpp:120-121 | appending a blank cell keeps the blank lists true to the cells scanned so far |
| SudokuEngine.Sudoku.GetMapPosition | sudoku/Sudoku.cpp:225-230 | the cell of block b that holds n, or -1 when b lacks n |
| SudokuEngine.Sudoku.SetMapPosition | sudoku/Sudoku.cpp:232-238 | only slot (b - 1) * rank + (n - 1) of the map changes |
| SudokuEngine.Sudoku.GetNumber | sudoku/Sudoku.cpp:250-254 | a value in 0..rank, which is 0 exactly for the blank cells |
| SudokuEngine.Sudoku.GetNumberAt | sudoku/Sudoku.cpp:268-273 | the same, by row and column |
| SudokuEngine.Sudoku.IsSafe | sudoku/Sudoku.cpp:405-429 | isSafe(position, n) is true iff the cell is blank and n is absent from its row, its column and its block |
| SudokuEngine.Sudoku.RowLacks | sudoku/Sudoku.cpp:414-416 | the row loop passes iff no cell of the row holds n |
| SudokuEngine.Sudoku.ColumnLacks | sudoku/Sudoku.cpp:419-421 | the column loop passes iff no cell of the column holds n |
| SudokuEngine.Sudoku.RemoveCandidate | sudoku/Sudoku.cpp:542-550 | n leaves that cell's candidate list and nothing else changes; the result tells whether n was there |
| SudokuEngine.Sudoku.SetNumber | sudoku/Sudoku.cpp:240-248 | the field gets n at p, the candidates become those after placing, the state stays valid, and solutions with n at p stay reachable |
| SudokuEngine.Sudoku.SetNumberAt | sudoku/Sudoku.cpp:256-266 | the same, by row and column |
| SudokuEngine.Sudoku.UpdateNumber | sudoku/Sudoku.cpp:275-319 | n is crossed out around p, p's entry is dropped, p leaves its blank list, and the map records p |
| SudokuEngine.Sudoku.CrossOutPeers | sudoku/Sudoku.cpp:283-315 | crossing n out of the column, the row and the block of p and erasing p's entry leaves exactly the candidates after placing n at p |
| SudokuEngine.Sudoku.CrossOutColumn | sudoku/Sudoku.cpp:284-291 | n leaves the candidates of the column's other blank cells, and nothing else changes |
| SudokuEngine.Sudoku.CrossOutRow | sudoku/Sudoku.cpp:295-302 | n leaves the candidates of the row's other blank cells, and nothing else changes |
| SudokuEngine.Sudoku.CrossOutBlock | sudoku/Sudoku.cpp:305-314 | n leaves every candidate list of the block, and nothing else changes |
| SudokuEngine.Sudoku.CrossOutBlockAt | sudoku/Sudoku.cpp:307-313 | one round: key k loses n when it is a cell of the block, and nothing else changes |
| SudokuEngine.Sudoku.GetBlankCandidates | sudoku/Sudoku.cpp:537-540 | the keys are exactly the cells whose number is 0 |
| SudokuEngine.Sudoku.FindNakedSingle | sudoku/Sudoku.cpp:431-447 | every blank cell with one candidate, in position order, and no others; each step holds in every reachable solution |
| SudokuEngine.Sudoku.Reset | sudoku/Sudoku.cpp:456-460 | positions are reset to -1 and the histogram to 0 |
| SudokuEngine.Sudoku.HandlePosition | sudoku/Sudoku.cpp:464-475 | the buffers count one more cell, recording it for each of its candidates |
| SudokuEngine.Sudoku.AddSingle | sudoku/Sudoku.cpp:478-491 | appends (positions[n], n) for each number counted once, and nothing else |
| SudokuEngine.Sudoku.RowSingles | sudoku/Sudoku.cpp:494-506 | the row pass appends every row hidden single, and nothing else |
| SudokuEngine.Sudoku.ColumnSingles | sudoku/Sudoku.cpp:509-519 | the column pass appends every column hidden single, and nothing else |
| SudokuEngine.Sudoku.BlockSingles | sudoku/Sudoku.cpp:522-532 | the block pass appends every block hidden single, and nothing else |
| SudokuEngine.Sudoku.GatherLine | sudoku/Sudoku.cpp:494-519 | counting over one more row (column) and appending its hidden singles keeps every step a hidden single of that kind and gathers all of that line's |
| SudokuEngine.GatheredAll | sudoku/Sudoku.cpp:494-519 | once every row (column) is counted, every hidden single of that kind is a step |
| SudokuEngine.HiddenStepsForced | sudoku/Sudoku.cpp:449-535 | every hidden single found holds in every reachable solution |
| SudokuEngine.Sudoku.FindHiddenSingle | sudoku/Sudoku.cpp:449-535 | every step is a hidden single and every hidden single is a step; each holds in every reachable solution |
| SudokuEngine.Sudoku.TallyRow | sudoku/Sudoku.cpp:497-503 | counts over the blank cells of row r, which list the row |
| SudokuEngine.Sudoku.TallyColumn | sudoku/Sudoku.cpp:512-516 | counts over the blank cells of column c, which list the column |
| SudokuEngine.Sudoku.TallyBlock | sudoku/Sudoku.cpp:525-529 | counts over the blank list of block b |
| SudokuEngine.Sudoku.Eliminate | sudoku/Sudoku.cpp:542-550 | removeCandidate as a strategy calls it: only that list changes, and every solution stays reachable |
| SudokuEngine.Sudoku.EliminateEach | sudoku/Sudoku.cpp:640-654 | the cell loses exactly the given numbers, and every solution stays reachable |
| SudokuEngine.Sudoku.CollectPairs | sudoku/Sudoku.cpp:563-584 | a true record for every blank cell with exactly two candidates |
| SudokuPatterns.PairsBelowTake | sudoku/Sudoku.cpp:568-581 | a cell with exactly two candidates is recorded with its row, column and both numbers |
| SudokuPatterns.PairsBelowAll | sudoku/Sudoku.cpp:563-584 | after the last cell the records are distinct cells whose candidates are exactly the recorded pair, and every such cell is recorded |
| SudokuEngine.Sudoku.NakedPair | sudoku/Sudoku.cpp:559-751 | only candidates are removed, the field, map and blank lists stay, and every reachable solution stays reachable; the kept records are true pair cells of the start, every pair cell whose list another blank cell shares is kept, and both passes' pairings stay applied at the end |
| SudokuEngine.Sudoku.NakedPairRows | sudoku/Sudoku.cpp:612-658 | the row pass only removes candidates, and every record whose (row, pair) key was seen before has been paired with the first record of that key: the row's other blank cells lack both numbers |
| SudokuEngine.Sudoku.FilePair | sudoku/Sudoku.cpp:614-657 | one record of a pass: a new key is filed with its index, a seen key pairs the record with the key's first record, and every earlier pairing stays applied |
| SudokuPatterns.PairScanFirst | sudoku/Sudoku.cpp:617-618 | a record under a new key is the first of its key, and the pass state extends to it |
| SudokuPatterns.PairScanPaired | sudoku/Sudoku.cpp:619-656 | a record under a seen key pairs with the first record of that key, and earlier pairings survive a state that only lost candidates |
| SudokuPatterns.PairsClearedStay | sudoku/Sudoku.cpp:660-703 | the row pass's pairings stay applied through the column pass, which only removes candidates |
| SudokuPatterns.PairCountOne | sudoku/Sudoku.cpp:586-598 | a recorded pair has a count of at least one |
| SudokuPatterns.PairCountTwo | sudoku/Sudoku.cpp:586-598 | two records with the same pair give that pair a count of at least two |
| SudokuPatterns.RecurringPairKept | sudoku/Sudoku.cpp:600-610 | a pair cell whose candidate list another blank cell shares survives the filter |
| SudokuEngine.Sudoku.ClearRowOfPair | sudoku/Sudoku.cpp:631-655 | the row's other blank cells lose a and b; the pair's two cells and every cell off the row keep their candidates |
| SudokuEngine.Sudoku.NakedPairColumns | sudoku/Sudoku.cpp:660-703 | the column pass only removes candidates, and every record whose (column, pair) key was seen before has been paired with the first record of that key: the column's other blank cells lack both numbers |
| SudokuEngine.Sudoku.ClearColumnOfPair | sudoku/Sudoku.cpp:676-700 | the column's other blank cells lose a and b; the pair's two cells and every cell off the column keep their candidates |
| SudokuEngine.Sudoku.ClearLine | sudoku/Sudoku.cpp:877-880 | every blank cell of the line outside the spared ones loses the numbers, and no other cell changes |
| SudokuEngine.Sudoku.ClearBlock | sudoku/Sudoku.cpp:869-873 | every blank cell of the block outside the spared ones loses the numbers, and no other cell changes |
| SudokuEngine.Sudoku.CollectTripleCells | sudoku/Sudoku.cpp:776-790 | the blank cells with two or three candidates, in increasing order |
| SudokuEngine.Sudoku.NakedTriple | sudoku/Sudoku.cpp:772-884 | only candidates are removed, and every reachable solution stays reachable |
| SudokuEngine.Sudoku.TryTriple | sudoku/Sudoku.cpp:819-882 | a triple in one group with a three-number union clears that group's other cells; the three cells keep their candidates |
| SudokuEngine.Sudoku.TripleUnion | sudoku/Sudoku.cpp:830-840 | the union of the three lists, ascending |
| SudokuEngine.Sudoku.ClearTriple | sudoku/Sudoku.cpp:843-882 | the three numbers leave every other blank cell of the group |
| SudokuEngine.Sudoku.OutBlockOfLine | sudoku/Sudoku.cpp:890-959 | only candidates are removed, and every reachable solution stays reachable |
| SudokuEngine.Sudoku.PointFromBlock | sudoku/Sudoku.cpp:899-956 | one row (not one column), or the reverse, makes that line lose n outside the block; the block itself and every cell off the line keep their candidates; otherwise nothing changes |
| SudokuEngine.Sudoku.ClearOutsideBlock | sudoku/Sudoku.cpp:938-950 | the line's blank cells outside the block lose n; the block and every cell off the line keep their candidates |
| SudokuEngine.Sudoku.XWing | sudoku/Sudoku.cpp:1026-1113 | only candidates are removed, and every reachable solution stays reachable; the records are true for the start and cover every line with two crossing lines, and every record whose key was seen before has formed an X-wing with the key's first record |
| SudokuEngine.Sudoku.MatchXWings | sudoku/Sudoku.cpp:1073-1112 | the matching loop: every record under a seen key forms an X-wing with the first record of that key, and the crossing lines lack the number off the two lines |
| SudokuEngine.Sudoku.FileXWing | sudoku/Sudoku.cpp:1075-1111 | one record of the matching loop: a new key is filed with its index, a seen key applies the X-wing, and earlier X-wings stay applied |
| SudokuPatterns.XWingScanFirst | sudoku/Sudoku.cpp:1077-1078 | a record under a new key is the first of its key, and the loop state extends to it |
| SudokuPatterns.XWingScanPaired | sudoku/Sudoku.cpp:1079-1111 | a record under a seen key forms an X-wing with the first record of that key, and earlier X-wings survive a state that only lost candidates |
| SudokuEngine.Sudoku.XWingClear | sudoku/Sudoku.cpp:1080-1111 | both crossing lines lose n outside the two X-wing lines; the two lines and every cell off the crossing lines keep their candidates |
| SudokuEngine.Sudoku.ClearCrossing | sudoku/Sudoku.cpp:1089-1107 | one crossing line loses n off the two lines, and nothing else changes |
| SudokuEngine.Sudoku.InOneLine | sudoku/Sudoku.cpp:1115-1180 | only candidates are removed, and every reachable solution stays reachable |
| SudokuEngine.Sudoku.ProjectBlock | sudoku/Sudoku.cpp:1149-1178 | a block whose holders lie on one line clears that line outside the block, and the block and every cell off the line keep their candidates; otherwise nothing changes |
| SudokuEngine.Sudoku.BetweenTwoLines | sudoku/Sudoku.cpp:1187-1263 | only candidates are removed, and every reachable solution stays reachable |
| SudokuEngine.Sudoku.ProjectTwoBlocks | sudoku/Sudoku.cpp:1226-1261 | two blocks with the same two holder lines clear those lines outside both blocks, and the two blocks and every cell off the lines keep their candidates; otherwise nothing changes |
| SudokuEngine.Sudoku.ClearTwoBlocks | sudoku/Sudoku.cpp:1240-1260 | the two lines lose n outside blocks b1 and b2; the two blocks and every cell off the lines keep their candidates |
| SudokuEngine.Sudoku.ProjectThree | sudoku/Sudoku.cpp:1267-1314 | three holder lines iff a value is given, and then those lines confine the block |
| SudokuEngine.Sudoku.AmongThreeLines | sudoku/Sudoku.cpp:1265-1372 | only candidates are removed, and every reachable solution stays reachable |
| SudokuEngine.Sudoku.SecondBlocks | sudoku/Sudoku.cpp:1323-1370 | the b2 loop removes only numbers that no reachable solution needs |
| SudokuEngine.Sudoku.ThirdBlocks | sudoku/Sudoku.cpp:1329-1369 | the b3 loop removes only numbers that no reachable solution needs |
| SudokuEngine.Sudoku.ClearThreeBlocks | sudoku/Sudoku.cpp:1337-1367 | the three lines lose n outside blocks b1, b2 and b3; the three blocks and every cell off the lines keep their candidates |
| SudokuEngine.Sudoku.InBlockOutOfLine | sudoku/Sudoku.cpp:971-1019 | only candidates are removed, and every reachable solution stays reachable. When a removal finds n already gone (lines 1008-1009), the strategy stops there: the ghost result names the line, number, block and cell. The line's holders of n lie in that block, the block's off-line cells before that cell lack n, and that cell lacked n already |
| SudokuEngine.Sudoku.LineToBlock | sudoku/Sudoku.cpp:974-1015 | block is nonzero iff the line's holders of n lie in one block, and they still do afterwards. That block's off-line cells below `stop` lose n, and every other list is unchanged. completed iff the scan reached the end; otherwise the cell `stop` lacked n already. With no such block, nothing changes |
| SudokuRules.HolderGroupsAgree | sudoku/Sudoku.cpp:974-995 | the holder groups of a line depend only on which of its cells hold n |
| SudokuPatterns.OffLineKeepsHolders | sudoku/Sudoku.cpp:997-1012 | clearing the block's cells off the line leaves the line's holder blocks unchanged |
| SudokuPatterns.LineBlockPoints | sudoku/Sudoku.cpp:974-1015 | when the holders of n on a line all lie in one block, no reachable solution puts n in a cell of that block off the line |
| SudokuEngine.Sudoku.ClearBlockOffLine | sudoku/Sudoku.cpp:1000-1012 | the block's blank cells off the line, in order, lose n up to the first one that already lacked it |
| SudokuEngine.Sudoku.ClearOffLineAt | sudoku/Sudoku.cpp:1000-1012 | one cell: an off-line blank cell of the block loses n, or the scan stops at it when it already lacked n; nothing else changes |
| SudokuEngine.Sudoku.CrossOutAt | sudoku/Sudoku.cpp:1006-1009 | one cell loses n, and the result tells whether it had n |
| SudokuEngine.Sudoku.IsSafeAt | sudoku/Sudoku.cpp:377-403 | isSafe(row, column, n) answers as isSafe does at that cell |
| SudokuEngine.Sudoku.IsSafeField | sudoku/Sudoku.cpp:321-375 | isSafe() as written: false exactly when some block repeats a number |
| SudokuEngine.Sudoku.Update | sudoku/Sudoku.cpp:1374-1396 | the strategies in their order: only candidates are removed, and every reachable solution stays reachable |
| SudokuEngine.Sudoku.CountCandidates | sudoku/Sudoku.cpp:1502-1508 | the total size of all candidate lists |
| SudokuEngine.Sudoku.ApplySteps | sudoku/Sudoku.cpp:1479-1499 | each step's number ends up in its cell, no other cell changes, reachability is unchanged, and the count does not rise |
| SudokuEngine.Sudoku.ApplyNext | sudoku/Sudoku.cpp:1479-1499 | one more step written keeps the state valid, the reachable solutions the same and the count from rising |
| SudokuEngine.Sudoku.ApplyStep | sudoku/Sudoku.cpp:1486-1497 | a blank cell gets the step's number, and a filled one is passed over |
| SudokuEngine.Sudoku.Solve | sudoku/Sudoku.cpp:1471-1545 | only blank cells are filled and every reachable solution stays reachable; the ghost trace of counts starts at the initial count (a lone 0 when nothing is blank), falls strictly and stays above 0 while the loop goes on, and ends on the final count, which is 0 or not below the one before |
| SudokuEngine.Sudoku.Round | sudoku/Sudoku.cpp:1513-1535 | one round: filled cells stay, every naked single of the start is written, solutions stay reachable, and the count does not rise |
| SudokuEngine.Sudoku.NakedSinglesRound | sudoku/Sudoku.cpp:1516-1521 | every cell that had one candidate holds it afterwards; filled cells stay, solutions stay reachable, and the count does not rise |
| SudokuEngine.StepsPlaced | sudoku/Sudoku.cpp:1516-1521 | once every naked single's step is written, each such cell holds its one candidate |
| SudokuEngine.Sudoku.ToString | sudoku/Sudoku.cpp:1547-1572 | the letters of the field, with a newline between rows when line by line |
| SudokuEngine.RenderValues | sudoku/Sudoku.cpp:1550-1560 | the toString loop renders the letters of the values |
| SudokuSolverMain.SquareMonotone | sudoku/SudokuSolver.cpp:108-109 | squares of naturals grow with their base |
| SudokuSolverMain.FloorRootOfSquare | sudoku/SudokuSolver.cpp:108-113 | blockSize * blockSize == rank holds exactly when rank is a perfect square |
| SudokuSolverMain.TopDigit | sudoku/SudokuSolver.cpp:51-53 | the first loop ends on a value between 0 and its start |
| SudokuSolverMain.DigitRootIsRoot | sudoku/SudokuSolver.cpp:55-65 | from the loop's invariant state, the second loop ends on the floor square root |
| SudokuSolverMain.TopDigitIsTop | sudoku/SudokuSolver.cpp:49-53 | bit ends at 0 only for n == 0, and otherwise at the largest power of four not above n |
| SudokuSolverMain.FirstDigit | sudoku/SudokuSolver.cpp:49 | 1 << 30 is the square of 2^15 |
| SudokuSolverMain.IsqrtIsRoot | sudoku/SudokuSolver.cpp:44-67 | the two loops compute the floor square root |
| SudokuSolverMain.Isqrt | sudoku/SudokuSolver.cpp:44-67 | isqrt(n) is the floor square root of n |
| SudokuSolverMain.RegularId | sudoku/SudokuSolver.cpp:118-120 | every regular block id lies in 1..rank |
| SudokuSolverMain.RegularIds | sudoku/SudokuSolver.cpp:115-123 | rank * rank ids, all in range |
| SudokuSolverMain.LinesAt | sudoku/SudokuSolver.cpp:118-120 | cell p of the partition built line by line has RegularId's id |
| SudokuSolverMain.RegularCount | sudoku/SudokuSolver.cpp:115-123 | each block id occurs on exactly rank cells |
| SudokuSolverMain.RegularIdsValid | sudoku/SudokuSolver.cpp:106-124 | the regular partition passes isBlockPartitionValid |
| SudokuSolverMain.RegularPartition | sudoku/SudokuSolver.cpp:115-123 | the loop writes the letter of each cell's regular block id; the result parses to a valid partition |
| SudokuSolverMain.ArgumentsRoundTrip | sudoku/SudokuSolver.cpp:30-34 | reading a command line built as the usage line describes gives back its state, block table and placeholder |
| SudokuSolverMain.ArgumentsAsWrittenShifted | sudoku/SudokuSolver.cpp:93-98 | as written, a block table without a placeholder is ignored, and a placeholder is never read |
| SudokuSolverMain.ReadArguments | sudoku/SudokuSolver.cpp:69-124 | usage iff fewer than 3 arguments; -1 iff rank <= 1; -2 iff a text is too short; -3 iff no table is given and the rank is not square; otherwise the run's inputs, with a valid regular partition when no table is given |
| Popcount.PopIsBitSum | popcount/popcount.cpp:7-13 | the reference count is the sum of the 32 bits |
| Popcount.PopBounds | popcount/popcount.cpp:26-36 | at most 32 bits are set, and the complement has the rest |
| Popcount.ClearLowest | popcount/popcount.cpp:21 | n & (n - 1) clears exactly one set bit |
| Popcount.IteratedPopcount | popcount/popcount.cpp:7-13 | iterated_popcnt counts the set bits |
| Popcount.SparsePopcount | popcount/popcount.cpp:15-24 | sparse_popcnt counts the set bits |
| Popcount.DensePopcount | popcount/popcount.cpp:26-36 | dense_popcnt counts the set bits, and its unsigned counter never wraps |
| Popcount.BuildTable | popcount/popcount.cpp:171-175 | the table fill puts the bit count of i in entry i |
| Popcount.LookupIsPop | popcount/popcount.cpp:58-65 | lookup_popcnt with that table counts the set bits |
| Popcount.MaskValues | popcount/popcount.cpp:69-71 | MASK(0..4) are 0x55555555, 0x33333333, 0x0F0F0F0F, 0x00FF00FF and 0x0000FFFF |
| Popcount.NiftyFieldsOf | popcount/popcount.cpp:90-92 | after three lines of nifty_popcnt, byte k holds the bit count of byte k |
| Popcount.HackerFieldsOf | popcount/popcount.cpp:98-100 | after three lines of hacker_popcnt, byte k holds the bit count of byte k |
| Popcount.HakmemCounts | popcount/popcount.cpp:136-137 | the six-bit fields of hakmem_popcnt hold the bit counts of the six-bit slices |
| Popcount.CastOut255 | popcount/popcount.cpp:93 | % 255 of byte counts is their sum |
| Popcount.CastOut63 | popcount/popcount.cpp:137 | % 63 of six-bit counts is their sum |
| Popcount.ParallelIsPop | popcount/popcount.cpp:73-82 | parallel_popcnt counts the set bits |
| Popcount.NiftyIsPop | popcount/popcount.cpp:88-94 | nifty_popcnt counts the set bits |
| Popcount.HackerIsPop | popcount/popcount.cpp:96-104 | hacker_popcnt counts the set bits |
| Popcount.HakmemIsPop | popcount/popcount.cpp:134-138 | hakmem_popcnt counts the set bits |

## Left out

- Integer widths: the model uses unbounded integers for the source's `int8_t` ranks, numbers and
  indices. Ranks are at most 35, so the cell values fit. The wrap of `int8_t size` in
  updateCandidateByNakedTriple (sudoku/Sudoku.cpp:785) for more than 127 blank cells is not
  modelled. The collection there holds at most rank * rank = 1225 cells.
- Console output is not modelled: printCurrentState() (sudoku/Sudoku.cpp:1398-1445) and every
  trace that the strategies, printStep and solve() write to std::cout. The same goes for usage(),
  the error messages of main(), and the clock timing in main().
- backtrack() (sudoku/Sudoku.cpp:1447-1469) is left out. solve() does not call it, and main()
  does not call it either.
- The block pass of updateCandidateByNakedPair (sudoku/Sudoku.cpp:704-750) is left out, because
  as written it never removes a candidate. The model runs the row and column passes only. The
  pass has three faults:
  - It shifts `value` by 16 and 24 bits without masking (line 707), so `row` is column * 256 + row.
    For a pair cell outside column 0, `position` falls outside the grid, and lines 708-709 read
    past the field and the block table. The model does not capture that out-of-range read.
  - On a repeated key it decodes the block and the numbers from `value`, not from `newValue`
    (lines 719-723).
  - Line 731 skips every cell whose field entry is blank. Every cell of `blankBlocks` is blank,
    since placing a number removes its cell from that list (line 317), so nothing is cleared.
- updateCandidateByHiddenPair (sudoku/Sudoku.cpp:753-756) is an empty TODO and is not modelled.
- main() of SudokuSolver.cpp: `std::stoi` and the cast to `int8_t` are not modelled; the
  converted rank is a parameter. ReadArguments stops where the run would start (constructing the
  Sudoku, printing, solving and timing). The hard-coded `main()` (sudoku/SudokuSolver.cpp:128-199)
  is data only and is not modelled.
- SudokuSolverMain.ReadArguments: a rank above 35 whose square root is exact (such as 36) makes
  Sudoku::letter assert while the regular partition is built. The model reports this as
  `Aborted` and does not model what an assert-free build would do.
- SudokuEngine.Sudoku.Solve: requires that some solution is still reachable. On an unsolvable
  puzzle a naked single can write a number that repeats one in its group; the model keeps the
  field conflict-free and does not model that case.
- SudokuEngine.Sudoku.SetNumber: models only writing a number in 1..rank into a blank cell, the
  one way that solve() uses it. It requires the field to stay conflict-free, which is the intent
  of the `assert(isSafe())` at sudoku/Sudoku.cpp:245. Writing 0, or overwriting a filled cell,
  passes the source's asserts but is not modelled. The same applies to SetNumberAt.
- The macro-built lookup table (`USE_MACRO`, popcount/popcount.cpp:38-55) is left out. Only the
  table filled by the loop in main() is modelled.
- assembly_popcnt (popcount/popcount.cpp:140-167) is inline x86 assembly and is left out.
- The timing loop of popcount's main() (popcount/popcount.cpp:177-211) measures clock time and
  is left out.
- Popcount.LookupPopcount reads the four bytes of n by shifting. The source reads them through a
  `uint8_t*` in memory order; the sum is the same for either order.
- std::map iteration order is modelled as ascending position order, and std::unordered_map
  lookups are modelled as Dafny maps.
- SudokuEngine.Sudoku.Create: the constructor checks the clues with the intended validate(), with
  a flag per value in rows, columns and blocks. The source calls validate() as written
  (sudoku/Sudoku.cpp:110, sudoku/Sudoku.cpp:160-180). Valid() needs a conflict-free field, so
  clues that repeat a number only within a row or a column are not modelled. The source accepts
  them; SudokuChecks.ValidateAsWritten and SudokuChecks.RowRepeatGoesThrough state that.
- SudokuEngine.Sudoku.Create: requires every character of the state and block texts to be one that
  number() reads, and every clue to be at most rank. In the source, any other character fails the
  assert in number() (sudoku/Sudoku.cpp:45-46), and a clue above rank fails the assert in
  setMapPosition() (sudoku/Sudoku.cpp:235). These aborts are not modelled.
- SudokuChecks.ScanBlock: keeps RankMax + 1 flags, one for each value 0..35. The source's
  `bool flags[RANK_MAX]` (sudoku/Sudoku.cpp:141) is indexed by value (sudoku/Sudoku.cpp:193) and
  has no slot for 35. In a rank-35 grid, a block holding 35 writes past the array. That
  out-of-bounds write is not modelled, and the same holds for SudokuChecks.ScanLine, the corrected
  line scan.
- SudokuEngine.Sudoku.NakedTriple: states only that candidates are removed and that reachable
  solutions stay reachable. Each (i, j, k) step tests its triple against the candidates the earlier
  steps left. The effect is therefore stated per step, on TryTriple, and not carried up to the
  strategy.
- SudokuEngine.Sudoku.OutBlockOfLine: states only sound removal. Each (block, number) step looks at
  the candidates the earlier steps left, so the effect is stated per step, on PointFromBlock.
- SudokuEngine.Sudoku.InOneLine: states only sound removal. Its effect is stated per step, on
  ProjectBlock, for the same reason.
- SudokuEngine.Sudoku.BetweenTwoLines: states only sound removal. Its effect is stated per step, on
  ProjectTwoBlocks, for the same reason.
- SudokuEngine.Sudoku.AmongThreeLines: states only sound removal. Its projections are taken, and
  cached, from the candidates the earlier steps left. The effect is stated on ProjectThree and on
  ClearThreeBlocks.
- SudokuEngine.Sudoku.SecondBlocks: states only sound removal, for the reason given for
  AmongThreeLines.
- SudokuEngine.Sudoku.ThirdBlocks: states only sound removal, for the reason given for
  AmongThreeLines. Clearing when three projections agree is stated on ClearThreeBlocks.
- SudokuEngine.Sudoku.InBlockOutOfLine: when every step completes, it states only sound removal.
  What each (line, number) step clears is stated on LineToBlock, against the candidates the
  earlier steps left. When a removal finds n already gone, the ghost result names that step and
  the cell where the strategy stopped. It does not state that later steps never ran.
- SudokuEngine.Sudoku.Update: states only that the strategies together remove candidates soundly.
  What each strategy clears is stated on that strategy and not carried through the ones after it.
- SudokuEngine.Sudoku.Round: states that every naked single of the start is written. The hidden
  singles are found on the state that the naked singles left, and what happens to them is not
  stated.
- Sudoku's exceptions become the `Construction` result of Create. Its message text and the
  `catch` in main() are not modelled.

## Findings

| source | as written | input that shows it | evidently intended | confidence | as-written member | corrected member |
|---|---|---|---|---|---|---|
| sudoku/Sudoku.cpp:56 | letter() accepts only numbers below RANK_MAX (35) | value 35, which is 'z' in a rank-35 grid; toString() asserts | every value 0..35 has a letter, as the header's range 0 to 36 (exclusive) says | high; not executed | SudokuCodec.LetterAsWrittenMissesZ | SudokuCodec.Letter |
| sudoku/Sudoku.cpp:167, sudoku/Sudoku.cpp:178 | validate() and isSafe() index the row and column flags by the cell's place in the line, not by its value | a regular 4 x 4 grid whose first row is 1 0 0 1 and whose other cells are blank: every block is clean, so the repeated 1 is accepted | a flag per value, as the block pass has (line 193) | high; not executed | SudokuChecks.RowRepeatGoesThrough | SudokuChecks.Validate |
| sudoku/SudokuSolver.cpp:93, sudoku/SudokuSolver.cpp:96 | the block table is read only when argc > 4 and the placeholder only when argc > 5 | `sudoku 6 <state> <block>`: the table is ignored and the run exits with -3 | argv[3] is the table when argc > 3 and argv[4] is the placeholder when argc > 4, as usage() describes | high; not executed | SudokuSolverMain.ArgumentsAsWrittenShifted | SudokuSolverMain.ReadArguments |
