# Crossword grid and solver, in Dafny

A model of the core of a crossword generator written in Go: the sparse
letter grid of `internal/core/grid.go` and the word preprocessing and
backtracking search of `internal/core/solver.go`.

The grid is a map from integer points to letters, together with a list of
placements and a cached score. A placement is a word, the point of its
first letter and a direction (across or down). `canPlace` accepts a
placement when all of these hold:

- it does not extend a word already on the grid;
- every letter that lands on an occupied point matches the letter stored
  there and has no occupied neighbour along the word;
- every letter that lands on a free point has no occupied neighbour across
  the word;
- on a non-empty grid, it crosses at least one letter already there.

The solver upper-cases and trims the words. It then runs a depth-first
search from the empty grid, placing the words in order at every position
`PositionsList` offers. It keeps at most `MaxSolutions` finished grids and
skips grids whose canonical hash it has already seen. After the first word
it prunes grids that score more than the threshold below the best solution
so far. At the end it sorts the solutions by score and takes the first one
as the best grid.

Layout:

- `sorting.dfy`, module `Sorting`: the library sorts. A functional
  insertion sort stands in for `sort.Slice` and `sort.Strings`. The rest of
  the model relies only on what Go promises: the result is a permutation of
  the input, and it is ordered when the comparison is a strict order.
- `text.dfy`, module `Text`: `strings.ToUpper`, `strings.TrimSpace`, string
  `<` and `strings.Join`, over ASCII.
- `grid_spec.dfy`, module `GridSpec`: the value-level definitions and the
  properties proved about them, covering:
  - the placement rules;
  - what placing and removing a word write;
  - the bounding box, normalisation and the canonical hash;
  - the render trace, the area, the centre and the position score.
- `grid.dfy`, module `Grids`: the `Grid` class. Its fields are written in
  place, and every method is proved against `GridSpec`.
- `solver.dfy`, module `Solvers`: preprocessing, the letter frequencies and
  the crossability sort, and the `Solver` class with its search.

The model follows what the code does, including where that is not what its
names suggest:

- `PlaceWord` never appends to the placement list. The grids of a search
  therefore carry no placements, and the word part of `Hash` is never
  emitted. The model keeps the placement list and the word part, so both
  are defined for any list.
- `preprocessWords` calls `sortByCrossability` and discards its result, so
  the words stay in input order.
- `bounds` returns zeros on an empty grid, so the `Area` of an empty grid
  is 1.
- `center` returns half the width and half the height of the box, not the
  coordinates of its middle.
- `bestScore` is a variable of the enclosing `FindSolutions`, shared by
  every recursive call, not a value passed down. `Solver.Search` takes it
  in and hands it back, and so does every method it calls.
- `FindSolutions` reads `Solutions[0]` without checking that there is one.
  This is listed under "Findings".

The metric is a field `metric: Cells -> real` of the solver, a function from
the grid's letter map to a score. Both metrics the program ships compute
their score from the letter map alone (density, intersections and area).

## Model

| member | source | states |
|---|---|---|
| Sorting.Sort | internal/core/grid.go:223-225 | the sort used for every `sort.Slice` and `sort.Strings`: same length, a permutation of the input, and ordered whenever the comparison is irreflexive and transitive on the elements |
| Text.Upper | internal/core/solver.go:146 | a lower-case ASCII letter becomes its upper-case letter; every other character stays as it is; no result is lower case |
| Text.ToUpper | internal/core/solver.go:146 | the same length, with every character upper-cased in place |
| Text.UpperFixed | internal/core/solver.go:146 | a string with no lower-case letter is its own upper-casing |
| Text.TrimSpaceFacts | internal/core/solver.go:147 | the result is a slice `s[i..j]` with only white space before `i` and after `j`, and it neither starts nor ends with white space |
| Text.TrimFixed | internal/core/solver.go:147 | a string that neither starts nor ends with white space is its own trimming |
| Text.LexLessIrreflexive | internal/core/grid.go:73 | no string sorts before itself |
| Text.LexLessTransitive | internal/core/grid.go:73 | string order is transitive |
| Text.TrimSpace | internal/core/solver.go:147 | `strings.TrimSpace` over ASCII white space; what it returns is stated by TrimSpaceFacts and TrimFixed |
| GridSpec.DirDelta | internal/core/grid.go:348-353 | the unit step of a direction, (1, 0) across and (0, 1) down; OffsetIsDelta proves that the model's Offset is the point q + k·dirDelta(d) the source computes |
| GridSpec.OffsetIsDelta | internal/core/grid.go:291-292 | the point of letter k is the origin plus k times dirDelta, as the loops of canPlace, PlaceWord and positionScore compute it |
| GridSpec.OccupiedBeforeOrAfter | internal/core/grid.go:314-322 | isOccupiedBeforeOrAfter: the point before the first letter or the point after the last is occupied; ExtensionRejected and ExtensionExamples state its effect on canPlace |
| GridSpec.ParallelConflict | internal/core/grid.go:324-330 | parallelConflict: a neighbour along the word of an occupied target point is occupied; the crossing and letter cases of canPlace rest on it (CrossingAlone, CorrectIntersectionExample) |
| GridSpec.PerpendicularConflict | internal/core/grid.go:332-347 | perpendicularConflict: a neighbour across the word of a free target point is occupied; Grid.PerpendicularConflictAt computes it, and AlongsideAlone and PerpendicularConflictExample state its effect |
| GridSpec.Placeable | internal/core/grid.go:282-312 | canPlace as a rule set; Grid.CanPlace is proved equal to it, and EmptyGridAccepts, LetterClash, CrossingAlone, AlongsideAlone, ExtensionRejected, SharedLetter and CandidatesComplete characterise it |
| GridSpec.HashOf | internal/core/grid.go:45-80 | the canonical hash; Grid.Hash is proved equal to it, and HashRows, HashParts, WordsSorted, HashNonEmpty and HashNormalize characterise it |
| GridSpec.HashNonEmpty | internal/core/grid.go:45-48 | the hash is "" exactly for the empty grid: any other grid hashes to at least one row |
| GridSpec.StampFacts | internal/core/grid.go:161-164 | after writing letters 0 .. n-1 along a placement: each written point holds its letter, the only new keys are the written points, and every other key keeps its letter |
| GridSpec.PlaceEffect | internal/core/grid.go:153-166 | on an accepted placement: letter i is at origin + i·delta, every stored letter is kept, no point outside the word is added, and the points just before and after the word stay free |
| GridSpec.EraseEffect | internal/core/grid.go:168-176 | every point of the word holds '.', every other point keeps its letter, no key disappears, and the only keys added are the word's points |
| GridSpec.BoxOf | internal/core/grid.go:356-377 | zeros on an empty grid; otherwise minX <= maxX and minY <= maxY |
| GridSpec.BoxContains | internal/core/grid.go:362-375 | every occupied point lies inside the box |
| GridSpec.BoxAdd | internal/core/grid.go:362-375 | one more point widens the running box (started from the sentinels) by exactly that point |
| GridSpec.WithinSentinels | internal/core/grid.go:361 | when every coordinate lies within ±999999, the sentinels never clip the box |
| GridSpec.TightBox | internal/core/grid.go:361-376 | on an unclipped non-empty grid the box is made of the true least and greatest coordinates |
| GridSpec.SameCells | internal/core/grid.go:33-43 | two maps of the same size that agree on every key of the first are equal, so comparing sizes and then one map's entries decides equality |
| GridSpec.NormalizeAt | internal/core/grid.go:87-92 | a point is occupied exactly when its shift by (-minX, -minY) is occupied in the normalised grid, and it keeps its letter there |
| GridSpec.NormalizeNonNegative | internal/core/grid.go:87-92 | a normalised grid has no negative coordinate |
| GridSpec.NormalizeAtOrigin | internal/core/grid.go:82-103 | normalising keeps the number of cells, puts the box's corner at (0, 0), and is idempotent |
| GridSpec.NormalizeEmpty | internal/core/grid.go:83-85 | normalising an empty grid changes neither its cells nor its placements |
| GridSpec.RowLayout | internal/core/grid.go:57-63 | a hash row has maxX+1 characters, and character x is the letter at (x, y) or '.' |
| GridSpec.RowsLength | internal/core/grid.go:56-65 | rows 0 .. maxY take RowStart(maxY+1) characters |
| GridSpec.RowStartIs | internal/core/grid.go:56-65 | row y starts at index y·(maxX+2): maxX+1 characters and a '|' per row |
| GridSpec.RowsAt | internal/core/grid.go:56-65 | the character of (x, y) sits at index y·(maxX+2)+x, and the '|' of row y right after its maxX+1 characters |
| GridSpec.HashRows | internal/core/grid.go:45-80 | without placements, the hash of a non-empty grid is exactly its rows from (0, 0) to the normalised maximum, with maxX, maxY >= 0 |
| GridSpec.WordsSorted | internal/core/grid.go:68-73 | the words of the word part are the placements' words, ordered by Go's string order (which is a strict order) |
| GridSpec.WordListRebase | internal/core/grid.go:68-77 | the word part does not depend on where the words are |
| GridSpec.HashParts | internal/core/grid.go:45-80 | the hash of a non-empty grid is the rows of its normalisation followed by the word part of its own placements |
| GridSpec.HashNormalize | internal/core/grid_test.go:79-95 | Hash(Normalize(g)) == Hash(g) for every grid within the sentinels |
| GridSpec.RenderRowFacts | internal/core/grid.go:239-245 | a rendered row draws only cells, and draws every point from minX to x |
| GridSpec.RenderRowsFacts | internal/core/grid.go:238-247 | the rendered rows draw only cells, and draw every point of the box |
| GridSpec.RenderComplete | internal/core/grid.go:230-251 | Render calls Finish exactly once, as its last call, and draws every stored letter at its own coordinates |
| GridSpec.Crossings | internal/core/grid.go:141-151 | the counted points are occupied points |
| GridSpec.AreaCovers | internal/core/grid.go:126-132 | the area is at least the number of occupied points, and 1 on the empty grid |
| GridSpec.CenterOf | internal/core/grid.go:253-256 | with the box extent e = maxX − minX, twice the x of the centre lies between e − 1 and e (it is e halved, rounded down), and likewise for y with maxY − minY, so it is an offset from the corner, not a coordinate |
| GridSpec.Hits | internal/core/grid.go:268-274 | the number of letters on occupied points is at most the number tried, and positive exactly when some letter lands on an occupied point |
| GridSpec.CandidatesComplete | internal/core/grid.go:198-221 | on a non-empty grid, trying both directions for every letter on every occupied point finds exactly the placements of the word that canPlace accepts |
| GridSpec.EmptyGridAccepts | internal/core/grid_test.go:8-20 | on the empty grid every placement is accepted |
| GridSpec.LoneWord | internal/core/grid.go:153-166 | a word placed across on the empty grid occupies exactly its row segment, letter by letter |
| GridSpec.LetterClash | internal/core/grid.go:294-297 | on any grid, a word whose letter i lands on an occupied point holding a different letter is rejected |
| GridSpec.CrossingAlone | internal/core/grid.go:282-312 | a word down that shares its letter i with letter j of the one word across, at the same point, is accepted |
| GridSpec.AlongsideAlone | internal/core/grid.go:301-304 | a word across right above the start of the one word across is rejected: a free cell has an occupied perpendicular neighbour |
| GridSpec.ExtensionRejected | internal/core/grid.go:283-285 | a placement whose point before the first letter or after the last letter is occupied is rejected, whatever its letters |
| GridSpec.LetterConflictExample | internal/core/grid_test.go:22-32 | ROOM across (0,0) is rejected on the grid holding ALL down at (0,0) |
| GridSpec.CorrectIntersectionExample | internal/core/grid_test.go:34-42 | ROOM down from (0,-1) is accepted on the grid holding OMEGA across at (0,0) |
| GridSpec.PerpendicularConflictExample | internal/core/grid_test.go:44-54 | ROOM across (0,0) is rejected on the grid holding XENON across at (0,1) |
| GridSpec.ExtensionExamples | internal/core/grid_test.go:56-77 | ROOM across (0,0) is rejected next to an X at (-1,0) and next to an X at (4,0) |
| Grids.RebaseCells | internal/core/grid.go:89-92 | the cell loop of Normalize gives every cell moved so that the given point becomes the origin |
| Grids.RebaseList | internal/core/grid.go:94-100 | the placement loop of Normalize moves every origin likewise, keeping words and directions |
| Grids.RowsText | internal/core/grid.go:54-65 | the nested loops build exactly the rows 0 .. maxY, each of maxX+1 letters or '.' and a '|' |
| Grids.Grid.constructor | internal/core/grid.go:27-31 | a new grid has no cells, no placements and score 0 |
| Grids.Grid.Has | internal/core/grid.go:258-261 | has: the point (x, y) holds a letter; PositionScore counts its hits with it, and Hits states what the count is |
| Grids.Grid.Equals | internal/core/grid.go:33-43 | true exactly when the two letter maps are equal; placements and scores are not compared |
| Grids.Grid.Copy | internal/core/grid.go:105-119 | a fresh grid with the same cells, placements and score |
| Grids.Grid.Bounds | internal/core/grid.go:356-377 | the running minimum and maximum of the coordinates, started from the sentinels, or zeros on an empty grid |
| Grids.Grid.Center | internal/core/grid.go:253-256 | half the width and half the height of the box |
| Grids.Grid.Area | internal/core/grid.go:126-132 | the box's width times its height, at least the number of cells, and 1 on an empty grid |
| Grids.Grid.Intersections | internal/core/grid.go:141-151 | the number of occupied points with an occupied horizontal and an occupied vertical neighbour, at most the number of cells |
| Grids.Grid.PerpendicularConflictAt | internal/core/grid.go:332-347 | true exactly when a neighbour across the direction is occupied |
| Grids.Grid.CanPlace | internal/core/grid.go:282-312 | true exactly when the placement extends no word, every letter fits, and it crosses a letter on a non-empty grid |
| Grids.Grid.PlaceWord | internal/core/grid.go:153-166 | true exactly when canPlace accepts; then the word is written, otherwise the grid is unchanged; the placement list is never touched |
| Grids.Grid.RemoveWord | internal/core/grid.go:168-176 | '.' written on every point of the word, and nothing else changes |
| Grids.Grid.PositionScore | internal/core/grid.go:263-280 | 10 per letter on an occupied point minus the Manhattan distance from the origin to center |
| Grids.Grid.KeyList | internal/core/grid.go:187-190 | the list holds exactly the occupied points, each once |
| Grids.Grid.Accepted | internal/core/grid.go:198-221 | exactly the placements tried on the given points that canPlace accepts |
| Grids.Grid.Scored | internal/core/grid.go:224 | every placement paired with its position score |
| Grids.Grid.Candidates | internal/core/grid.go:187-221 | the elements are exactly the placements of the word that canPlace accepts (a placement may be listed more than once) |
| Grids.Grid.ByPositionScore | internal/core/grid.go:223-225 | a permutation of the placements, highest position score first |
| Grids.Grid.PositionsList | internal/core/grid.go:178-228 | on an empty grid, only the word across at (0, 0); otherwise its elements are exactly the accepted placements of the word, each crossing an occupied point; ordered by position score, highest first |
| Grids.Grid.Normalize | internal/core/grid.go:82-103 | a fresh grid: a copy when empty, otherwise every cell and placement moved by (-minX, -minY), with score 0 |
| Grids.Grid.WordPart | internal/core/grid.go:68-77 | nothing without placements; otherwise '#' and the sorted words joined by ',' |
| Grids.Grid.Hash | internal/core/grid.go:45-80 | the canonical hash: "" when empty, otherwise the rows of the normalised grid and its word part |
| Grids.Grid.Evaluate | internal/core/grid.go:121-124 | stores the metric's score and returns it |
| Grids.Grid.Render | internal/core/grid.go:230-251 | the renderer calls, row by row over the box, each row closed by a newline at column maxX+1, then Finish |
| Grids.CopyEquals | internal/core/grid.go:105-119 | a copy of a grid Equals it |
| Solvers.PreprocessWord | internal/core/solver.go:144-148 | upper-case, then trim; PreprocessFacts, PreprocessFixed and PreprocessIdempotent state what it returns |
| Solvers.PreprocessFacts | internal/core/solver.go:144-148 | no lower-case letter, no white space at either end, and a stretch of the upper-cased input |
| Solvers.PreprocessFixed | internal/core/solver.go:144-148 | a word already upper case and trimmed is left as it is |
| Solvers.PreprocessIdempotent | internal/core/solver.go:144-148 | preprocessing twice is preprocessing once |
| Solvers.PreprocessAllAt | internal/core/solver.go:137-139 | word i of the preprocessed list is word i of the input preprocessed |
| Solvers.PreprocessEach | internal/core/solver.go:136-140 | the loop leaves exactly the preprocessed list, word for word, in input order |
| Solvers.PreprocessWords | internal/core/solver.go:135-142 | the same number of words, word i being word i preprocessed, in input order because the sorted list is discarded |
| Solvers.LetterFrequency | internal/core/solver.go:172-180 | computeLetterFrequency: the letter counts over all the words; FrequencyCounts and FrequencyTotal state what they are |
| Solvers.CountLettersAt | internal/core/solver.go:175-177 | counting a word's letters adds its occurrences of each letter to that letter's count |
| Solvers.FrequencyCounts | internal/core/solver.go:172-180 | each letter's count is its number of occurrences in all the words |
| Solvers.CountLettersTotal | internal/core/solver.go:175-177 | counting a word's letters adds its length to the sum of the counts |
| Solvers.FrequencyTotal | internal/core/solver.go:172-180 | the counts add up to the number of letters of all the words |
| Solvers.CrossScore | internal/core/solver.go:182-189 | wordCrossScore: the sum over the word's letters of the letter's count minus 1; CrossScoreBound and CrossScoreNonNegative bound it |
| Solvers.CrossScoreBound | internal/core/solver.go:182-189 | a word whose letters all have a count of at least 1 scores at least 0 |
| Solvers.CrossScoreNonNegative | internal/core/solver.go:182-189 | a word of the list scores at least 0 against the list's own frequencies |
| Solvers.CrossScored | internal/core/solver.go:156-159 | every word paired with its crossability score, in order |
| Solvers.Unpair | internal/core/solver.go:165-168 | the words of the sorted pairs, in order |
| Solvers.SortByCrossability | internal/core/solver.go:150-170 | a permutation of the input words, with crossability scores non-increasing; the input is a value and stays as it is |
| Solvers.BuiltLast | internal/core/solver.go:63-66 | a grid built from a non-empty word list is one accepted placement of the last word on a grid built from the others |
| Solvers.BuiltStep | internal/core/solver.go:63-66 | placing an accepted placement of the next word on a built grid gives a grid built from one word more |
| Solvers.SharedLetter | internal/core/grid.go:307-309 | a word accepted on the grid holding one word shares a letter with it |
| Solvers.Unarrangeable | internal/core/solver.go:63-67 | a non-empty first word and a second word without a common letter cannot both be placed |
| Solvers.KeyIsHash | internal/core/solver.go:37 | the key a grid is recorded under is its Hash |
| Solvers.KeptGrows | internal/core/solver.go:42 | recording more hashes keeps what the search promised about its solutions |
| Solvers.SeenAppend | internal/core/solver.go:52-53 | the hash of an appended grid joins the seen set, and every solution's hash stays in it |
| Solvers.ApartAppend | internal/core/solver.go:52-53 | appending a grid whose hash was not seen keeps the solutions' hashes pairwise distinct |
| Solvers.BuiltAppend | internal/core/solver.go:52-53 | appending a grid built from all the words keeps every solution built from all the words |
| Solvers.ScoredAppend | internal/core/solver.go:43-53 | appending a grid that carries its metric's value as its score keeps every solution scored by the metric |
| Solvers.BestChain | internal/core/solver.go:63-67 | the best score after one search, then another, is the best of the start value and every solution either of them appended |
| Solvers.KeptAppend | internal/core/solver.go:52-53 | appending a grid with an unseen hash, built from all the words, keeps the solutions' hashes distinct and seen |
| Solvers.SortedOutcome | internal/core/solver.go:72-74 | sorting what the search found gives the final outcome: cap, earlier solutions kept, new ones built and scored by the metric, distinct hashes, ordered by score |
| Solvers.BestFirst | internal/core/solver.go:72-75 | after a search from no solutions, the first solution's score is its metric value, and no solution has a higher metric |
| Solvers.DistinctKeysPermutation | internal/core/solver.go:72-74 | reordering the solutions keeps their hashes distinct |
| Solvers.ScoreEach | internal/core/solver.go:72-74 | each grid paired with its score, in order |
| Solvers.RankedPermutation | internal/core/solver.go:72-74 | reordering the grid and score pairs reorders the grids: the same grids come out |
| Solvers.RankedOrder | internal/core/solver.go:72-74 | the grids of pairs sorted by score come out highest score first |
| Solvers.SortByScore | internal/core/solver.go:72-74 | a permutation of the grids, highest score first |
| Solvers.Solver.constructor | internal/core/solver.go:18-25 | the words preprocessed one for one, the parameters stored, no solutions and no best grid |
| Solvers.Solver.Keep | internal/core/solver.go:53 | the grid appended to the solutions, which stay distinct, seen, built and scored by the metric |
| Solvers.Solver.Search | internal/core/solver.go:32-68 | earlier solutions are kept, the cap is never passed, hashes are only added to `seen`, every solution is distinct, seen, built from all the words and scored by the metric; the shared best score comes back as the highest of the one passed in and the new solutions' metrics; the grid's score becomes its metric value unless the cap or a seen hash stops the search first; with every word placed, the grid is appended exactly when it is under the cap, unseen and not pruned; on the empty grid with one word left, when the grid itself is admitted, the grid holding that word across at (0, 0) is appended exactly when it in turn is under the cap, unseen and not pruned, and nothing else is |
| Solvers.Solver.Assess | internal/core/solver.go:42-50 | for a grid under the cap with an unseen hash: the hash is recorded and the score becomes the metric value; with every word placed, the grid is appended exactly when it is not pruned (past the first word, more than the threshold below the best score); on the empty grid with one word left and not pruned, the one-word outcome of Proceed; the promises about the solutions and the best score as for Search |
| Solvers.Solver.Proceed | internal/core/solver.go:42-67 | the grid's hash is recorded; a finished grid is appended and raises the best score to its metric when higher; otherwise the search goes on from the next word without breaking the cap; on the empty grid with one word left, the grid holding that word across at (0, 0) is appended exactly when it is admitted (under the cap, hash unseen, not pruned), and nothing else is; the best score comes back as the highest of the one passed in and the new solutions' metrics |
| Solvers.Solver.Explore | internal/core/solver.go:63-67 | the loop over the offered placements keeps the solutions' prefix, the cap, and the promises about the solutions, and threads the best score so that it ends as the highest of the one passed in and the new solutions' metrics; for the last word at most one solution per placement is added, and a single placement's grid is appended exactly when it is admitted |
| Solvers.Solver.ExploreStep | internal/core/solver.go:63-67 | one turn of that loop carries everything the loop keeps true from k placements tried to k + 1 |
| Solvers.Solver.Extend | internal/core/solver.go:64-66 | a copy with the placement made is searched from the next word, keeping the same promises, the best score included; when the placement is of the last word, the new grid is appended exactly when it is under the cap, its hash is unseen and it is not pruned, and nothing else is appended |
| Solvers.Child | internal/core/solver.go:64-65 | a fresh grid holding the grid's cells with the accepted placement made, with the same placements and score |
| Solvers.Solver.SearchAll | internal/core/solver.go:70 | from the empty grid: earlier solutions kept, the cap, every new solution built from all the words and scored by the metric, distinct hashes; with no words and a cap of at least 1, the one solution is the empty grid; with one word, no earlier solutions and a cap of at least 1, exactly one solution, the word across at (0, 0), unless the word is empty or that grid scores more than the threshold below 0, and then none |
| Solvers.Solver.OneWordFrom | internal/core/solver.go:37-60 | the root's outcome for one word, seen from outside: the root hashes to "", so the word's grid is new exactly when the word is not empty, and the threshold alone decides the rest |
| Solvers.OneWordHashes | internal/core/grid.go:45-48 | the empty root grid hashes to "", and the grid holding one word across hashes to something else exactly when the word is not empty |
| Solvers.Solver.SearchAndSort | internal/core/solver.go:70-74 | the search then the sort: the outcome above, every new solution scored by the metric, ordered by score; the one-word outcome of SearchAll is kept by the sort |
| Solvers.Solver.FindSolutions | internal/core/solver.go:27-77 | as written: the outcome above; it fails exactly when there is no solution, and otherwise the best grid is the first solution, which (from no earlier solutions) has the highest metric and carries it as its score; the one-word outcome of SearchAll |
| Solvers.Solver.TakeFirst | internal/core/solver.go:75 | `s.Solutions[0]` as written: the best grid becomes the first solution, and the index fails, writing nothing, exactly when there is none |
| Solvers.Solver.PickBest | internal/core/solver.go:75 | with the check: the best grid is the first solution, or none when there is none |
| Solvers.Solver.FindSolutionsChecked | internal/core/solver.go:72-75 | with the missing check: the outcome above, the best grid the first solution or none when there is none; from no earlier solutions the best grid has the highest metric and carries it as its score; with no words, the empty grid; with one word, the one-word outcome of SearchAll |
| Solvers.NoSolution | internal/core/solver.go:52-67 | when a non-empty first word shares no letter with the second, a search started without solutions ends without any |
| Solvers.CatDogWords | internal/core/solver.go:144-148 | "CAT" and "DOG" are left as they are by preprocessing and share no letter |
| Solvers.NoCatDogSolution | internal/core/solver.go:52-67 | the search over "CAT" and "DOG" ends without a solution |
| Solvers.CatDogPanics | internal/core/solver.go:75 | FindSolutions as written fails on "CAT" and "DOG", whatever the metric and cap |
| Solvers.CatDogChecked | internal/core/solver.go:75 | with the check, the same search ends without a best grid |
| Solvers.AlphaFound | internal/core/solver.go:37-75 | "ALPHA" alone, with a cap of 1, a threshold of 0 and a metric of 1 everywhere, ends with the best grid holding ALPHA across at (0, 0), and FindSolutions as written does not fail on it |

## Left out

- cmd/crossword/main.go is not part of this model: flag parsing, reading the word file and printing are input and output.
- The parallel search at internal/core/solver.go:79-133 is commented out and is not modelled.
- internal/core/quality.go and `Density` (internal/core/grid.go:134-139) are floating-point arithmetic. The metric is a parameter `Cells -> real` of the solver, and `Evaluate` stores whatever it returns.
- internal/core/render.go only formats text. The renderer is modelled as the trace of `DrawCell` and `Finish` calls that `Render` makes.
- The `fmt.Printf` at internal/core/solver.go:56 is output and is left out.
- `strings.ToUpper` and `strings.TrimSpace` are modelled over ASCII letters and ASCII white space. Unicode case mapping and Unicode spaces are left out. Letters are Dafny characters, not Go runes.
- Go's `int` is modelled as an unbounded integer. Coordinates, counts and scores are assumed not to overflow.
- GridSpec.HashNormalize: requires every coordinate to lie within the ±999999 sentinels of `bounds` (`Unclipped`), because beyond them the sentinels clip the box. So do `NormalizeAtOrigin` and `TightBox`. `Bounds` itself is modelled with the sentinels as written.
- Hash is proved invariant under normalisation only. Invariance under an arbitrary translation is not stated.
- The sorts are specified only by permutation and order. Which of two equal-scored elements comes first (`sort.Slice` is not stable) is not modelled; one particular order is taken.
- Go's map iteration order is arbitrary. Every loop over a map picks an arbitrary key, and the results of `bounds`, `Normalize`, `Intersections`, `Equals` and `Copy` are proved for every order.
- The `depth` parameter of the search closure is never read by the source. It is carried along and plays no part in any contract.
- Solvers.Solver.Search: states what is appended for a finished grid, what every appended grid satisfies, and, on the empty grid with one word left, exactly which grid is appended. For any other unfinished grid it does not say which solutions are found, only that they are distinct, built from all the words, scored by the metric and within the cap, and that the best score handed back is the highest of the one passed in and the new solutions' metrics. The reason: which grids are found depends on which placements every level of the recursion is offered and in what order, on the cap, on the hashes seen in earlier branches and on the best score at that moment, so a full description is the search itself run to completion; the model states the invariants every solution satisfies and the one-word case in full instead. `Explore` likewise states exactly what is appended only for a single offered placement of the last word.
- Grids.Grid.Candidates: states which placements the list holds, not how many times. The loop at internal/core/grid.go:198-221 keeps a placement once for every occupied point it crosses, and the model's loop does the same, but no contract counts the repeats. The same holds for `PositionsList`.
- Solvers.Solver.FindSolutions: the Go code panics with an index out of range when there is no solution. The model returns `panicked = true` and leaves the best grid as it was.
- The `MinQualityThreshold` pruning is modelled on the real-valued metric as written. Nothing is proved about the scores of the solutions it removes.
- Members whose contracts use `old`, `fresh` or `modifies` state the grid's and the solver's new state: `Grid.constructor`, `Copy`, `Normalize`, `PlaceWord`, `RemoveWord`, `Evaluate`, and the `Solver` constructor and search methods. `Evaluate` states only that it stores the metric's value.

## Findings

| source | as written | input that shows it | evidently intended | confidence | as-written member | corrected member |
|---|---|---|---|---|---|---|
| internal/core/solver.go:75 | `s.BestGrid = s.Solutions[0]` after the sort, with no check that a solution was found | the words "CAT" and "DOG" with any metric and cap: they share no letter, so the second word never crosses the first and the search finds no solution; indexing the empty list then panics | an empty solution list leaves no best grid (`BestGrid = nil`) | not executed | Solvers.CatDogPanics | Solvers.CatDogChecked |
