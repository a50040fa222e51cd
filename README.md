# Algorithm exercises, modelled and verified in Dafny

This project models a set of small JavaScript programs and proves properties of the models:

- a maze route finder, `problems/20190806-maze.js`. It builds a grid from text and finds the `S` and `G` markers. A breadth-first search over partial routes then collects every route that reaches the goal, and the driver reports the fewest steps.
- a lake counter, `problems/20190807-lake-counting.js`. It runs an eight-direction flood fill over the non-`.` cells of a grid and counts the connected regions.
- a 0-1 knapsack table fill, `problems/20190815-knapsack.js`.
- a greedy refuelling simulation, `problems/20190819-expedition.js`.
- a greedy subset-sum check, `problems/20190806-summation.js`.
- a memoised Fibonacci function, `problems/20190814-fibonacci.js`.
- tweet-ID extraction with the regular expression `status\/(\d+)`, `sort-tweets.js`.
- a PLS playlist writer, `music.js`.

One Dafny module stands for each program:

| module | file |
|---|---|
| `Maze` | `maze.dfy` |
| `LakeCounting` | `lake.dfy` |
| `Knapsack` | `knapsack.dfy` |
| `Expedition` | `expedition.dfy` |
| `Summation` | `summation.dfy` |
| `Fibonacci` | `fibonacci.dfy` |
| `Tweets` | `tweets.dfy` |
| `Music` | `music.dfy` |

Three modules are shared:

- `Grid` (`grid.dfy`) holds the grid decoding and the ragged-row bounds check. The maze and lake programs contain identical copies of these.
- `Text` (`text.dfy`) holds the JavaScript string operations the programs use: `split`, `join`, `trim` and the decimal rendering of a number.
- `Results` (`results.dfy`) holds `Option` and `Result`.

Code that updates state step by step is modelled as methods. The route search, the start/goal scan, the fewest-steps reduction, the lake scan, the table fill, the refuelling loop, the candidate scan and the playlist builder are methods with loops, as in the programs. The flood fill (`FindNearbyWaterCell` with `VisitDirection`) and the memoised `Memo.Fib` are recursive methods without a loop, as the programs recurse. Each of these methods is proved against a specification function or predicate. Expression-only code is modelled as functions.

## Model

| member | source | states |
|---|---|---|
| Grid.BuildGrid | problems/20190806-maze.js:23-35 | every row of the decoded grid is non-empty, starts and ends with a non-whitespace character, and holds no line break |
| Grid.BuildGridIdempotent | problems/20190807-lake-counting.js:22-34 | writing a decoded grid back out line by line and decoding it again gives the same grid |
| Grid.InBounds | problems/20190806-maze.js:81-99 | a cell is inside exactly when its row exists and its column lies within that row's own length |
| Text.JoinSplit | problems/20190806-maze.js:24 | joining the pieces of `split('\n')` with line breaks gives back the original text |
| Text.Split | problems/20190806-maze.js:24 | `split` on a one-character separator gives at least one piece, and no piece holds the separator |
| Text.Join | music.js:38 | defines `join` on a one-character separator: the pieces with one separator between neighbours |
| Text.SplitJoin | music.js:38 | splitting a join of separator-free lines recovers exactly those lines |
| Text.Trim | problems/20190806-maze.js:25-27 | the result neither starts nor ends with whitespace, only whitespace was cut off either side, and it is empty only for an all-whitespace line |
| Text.TrimIdempotent | problems/20190807-lake-counting.js:24-26 | trimming twice is trimming once |
| Text.DecimalRoundTrip | music.js:33-36 | the decimal rendering of a number reads back as that number |
| Maze.GetCell | problems/20190806-maze.js:134-222 | a neighbour getter returns the cell at its offset exactly when that cell is in bounds, unvisited and not `#`, otherwise nothing; the cell returned shares a side with the current one |
| Maze.DirectionsCoverNeighbours | problems/20190806-maze.js:153-221 | the four offsets reach exactly the side neighbours of a cell, each a different one |
| Maze.IsWall | problems/20190806-maze.js:121-123 | defines a wall as an in-bounds cell holding `#` |
| Maze.IsCandidateCell | problems/20190806-maze.js:134-142 | defines a candidate as a cell inside the maze, not visited and not a wall, tested in that order |
| Maze.LocateStartGoal | problems/20190806-maze.js:44-70 | no location exactly when `S` or `G` is missing; otherwise the scan stops on the first cell, in row order, of the marker seen second, and reports the last cell of the other marker seen before it |
| Maze.ScanStartUnique | problems/20190806-maze.js:44-70 | the scan of `locateStartGoal` reports at most one `S` cell, so the start of the search is determined by the grid |
| Maze.RouteLengthBound | problems/20190806-maze.js:246-248 | a route repeats no cell, so it is no longer than the number of cells it can use |
| Maze.ExtendRoute | problems/20190806-maze.js:250-289 | extending a dequeued route by a candidate neighbour gives a solution route when the neighbour is `G` and a partial route otherwise |
| Maze.ExpansionFacts | problems/20190806-maze.js:250-289 | one iteration adds at most four routes to the queue, all partial, each one cell longer and with every earlier cell visited; every route it adds to the solutions ends on `G` |
| Maze.GoalBesideStart | problems/20190806-maze.js:235-258 | when `G` shares a side with the start, the first iteration records a two-cell solution |
| Maze.ExpandRoute | problems/20190806-maze.js:250-289 | the queue and the solutions grow by exactly the up, down, left, right extensions of the current route, in that order |
| Maze.Offer | problems/20190806-maze.js:251-259 | one `if (cell !== null)` block adds the extended route to the solutions when the cell holds `G`, to the queue otherwise, and nothing when there is no cell |
| Maze.IterationKeepsInvariant | problems/20190806-maze.js:239-290 | one iteration keeps the loop invariant: valid queued routes, valid solutions, visited cells are the start or open non-goal cells, breadth-first length order. It strictly lowers the termination measure |
| Maze.ExpansionLowersWeight | problems/20190806-maze.js:239-245 | replacing a dequeued route by at most four routes one cell longer lowers the queue weight, so the `while (true)` loop ends |
| Maze.SearchEnds | problems/20190806-maze.js:240-244 | when the queue is empty, every collected route is a solution route, they come shortest first, and a goal beside the start gives a first solution of two cells |
| Maze.CompleteStep | problems/20190806-maze.js:239-290 | one iteration keeps the completeness invariant: every visited cell ends a dequeued route, no dequeued route is longer than a waiting one, and every open side neighbour of a dequeued route is reached one cell further, by a solution when it is `G`, otherwise by a dequeued or waiting route |
| Maze.NeighbourReached | problems/20190806-maze.js:250-289 | a side neighbour of the dequeued route is reached within one more cell after the four blocks: through the earlier route that visited it, or by the extension they add |
| Maze.SearchStep | problems/20190806-maze.js:239-290 | one iteration keeps the whole loop invariant and lowers the weight of the queue |
| Maze.DoneReaches | problems/20190806-maze.js:239-290 | once the queue is empty, for every partial route some dequeued route ends on the same cell and is no longer |
| Maze.SearchComplete | problems/20190806-maze.js:239-291 | once the queue is empty, every route from the start to a goal is matched by a collected solution no longer than it, so the first solution is a shortest one |
| Maze.FindRoutes | problems/20190806-maze.js:233-292 | every returned route starts at the start, moves between side neighbours over open in-bounds cells without repeating one, and ends on its only `G` cell; routes come out shortest first; whenever any such route exists in the maze a route is returned, and the first one returned is no longer than any such route, so it is a shortest one; a goal beside the start gives a two-cell first route |
| Maze.ShortestSteps | problems/20190806-maze.js:318-324 | no answer exactly for no routes; otherwise the answer is the length of some route minus 1 and no route is shorter |
| Maze.FewestSteps | problems/20190806-maze.js:307-324 | an error exactly when `S` or `G` is missing; otherwise, from the one `S` cell the scan reports (the last `S` seen before the scan stops), a reported count is the number of steps of a solution route and no solution route takes fewer steps; no count is reported exactly when no solution route exists; a goal beside the start gives one step |
| LakeCounting.WaterCells | problems/20190807-lake-counting.js:86-88 | the water cells are exactly the in-bounds cells whose character is not `.` |
| LakeCounting.IsLandCell | problems/20190807-lake-counting.js:86-88 | defines land as an in-bounds cell holding `.` |
| LakeCounting.IsCandidateCell | problems/20190807-lake-counting.js:99-107 | defines a candidate as a cell inside the garden, not visited and not land, tested in that order |
| LakeCounting.GetCell | problems/20190807-lake-counting.js:99-267 | a getter returns the cell at its offset exactly when that cell is water and unvisited |
| LakeCounting.CompassCoversTouching | problems/20190807-lake-counting.js:118-267 | the eight offsets N, NE, E, SE, S, SW, W, NW reach exactly the cells that share a side or a corner with a cell |
| LakeCounting.SameLakeIffJoined | problems/20190807-lake-counting.js:1-3 | a cell belongs to the lake of a water cell exactly when it can be reached from it over touching water cells |
| LakeCounting.VisitDirection | problems/20190807-lake-counting.js:279-284 | one direction block adds only water cells reachable from the current cell, visits each added cell's water neighbours, and covers that direction |
| LakeCounting.FindNearbyWaterCell | problems/20190807-lake-counting.js:277-327 | cells are only added, to the visited set and to the lake alike; every added cell is water, reachable from the seed through added cells, and has all its water neighbours visited; so have the seed's own neighbours |
| LakeCounting.NewLake | problems/20190807-lake-counting.js:339-346 | the flood fill from an unvisited water cell produces exactly the newly visited cells, and that set is a lake disjoint from the earlier ones |
| LakeCounting.ScanComplete | problems/20190807-lake-counting.js:332-349 | once the scan has passed every cell, the visited cells are exactly the water cells |
| LakeCounting.CountLakes | problems/20190807-lake-counting.js:329-350 | the count is the number of lakes found, the lakes are pairwise disjoint connected closed regions, and together they cover exactly the water cells; the count equals the size of every such split of the water cells, so it depends on the garden alone |
| LakeCounting.Component | problems/20190807-lake-counting.js:1-3 | the region of a water cell is the set of water cells reachable from it |
| LakeCounting.LakeIsComponent | problems/20190807-lake-counting.js:1-3 | every lake is the region of each of its cells |
| LakeCounting.LakeCountUnique | problems/20190807-lake-counting.js:329-350 | any two splits of the water cells into lakes have the same number of lakes, so the count is the number of connected regions |
| Knapsack.Solve | problems/20190815-knapsack.js:20-52 | the returned table has `items.length + 1` rows of `capacity + 1` cells, each cell holding the recurrence `Entry`; the answer is the last cell of the last row, and there is none for a negative capacity |
| Knapsack.Max | problems/20190815-knapsack.js:48 | the larger of the two values |
| Knapsack.Entry | problems/20190815-knapsack.js:30-48 | defines `results[i][j]`: 0 for no item or no capacity, the cell above when item `i` is too heavy, otherwise the larger of the cell above and the item's value plus the cell above at the remaining capacity |
| Knapsack.EntryGrowsWithItems | problems/20190815-knapsack.js:38-48 | `results[i][j] >= results[i - 1][j]` |
| Knapsack.EntryNonNegative | problems/20190815-knapsack.js:30-48 | every cell is at least 0 |
| Knapsack.OptimumIsUpperBound | problems/20190815-knapsack.js:10-18 | no selection of items that fits the capacity is worth more than the optimum recurrence |
| Knapsack.BestChoice | problems/20190815-knapsack.js:45-48 | some selection that fits the capacity is worth exactly the optimum |
| Knapsack.EntryIsOptimum | problems/20190815-knapsack.js:30-48 | with positive weights the program's table equals the optimum recurrence in every cell |
| Knapsack.SolveIsOptimal | problems/20190815-knapsack.js:10-52 | with positive weights the answer is the largest total value of a selection whose weight is at most the capacity, and some selection attains it |
| Knapsack.ZeroWeightItemMissed | problems/20190815-knapsack.js:30-35 | a zero-weight item worth 5 and an item of weight 1 worth 1 both fit in capacity 1 for 6, but the table gives 5 |
| Expedition.Insert | problems/20190819-expedition.js:33-37 | inserting into a fuel-ordered queue keeps it in non-increasing fuel order and adds exactly the one station |
| Expedition.SortByFuel | problems/20190819-expedition.js:33-37 | the sorted queue is in non-increasing fuel order and is a permutation of the input |
| Expedition.AddToPriQueue | problems/20190819-expedition.js:31-38 | the new queue is in non-increasing fuel order and holds the old stations plus exactly the one added |
| Expedition.SortSortedUnchanged | problems/20190819-expedition.js:33-37 | sorting an already ordered queue changes nothing |
| Expedition.AddToSortedQueue | problems/20190819-expedition.js:31-38 | adding to an ordered queue places the station after every station with at least its fuel |
| Expedition.HeadHasMostFuel | problems/20190819-expedition.js:54-55 | the station taken from the head has the most fuel of all queued stations |
| Expedition.EnqueuePassed | problems/20190819-expedition.js:42-44 | a station enters the queue only at its own position, so every queued station has been passed |
| Expedition.Drive | problems/20190819-expedition.js:40-57 | `Reported` and `Answered`: the answer is -1 exactly when the truck stops short of `l`. It then has an empty tank and an empty queue, every station was refuelled from or is still on the road (`left`, what remains of the list), no station stands at its position, and for stations in road order every station on the road lies beyond it. Otherwise the answer is the number of refuels, the truck stands at `l` and, for `l > 0`, its tank is not negative. `pos + fuel` equals the initial fuel plus the fuel of the stations refuelled from, which come from the list and lie at or before the truck. When no fuel amount is negative, the refuels form a feasible plan (`OnEmptyTank`): each station used lies within reach of the fuel taken in before it, and was used with an empty tank short of `l` |
| Expedition.OnEmptyTankAt | problems/20190819-expedition.js:45-56 | for a plan `OnEmptyTank`, the `k`-th station used lies at or before the initial fuel plus the fuel of the `k` stations used before it, and that point is short of the destination |
| Summation.IsSolvable | problems/20190806-summation.js:33-75 | the method computes the greedy decision, and a true answer means some part of the candidates sums to the target |
| Summation.FirstAtMost | problems/20190806-summation.js:52-60 | the scan picks the first candidate not above the target, and none when every candidate exceeds it |
| Summation.Sum | problems/20190806-summation.js:40-42 | defines the total of the candidates, as the `reduce` with `+` adds them |
| Summation.Greedy | problems/20190806-summation.js:33-75 | defines the program's decision: false for no candidates or a total below the target, true for a total equal to it, otherwise commit to the first candidate not above the target and decide the rest |
| Summation.SolvableIff | problems/20190806-summation.js:1-3 | the exhaustive decision holds exactly when some selection of the candidates sums to the target |
| Summation.GreedySound | problems/20190806-summation.js:33-75 | every true answer of the greedy procedure is right |
| Summation.GreedyMissesSolution | problems/20190806-summation.js:51-74 | for candidates 3, 2, 2 and target 4 the procedure answers false although 2 + 2 = 4 |
| Summation.DocumentedSamples | problems/20190806-summation.js:5-13 | worked example from the documentation: 7, 4, 2, 1 with target 13 is solvable, and 100, 1 with target 20 is not |
| Fibonacci.Memo.constructor | problems/20190814-fibonacci.js:7 | the memo starts empty |
| Fibonacci.Memo.Fib | problems/20190814-fibonacci.js:9-19 | the result is the n-th Fibonacci number. The memo keeps holding only indices from 2 on with their Fibonacci numbers. A hit, or an index below 2, leaves the memo unchanged. Otherwise `n` is stored, and only indices from 2 to `n` are ever added |
| Fibonacci.FibTen | problems/20190814-fibonacci.js:21 | worked example: `fib(10)` is 55 |
| Tweets.DigitRun | sort-tweets.js:14 | `\d+` takes the longest run of ASCII digits at the front |
| Tweets.Search | sort-tweets.js:31 | the match found is the leftmost position where `status/` is followed by a digit |
| Tweets.Match | sort-tweets.js:31 | there is a match exactly when `status/` followed by a digit occurs; a match has two parts, the whole match and the digits |
| Tweets.ExtractId | sort-tweets.js:30-39 | success exactly when `status/` followed by a digit occurs. The id is then the whole non-empty digit run after the leftmost such occurrence. Otherwise the error names the URL; the length check never fires |
| Tweets.BuildTweetItem | sort-tweets.js:41-44 | the item keeps the URL unchanged with the id of its leftmost match; an extraction error passes through |
| Tweets.ExtractIdRoundTrip | sort-tweets.js:30-39 | writing a digit id after `status/`, behind text without a match and before a non-digit, and extracting it gives the id back |
| Music.FilterIgnored | music.js:43 | a name is kept exactly when it is listed and not ignored |
| Music.FilterIgnoredAppend | music.js:43 | the filter keeps input order |
| Music.Entries | music.js:31-35 | file `k`, in input order, gives line `File<k+1>=<address>` followed by `Title<k+1>=<name>` |
| Music.PlsLines | music.js:29-37 | `2n + 3` lines: `[playlist]`, the entries, `NumberOfEntries=<n>`, `Version=2` |
| Music.GeneratePls | music.js:28-39 | the output is the playlist lines joined by line breaks |
| Music.PlsLinesRecovered | music.js:28-39 | when no name or address holds a line break, splitting the output at line breaks recovers exactly the `2n + 3` lines, so no line break trails |

## Left out

- Console output, the demo grids, items, stations and URLs, and the `main` drivers are left out because they are presentation. The one exception is the fewest-steps reduction of the maze driver.
- The driver of `problems/20190806-summation.js` parses arguments with `parseInt`, sorts them as text and passes the target as a string. That is argument handling and is left out; the model takes integers.
- Summation.IsSolvable: the target is an integer. The program's driver would pass a string.
- `music.js` reads the directory with `readdir`, writes the file with `writeFile`, and runs its driver as async code. These are file-system I/O and are left out.
- Music.GeneratePls: the address of a file is the function parameter `href`. WHATWG URL parsing and percent-encoding belong to the URL library. The model assumes `new URL` does not throw.
- The `compareURL` sort of `sort-tweets.js` is left out. It subtracts 19-digit id strings as IEEE doubles.
- Numbers are unbounded integers. JavaScript's double rounding and overflow are not modelled for knapsack values, fuel amounts or Fibonacci numbers.
- Knapsack.Solve: item weights are natural numbers. Fractional or negative weights, and a fractional capacity, are not modelled.
- Knapsack.SolveIsOptimal: optimality is proved only for positive weights, because the program's capacity-0 shortcut ignores zero-weight items (see Findings).
- Expedition.Drive: the minimality of the refuel count is not proved, nor that a -1 means no choice of refuels reaches `l`. The contract fixes where and why the truck stops: an empty tank, an empty queue, and (for stations in road order) no station behind it left unused. The queue stays in fuel order as a loop invariant, and Expedition.HeadHasMostFuel shows that its head is the fullest queued station; the method's contract does not restate this per refuel.
- Expedition.Drive: the feasible-plan clause (`OnEmptyTank`) is stated only when neither `p` nor any station's fuel is negative. Otherwise the loop can refuel with a negative tank, and the model then states only the fuel sum.
- Expedition.SortByFuel: stations with equal fuel are ordered as a stable sort orders them. The answer depends only on fuel amounts, not on that order.
- Expedition.Drive: the program's global variables `stations`, `l`, `p`, `pos`, `refuelCount` and `priQueue` become parameters, locals and results of one method.
- Fibonacci.Memo.Fib: `n` must be at least 0. A negative index never reaches a base case and recurses without end. The memo is an object field rather than a module-level `Map`.
- Maze.FindRoutes: the unused `goal` parameter is dropped.
- Maze.FewestSteps: `Infinity - 1`, printed when no route exists, is reported as no answer.
- JavaScript `Set`s shared by reference between `findNearbyWaterCell`, `countLakes` and `findRoutes` are passed in and returned as values. Their `row-column` string keys become sets of cells. Aliasing is therefore not modelled.
- LakeCounting.FindNearbyWaterCell: the recursion depth of the flood fill is unbounded in the model. JavaScript's call-stack limit is not modelled.
- LakeCounting.CountLakes: the lakes are returned as a ghost list next to the count. The program keeps them in a `Set` and returns only its size.
- Text.Split: strings are sequences of Unicode characters rather than UTF-16 code units. This matters only for characters outside the Basic Multilingual Plane.
- Grid.BuildGrid: for the same reason, one cell per character of `seq<char>` stands for `split('')`, which yields one cell per UTF-16 code unit. The two differ only for characters outside the Basic Multilingual Plane.

## Findings

| source | as written | input that shows it | evidently intended | confidence | as-written member | corrected member |
|---|---|---|---|---|---|---|
| problems/20190806-summation.js:51-74 | commits to the first candidate not above the target and never backtracks | candidates 3, 2, 2, target 4: it takes 3, then finds nothing for 1 and answers false | true exactly when some part of the candidates sums to the target, as the function's documentation promises | high, not executed | Summation.GreedyMissesSolution | Summation.SolvableIff |
| problems/20190815-knapsack.js:30-35 | a capacity of 0 is worth 0 whatever the items | items (value 5, weight 0) and (value 1, weight 1), capacity 1: the table gives 5, but both items fit for 6 | the best total value over selections that fit, zero-weight items included | low, not executed; the program may assume positive weights | Knapsack.ZeroWeightItemMissed | Knapsack.OptimumIsUpperBound |
