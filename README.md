# Verified model of a collection of algorithm exercises

This project models a set of independent Java algorithm exercises in Dafny
and proves what each one promises. The exercises are:

- **Baseball elimination** (`baseball_network.dfy`, `baseball.dfy`).
  - A standings table with guarded accessors.
  - The trivial elimination test.
  - The flow network over game and team vertices.
  - The elimination decision and the certificate, read off a minimum cut.
  - The per-team cache of results.
- **The 8-puzzle** (`board.dfy`, `solver.dfy`).
  - The Hamming and Manhattan metrics, the goal test and board equality.
  - Neighbouring boards in the source's order, and the twin board.
  - The two-sided A* search with its predecessor filter, and the
    reconstructed solution path.
- **Deques** (`deque.dfy`, `randomized_queue.dfy`).
  - A doubly linked ring with a sentinel node and its iterator.
  - A resizing-array randomized queue and its shuffled iterator.
- **Percolation** (`percolation.dfy`, `union_find.dfy`). A grid of sites
  with two union-find structures, one joined to a virtual top and bottom
  and one joined to the top only.
- **Burrows–Wheeler compression** (`circular_suffix_array.dfy`,
  `burrows_wheeler.dfy`, `move_to_front.dfy`, `lex.dfy`).
  - The sorted circular suffix array.
  - The transform and its inverse, with the counting sort of the inverse.
  - Move-to-front encoding and decoding over the 256-symbol alphabet.
- **A 2d-tree** of points, with the unit square at its root (`kdtree.dfy`).
- **Point comparisons and slopes** (`point.dfy`).
- **WordNet**: shortest ancestral paths and the outcast (`sap.dfy`,
  `outcast.dfy`).
- **The Boggle solver**'s backtracking search and scoring table
  (`boggle.dfy`).

`wrappers.dfy` holds `Option`, `Result` and `Outcome`. An `Error` value
stands for each Java exception the code throws:

- `IllegalArgument` for `IllegalArgumentException`;
- `NoSuchElement` for `NoSuchElementException`;
- `IndexOutOfBounds` for an array index out of bounds;
- `Unsupported` for `UnsupportedOperationException`.

A Java reference the code checks for `null` becomes an `Option` parameter.

Library classes the exercises call are modelled in the smallest form the
code needs:

- **`FordFulkerson`** becomes the set of vertices on the source side of
  the minimum cut. It is a parameter `inCut` of the operations that run a
  max flow.
  - Their requirement is `SmallestMinCut`: the set is a cut of minimum
    capacity, and it is contained in every other minimum cut.
  - That set is the set of vertices the residual graph reaches from the
    source once the flow is maximal, which is the set Ford–Fulkerson
    reports.
- **`FlowEdge` capacities** are integers. The infinite capacity of a
  game-to-team edge becomes the sum of all source capacities plus one
  (`BaseballNetwork.Infinity`).
- **`WeightedQuickUnionUF`** becomes the sequence of unions performed.
  `connected` is the reflexive, symmetric and transitive closure of that
  sequence (`UnionFind.Joined`).
- **`MinPQ`** becomes a multiset with delete-min.
- **`StdRandom`** choices become index parameters. The shuffle becomes an
  arbitrary permutation.
- **`BreadthFirstDirectedPaths`** becomes per-vertex `Option<nat>`
  distance sequences. The WordNet distance used by the outcast is a
  function parameter.
- **The dictionary `Trie`** becomes a set of strings.
  - `startsWith` means that some word has the prefix.
  - `BoggleBoard` is a grid of characters.
- **`BinaryStdIn` and `BinaryStdOut`** become parameters and results.

## Model

| member | source | states |
|---|---|---|
| BaseballNetwork.PairsMembers | Baseball/BaseballElimination.java:118-127 | the pairs the network loop visits are exactly the pairs i < j of teams other than the candidate |
| BaseballNetwork.RowPairsMembers | Baseball/BaseballElimination.java:120-126 | one row of the inner loop visits exactly the j > i other than the candidate |
| BaseballNetwork.PairsBeforeMembers | Baseball/BaseballElimination.java:118-127 | after the first rows of the outer loop, exactly the pairs whose first team lies in those rows have been visited |
| BaseballNetwork.PairsCount | Baseball/BaseballElimination.java:151-152 | the number of game vertices created is numGames = (n-1)(n-2)/2 |
| BaseballNetwork.RowPairsCount | Baseball/BaseballElimination.java:120-126 | a row of the inner loop creates one game vertex per partner, the candidate excepted |
| BaseballNetwork.PairsBeforeCount | Baseball/BaseballElimination.java:118-127 | closed form of the number of games created by the first rows, on both sides of the candidate |
| BaseballNetwork.PairsAreTeams | Baseball/BaseballElimination.java:118-126 | every visited pair names two teams |
| BaseballNetwork.GameEdges | Baseball/BaseballElimination.java:122-125 | three edges per game |
| BaseballNetwork.NetworkLayout | Baseball/BaseballElimination.java:113-131 | every edge is source to game vertex 1..numGames, game vertex to a non-candidate team vertex m+i with infinite capacity, or non-candidate team vertex to sink; m = numGames+1, t = m+n, all ids in 0..t |
| BaseballNetwork.GameEdgesLayout | Baseball/BaseballElimination.java:122-125 | game edges leave the source towards 1..k, or leave game vertex k towards the team vertices of its pair |
| BaseballNetwork.SinkEdgesLayout | Baseball/BaseballElimination.java:128-131 | sink edges leave team vertices m+i, i ≠ id, towards t |
| BaseballNetwork.CandidateUntouched | Baseball/BaseballElimination.java:119-121 | no edge touches the candidate's team vertex (with line 129) |
| BaseballNetwork.SinkCapacitiesNonNegative | Baseball/BaseballElimination.java:128-131 | once the trivial check has passed, every team-to-sink capacity wins[id]+remaining[id]-wins[i] is non-negative (with lines 140-147) |
| BaseballNetwork.SinkCapacityAt | Baseball/BaseballElimination.java:128-131 | the same for the sink edges of the first rows |
| BaseballNetwork.SinkCapNonNegative | Baseball/BaseballElimination.java:128-131 | every cut collects a non-negative total from the sink edges once the trivial check has passed |
| BaseballNetwork.SourceCut | Baseball/BaseballElimination.java:123 | the cut {source} is a cut, and its capacity is the total of the remaining games among the other teams (with line 157) |
| BaseballNetwork.CapAppend | Baseball/BaseballElimination.java:157 | the capacity of a cut is additive over concatenated edge lists |
| BaseballNetwork.GameCapLower | Baseball/BaseballElimination.java:122-125 | the game edges contribute at least the games not wholly among the cut's teams |
| BaseballNetwork.GameCapNoGames | Baseball/BaseballElimination.java:123 | with no game vertex on the source side, the game edges contribute all the games |
| BaseballNetwork.SinkCap | Baseball/BaseballElimination.java:128-131 | the sink edges contribute the slack of the cut's teams |
| BaseballNetwork.SmallCutHasGame | Baseball/BaseballElimination.java:158-159 | a cut below the total of the games puts some game vertex on the source side |
| BaseballNetwork.MinCutBelowTotal | Baseball/BaseballElimination.java:158-160 | a minimum cut with a game vertex on the source side has capacity below the total of the games |
| BaseballNetwork.MinCutSkipsCandidate | Baseball/BaseballElimination.java:162-165 | the smallest minimum cut never holds the candidate's team vertex |
| BaseballNetwork.EliminationIff | Baseball/BaseballElimination.java:158-160 | a game vertex lies on the source side of the smallest minimum cut iff some cut has capacity below the total of the games, i.e. iff the flow cannot carry every game (with lines 172-173) |
| BaseballNetwork.CertificateValid | Baseball/BaseballElimination.java:158-168 | when a game vertex is on the source side, the teams whose vertices m+i are on the source side form a certificate: a non-empty set of teams, the candidate excluded, with more games left among them than they can win without passing the most the candidate can reach |
| BaseballNetwork.TrivialCertificateValid | Baseball/BaseballElimination.java:140-147 | a single team with more wins than the candidate can reach is a certificate |
| BaseballNetwork.SlackNonNegative | Baseball/BaseballElimination.java:130 | the slack of a set of teams is non-negative once the trivial check has passed |
| BaseballNetwork.SlackSingle | Baseball/BaseballElimination.java:130 | the slack of one team is wins[id]+remaining[id]-wins[i] |
| BaseballNetwork.GamesOfAtLeastEach | Baseball/BaseballElimination.java:123 | with no negative capacities, each game count is at most the total |
| BaseballElimination.CreateFlowNetwork | Baseball/BaseballElimination.java:113-134 | builds exactly the network described by NetworkLayout; fails with IllegalArgument exactly when a game count or a sink capacity is negative, which a FlowEdge rejects |
| BaseballElimination.AddGames | Baseball/BaseballElimination.java:117-127 | the game loop yields the game edges of every pair, or fails iff some game count is negative |
| BaseballElimination.AddRowGames | Baseball/BaseballElimination.java:120-126 | one row of the game loop extends the edge list by that row's games, or fails iff its row holds a negative count |
| BaseballElimination.AddSinkEdges | Baseball/BaseballElimination.java:128-132 | the sink loop appends the sink edges, or fails iff some capacity is negative |
| BaseballElimination.TrivialElimination | Baseball/BaseballElimination.java:140-148 | returns the first team i ≠ id with wins[i] > wins[id]+remaining[id], or None iff there is none |
| BaseballElimination.CutHasGame | Baseball/BaseballElimination.java:158-159 | true iff some game vertex 1..m-1 is in the cut |
| BaseballElimination.CacheEliminate | Baseball/BaseballElimination.java:20-22 | recording an elimination with a valid certificate keeps the cache consistent (with lines 144-145, 160-166) |
| BaseballElimination.CacheKeep | Baseball/BaseballElimination.java:20-22 | recording that a team is not eliminated keeps the cache consistent (with line 173) |
| BaseballElimination.BaseballElimination.constructor | Baseball/BaseballElimination.java:24-53 | the table holds the given columns; teamIDs maps each name to its last row and teamNames each row to its name; nothing is cached and there are no certificates |
| BaseballElimination.BaseballElimination.NumberOfTeams | Baseball/BaseballElimination.java:55-57 | the number of rows |
| BaseballElimination.BaseballElimination.Teams | Baseball/BaseballElimination.java:59-61 | exactly the known team names |
| BaseballElimination.BaseballElimination.Wins | Baseball/BaseballElimination.java:63-68 | IllegalArgument iff the name is unknown, otherwise the team's cell |
| BaseballElimination.BaseballElimination.Losses | Baseball/BaseballElimination.java:70-75 | IllegalArgument iff the name is unknown, otherwise the team's cell |
| BaseballElimination.BaseballElimination.Remaining | Baseball/BaseballElimination.java:77-82 | IllegalArgument iff the name is unknown, otherwise the team's cell |
| BaseballElimination.BaseballElimination.Against | Baseball/BaseballElimination.java:84-89 | IllegalArgument iff either name is unknown, otherwise the pair's cell |
| BaseballElimination.BaseballElimination.CutNames | Baseball/BaseballElimination.java:161-167 | the names of the teams whose vertices are in the cut |
| BaseballElimination.BaseballElimination.MaxFlow | Baseball/BaseballElimination.java:136-174 | marks the team cached first; trivial elimination gives the singleton of the first stronger team; otherwise the team is eliminated iff a game vertex is in the cut, with the cut's teams as certificate, and not eliminated with no certificate when none is; a negative game count fails as FlowEdge does; no other team changes; the cache invariant holds |
| BaseballElimination.BaseballElimination.IsEliminated | Baseball/BaseballElimination.java:91-100 | IllegalArgument for an unknown name; a cached team returns its stored answer and nothing changes; otherwise the flow runs once and the answer is cached |
| BaseballElimination.BaseballElimination.CertificateOfElimination | Baseball/BaseballElimination.java:102-111 | IllegalArgument for an unknown name; None iff the team is not eliminated, otherwise its stored certificate; cached teams change nothing |
| Board.NewBoard | Puzzle/src/Board.java:11-17 | the board holds a copy of the n×n tiles; a row shorter than n is an index out of bounds (with lines 127-133) |
| Board.Hamming | Puzzle/src/Board.java:38-49 | the loop returns HammingOf, the number of misplaced non-blank tiles |
| Board.HammingZeroIff | Puzzle/src/Board.java:38-49 | hamming is 0 iff no tile is misplaced, and 0 on the goal board (with lines 69-79) |
| Board.Manhattan | Puzzle/src/Board.java:52-66 | the loop returns ManhattanOf, the sum of |(v-1)/n - i| + |(v-1)%n - j| over misplaced tiles |
| Board.ManhattanAtLeastHamming | Puzzle/src/Board.java:38-66 | with tiles in 0..n²-1, manhattan ≥ hamming |
| Board.DistanceAtLeastOne | Puzzle/src/Board.java:56-62 | a misplaced tile is at distance ≥ 1, a placed one at distance 0 |
| Board.ManhattanGoal | Puzzle/src/Board.java:52-66 | manhattan is 0 on the goal board |
| Board.IsGoal | Puzzle/src/Board.java:69-79 | true iff every cell holds n·i+j+1, the last cell 0 |
| Board.Equals | Puzzle/src/Board.java:83-92 | true iff sizes and all tiles agree |
| Board.FindBlank | Puzzle/src/Board.java:96-104 | the labelled loop finds Blank, the first 0 in row-major order, or (n, n) when there is none |
| Board.BlankFound | Puzzle/src/Board.java:96-104 | Blank is the first 0 in row-major order, or (n, n) if there is no 0 |
| Board.OutOfBounds | Puzzle/src/Board.java:123-125 | true iff the cell is outside the grid |
| Board.SlideCells | Puzzle/src/Board.java:115-118 | a slid board has 0 at the moved tile's cell, that tile at the blank's cell, and every other cell unchanged |
| Board.Neighbors | Puzzle/src/Board.java:95-121 | returns NeighborsOf: the slides up, left, down, right that stay in the grid, in that order |
| Board.NeighborsAreSlides | Puzzle/src/Board.java:106-119 | a board is a neighbour iff it is the board with the blank swapped with an orthogonally adjacent tile |
| Board.NeighborCount | Puzzle/src/Board.java:106-119 | a board with a blank has 2 to 4 neighbours |
| Board.SlideBack | Puzzle/src/Board.java:115-118 | sliding the tile back restores the board |
| Board.NeighborsSymmetric | Puzzle/src/Board.java:95-121 | with one blank, b is a neighbour of each of its neighbours |
| Board.Twin | Puzzle/src/Board.java:136-150 | an index out of bounds iff n < 2, otherwise a board of the same size |
| Board.TwinSwapsTwo | Puzzle/src/Board.java:137-148 | with one blank, the twin swaps two distinct non-blank cells among (0,0), (0,1), (1,0) and keeps every other cell |
| Board.TwinInvolution | Puzzle/src/Board.java:136-150 | the twin of the twin is the board |
| Solver.CompareTo | Puzzle/src/Solver.java:29-32 | the difference of the two priorities moves + manhattan |
| Solver.NewSearchNode | Puzzle/src/Solver.java:22-27 | the node stores the board's manhattan |
| Solver.MinPQ.Insert | Puzzle/src/Solver.java:48-49 | adds one copy of the node to the queue (with line 74) |
| Solver.MinPQ.DelMin | Puzzle/src/Solver.java:52-53 | NoSuchElement on an empty queue; otherwise removes one copy of a node whose priority is at most every other's |
| Solver.MinExists | Puzzle/src/Solver.java:52-53 | a non-empty queue has a node of least priority |
| Solver.ChildrenAre | Puzzle/src/Solver.java:69-77 | a node is inserted iff its board is a neighbour other than the predecessor's board, with prev = node and moves + 1 |
| Solver.UpdatePQ | Puzzle/src/Solver.java:69-77 | the queue grows by exactly those children |
| Solver.EnqueueAll | Puzzle/src/Solver.java:72-76 | the loop over the neighbours adds the successors of each |
| Solver.ChildrenChain | Puzzle/src/Solver.java:74 | a child of a node reached from the start is reached from the start |
| Solver.ChainPath | Puzzle/src/Solver.java:94-100 | a node reached from the start lists moves+1 boards from the start to its own, consecutive boards neighbours |
| Solver.Solve | Puzzle/src/Solver.java:45-67 | a goal dequeued from the board's queue is reached from the board; one from the twin's queue is reached from the twin, and only in a round whose board-side node (the ghost result `boardSide`) is reached from the board and is not a goal; a goal initial board is found in round one; a board too small for a twin fails |
| Solver.Solver.IsSolvable | Puzzle/src/Solver.java:80-82 | true iff a solution is stored, and that solution reaches a goal from the board |
| Solver.Solver.Moves | Puzzle/src/Solver.java:85-87 | -1 iff unsolvable, otherwise the solution's moves |
| Solver.Solver.Solution | Puzzle/src/Solver.java:90-101 | None iff unsolvable; otherwise the boards from the initial board to a goal board, moves+1 of them, consecutive boards neighbours |
| Solver.NewSolver | Puzzle/src/Solver.java:36-43 | IllegalArgument for a null board; otherwise a solver for that board |
| Deque.Deque.constructor | Deques/src/Deque.java:21-26 | an empty deque whose sentinel points to itself both ways |
| Deque.Deque.IsEmpty | Deques/src/Deque.java:29-31 | true iff there are no items |
| Deque.Deque.Size | Deques/src/Deque.java:34-36 | the number of items, which Valid ties to the nodes of the ring |
| Deque.Deque.AddFirst | Deques/src/Deque.java:39-47 | IllegalArgument on null with nothing changed; otherwise the items become [x] + items; the ring stays consistent |
| Deque.Deque.AddLast | Deques/src/Deque.java:50-58 | IllegalArgument on null with nothing changed; otherwise the items become items + [x] |
| Deque.Deque.RemoveFirst | Deques/src/Deque.java:61-70 | NoSuchElement when empty; otherwise returns the first item and drops it |
| Deque.Deque.RemoveLast | Deques/src/Deque.java:73-82 | NoSuchElement when empty; otherwise returns the last item and drops it |
| Deque.Deque.Iterator | Deques/src/Deque.java:85-87 | a fresh iterator at the front |
| Deque.DequeIterator.constructor | Deques/src/Deque.java:93-96 | starts at the front |
| Deque.DequeIterator.HasNext | Deques/src/Deque.java:99-101 | true iff items remain |
| Deque.DequeIterator.Next | Deques/src/Deque.java:104-112 | the next item front to back, or NoSuchElement once exhausted |
| Deque.DequeIterator.Remove | Deques/src/Deque.java:115-117 | always unsupported |
| Deque.Drain | Deques/src/Deque.java:89-113 | iterating a deque yields exactly its items front to back |
| Deque.Fill | Deques/src/Deque.java:121-132 | addFirst of a then addLast of b gives reverse(a) + b |
| Deque.FrontAndBack | Deques/src/Deque.java:121-142 | the items of the test: A9…A0 followed by B0…B9 |
| RandomizedQueue.CapacityAtLeastInit | Deques/src/RandomizedQueue.java:59-61 | every capacity reachable by doubling and halving is at least 8 (with lines 7, 29-34) |
| RandomizedQueue.RemoveBySwap | Deques/src/RandomizedQueue.java:53-58 | moving the last item into slot k and dropping the last slot removes one copy of s[k] |
| RandomizedQueue.PermutedItems | Deques/src/RandomizedQueue.java:83-89 | reading the items in a permuted order keeps the multiset |
| RandomizedQueue.RandomizedQueue.constructor | Deques/src/RandomizedQueue.java:13-17 | an empty queue of capacity 8 |
| RandomizedQueue.RandomizedQueue.IsEmpty | Deques/src/RandomizedQueue.java:20-22 | true iff there are no items |
| RandomizedQueue.RandomizedQueue.Size | Deques/src/RandomizedQueue.java:25-27 | the number of items |
| RandomizedQueue.RandomizedQueue.Resize | Deques/src/RandomizedQueue.java:29-34 | a fresh array of the new capacity holding the same items, slots from size on null |
| RandomizedQueue.RandomizedQueue.Enqueue | Deques/src/RandomizedQueue.java:37-46 | IllegalArgument on null; otherwise the item is stored at items[size], after doubling a full array |
| RandomizedQueue.RandomizedQueue.Dequeue | Deques/src/RandomizedQueue.java:49-63 | NoSuchElement when empty; otherwise returns items[k], moves the last item into slot k, removes one copy from the multiset, and halves the array iff capacity > 8 and 4·size < capacity |
| RandomizedQueue.RandomizedQueue.RemoveAt | Deques/src/RandomizedQueue.java:53-58 | the removal step of dequeue, with the emptied slot nulled |
| RandomizedQueue.RandomizedQueue.Sample | Deques/src/RandomizedQueue.java:66-72 | NoSuchElement when empty; otherwise items[k]; nothing changes |
| RandomizedQueue.RandomizedQueue.Iterator | Deques/src/RandomizedQueue.java:75-77 | the iterator holds a permutation of the current items (with lines 83-89) |
| RandomizedQueue.RandomDequeIterator.constructor | Deques/src/RandomizedQueue.java:83-89 | starts at position 0 over the shuffled copy |
| RandomizedQueue.RandomDequeIterator.HasNext | Deques/src/RandomizedQueue.java:91-93 | true iff the position is below the queue's size |
| RandomizedQueue.RandomDequeIterator.Next | Deques/src/RandomizedQueue.java:96-101 | NoSuchElement once the position reaches the queue's size (position unchanged); otherwise the position advances by one and the result is the shuffled item at the old position, or IndexOutOfBounds when the copy is shorter |
| RandomizedQueue.RandomDequeIterator.Remove | Deques/src/RandomizedQueue.java:104-106 | always unsupported |
| RandomizedQueue.DequeueAll | Deques/src/RandomizedQueue.java:112-135 | dequeuing every item empties the queue and yields a permutation of its items |
| UnionFind.UF.constructor | Percolation/src/Percolation.java:30-31 | a union-find over count sites with no unions, each site connected only to itself |
| UnionFind.UF.Union | Percolation/src/Percolation.java:56-66 | records the union; the two sites are then connected |
| UnionFind.UF.Connected | Percolation/src/Percolation.java:93 | true iff the two sites are joined by the recorded unions (with line 103) |
| UnionFind.JoinedSymmetric | Percolation/src/Percolation.java:56-66 | connectedness is symmetric |
| UnionFind.JoinedTransitive | Percolation/src/Percolation.java:56-66 | connectedness is transitive |
| UnionFind.JoinedReflexive | Percolation/src/Percolation.java:56-66 | every site is connected to itself |
| UnionFind.JoinedUnion | Percolation/src/Percolation.java:56-66 | every recorded union connects its two sites |
| UnionFind.JoinedPrefix | Percolation/src/Percolation.java:56-66 | further unions never disconnect two sites |
| Percolation.IndexInverse | Percolation/src/Percolation.java:48-51 | (row-1)·n + col lies in 1..n² and determines the site |
| Percolation.SiteOfInverse | Percolation/src/Percolation.java:48-51 | every id in 1..n² is the index of exactly one site, so index is a bijection |
| Percolation.CheckedIndex | Percolation/src/Percolation.java:42-51 | IllegalArgument iff the site is outside the grid; otherwise its index |
| Percolation.JoinedIffReaches | Percolation/src/Percolation.java:53-67 | when the recorded unions are sound and complete, two ids are connected iff a path of open sites and virtual links joins them |
| Percolation.FullIff | Percolation/src/Percolation.java:89-94 | an open site is connected to the top in the structure without bottom iff a path of open sites joins it to an open top-row site |
| Percolation.PercolatingIff | Percolation/src/Percolation.java:35-39 | the virtual top reaches the virtual bottom iff a path of open sites joins the top row to the bottom row (with lines 77-79) |
| Percolation.PercolatingNeedsSites | Percolation/src/Percolation.java:77 | a percolating grid has at least n open sites, which is why the test waits for openSites ≥ n |
| Percolation.PercolatesCorrect | Percolation/src/Percolation.java:77-79 | the stored flag, computed when openSites ≥ n, is true iff the grid percolates (with lines 102-104) |
| Percolation.TopFull | Percolation/src/Percolation.java:89-94 | an open top-row site is full |
| Percolation.FullStep | Percolation/src/Percolation.java:53-67 | an open site next to a full site is full |
| Percolation.FullBottom | Percolation/src/Percolation.java:102-104 | a full bottom-row site makes the grid percolate |
| Percolation.CompleteAfterOpen | Percolation/src/Percolation.java:53-67 | joining the opened site with its open neighbours keeps the unions complete (with lines 70-80) |
| Percolation.SoundAfterOpen | Percolation/src/Percolation.java:70-80 | opening a site keeps every recorded union valid |
| Percolation.JoinVirtual | Percolation/src/Percolation.java:30-39 | the constructor's unions join the virtual top to row 1 in both structures and the virtual bottom to row n in the first; both are sound and complete for the blocked grid |
| Percolation.Percolation.constructor | Percolation/src/Percolation.java:15-40 | every site blocked, no open sites, not percolating |
| Percolation.NewPercolation | Percolation/src/Percolation.java:15-18 | IllegalArgument iff n ≤ 0 |
| Percolation.Percolation.IsOpen | Percolation/src/Percolation.java:83-86 | IllegalArgument outside the grid, otherwise whether the site is open |
| Percolation.Percolation.ConnectNeighbors | Percolation/src/Percolation.java:53-67 | unions the site with each open in-grid neighbour in both structures, keeping them sound |
| Percolation.Percolation.Open | Percolation/src/Percolation.java:70-80 | IllegalArgument outside the grid; an open site changes nothing; otherwise the site joins the open set, openSites stays its size, and percolates stays true once true |
| Percolation.Percolation.IsFull | Percolation/src/Percolation.java:89-94 | IllegalArgument outside the grid; otherwise true iff the site is open and joined to the top row through open sites |
| Percolation.Percolation.NumberOfOpenSites | Percolation/src/Percolation.java:97-99 | the number of open sites |
| Percolation.Percolation.Percolates | Percolation/src/Percolation.java:102-104 | true iff some path of open sites joins the top row to the bottom row |
| Lex.Compare | Burrows/CircularSuffixArray.java:38-44 | the comparator's result is -1, 0 or 1, and 0 iff the sequences are equal |
| Lex.CompareAt | Burrows/CircularSuffixArray.java:41-42 | the first differing position decides: -1 if the first sequence is smaller there, 1 if larger |
| Lex.CompareAntisymmetric | Burrows/CircularSuffixArray.java:38-44 | swapping the arguments negates the comparison |
| Lex.CompareTransitive | Burrows/CircularSuffixArray.java:38-44 | the comparison is transitive |
| CircularSuffixArray.Rot | Burrows/CircularSuffixArray.java:39-40 | the rotation starting at k has the string's length |
| CircularSuffixArray.CompareRotations | Burrows/CircularSuffixArray.java:37-45 | the comparator's loop returns the lexicographic comparison of the two rotations |
| CircularSuffixArray.KeyTotal | Burrows/CircularSuffixArray.java:47-51 | the sort's order on start positions is total |
| CircularSuffixArray.KeyTransitive | Burrows/CircularSuffixArray.java:47-51 | the sort's order on start positions is transitive |
| CircularSuffixArray.SortRotations | Burrows/CircularSuffixArray.java:47-54 | the sort permutes the start positions into rotation order, equal rotations in ascending start order as a stable sort leaves them |
| CircularSuffixArray.Swap | Burrows/CircularSuffixArray.java:51 | one exchange of the sort keeps the entries and moves the sorted boundary |
| CircularSuffixArray.CircularSuffixArray.constructor | Burrows/CircularSuffixArray.java:10-22 | index is a permutation of 0..len-1 sorted by rotation |
| CircularSuffixArray.NewCircularSuffixArray | Burrows/CircularSuffixArray.java:10-13 | IllegalArgument on null, otherwise a sorted array for that string |
| CircularSuffixArray.CircularSuffixArray.Length | Burrows/CircularSuffixArray.java:24-26 | the length of the string |
| CircularSuffixArray.CircularSuffixArray.Index | Burrows/CircularSuffixArray.java:29-34 | IllegalArgument outside 0..len-1, otherwise index[i], itself in 0..len-1 |
| CircularSuffixArray.SmallestRotationStartsWithBang | Burrows/CircularSuffixArray.java:47-54 | for "ABRACADABRA!" the smallest rotation is the one at 11 |
| BurrowsWheeler.Transform | Burrows/BurrowsWheeler.java:9-26 | outputs first, the row of the string itself, and t, the last column of the sorted rotations; t is a permutation of the input |
| BurrowsWheeler.TransformShape | Burrows/BurrowsWheeler.java:13-19 | t has the input's length and first is a row of it (0 for the empty string) |
| BurrowsWheeler.LastColumnPermutes | Burrows/BurrowsWheeler.java:19 | the last column of a permutation of the rows is a permutation of the string |
| BurrowsWheeler.RotLast | Burrows/BurrowsWheeler.java:19 | the last character of the rotation at k is s[(k-1+n) mod n] |
| BurrowsWheeler.CountCharacters | Burrows/BurrowsWheeler.java:35-38 | count[c+1] is the number of occurrences of c |
| BurrowsWheeler.AccumulateCounts | Burrows/BurrowsWheeler.java:39-41 | after the prefix sums, count[c] is the number of characters smaller than c |
| BurrowsWheeler.Scatter | Burrows/BurrowsWheeler.java:43-46 | every position k is written at its rank: characters first, then position |
| BurrowsWheeler.NextIsStableSort | Burrows/BurrowsWheeler.java:43-46 | next is then a permutation listing t stably sorted |
| BurrowsWheeler.ComputeNext | Burrows/BurrowsWheeler.java:35-46 | the whole counting sort yields a stable sort of t |
| BurrowsWheeler.LShiftUndoesRShift | Burrows/BurrowsWheeler.java:43-51 | turning a row right then left gives the row back |
| BurrowsWheeler.RShiftRot | Burrows/BurrowsWheeler.java:19 | turning the rotation at k right gives the rotation at k-1 mod n |
| BurrowsWheeler.NextShiftsRows | Burrows/BurrowsWheeler.java:43-51 | the row at next[j] is row j turned left by one |
| BurrowsWheeler.ShiftedRowsSorted | Burrows/BurrowsWheeler.java:43-46 | the rows turned right, taken in next order, are sorted |
| BurrowsWheeler.ShiftedRowsSameRotations | Burrows/BurrowsWheeler.java:43-46 | they are the same rotations as the rows |
| BurrowsWheeler.FollowRow | Burrows/BurrowsWheeler.java:48-52 | after i steps from first, the row reached is the rotation at i |
| BurrowsWheeler.OutputChar | Burrows/BurrowsWheeler.java:50 | the character written at step i is s[i] |
| BurrowsWheeler.DecodedIsPrefix | Burrows/BurrowsWheeler.java:48-52 | after i steps the output is s[..i] |
| BurrowsWheeler.InverseCorrect | Burrows/BurrowsWheeler.java:30-54 | following any stable sort of t from first writes exactly s |
| BurrowsWheeler.InverseTransform | Burrows/BurrowsWheeler.java:30-54 | emits |t| characters; a first outside the rows of a non-empty t is an index out of bounds; inverts every transform output |
| BurrowsWheeler.RoundTrip | Burrows/BurrowsWheeler.java:9-54 | inverseTransform(transform(s)) == s |
| MoveToFront.Identity | Burrows/MoveToFront.java:10-16 | the alphabet 0, 1, …, 255 |
| MoveToFront.IndexOf | Burrows/MoveToFront.java:22 | the first position of c, -1 iff absent |
| MoveToFront.AlphabetIndex | Burrows/MoveToFront.java:22-23 | in an alphabet the position of any byte is below 256 |
| MoveToFront.Front | Burrows/MoveToFront.java:24-25 | moving entry k to the front keeps the length and puts a[k] first (with lines 37-38) |
| MoveToFront.FrontKeepsAlphabet | Burrows/MoveToFront.java:24-25 | the alphabet stays a permutation of 0..255 (with lines 37-38) |
| MoveToFront.EncodeStep | Burrows/MoveToFront.java:21-26 | one encoding step emits the current position of c and moves c to the front |
| MoveToFront.DecodeStep | Burrows/MoveToFront.java:35-39 | one decoding step emits alphabet[k] and moves entry k to the front |
| MoveToFront.EncodeRun | Burrows/MoveToFront.java:18-29 | emits one code per input byte and leaves an alphabet |
| MoveToFront.DecodeRun | Burrows/MoveToFront.java:31-41 | emits one byte per code and leaves an alphabet |
| MoveToFront.DecodeUndoesEncode | Burrows/MoveToFront.java:18-41 | decoding the codes gives back the input and the same final alphabet |
| MoveToFront.RepeatEncodesZero | Burrows/MoveToFront.java:24-25 | a byte repeated at once encodes as 0 |
| MoveToFront.MoveToFront.Init | Burrows/MoveToFront.java:10-16 | the alphabet becomes 0, 1, …, 255 |
| MoveToFront.MoveToFront.MoveEntry | Burrows/MoveToFront.java:24-25 | the list update of one step, remove at k then add at the front (with lines 37-38) |
| MoveToFront.MoveToFront.Encode | Burrows/MoveToFront.java:18-29 | the loop computes EncodeRun from the initial alphabet |
| MoveToFront.MoveToFront.Decode | Burrows/MoveToFront.java:31-41 | the loop computes DecodeRun from the initial alphabet |
| KdTree.SplitRect | KdTree/src/KdTree.java:24-58 | the smaller and larger child rectangles lie in the parent's and hold exactly its points on either side of the node's coordinate |
| KdTree.InsertPoints | KdTree/src/KdTree.java:85-118 | insertion adds the point to the stored set |
| KdTree.InsertGrows | KdTree/src/KdTree.java:87-88 | the size grows iff the point was not stored; re-inserting a stored point leaves the tree unchanged (with lines 100-102) |
| KdTree.InsertOrdered | KdTree/src/KdTree.java:105-116 | insertion keeps the search order: strictly smaller keys left, ties right |
| KdTree.InsertShaped | KdTree/src/KdTree.java:89-96 | children alternate the axis and get the parent's rectangle cut at the parent's coordinate |
| KdTree.InsertInside | KdTree/src/KdTree.java:87-96 | a point inside the rectangle of its position, under nodes inside theirs, never reaches an improper rectangle, and the new node lies inside its rectangle |
| KdTree.StoredNeverThrows | KdTree/src/KdTree.java:99-102 | in an ordered tree the search for a stored point stops at it and never throws |
| KdTree.InsertOutsideThrows | KdTree/src/KdTree.java:89-96 | with (0.5, 0.5) and (0.7, 2.0) stored, inserting (0.8, 3.0) needs the rectangle from y = 2.0 to y = 1.0, so it throws |
| KdTree.ContainsHelperSound | KdTree/src/KdTree.java:125-145 | when the helper as written answers true, the point is stored |
| KdTree.ContainsHelperMisses | KdTree/src/KdTree.java:133-144 | after inserting (0.5, 0.5) then (0.2, 0.5), the helper as written does not find (0.2, 0.5) (with lines 105-116) |
| KdTree.ContainsCorrectedIffStored | KdTree/src/KdTree.java:125-145 | the search that descends as insert does finds a point iff it is stored |
| KdTree.ContainsAfterInsert | KdTree/src/KdTree.java:80-83 | after insert(p), that search finds q iff q is p or was found before (with lines 120-123) |
| KdTree.KdTree.constructor | KdTree/src/KdTree.java:61-64 | an empty tree, ordered, shaped, counted and in the unit square |
| KdTree.KdTree.IsEmpty | KdTree/src/KdTree.java:66-68 | true iff `size` is 0, which is iff no point is stored while `size` counts the points |
| KdTree.KdTree.Size | KdTree/src/KdTree.java:70-72 | `size`, the number of distinct points stored while `size` counts them |
| KdTree.KdTree.Insert | KdTree/src/KdTree.java:74-83 | IllegalArgument on null; IllegalArgument with `size` grown by one and the tree unchanged when `insertHelper` would build an improper rectangle; otherwise the tree is `insertHelper`'s, `size` grows iff a node was created, the point joins the set and `size` keeps counting; a stored point changes nothing; a tree in the unit square never throws on a point of the unit square and stays in it |
| KdTree.KdTree.Contains | KdTree/src/KdTree.java:120-123 | IllegalArgument on null; otherwise the helper as written, true only for stored points |
| KdTree.KdTree.ContainsIntended | KdTree/src/KdTree.java:120-123 | IllegalArgument on null; otherwise true iff the point is stored |
| KdTree.KdTree.Range | KdTree/src/KdTree.java:174-176 | always null |
| KdTree.KdTree.Nearest | KdTree/src/KdTree.java:178-180 | always null |
| Point.SameAs | Collinear/src/Point.java:49-51 | true iff both coordinates agree |
| Point.Horizontal | Collinear/src/Point.java:53-58 | false for identical points, otherwise equal y |
| Point.Vertical | Collinear/src/Point.java:60-65 | false for identical points, otherwise equal x |
| Point.SlopeTo | Collinear/src/Point.java:78-89 | negative infinity iff identical, positive infinity iff vertical, +0 iff horizontal, otherwise the exact quotient (y1-y0)/(x1-x0) |
| Point.EqualSlopesIffCollinear | Collinear/src/Point.java:78-89 | two points other than o have the same slope from o iff the three are collinear |
| Point.CompareTo | Collinear/src/Point.java:103-112 | 0 iff equal; otherwise ordered by y, then by x |
| Point.CompareToAntisymmetric | Collinear/src/Point.java:103-112 | the sign is antisymmetric |
| Point.CompareToTransitive | Collinear/src/Point.java:103-112 | the order is transitive, and only equal points compare 0 |
| Point.CompareSlopes | Collinear/src/Point.java:125-131 | the comparison of two slopes: 0 iff equal, negative iff the first is smaller |
| Point.SlopeOrder | Collinear/src/Point.java:120-131 | compares two points by their slope from o |
| Point.SlopeOrderTransitive | Collinear/src/Point.java:125-131 | the slope order is transitive |
| Point.UnitTestCompareTo | Collinear/src/Point.java:165-167 | the three compareTo checks of the test |
| Point.UnitTestSlopeOrder | Collinear/src/Point.java:170-172 | the two slope-order checks of the test |
| SAP.SAP.constructor | WordNet/SAP.java:11-13 | stores the digraph |
| SAP.SAP.Length | WordNet/SAP.java:16-26 | -1 iff no vertex is reachable from both, otherwise the least distV[i]+distW[i] |
| SAP.SAP.Ancestor | WordNet/SAP.java:30-45 | -1 iff no common vertex, otherwise the smallest-index vertex attaining the least sum |
| SAP.AncestorRealisesLength | WordNet/SAP.java:19-25 | ancestor is -1 iff length is, and otherwise its sum is length (with lines 33-44) |
| SAP.ShortestAncestorUnique | WordNet/SAP.java:30-45 | the ancestor is determined by the distances |
| SAP.SAP.LengthOfSets | WordNet/SAP.java:56-70 | IllegalArgument on a null set, -1 for an empty one, otherwise the shortest length over the sets' distances (with lines 47-52) |
| SAP.SAP.AncestorOfSets | WordNet/SAP.java:74-93 | IllegalArgument on a null set, -1 for an empty one, otherwise the shortest ancestor (with lines 47-52) |
| Outcast.Outcast.constructor | WordNet/Outcast.java:8-10 | stores the WordNet distance |
| Outcast.Outcast.Outcast | WordNet/Outcast.java:13-29 | an index out of bounds for no nouns; otherwise the first noun whose distance sum is strictly largest so far |
| Outcast.OutcastIsFarthest | WordNet/Outcast.java:16-28 | no noun has a larger distance sum than the outcast |
| Outcast.OutcastIndexUnique | WordNet/Outcast.java:23-26 | the outcast is determined by the distances |
| Outcast.SumIgnoresSelf | WordNet/Outcast.java:18-21 | a noun's sum does not depend on its distance to itself |
| Boggle.CellText | Boggle/BoggleSolver.java:46-53 | a Q cell contributes "QU", any other cell its letter |
| Boggle.ScoreOf | Boggle/BoggleSolver.java:75-86 | 0 iff the word is not in the dictionary or is shorter than 3, otherwise 1, 1, 2, 3, 5, 11 by length |
| Boggle.ScoreMonotone | Boggle/BoggleSolver.java:75-86 | a longer dictionary word scores at least as much |
| Boggle.DirectionsAreAdjacent | Boggle/BoggleSolver.java:11-12 | the eight directions lead to adjacent cells |
| Boggle.ExtendSimplePath | Boggle/BoggleSolver.java:63-70 | extending by an unmarked adjacent cell keeps the path simple |
| Boggle.CellsOffShrinks | Boggle/BoggleSolver.java:38-71 | each step of the search removes one cell from those still unmarked |
| Boggle.BoggleSolver.constructor | Boggle/BoggleSolver.java:16-22 | the dictionary holds exactly the given words |
| Boggle.BoggleSolver.GetAllValidWords | Boggle/BoggleSolver.java:24-36 | returns the collected words, each in the dictionary, of at least three letters, and spelled by a simple path of the board |
| Boggle.BoggleSolver.Dfs | Boggle/BoggleSolver.java:38-71 | the search never loses a word, collects only such words, and restores word and marks; a cell off the board, a marked cell or a word that is no dictionary prefix adds nothing; otherwise the extended word is recorded when it is a dictionary word of at least three characters |
| Boggle.BoggleSolver.Visit | Boggle/BoggleSolver.java:46-70 | the same for a cell inside the board and unmarked, recording the word when it is a dictionary word of at least three characters |
| Boggle.BoggleSolver.Record | Boggle/BoggleSolver.java:59-62 | adds the current word iff it has at least three letters and is in the dictionary |
| Boggle.BoggleSolver.ExploreNeighbours | Boggle/BoggleSolver.java:63-70 | searching from each of the eight neighbours keeps every collected word valid |

## Left out

- File input in the `BaseballElimination` constructor: the model takes
  the parsed columns as parameters.
- `FordFulkerson`'s augmenting-path search: the operations that run a
  max flow take its source-side cut and require it to be the smallest
  minimum cut.
- The checks `FlowNetwork` makes on vertex ids: `NetworkLayout` proves
  that every id lies in 0..t, so they never fire.
- `Double.POSITIVE_INFINITY`: replaced by an integer larger than the sum
  of all source capacities.
- `main`, `toString`, `draw`, `dimension` and all printing: these are I/O.
- `BinaryStdIn`/`BinaryStdOut`: replaced by parameters and results. Bytes
  are integers below 256.
- Floating-point slopes: `Point.SlopeTo` gives the exact rational
  quotient. NaN and the sign of zero are not modelled.
- `RectHV`: rectangles and points are exact reals. Of the constructor's
  argument checks only the order of the bounds is modelled (see
  `KdTree.InsertThrows`); NaN and infinite coordinates are not.
- `KdTree.KdTree.Insert`: a point outside the unit square is accepted, as
  in Java, and then the tree no longer lies in the unit square. A later
  insert may throw, after `size` has grown, as `InsertOutsideThrows`
  shows; `Counted` then no longer holds.
- `BruteCollinearPoints` and `FastCollinearPoints`: not part of this model.
- `Permutation`, `PercolationStats`, `PointSET`, `RandomWord`, `WordNet`
  and `SeamCarver`: not part of this model.
- `Solver.Solve`: the unbounded `while (true)` runs for at most `fuel`
  rounds and reports `Exhausted` after that. That A* finds a shortest
  solution is not proved; the model proves that any solution it returns
  leads from the board, or from its twin, to the goal.
- `Board.TwinSwapsTwo`, `Board.NeighborsSymmetric`: stated for boards
  with a single blank, as in the source's intended inputs.
- `Board.NewBoard`: a null row is not modelled; rows are values here.
- `Board.Equals`: it takes two boards. Java's `equals(null)` throws
  `NullPointerException` at `y.getClass()`, and an object of another class
  gives false; neither is modelled, as the solver only compares boards.
- `copyTiles`: boards are values, so a copy cannot alias the argument.
- 32-bit wrap-around: counts, sums and the `Integer.MAX_VALUE` start of
  `SAP.length` are unbounded integers.
- `Solver.MinPQ.DelMin`: which of several nodes of equal priority leaves
  first is left open, as MinPQ promises no order among them.
- `StdRandom`: the random index of `dequeue`/`sample` and the shuffle of
  the iterator are parameters.
- `RandomizedQueue.RandomDequeIterator.Next`: the Java iterator keeps its
  own copy, so a queue that grew after the iterator was made is reported
  through `IndexOutOfBounds` when the copy is shorter. Java has already
  advanced `position` when the access fails, and so does the model; the
  exception itself is a `Failure` value.
- `Deque.DequeIterator.Next`: the iterator reads the deque's item
  sequence by position. Following the `next` links one node at a time
  while the deque changes is not modelled.
- `UnionFind.UF`: the weighting and path structure of
  `WeightedQuickUnionUF` are not modelled, only which sites it connects.
- `Boggle.BoggleSolver.GetAllValidWords`: only soundness is proved, that
  every word found is in the dictionary, has at least three letters and is
  spelled by a simple path. That every such word is found is not proved.
- `Boggle.BoggleSolver.Dfs`: the `Trie` prefix pruning is modelled as a
  test on the dictionary set; the Trie's internals are not modelled.
- `BoggleBoard`: it is a rectangular grid of characters.
- `SAP`: the breadth-first distances are inputs. The BFS itself, and the
  vertex checks of `BreadthFirstDirectedPaths`, are not modelled.
- `Outcast`: the WordNet distance is a function parameter.
- `CircularSuffixArray`: the Java class takes any `String`; the model
  takes a sequence of bytes, which is what `BurrowsWheeler` gives it.
  Characters above 255 are not modelled.
- `KdTree.KdTree.Range`, `KdTree.KdTree.Nearest`: stubs that return null.

## Findings

| source | as written | input that shows it | evidently intended | confidence | as-written member | corrected member |
|---|---|---|---|---|---|---|
| KdTree/src/KdTree.java:133-144 | `containsHelper` goes left when the node's coordinate is smaller than the query's, the reverse of `insertHelper` (105-116) | insert (0.5, 0.5), then (0.2, 0.5); contains((0.2, 0.5)) descends right and returns false | descend as insert does: left iff the query's key is strictly smaller, so contains finds exactly the stored points | high (not executed) | KdTree.ContainsHelperMisses | KdTree.ContainsCorrectedIffStored |
