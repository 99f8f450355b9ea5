# Verified models of a Monte Carlo tree search engine

The repository is a Monte Carlo tree search (MCTS) engine with two board games, Oska and Connect
Four, and the data structures under it: a rooted digraph kept in arenas, a SplitMix random
generator, a pool allocator, move lists and fixed-size arrays. A Python file holds a small UCT
search with Nim and Othello. This project models that code in Dafny and proves what it promises.

Every component has two layers. A value layer says what is right in the simplest terms: the rule
book of a game, a graph as a list of out-arcs, a search tree and the balance of its counts. A class
or a method layer follows the code, with its fields, its loops and its in-place updates, and is
proved against the value layer.

| files | component |
|---|---|
| `ConnectFourRules`, `ConnectFour` | the rules by whole-board search; the state object with its local winner check, hash and counter |
| `OskaBoard`, `OskaRules`, `OskaState` | the hourglass and its numbering for every size S >= 4; the rules, termination and hashing; the state object with two boards, two stone lists, id tables and counters |
| `Digraph`, `Traversal`, `Slicing`, `RootedDigraph` | graphs, orders of traversal and copies as values; the arena digraph with its chained lists and both slices |
| `Locking`, `LockingDigraph`, `LockingCalls` | the locking `addArc` and `addNode` as a state machine over any number of threads, and what the calls have to do with the graph in the end |
| `SearchTree`, `SearchRun`, `Mcts`, `SearchMatch`, `SearchedGames` | the search graph with its transposition table, what an iteration and a search do to it, the search object, a whole match, and its instances for Oska and Connect Four |
| `TurnGames`, `UctTree`, `UctLog`, `UctRun`, `UctSearch` | the Python search with a record of its iterations, what an iteration does to its tree, and Nim |
| `OthelloRules`, `OthelloState` | the Python Othello |
| `SplitMix`, `Bits` | arithmetic modulo 2^64 and the generator |
| `PoolAllocator` | the pool allocator |
| `MultiArray`, `MoveList`, `Players`, `Words`, `Folds`, `Lists`, `Ids` | index arithmetic, move lists, players, hash words and shared notions |

Choices that shape the statements:

- Hash words are abstract, with an operation that commutes and cancels as exclusive-or does
  (`Words.IsXor`); `Words.Xor64IsXor` shows that exclusive-or of 64-bit words is such an operation.
- Random choices, play-out results and UCT scores are arbitrary: draws are nondeterministic, and
  score and play-out functions are parameters. Scores of the C++ search are whole numbers, those of
  the Python search reals.
- The search treats a game as a transition system whose moves lower a rank, with keys that do not
  clash on the positions of the game at hand (`SearchTree.Sound`). `SearchedGames` proves all of this
  of Oska and Connect Four but for the keys, which are those of `zobrist` and are assumed not to clash
  on the positions that games reach.
- The tree library that `mcts/mcts.hpp` includes is not part of this model; the search runs on the
  graph view of the digraph in `mcts/old/stable_rooted_digraph-1.2.hpp`.
- `move_hash` does not refresh the result of a game in either state class. Statements about results
  range over `move_winner` and `move_hash_winner`.
- The start hash of Oska keys human stones at the agent's coordinates, while moves and captures key
  them at the owner's. The hash law therefore carries a constant that the start fixes.

Things the proofs bring to light:

- A search that was pruned has its root twice on the path of the next `compute`, because
  `connectStatesPath` pushes the root again (`mcts/mcts.hpp:522-529`): its root gains six visits for
  each iteration and not three. `Compute` states the exact number.
- A block of the pool allocator serves a single chunk, since `m_last_slot` lies one chunk behind the
  first slot (`mcts/pool_allocator.inl:208-210`). Hence the number of blocks equals the peak number
  of live chunks exactly.
- `connectStatesPath` for an unknown position adds a node without taking the move off its parent's
  untried ones, which always breaks the partition of the parent's moves
  (`SearchTree.MissingNodeBreaksPartition`). `mcts/main.cpp` never takes that branch.
- The Python `UCT` fails on an empty list exactly if no iteration is made or the root is a finished
  game.

## Model

| member | source | states |
|---|---|---|
| `ConnectFourRules.NewLines` | mcts/connect_four.hpp:168-239 | a disc makes no line for the other side, and every new line of its own side runs through it |
| `ConnectFourRules.PlayKeepsReachable` | mcts/connect_four.hpp:248-287 | gravity, exact result and "at most one side has a line" survive every legal move |
| `ConnectFourRules.GameResultIsExact` | mcts/connect_four.hpp:168-263 | over every game, the recorded result is a side iff that side has four in a row anywhere, a draw iff the board is full with none, and open otherwise |
| `ConnectFourRules.FourAnywhere` | mcts/connect_four.hpp:168-239 | there is a line iff somewhere four equal discs lie side by side, on top of each other or on either diagonal |
| `ConnectFourState.RunsDecide` | mcts/connect_four.hpp:174-231 | a line runs through a place along an axis iff the two runs that leave it add up to three or more |
| `ConnectFourState.NoRoom` | mcts/connect_four.hpp:174-231 | the arithmetic cut-offs only skip walks that cannot complete a line |
| `ConnectFourState.LinesRunThroughLast` | mcts/connect_four.hpp:168-239 | looking around the last disc finds a line iff the whole board holds one |
| `ConnectFourState.ConnectFour.Ray` | mcts/connect_four.hpp:178-228 | a counting loop returns the exact length of the run of one colour that leaves a place |
| `ConnectFourState.ConnectFour.CheckHorizontal` | mcts/connect_four.hpp:174-188 | true iff a horizontal line runs through the last disc |
| `ConnectFourState.ConnectFour.CheckVertical` | mcts/connect_four.hpp:190-199 | true iff a vertical line runs through the last disc; only the places below are looked at |
| `ConnectFourState.ConnectFour.CheckFalling` | mcts/connect_four.hpp:201-215 | true iff a falling diagonal line runs through the last disc |
| `ConnectFourState.ConnectFour.CheckRising` | mcts/connect_four.hpp:217-231 | true iff a rising diagonal line runs through the last disc |
| `ConnectFourState.ConnectFour.Winner` | mcts/connect_four.hpp:168-239 | the local check names the mover iff the whole board holds a line of its colour, a draw iff there is none and the counter is full, and else leaves the result |
| `ConnectFourState.ConnectFour.LowestFree` | mcts/connect_four.hpp:248-263 | the search from the bottom row finds the place to which the disc falls |
| `ConnectFourState.ConnectFour.Move` | mcts/connect_four.hpp:248-263 | one disc of the mover is put where gravity takes it, the counter goes up, nothing else changes |
| `ConnectFourState.ConnectFour.MoveHash` | mcts/connect_four.hpp:266-277 | the board moves on by the rules and the hash by the key of the new disc; the result stays stale |
| `ConnectFourState.ConnectFour.MoveWinner` | mcts/connect_four.hpp:284-287 | the new state is the position that the rules give for this move |
| `ConnectFourState.ConnectFour.MoveHashWinner` | mcts/connect_four.hpp:279-282 | as `MoveWinner`, and the hash stays exact |
| `ConnectFourState.ConnectFour.Moves` | mcts/connect_four.hpp:296-314 | exactly the legal columns from left to right, and at least one while the game is open |
| `ConnectFourState.ConnectFour.Simulate` | mcts/connect_four.hpp:317-325 | a play-out is a game by the rules, terminates and ends with a result |
| `ConnectFourState.ConnectFour.Zobrist` | mcts/connect_four.hpp:290-293 | with an exact hash, the key is the from-scratch hash of the board and the side that moved |
| `ConnectFourState.CounterFits` | mcts/connect_four.hpp:248-263 | on boards of at most 255 cells the byte-wide move counter never wraps |
| `ConnectFourState.IncrementalIsFromScratch` | mcts/connect_four.hpp:266-271 | the incremental hash equals the start key mixed with the keys of all occupied cells |
| `ConnectFourState.HashForgetsMoveOrder` | mcts/connect_four.hpp:266-293 | two games that reach the same board have the same hash |
| `ConnectFourTotals.HashPut` | mcts/connect_four.hpp:266-271 | one more disc changes the from-scratch hash by its key alone |
| `ConnectFourTotals.FullByCount` | mcts/connect_four.hpp:296-300 | the disc count reaches rows times columns iff the board is full |
| `OskaBoard.BoardSize` | mcts/oska.hpp:201-210 | the rows hold S(S+1)-4 cells together |
| `OskaBoard.IdInjective` | mcts/oska.hpp:393-432 | no two cells share a number |
| `OskaBoard.CellOfId` | mcts/oska.hpp:393-432 | number-to-cell and cell-to-number are inverse to each other |
| `OskaBoard.MirrorId` | mcts/oska.hpp:571-573 | the mirrored cell has number N-1-id, and mirroring twice is the identity |
| `OskaBoard.CellReversed` | mcts/multi_array.hpp:64-76 | reading the id table from its end gives the mirrored cell |
| `OskaBoard.MirrorIsReversed` | mcts/multi_array.hpp:157-179 | `at_r` of a board array looks where `at` looks for the mirrored place |
| `OskaRules.ShiftKeepsStones` | mcts/oska.hpp:664-723 | after every legal move stones stand on distinct cells and home stones have neither moved nor been captured |
| `OskaRules.PlayKeepsGood` | mcts/oska.hpp:728-755 | after every legal move an open game offers the next player a move, and a drawn one offers none |
| `OskaRules.PlyApproaches` | mcts/oska.hpp:698-723 | the summed distance of all stones to their home rows strictly falls with every ply |
| `OskaRules.StartDistance` | mcts/oska.hpp:379-434 | at the start it is exactly 2S(2S-4) |
| `OskaRules.GamesAreGoodAndShort` | mcts/oska.hpp:802-844 | over every game, all positions are good and no game has more than 2S(2S-4) plies |
| `OskaRules.GamesEndWithResult` | mcts/oska.hpp:884-903 | a game is open iff no player has won and the next player can move |
| `OskaRules.VerdictIsRight` | mcts/oska.hpp:893-903 | in an open game the mover wins iff all its stones are home and the others are not all home or fewer, or, not home, it took the last enemy stone; the other side wins iff both are all home and it has more, or the mover is not home and it has stones none of which can move; drawn iff both are home with equal numbers; else open |
| `OskaRules.ResultsAreRight` | mcts/oska.hpp:893-903 | after every move of every game the recorded result is right in that sense, and the turn has passed |
| `OskaRules.HashMoveOwn` | mcts/oska.hpp:664-681 | the two key updates of a stone move account for its change to the stones |
| `OskaRules.HashTakeOwn` | mcts/oska.hpp:683-695 | the key update of a capture accounts for the stone that is gone |
| `OskaRules.GameHashExact` | mcts/oska.hpp:664-695 | along every game the hash is that of the stones, each in its owner's view, mixed into a constant fixed at the start |
| `OskaRules.HashForgetsHistory` | mcts/oska.hpp:534-536 | two games from one start that reach the same stones have the same hash |
| `Naming.NamesMove` | mcts/oska.hpp:698-711 | renaming one list entry keeps the list duplicate-free and naming exactly the stones |
| `Naming.NamesTake` | mcts/oska.hpp:713-723 | erasing an entry does the same for a captured stone |
| `OskaLayout.ViewsMirror` | mcts/oska.hpp:698-723 | the two players' views of a position are point reflections of each other |
| `OskaState.Oska.BoardsMirror` | mcts/oska.hpp:698-723 | in every valid state the human's board array is the agent's turned around |
| `OskaLayout.SeeMove` | mcts/oska.hpp:698-711 | what a stone move changes in either view |
| `OskaLayout.HomeByCount` | mcts/oska.hpp:893-903 | the home counter equals the length of the stone list iff all stones are home |
| `OskaLayout.CapturedStone` | mcts/oska.hpp:713-723 | the stone a jump takes is there and is not at home |
| `OskaLayout.MovesOfExact` | mcts/oska.hpp:766-836 | looking left and right from each stone finds every legal move exactly once, at most two for each stone |
| `OskaLayout.ListMovesExact` | mcts/oska.hpp:802-836 | going through the stone list finds exactly the player's legal moves |
| `OskaState.Oska.constructor` | mcts/oska.hpp:379-434 | a fresh state has exact tables, mirrored boards, exact lists and counters, and the start hash |
| `OskaState.Oska.NumberTop` | mcts/oska.hpp:391-412 | the first fill loop numbers the rows down to the waist in both tables and leaves row, borders and number for the second |
| `OskaState.Oska.NumberBottom` | mcts/oska.hpp:413-432 | the second fill loop numbers the remaining rows, up to S(S+1)-4 cells |
| `OskaState.Oska.SetUp` | mcts/oska.hpp:393-432 | the loops put the stones on both boards and into both lists and mix their keys into the hash |
| `OskaState.Oska.SetCell` | mcts/oska.hpp:698-723 | a write in one view and, through `at_r`, in the other changes exactly the mirrored pair |
| `OskaState.Oska.MoveStone` | mcts/oska.hpp:698-711 | boards, list and home counter all represent the stones after the move |
| `OskaState.Oska.CaptureStone` | mcts/oska.hpp:713-723 | boards and list all represent the stones without the captured one |
| `OskaState.Oska.Displace` | mcts/oska.hpp:664-723 | move and capture together, with or without hashing, represent the shifted stones and keep the hash exact |
| `OskaState.Oska.Forward` | mcts/oska.hpp:766-800 | a look to one side returns the legal step or jump there, or none |
| `OskaState.Oska.Moves` | mcts/oska.hpp:802-836 | nothing iff the game is won; else exactly the legal moves, each once and at most 2S, and at least one in an open game |
| `OskaState.Oska.HasMoves` | mcts/oska.hpp:847-871 | true iff the player has a legal move |
| `OskaState.Oska.RandomMove` | mcts/oska.hpp:575-634 | empty-handed iff there is no legal move; any move returned is legal |
| `OskaState.Oska.RemainingHome` | mcts/oska.hpp:530-532 | true iff all remaining stones of the player are home |
| `OskaState.Oska.Winner` | mcts/oska.hpp:893-903 | in an open game each outcome is named iff the stones call for it: all home, more of them, none left, none that can move; in any case the verdict of the rules on the shifted stones |
| `OskaState.Oska.MoveHash` | mcts/oska.hpp:728-735 | stones and hash move on, the result stays stale |
| `OskaState.Oska.MoveWinner` | mcts/oska.hpp:737-755 | the new state represents the position that the rules give for this move; the hash stays exact in `move_hash_winner` and untouched in `move_winner` |
| `OskaState.Oska.Zobrist` | mcts/oska.hpp:534-536 | with an exact hash, the key depends on the stones, the start constant and the turn alone |
| `OskaState.Oska.Simulate` | mcts/oska.hpp:839-844 | a play-out is a game by the rules, ends with a result, takes no more plies than the stones are steps from home and leaves the hash alone |
| `Graphs.CopiesAreIsomorphic` | mcts/old/stable_rooted_digraph-1.2.hpp:1068-1169 | any two copies of the same reachable part, depth-first or breadth-first, are isomorphic |
| `Slicing.CopySeen` | mcts/old/stable_rooted_digraph-1.2.hpp:1096-1115 | copying an arc to a node that has a copy keeps the copying invariant |
| `Slicing.CopyNew` | mcts/old/stable_rooted_digraph-1.2.hpp:1096-1115 | copying an arc together with a node met for the first time keeps it too |
| `Slicing.CopyDone` | mcts/old/stable_rooted_digraph-1.2.hpp:1068-1117 | with nothing left to expand, exactly the reachable nodes and all their out-arcs are copied once, in order |
| `RootedDigraph.Tree.constructor` | mcts/old/stable_rooted_digraph-1.2.hpp:409-414 | one root with a root arc and chained lists |
| `RootedDigraph.Tree.AddArc` | mcts/old/stable_rooted_digraph-1.2.hpp:540-558 | all lists stay duplicate-free chains, and the graph gains this arc at the end of its source's out-list |
| `RootedDigraph.Tree.AddNode` | mcts/old/stable_rooted_digraph-1.2.hpp:657-676 | as `AddArc`, with a new node as target |
| `RootedDigraph.Tree.FindLink` | mcts/old/stable_rooted_digraph-1.2.hpp:950-965 | the first arc from s to t, or none iff there is none |
| `RootedDigraph.Tree.InArcNum` | mcts/old/stable_rooted_digraph-1.2.hpp:1018-1028 | the number of arcs whose target is the node |
| `RootedDigraph.Tree.OutArcNum` | mcts/old/stable_rooted_digraph-1.2.hpp:1030-1040 | the number of out-arcs of the node |
| `RootedDigraph.Tree.SliceDF` | mcts/old/stable_rooted_digraph-1.2.hpp:1068-1117 | the new tree is a copy of what the chosen node reaches: each node and arc once, data and order kept; the nodes are numbered in depth-first order, each time expanding the latest found node that was not expanded before; nothing happens for an invalid node |
| `RootedDigraph.Tree.SliceBF` | mcts/old/stable_rooted_digraph-1.2.hpp:1120-1169 | such a copy, numbered in breadth-first order: the nodes are expanded in the order in which they were found |
| `Traversal.DiscoveredExact` | mcts/old/stable_rooted_digraph-1.2.hpp:1096-1115 | expanding a node finds exactly the targets of its arcs that were not known, each once |
| `Traversal.DiscoveredInOrder` | mcts/old/stable_rooted_digraph-1.2.hpp:1096-1115 | it finds them in the order of their first arcs |
| `Traversal.NearestFirst` | mcts/old/stable_rooted_digraph-1.2.hpp:1120-1169 | in breadth-first order no node comes before one that takes fewer arcs to reach from the root |
| `LockingDigraph.ApplyKeeps` | mcts/old/stable_rooted_digraph-1.2.hpp:497-646 | every step of every thread keeps lists, locks and duties in order |
| `LockingDigraph.EveryInterleavingIsSafe` | mcts/old/stable_rooted_digraph-1.2.hpp:497-646 | in every interleaving of any number of threads every in- and out-list stays a duplicate-free chain |
| `LockingDigraph.NoDeadlock` | mcts/old/stable_rooted_digraph-1.2.hpp:497-646 | while any call is under way some thread can make a step |
| `LockingDigraph.StepsUseUpWork` | mcts/old/stable_rooted_digraph-1.2.hpp:497-646 | every step uses up work, so schedules without new calls are finite |
| `LockingDigraph.StuckMeansQuiet` | mcts/old/stable_rooted_digraph-1.2.hpp:497-646 | when no thread can go on, all calls have returned |
| `LockingDigraph.SchedulesEnd` | mcts/old/stable_rooted_digraph-1.2.hpp:497-646 | without new calls every schedule ends within a number of steps known from the start, and where nobody can go on all calls have returned and the graph is complete |
| `LockingDigraph.QuietRunsAreComplete` | mcts/old/stable_rooted_digraph-1.2.hpp:497-646 | when all calls have returned, each list is chained from head to tail, and each arc is once in the in-list of its target and once in the out-list of its source |
| `LockingCalls.BooksStep` | mcts/old/stable_rooted_digraph-1.2.hpp:497-646 | every step of every thread keeps calls made, arcs there and calls waiting in balance |
| `LockingCalls.QuietRunsAnswerTheCalls` | mcts/old/stable_rooted_digraph-1.2.hpp:497-646 | when all calls have returned, the arcs but the root arc are exactly those asked for, as a multiset with their ends, and the nodes but the root are one for each `addNode`, reached by its arc |
| `SearchTree.ChildRank` | mcts/mcts.hpp:550-561 | ranks fall along arcs, so no arc leads back to the root |
| `SearchTree.PositionsDistinct` | mcts/mcts.hpp:394-397 | no two nodes stand for the same position |
| `SearchTree.ArcKeepsStructure` | mcts/mcts.hpp:487-490 | a transposition keeps arcs real moves, the table a bijection and tried plus untried moves the legal ones |
| `SearchTree.NodeKeepsStructure` | mcts/mcts.hpp:370-378 | so does a new node, which the table learns |
| `SearchTree.RootStructure` | mcts/mcts.hpp:355-367 | a fresh tree has that structure |
| `SearchTree.VisitKeepsStructure` | mcts/mcts.hpp:493-499 | counting a visit leaves it alone |
| `SearchTree.CopyKeepsStructure` | mcts/mcts.hpp:619-667 | the copy under new names with the purged table has it again |
| `SearchTree.CopyKeepsRanks` | mcts/mcts.hpp:619-667 | in the copy the new root ranks above all other nodes |
| `SearchTree.CopyKeepsCounts` | mcts/mcts.hpp:619-667 | in the copy every node but the root has been visited, and scores stay within visits |
| `SearchRun.VisitPathCounts` | mcts/mcts.hpp:493-499 | entering a result counts one visit for each time a node lies on the path, and for each of them one point if the player who moved to the node has won, one point less if the other has, and none for a draw |
| `SearchRun.PlayedOutCounts` | mcts/mcts.hpp:602-610 | after any number of play-outs the score has changed by the times on the path, times the play-outs won less those lost by the player who moved to the node |
| `SearchRun.LostIsWonByOther` | mcts/oska.hpp:907-911 | one side loses as many finished play-outs as the other wins |
| `SearchRun.IterationCounts` | mcts/mcts.hpp:550-613 | an iteration gives every node three visits for each time it lies on the path, and as many points as the player who moved there has won more of the three play-outs than lost; a new node starts from nothing |
| `SearchRun.FullRootSelects` | mcts/mcts.hpp:551-561 | once all moves of the root have been tried, an iteration takes a child of highest score |
| `MctsSearch.HashFinds` | mcts/mcts.hpp:394-397 | the table leads from the key of a position in play to the node of that position |
| `MctsSearch.Mcts.Initialize` | mcts/mcts.hpp:355-367 | one unvisited root for the position, known to the table, alone on the path |
| `MctsSearch.Mcts.GetUntriedMove` | mcts/mcts.hpp:223-232 | any untried move, taken off the node's list |
| `MctsSearch.Mcts.SelectChild` | mcts/mcts.hpp:464-483 | a child of highest score; every child that is scored has been visited |
| `MctsSearch.Mcts.AddChild` | mcts/mcts.hpp:487-490 | an arc to the known node, or a new node that the table learns |
| `MctsSearch.Mcts.Descend` | mcts/mcts.hpp:551-561 | follows children of highest score through nodes whose moves have all been tried, and terminates at a node with untried moves or without children; the state is the node's position, of which the code's `move_hash` may leave the recorded result behind at a finished leaf |
| `MctsSearch.Mcts.Expand` | mcts/mcts.hpp:582-586 | exactly one untried move becomes an arc, to a known or to a new node; the structure is kept, and every node but the root and the new one has been visited |
| `MctsSearch.Mcts.UpdatePath` | mcts/mcts.hpp:493-499 | for each time it lies on the path a node gains one visit, and a point if its player has won, loses one if the other has, and keeps its score in a draw; scores stay within visits |
| `MctsSearch.Mcts.PlayOuts` | mcts/mcts.hpp:602-610 | three visits for each time on the path, and afterwards every node but the root has been visited |
| `MctsSearch.Mcts.Iterate` | mcts/mcts.hpp:550-613 | is an iteration by `SearchRun.IsIteration`: selection by score, one expansion, three play-outs entered along the path; keeps all invariants, restores the path, tries one more move of the root while there is one |
| `MctsSearch.Mcts.GetBestMove` | mcts/mcts.hpp:503-518 | the move to the first most visited child, none iff there is no child; the link goes onto the path |
| `MctsSearch.Mcts.ConnectStatesPath` | mcts/mcts.hpp:522-529 | the position's node goes onto the path; an unknown position becomes a child of the last node on the path and enters the table |
| `SearchTree.MissingNodeBreaksPartition` | mcts/mcts.hpp:522-529 | for an unknown position the added node breaks the partition of its parent's moves, always |
| `MctsSearch.Mcts.Search` | mcts/mcts.hpp:550-613 | exactly the given number of iterations, from the tree at the start to the tree at the end |
| `MctsSearch.Mcts.Compute` | mcts/mcts.hpp:532-615 | a search of exactly the given number of iterations, from a fresh root or the kept tree, keeps all invariants; it tries as many moves of the root as iterations allow; the move returned is legal and leads to the first most visited child, and there is one after an iteration on an unfinished game; the exact visits of the root |
| `MctsSearch.Mcts.CopyTree` | mcts/mcts.hpp:619-645 | the new tree is a copy of what the new root reaches |
| `MctsSearch.PurgeTable` | mcts/mcts.hpp:646-659 | the loop leaves exactly the entries of kept nodes, under their new names |
| `MctsSearch.PurgeExact` | mcts/mcts.hpp:646-659 | a key is in the new table iff the old table mapped it to a reachable node, and leads to the node that stands for it |
| `MctsSearch.Mcts.Prune` | mcts/mcts.hpp:671-683 | a valid search at the position with copied tree, positions and purged table, or an empty one iff the position is unknown |
| `SearchMatch.Turn` | mcts/main.cpp:66-67 | a full search from the prepared tree, and the move to the first most visited child of the tree it ends with |
| `SearchMatch.CutTo` | mcts/main.cpp:68 | the search to move next holds what its last tree holds below the position, or is empty |
| `SearchMatch.Match` | mcts/main.cpp:62-70 | the match ends; every move is the result of a search of the full number of iterations by the given scores and play-outs, which starts with what the same player's last search left below the position, or from scratch if it is not there |
| `SearchMatch.TurnIsMove` | mcts/main.cpp:66-67 | every move of a match is legal |
| `SearchedGames.OskaMovesExact` | mcts/oska.hpp:802-836 | the listed moves are exactly the legal ones of an open game, each once |
| `SearchedGames.OskaDescentInStep` | mcts/oska.hpp:728-745 | wherever a descent goes on from the new position, `move_hash` gives the same position as `move_hash_winner` |
| `SearchedGames.OskaIsSound` | mcts/oska.hpp:802-903 | the positions of Oska games with their legal moves meet all that the search assumes, given `zobrist` keys that do not clash on them |
| `SearchedGames.OskaRecordsMover` | mcts/oska.hpp:737-755 | in the position after a move, the player who just moved is the one who made it |
| `SearchedGames.ConnectFourDescentInStep` | mcts/connect_four.hpp:274-282 | wherever a descent goes on from the new position, `move_hash` gives the same position as `move_hash_winner` |
| `SearchedGames.ConnectFourIsSound` | mcts/connect_four.hpp:248-314 | so do those of Connect Four |
| `SearchedGames.ConnectFourRecordsMover` | mcts/connect_four.hpp:248-263 | so it is in Connect Four, and the new disc is of that player's colour |
| `SearchedGames.OskaMatch` | mcts/main.cpp:62-70 | two searches playing Oska play a game by the rules that ends with a result within 2S(2S-4) plies, each move the result of a full search |
| `SearchedGames.ConnectFourMatch` | mcts/main.cpp:62-70 | two searches playing Connect Four move by the rules, each move the result of a full search, and end with the exact result within as many moves as cells |
| `TurnGames.NimValue` | mcts/python.py:58-64 | the player to move wins iff the chips are no multiple of four, and then by taking the remainder |
| `TurnGames.NimIsFair` | mcts/python.py:76-96 | in Nim players alternate, plays end and the two results sum to one |
| `TurnGames.NimForced` | mcts/python.py:58-96 | the player to move can force a result of one for itself iff it wins, and the other player iff it does not |
| `UctTree.GrowBalances` | mcts/python.py:289-296 | a new child leaves every balance intact, with its own first visit due |
| `UctTree.UpdateMovesUp` | mcts/python.py:352-355 | entering a result at a node makes the opposite result due at its parent and balances everything else |
| `UctTree.NothingLeft` | mcts/python.py:338-343 | a node has neither untried moves nor children iff its game is finished |
| `UctLog.EnterVisit` | mcts/python.py:352-355 | entering a visit at a node leaves it due at exactly the nodes above it |
| `UctLog.GrowAccounted` | mcts/python.py:289-296 | a new node has been in no iteration, and the counts of all others stay those of the iterations through them |
| `UctLog.BirthIsFirst` | mcts/python.py:343-346 | the iteration that made a node, and no other, is the first one through it |
| `UctSearch.SortedLast` | mcts/python.py:281-287 | the end of the sorted list is the last of the greatest entries |
| `UctSearch.PlayOut` | mcts/python.py:348-350 | a play-out terminates at a finished game that legal moves reach from its start |
| `UctSearch.Search.SelectChild` | mcts/python.py:281-287 | the last child of highest score, and every scored child has been visited |
| `UctSearch.Search.Select` | mcts/python.py:338-340 | from the root down, each time to the last child of highest score, through nodes without untried moves, to a node with untried moves or of a finished game |
| `UctSearch.Search.AddChild` | mcts/python.py:289-296 | the new node, the shorter list of untried moves and the longer list of children |
| `UctSearch.Search.Backpropagate` | mcts/python.py:352-355 | the result is entered at the start node and all nodes above it, for the player who moved there; everything is balanced again and accounted for by the iterations made; the start node and the root have one visit more |
| `UctSearch.Search.Iterate` | mcts/python.py:333-355 | is an iteration by `UctRun.IsIteration`: selection by score, at most one new child for an untried move of the node selected, a play-out from there, its result entered upwards; keeps every balance and adds one entry to the record; a node that it makes has one visit and the result of its own play-out as wins |
| `UctSearch.Run` | mcts/python.py:326-361 | a run of exactly that many iterations from the bare root to the tree returned; the visits and wins of every node are those of the iterations through it; every unfinished node has one visit more than its children (the root as many); if results sum to one, wins plus children's wins equal the children's visits plus the result of the node's first play-out, a game reached from its state (no such term at the root); the move is that of the last of the children with the most visits |
| `OthelloRules.DirectionsComplete` | mcts/python.py:208-215 | the list holds all eight directions once |
| `OthelloRules.RaysAreDisjoint` | mcts/python.py:225-231 | a square determines direction and distance, so runs in different directions are disjoint |
| `OthelloRules.SandwichedExact` | mcts/python.py:233-246 | there is a bracketed run of a length iff the program returns the squares of that run |
| `OthelloRules.AllSandwichedExact` | mcts/python.py:208-231 | the prefilter loses nothing: the squares found are those bracketed in any of the eight directions |
| `OthelloRules.AllSandwichedOnce` | mcts/python.py:225-231 | no square is listed twice, and all hold enemy counters |
| `OthelloRules.MoveExact` | mcts/python.py:183-193 | a move fills its square, flips exactly the bracketed counters and changes nothing else |
| `OthelloRules.MoveCounts` | mcts/python.py:183-193 | one square less is empty, and the flipped counters change hands |
| `OthelloRules.LegalExact` | mcts/python.py:195-223 | a move is legal iff its square is empty and it flips something |
| `OthelloRules.Moves` | mcts/python.py:195-198 | exactly the legal moves, each once |
| `OthelloRules.MovesAscend` | mcts/python.py:195-198 | the moves are listed row by row and from column to column |
| `OthelloRules.OthelloIsFair` | mcts/python.py:183-258 | in Othello players alternate, plays end and the two results sum to one |
| `OthelloRules.ResultExact` | mcts/python.py:251-258 | one iff the player has more counters, zero iff fewer, a half iff as many |
| `OthelloRules.PlaysAreShort` | mcts/python.py:183-198 | no play has more moves than the board has squares |
| `OthelloState.State.constructor` | mcts/python.py:164-172 | two counters of each player crosswise in the middle of an empty board |
| `OthelloState.State.SandwichedCounters` | mcts/python.py:233-246 | the loop returns the bracketed run of its direction |
| `OthelloState.State.GetAllSandwichedCounters` | mcts/python.py:225-231 | the loop returns the runs of all prefiltered directions |
| `OthelloState.State.ExistsSandwichedCounter` | mcts/python.py:217-223 | true iff some counter would be flipped |
| `OthelloState.State.GetMoves` | mcts/python.py:195-198 | the list of legal moves in row order |
| `OthelloState.State.DoMove` | mcts/python.py:183-193 | the object holds the position after the move |
| `SplitMix.FastExp` | mcts/splitmix.hpp:44-56 | repeated squaring computes the power modulo 2^64 |
| `SplitMix.ModularInverse` | mcts/splitmix.hpp:58-62 | for every odd word the result times the word is one modulo 2^64 |
| `SplitMix.InverseUnique` | mcts/splitmix.hpp:58-62 | the inverse is unique |
| `SplitMix.MixBijective` | mcts/splitmix.hpp:119-126 | `mix64` is a bijection on 64-bit words |
| `SplitMix.Mix64Stages` | mcts/splitmix.hpp:119-126 | the result comes by shifting in, multiplying, shifting in, multiplying and shifting in again, each shift stated bit by bit |
| `SplitMix.SeedAtJumps` | mcts/splitmix.hpp:128-163 | n single steps are one jump by n |
| `SplitMix.DistanceRecovers` | mcts/splitmix.hpp:173-175 | the distance after n steps is n modulo 2^64 |
| `SplitMix.DistanceLeads` | mcts/splitmix.hpp:173-175 | advancing by the distance leads from one seed to the other |
| `SplitMix.FullPeriod` | mcts/splitmix.hpp:119-148 | among 2^64 consecutive outputs every 64-bit value occurs exactly once |
| `SplitMix.SplitMix64Period` | mcts/splitmix.hpp:214-218 | this holds for the constants of `splitmix64` |
| `SplitMix.PopCount` | mcts/splitmix.hpp:69-77 | the bit-clearing loop counts the one-bits |
| `SplitMix.FlipTransitions` | mcts/splitmix.hpp:108-117 | flipping every second bit turns n bit transitions into 64-n |
| `SplitMix.MixGamma` | mcts/splitmix.hpp:108-117 | the result is odd and has at least 24 bit transitions |
| `SplitMix.OddMixStages` | mcts/splitmix.hpp:108-115 | the word whose transitions are counted comes by the same kind of stages with the lowest bit set |
| `SplitMix.GammaExact` | mcts/splitmix.hpp:115-117 | a word with 24 transitions or more is kept as it is, and only others have every second bit flipped |
| `SplitMix.Generator.Next` | mcts/splitmix.hpp:146-148 | the first output of the stream; the seed moves one step on |
| `SplitMix.Generator.Generate` | mcts/splitmix.hpp:150-155 | n outputs of the stream in order; the seed moves n steps on |
| `SplitMix.Generator.Advance` | mcts/splitmix.hpp:161-163 | the seed moves delta steps on |
| `SplitMix.Generator.Backstep` | mcts/splitmix.hpp:165-167 | undoes `advance` and is undone by it |
| `SplitMix.Generator.Minus` | mcts/splitmix.hpp:173-175 | the number of steps that lead from one generator to the other |
| `SplitMix.Generator.Split` | mcts/splitmix.hpp:177-181 | a second generator with an odd gamma of at least 24 transitions; this one is two steps on |
| `PoolLayout.PadAligns` | mcts/pool_allocator.inl:36-43 | padding reaches the next multiple of a power of two although the subtraction wraps at 2^64 |
| `PoolLayout.BlockSize` | mcts/pool_allocator.inl:284-298 | the least number of whole pages, at least one, that holds the link, the least number of chunks and the alignment |
| `PoolLayout.ChunkInBlock` | mcts/pool_allocator.inl:196-210 | the chunk of a block is aligned and lies inside the block behind the link |
| `PoolLayout.OneChunkPerBlock` | mcts/pool_allocator.inl:205-236 | a block serves one chunk |
| `PoolAllocator.ChunksAreSafe` | mcts/pool_allocator.inl:196-250 | live chunks are aligned, inside a block and disjoint from each other and from free chunks; the free list has no repeats |
| `PoolLayout.LinksFit` | mcts/pool_allocator.inl:239-250 | a chunk is aligned for the link of the free list, too |
| `PoolAllocator.ListsUndisturbed` | mcts/pool_allocator.inl:239-250 | writing into a live chunk disturbs neither the block list nor the free list |
| `PoolAllocator.Pool.Allocate` | mcts/pool_allocator.inl:215-236 | a chunk that was not live, the latest freed one if any; blocks equal the peak of live chunks |
| `PoolAllocator.Pool.AllocateBlock` | mcts/pool_allocator.inl:196-210 | the new block heads the block list, and its slot is exhausted after one chunk |
| `PoolAllocator.Pool.Deallocate` | mcts/pool_allocator.inl:241-250 | the chunk leaves the live ones for the head of the free list; null is ignored |
| `PoolAllocator.Pool.WriteInto` | mcts/pool_allocator.inl:239-250 | the owner of a live chunk may write anything into it without harm |
| `PoolAllocator.Pool.MemorySize` | mcts/pool_allocator.inl:313-328 | the block size times the peak number of live chunks |
| `MultiArray.MatrixBijective` | mcts/multi_array.hpp:125-143 | `Matrix::at` stays inside the storage, and no two places share a cell |
| `MultiArray.CubeBijective` | mcts/multi_array.hpp:224-240 | the same for `Cube::at` |
| `MultiArray.VectorReversed` | mcts/multi_array.hpp:50-76 | `Vector::at_r` is `at` of the flipped index |
| `MultiArray.MatrixReversed` | mcts/multi_array.hpp:125-179 | `Matrix::at_r` is `at` of the point reflection |
| `MultiArray.CubeReversed` | mcts/multi_array.hpp:224-258 | `Cube::at_r` is `at` of the point reflection |
| `MoveList.MoveArray.Clear` | mcts/moves.hpp:52-54 | the list is empty |
| `MoveList.MoveArray.PushBack` | mcts/moves.hpp:78-81 | the list gains the move at its end |
| `MoveList.MoveArray.Find` | mcts/moves.hpp:92-99 | true iff the list holds the move |
| `MoveList.MoveArray.Random` | mcts/moves.hpp:88-90 | some move of the list |
| `MoveList.MoveArray.Draw` | mcts/moves.hpp:101-112 | some move, and exactly one copy of it leaves the list |
| `MoveList.MoveArray.Remove` | mcts/moves.hpp:119-135 | exactly one copy of the move leaves the list, or nothing changes if it is not there; on an empty list, where the unused first place happens to hold the move, nothing changes |

## Left out

- Floating point: the values of the UCT formula, float scores and their rounding; selection uses an arbitrary score function.
- Randomness as a distribution: choices are arbitrary, and nothing is said about probabilities.
- Display, mouse input, hexagon geometry, screen sizes, timers, printing, saving and loading.
- `humanMove`, whose validator ignores the direction of play, and `os::OskaState`, which is compiled out.
- `ConnectFour::initialize`, which does not clear the board, and the second-time path of Oska's `initialize`, which does not reset the hash; runs start from a fresh state.
- Fixed capacities and narrow integers of Oska (`static_vector`, one-byte coordinates); the model takes every S >= 4, the code has room for S up to 8.
- The walks of Connect Four's winner check are written out seven times in the source; the model has one `Ray` for them.
- `reset` and `merge`: they lie outside the run order of `mcts/main.cpp`.
- MctsSearch.Mcts.ConnectStatesPath: does not promise the invariant for an unknown position, since it fails there; `SearchTree.MissingNodeBreaksPartition` says why, and `mcts/main.cpp` never takes that branch.
- The result of play-outs from a finished leaf that was reached by `move_hash`, which leaves the recorded result stale; only counts and bounds are stated there.
- `selectChildRandom`, `getVisits`, `getUCTFromArcs`: unused, or written for an older tree.
- Lock-holding iterators and `QueingArcIt_`, which depend on try-lock outcomes of a lock class that is not part of this model; locks are atomic here, and arena growth is one step.
- Freeing, moving and copying of pools, and failing calls to the operating system; a block is a fresh aligned region.
- Wrap-around of pointers behind the last slot of a block, and of sizes in `block_size`.
- MoveList.MoveArray.Remove: excludes the one case in which the original reads before the array, an empty list whose unused first place does not hold the move.
- MoveList.MoveArray.PushBack: requires room in the array, which the original only asserts.
- `HyperCube`, which has no reversed access, the element types and the storage of the arrays.
- The 32-bit generator and the compiler built-in for counting bits.
- The `Path` class of the digraph beyond push, back and resize, which the search models as a list.
- OXO, tic-tac-toe and version 1.1 of the digraph.
- Node objects of the Python search are entries of an arena and name each other by index; garbage and object identity are not modelled.
- Othello on a board of size zero, where the original fails while setting up.
