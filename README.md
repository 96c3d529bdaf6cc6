# Tic-tac-toe and a logical Minesweeper player, in Dafny

This project models two small game programs and proves what they promise.

**Tic-tac-toe** (`tictactoe.dfy`, module `TicTacToe`) covers the rules on a 3x3 board of `X`, `O` and empty squares, plus a minimax player:
- whose turn it is, the legal moves, and the board after a move;
- who has won, when the game is over, and what a finished game is worth;
- the mutually recursive `max_value`/`min_value` search and `minimax`.

Boards are immutable values, so the copy `result` makes is implicit. `actions`, `max_value` and `min_value` loop in the source, so they are methods. Each is proved against a specification function:
- `EmptyCells` for the legal moves;
- the ghost `MaxScore`/`MinScore` for the game value.

**Minesweeper** covers the ground-truth board, the sentences of the AI and the AI itself. The logic sits in two modules: `knowledge.dfy` (module `Knowledge`) and `minesweeper.dfy` (module `Minesweeper`).
- The board (`Minesweeper.Minesweeper`) counts the mines around a cell and decides whether the game is won.
- A sentence (`Minesweeper.Sentence`) says that `count` of a set of cells are mines. It is a class because marking a cell changes it in place.
- The AI (`Minesweeper.MinesweeperAI`) keeps the moves made, the known mines, the known safe cells and a list of sentence objects. It marks cells everywhere, picks its next move, and learns from the count the board reports.

**Reading the Minesweeper model.** The value side lives in module `Knowledge`:
- a sentence's contents are a `Fact`;
- the AI's knowledge base is a `Beliefs` value;
- a mine layout makes a fact true or false (`Satisfied`).

The methods that mark cells, record a move, add a sentence, resolve or make one comparison state their new state as a function of their old state through `Current()`. The functions are `LearnMines`, `LearnSafes`, `Told`, `ResolveStep`/`Resolve` and `SubsetStep`. The whole subset pass (`SubsetPass`, `CompareRow`, `CompareAndKeep` and the end of `AddKnowledge`) is tied to the list it started from by the relation `SubsetPassOutcome` instead. The lemmas prove what these functions and the relation say:
- which cells a sentence alone settles, with both directions;
- idempotence of marking;
- soundness: every step keeps beliefs that a layout makes true, true of it;
- what the subset pass leaves behind.

The model follows the code, not a cleaner algorithm:
- `add_knowledge` runs one resolution pass and then one subset pass, with no loop to a fixpoint.
- Empty sentences are kept.
- The sentence about the neighbours is appended even when it names no cell.
- The subset pass walks the list as it grows, so sentences it appends are compared later in the same pass.
- The subset pass skips pairs of structurally equal sentences, not only a sentence paired with itself.
- Marking the cells a sentence shows safe or as mines iterates over a snapshot of the set. The sentence changes as its cells are marked, and the snapshot is why the source takes a copy.

`support.dfy` holds an `Option` type and a few generic lemmas about finite sets. The subset pass's termination measure uses the number of subsets of the board's cells.

## Model

| member | source | states |
|---|---|---|
| TicTacToe.InitialState | Week0/tictactoe/tictactoe.py:16-22 | every square of the starting board is empty, X is to move, nine moves are legal and the game is not over |
| TicTacToe.Player | Week0/tictactoe/tictactoe.py:25-32 | the player to move is never empty, and is O exactly when X has more marks than O |
| TicTacToe.TurnsAlternate | Week0/tictactoe/tictactoe.py:25-32 | on a board where X has as many marks as O or one more, a legal move keeps that so and hands the turn to the other player |
| TicTacToe.Actions | Week0/tictactoe/tictactoe.py:38-47 | the double scan returns exactly the set of (i, j) whose square is empty |
| TicTacToe.Result | Week0/tictactoe/tictactoe.py:52-61 | an error exactly when the move is not a legal action; otherwise the new board has the player to move at the square, equals the old board everywhere else, and has exactly that square fewer free |
| TicTacToe.Child | Week0/tictactoe/tictactoe.py:59-60 | a legal move leaves one empty square fewer |
| TicTacToe.CountUpdate | Week0/tictactoe/tictactoe.py:60 | writing one square changes each mark's count by the mark removed and the mark written |
| TicTacToe.RowWinner | Week0/tictactoe/tictactoe.py:71-73 | a non-empty answer is the mark of a full row; an empty answer means no row is full of one mark |
| TicTacToe.ColumnWinner | Week0/tictactoe/tictactoe.py:75-77 | a non-empty answer is the mark of a full column; an empty answer means no column is full of one mark |
| TicTacToe.Winner | Week0/tictactoe/tictactoe.py:66-85 | a returned mark holds a full row, column or diagonal; none is returned exactly when neither X nor O holds one |
| TicTacToe.Terminal | Week0/tictactoe/tictactoe.py:88-95 | the game is over exactly when X or O has a full line or no square is free |
| TicTacToe.Utility | Week0/tictactoe/tictactoe.py:98-108 | the value is in {-1, 0, 1}: 1 only if X has a line, -1 only if O has one, 0 exactly when neither has |
| TicTacToe.AllSquaresFree | Week0/tictactoe/tictactoe.py:16-22 | on an unmarked board all nine squares are legal moves |
| TicTacToe.EmptyBoardNotTerminal | Week0/tictactoe/tictactoe.py:88-95 | an unmarked board is not a finished game |
| TicTacToe.MaxScore | Week0/tictactoe/tictactoe.py:110-122 | the game value with X to choose lies in [-1, 1] |
| TicTacToe.MinScore | Week0/tictactoe/tictactoe.py:124-136 | the game value with O to choose lies in [-1, 1] |
| TicTacToe.BestForX | Week0/tictactoe/tictactoe.py:115-121 | the best child value found so far stays between the -2 start value and 1 |
| TicTacToe.BestForO | Week0/tictactoe/tictactoe.py:129-135 | the best child value found so far stays between -1 and the 2 start value |
| TicTacToe.BestForXIsUpperBound | Week0/tictactoe/tictactoe.py:116-120 | no remaining legal move scores above the running maximum |
| TicTacToe.BestForOIsLowerBound | Week0/tictactoe/tictactoe.py:130-134 | no remaining legal move scores below the running minimum |
| TicTacToe.BestForXIsAttained | Week0/tictactoe/tictactoe.py:116-120 | the running maximum is the score of some remaining legal move, unless there is none |
| TicTacToe.BestForOIsAttained | Week0/tictactoe/tictactoe.py:130-134 | the running minimum is the score of some remaining legal move, unless there is none |
| TicTacToe.BestForXFindsMove | Week0/tictactoe/tictactoe.py:111-122 | on an unfinished board the -2 start value is always replaced |
| TicTacToe.BestForOFindsMove | Week0/tictactoe/tictactoe.py:125-136 | on an unfinished board the 2 start value is always replaced |
| TicTacToe.MaxScoreIsBest | Week0/tictactoe/tictactoe.py:116-122 | a move no other move beats has the board's game value for X |
| TicTacToe.MinScoreIsBest | Week0/tictactoe/tictactoe.py:130-136 | a move no other move undercuts has the board's game value for O |
| TicTacToe.MaxValue | Week0/tictactoe/tictactoe.py:110-122 | returns the game value for X; no action exactly on a finished board; otherwise a legal action whose child value is that value and no legal action's child value exceeds it |
| TicTacToe.MinValue | Week0/tictactoe/tictactoe.py:124-136 | returns the game value for O; no action exactly on a finished board; otherwise a legal action whose child value is that value and none is below it |
| TicTacToe.Minimax | Week0/tictactoe/tictactoe.py:138-146 | none exactly on a finished board; otherwise a legal move that is optimal for the player to move: maximising the child's value for X, minimising it for O |
| Knowledge.MinesOfSound | Week1/minesweeper/minesweeper.py:104-112 | the cells a true sentence reports as mines are mines of the layout |
| Knowledge.MinesOfExact | Week1/minesweeper/minesweeper.py:104-112 | for a sentence some layout can make true, a cell is reported as a mine exactly when every layout making it true has a mine there |
| Knowledge.SafesOfSound | Week1/minesweeper/minesweeper.py:114-121 | the cells a true sentence reports as safe hold no mine of the layout |
| Knowledge.SafesOfExact | Week1/minesweeper/minesweeper.py:114-121 | for a sentence some layout can make true, a cell is reported as safe exactly when no layout making it true has a mine there |
| Knowledge.MarkMinesSound | Week1/minesweeper/minesweeper.py:123-131 | removing true mines from a true sentence, one mine off the count each, keeps it true |
| Knowledge.MarkSafesSound | Week1/minesweeper/minesweeper.py:133-140 | removing safe cells from a true sentence, count unchanged, keeps it true |
| Knowledge.MarkMinesTwice | Week1/minesweeper/minesweeper.py:123-131 | marking mines in two rounds equals marking them all at once, so marking a cell twice changes nothing more |
| Knowledge.MarkSafesTwice | Week1/minesweeper/minesweeper.py:133-140 | marking safe cells in two rounds equals marking them all at once |
| Knowledge.DifferenceSound | Week1/minesweeper/minesweeper.py:265-267 | if the cells of one true sentence lie inside another's, the differences of cells and counts form a true sentence |
| Knowledge.MarkMines | Week1/minesweeper/minesweeper.py:169-170 | every sentence of the list, and only those, is marked, and the list keeps its length |
| Knowledge.MarkSafes | Week1/minesweeper/minesweeper.py:178-179 | every sentence of the list, and only those, is marked, and the list keeps its length |
| Knowledge.AppendSound | Week1/minesweeper/minesweeper.py:247 | appending a true sentence to true beliefs keeps them true |
| Knowledge.LearnMinesTwice | Week1/minesweeper/minesweeper.py:163-170 | learning mines in two rounds equals learning them all at once; in particular the second call with the same cell changes nothing |
| Knowledge.LearnSafesTwice | Week1/minesweeper/minesweeper.py:172-179 | learning safe cells in two rounds equals learning them all at once; the second call with the same cell changes nothing |
| Knowledge.LearnNothing | Week1/minesweeper/minesweeper.py:250-255 | a sentence reporting no mines or no safe cells changes nothing |
| Knowledge.LearnMinesSound | Week1/minesweeper/minesweeper.py:163-170 | marking true mines keeps true beliefs true |
| Knowledge.LearnSafesSound | Week1/minesweeper/minesweeper.py:172-179 | marking safe cells keeps true beliefs true |
| Knowledge.ResolveStep | Week1/minesweeper/minesweeper.py:250-255 | one step of the resolution pass never adds or removes a sentence |
| Knowledge.ResolveFromLearns | Week1/minesweeper/minesweeper.py:249-255 | the resolution pass only adds to the known mines and the known safe cells |
| Knowledge.ResolveStepSettles | Week1/minesweeper/minesweeper.py:250-255 | after its visit a sentence reports no safe cell and no mine: marking what it showed leaves it with nothing more to conclude |
| Knowledge.ResolveStepSound | Week1/minesweeper/minesweeper.py:250-255 | every cell a step marks is really a mine or really safe, so true beliefs stay true |
| Knowledge.HandledAppend | Week1/minesweeper/minesweeper.py:272-273 | a pair whose conclusion is in the list stays so when the list grows |
| Knowledge.CellSetsAppend | Week1/minesweeper/minesweeper.py:270-273 | among true sentences, a new sentence brings a cell set no sentence had, since true sentences about the same cells agree on the count |
| Knowledge.SubsetStepSound | Week1/minesweeper/minesweeper.py:259-273 | one comparison of the subset pass keeps every sentence true |
| Knowledge.SubsetStepNewCells | Week1/minesweeper/minesweeper.py:270-273 | one comparison adds a new cell set exactly when it adds a sentence (the termination argument of the pass) |
| Knowledge.SubsetStepExtends | Week1/minesweeper/minesweeper.py:259-273 | one comparison removes nothing and only appends a sentence that is new and is the difference of two different sentences, the smaller's cells inside the larger's, with cells and a count of at least zero |
| Knowledge.SubsetStepHandles | Week1/minesweeper/minesweeper.py:259-273 | one comparison settles the pair it compares and keeps the pairs already settled, those of earlier rows with a larger sentence from the start of the pass or no later than the smaller one included |
| Knowledge.RowDone | Week1/minesweeper/minesweeper.py:260-273 | once a sentence has been compared with the whole list, which still holds every sentence the pass started with, its pairs with each of those and with every sentence up to itself are settled |
| Knowledge.SubsetPassExample | Week1/minesweeper/minesweeper.py:259-273 | from one mine among (0,0), (0,1) and one among (0,0), (0,1), (0,2), every outcome of the pass holds that (0,2) has no mine |
| Knowledge.SubsetPassHandles | Week1/minesweeper/minesweeper.py:259-273 | after a pass, every pair whose larger sentence was in the list from the start, or comes no later than its smaller one, has its conclusion in the list |
| Knowledge.SubsetPassRowsExample | Week1/minesweeper/minesweeper.py:259-273 | from one mine among (0,0), (0,1), one among (0,2), (0,3) and two among (0,0) to (0,4), every outcome with the first row's conclusion "one mine among (0,2), (0,3), (0,4)" at position 3 also holds that (0,4) has no mine: the second row still meets the sentence the first row appended |
| Knowledge.SubsetStepGrewInRow | Week1/minesweeper/minesweeper.py:265-273 | one comparison of a row keeps the front of the list and appends, if anything, a conclusion of the row's own sentence with an earlier one |
| Knowledge.RowsDoneNext | Week1/minesweeper/minesweeper.py:259-273 | once the next row has compared its sentence with the whole list and appended only its own conclusions, it is done too, ending at the list's length, and the rows before it keep their ends, their settled pairs and the sentences they appended |
| Knowledge.CellSetsBounded | Week1/minesweeper/minesweeper.py:259-273 | sentences about board cells name no more cell sets than the board has subsets |
| Minesweeper.RowCells | Week1/minesweeper/minesweeper.py:301 | the cells of one board row, from a column on |
| Minesweeper.BoardCells | Week1/minesweeper/minesweeper.py:301 | exactly the cells of the board from a row on |
| Minesweeper.ToldNeighbours | Week1/minesweeper/minesweeper.py:235-247 | the appended sentence names exactly the neighbours of the cell that are neither known safe nor known mines, not the cell itself, and its count is the reported count minus the known mines among the not-safe neighbours |
| Minesweeper.UnknownCountTrue | Week1/minesweeper/minesweeper.py:236-245 | taking known mines out of a set of cells and lowering the count by them keeps the count true |
| Minesweeper.ToldSound | Week1/minesweeper/minesweeper.py:231-247 | when the reported count is the true number of mines around a safe cell, recording it keeps true beliefs true |
| Minesweeper.Minesweeper.constructor | Week1/minesweeper/minesweeper.py:10-34 | the board has the given shape, is true exactly on the given mines, and no mine is flagged |
| Minesweeper.Minesweeper.NearbyMines | Week1/minesweeper/minesweeper.py:55-78 | the count is the number of mines among the board cells next to the cell, the cell excluded |
| Minesweeper.Minesweeper.NearbyMinesInRow | Week1/minesweeper/minesweeper.py:67-76 | the inner loop counts the mines next to the cell in one row |
| Minesweeper.Minesweeper.Won | Week1/minesweeper/minesweeper.py:80-84 | won exactly when every flagged cell is a mine on the board and every mine on the board is flagged |
| Minesweeper.Sentence.constructor | Week1/minesweeper/minesweeper.py:94-96 | the new sentence says that `count` of `cells` are mines |
| Minesweeper.Sentence.Equals | Week1/minesweeper/minesweeper.py:98-99 | two sentences are equal exactly when their cells and counts are, whatever objects they are |
| Minesweeper.Sentence.KnownMines | Week1/minesweeper/minesweeper.py:104-112 | the result is all the cells when there are as many as the count and none otherwise; they are mines in every layout the sentence is true of, and on a sentence some layout makes true a cell is reported exactly when every such layout has a mine there |
| Minesweeper.Sentence.KnownSafes | Week1/minesweeper/minesweeper.py:114-121 | the result is all the cells when the count is zero and none otherwise; they hold no mine in any layout the sentence is true of, and on a sentence some layout makes true a cell is reported exactly when no such layout has a mine there |
| Minesweeper.Sentence.MarkMine | Week1/minesweeper/minesweeper.py:123-131 | a cell of the sentence leaves it and takes one off the count; any other cell changes nothing |
| Minesweeper.Sentence.MarkSafe | Week1/minesweeper/minesweeper.py:133-140 | a cell of the sentence leaves it, the count stays; any other cell changes nothing |
| Minesweeper.MinesweeperAI.constructor | Week1/minesweeper/minesweeper.py:147-161 | the given sizes (8 by 8 by default), no move made, nothing known, no sentence |
| Minesweeper.MinesweeperAI.MarkMine | Week1/minesweeper/minesweeper.py:163-170 | the cell joins the mines and is marked in every sentence; no sentence then names it, the list is the same list of objects, and the invariant is kept |
| Minesweeper.MinesweeperAI.MarkMineEverywhere | Week1/minesweeper/minesweeper.py:169-170 | every sentence of the list is marked in place |
| Minesweeper.MinesweeperAI.MarkMineAt | Week1/minesweeper/minesweeper.py:170 | one sentence is marked and the others are left alone |
| Minesweeper.MinesweeperAI.MarkSafe | Week1/minesweeper/minesweeper.py:172-179 | the cell joins the safe cells and is marked in every sentence; no sentence then names it, the list is the same list of objects, and the invariant is kept |
| Minesweeper.MinesweeperAI.MarkSafeEverywhere | Week1/minesweeper/minesweeper.py:178-179 | every sentence of the list is marked in place |
| Minesweeper.MinesweeperAI.MarkSafeAt | Week1/minesweeper/minesweeper.py:179 | one sentence is marked and the others are left alone |
| Minesweeper.MinesweeperAI.MakeSafeMove | Week1/minesweeper/minesweeper.py:278-292 | a returned cell is known safe, not played and not a known mine; none exactly when every known safe cell is played or a known mine; nothing changes |
| Minesweeper.MinesweeperAI.Candidates | Week1/minesweeper/minesweeper.py:301 | exactly the board cells not played and not known mines |
| Minesweeper.MinesweeperAI.Unplayed | Week1/minesweeper/minesweeper.py:301 | exactly the given cells not played and not known mines |
| Minesweeper.MinesweeperAI.MakeRandomMove | Week1/minesweeper/minesweeper.py:294-307 | a returned cell is on the board, not played and not a known mine; none exactly when every board cell is played or a known mine |
| Minesweeper.MinesweeperAI.Surroundings | Week1/minesweeper/minesweeper.py:235-244 | the scan collects exactly the board cells around the cell that are neither known safe nor known mines, and subtracts one per known mine among those not known safe |
| Minesweeper.MinesweeperAI.MarkAllSafe | Week1/minesweeper/minesweeper.py:251-252 | marking a snapshot of cells one by one, in any order, learns them all as safe |
| Minesweeper.MinesweeperAI.MarkAllMines | Week1/minesweeper/minesweeper.py:254-255 | marking a snapshot of cells one by one, in any order, learns them all as mines |
| Minesweeper.MinesweeperAI.ResolvePass | Week1/minesweeper/minesweeper.py:249-255 | the new beliefs are the single resolution pass over the old ones, the known mines and safe cells only grow, and true beliefs stay true |
| Minesweeper.MinesweeperAI.ResolveWith | Week1/minesweeper/minesweeper.py:250-255 | one visit marks the sentence's safe cells, then the mines it shows after that, and keeps true beliefs true |
| Minesweeper.MinesweeperAI.SubsetPass | Week1/minesweeper/minesweeper.py:259-273 | the pass ends; no sentence is removed or changed; every appended sentence was new and is the difference of two different sentences, the smaller's cells inside the larger's, with cells and a count of at least zero; there are row ends, one for each sentence of the final list, that never decrease, each past its own sentence and past the sentences the pass began with: the pairs of each sentence with every sentence before its row's end have their conclusion in the list, and the sentences appended while a row ran are conclusions of that row's sentence with an earlier one; true beliefs stay true |
| Minesweeper.MinesweeperAI.CompareRow | Week1/minesweeper/minesweeper.py:260-273 | one sentence compared with the list as it grows: afterwards its pairs with every sentence of the list are settled, the list has grown only at its end and only by conclusions of this sentence, the tracked pairs of earlier rows stay settled, and the pass's invariants are kept |
| Minesweeper.MinesweeperAI.CompareStep | Week1/minesweeper/minesweeper.py:261-273 | one comparison appends the difference exactly under the source's conditions (different, subset, cells left, count at least zero, not already present) and changes nothing else |
| Minesweeper.MinesweeperAI.CompareAndKeep | Week1/minesweeper/minesweeper.py:261-273 | one comparison keeps the list true, extended only by derived sentences, the settled pairs settled, and everything appended since the row began a conclusion of the row's sentence |
| Minesweeper.MinesweeperAI.AddSentence | Week1/minesweeper/minesweeper.py:245-247 | a fresh sentence object is appended with the given cells and count; nothing else changes |
| Minesweeper.MinesweeperAI.Observe | Week1/minesweeper/minesweeper.py:231-247 | the move is recorded, the cell is safe, and the beliefs are the old ones told the cell is safe plus the sentence about its unknown neighbours |
| Minesweeper.MinesweeperAI.Played | Week1/minesweeper/minesweeper.py:231-233 | the cell joins the moves made and is marked safe everywhere |
| Minesweeper.MinesweeperAI.AddAround | Week1/minesweeper/minesweeper.py:235-247 | the sentence about the unknown cells around the cell, with its count lowered by the known mines, is appended |
| Minesweeper.MinesweeperAI.AddKnowledge | Week1/minesweeper/minesweeper.py:181-273 | the cell joins the moves made and the safe cells; the known mines and safe cells are those of one resolution pass over the beliefs after the new sentence; the sentences are the outcome of one subset pass over that; when the count is true, true beliefs stay true |

## Left out

- Tic-tac-toe sentinels: `max_value`/`min_value` start from minus and plus infinity. The model uses -2 and 2, since every utility lies in [-1, 1].
- Tic-tac-toe board copy: `copy.deepcopy` is not modelled. Boards are values, so the input board can never be changed.
- TicTacToe.MaxValue: the source iterates over a set in hash order and keeps the first action that reaches the best value. The model picks an arbitrary remaining action, and the contract holds for every order. It does not state which of several equally good actions is returned, because that depends on the hash order.
- TicTacToe.MinValue: the same as MaxValue; which of several equally good actions is returned is not stated.
- TicTacToe.Minimax: it returns the action MaxValue or MinValue returns, so it does not state which of several optimal moves comes back either.
- Minesweeper.Minesweeper.constructor: random mine placement (`random.randrange`) is not modelled. The mines are a parameter, so the source's mine-count argument, and its default of 8, is replaced by the set of mines. That set comes first, since it has no default; the sizes keep their default of 8.
- Board output and the game runner are not modelled: `Minesweeper.print` is console output, and the runner is not part of this model.
- `is_mine` (a lookup of one square of the board) is not modelled; `NearbyMines` reads the board directly.
- Minesweeper.MinesweeperAI.MakeRandomMove: the shuffle is replaced by the parameter `pick`, which chooses a candidate. No probability is modelled.
- Minesweeper.MinesweeperAI.MakeSafeMove: the source iterates over a set in hash order. The model picks an arbitrary remaining cell.
- Minesweeper.MinesweeperAI.AddKnowledge requires that the cell is on the board and is not a mine. It also requires that `count` is the true number of mines around the cell in a ghost layout that the current beliefs are true of. The source does not check this. A lying caller can make the subset pass run forever: a sentence with no cells and count -1 keeps deriving new sentences about the same cells. So termination is proved only for truthful callers.
- SubsetPass and AddKnowledge: the new list is tied to the old one by the relation SubsetPassOutcome, not by a function. The row ends are only said to exist, and the order in which one row appends its conclusions is not stated.
- Minesweeper.MinesweeperAI.ResolvePass and ResolveWith state soundness only as an implication: true beliefs stay true. The source asserts nothing about the hidden layout.
- Minesweeper.MinesweeperAI: `Valid` does not include that the moves made are safe cells. `mines_found` belongs to the board and is never updated by the AI.
