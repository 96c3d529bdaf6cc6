/**
 * The Minesweeper game and its logical AI player: the board that counts mines around a cell,
 * the sentences the AI keeps about the board, and the AI that records moves, marks cells,
 * draws conclusions and picks its next move.
 */
module Minesweeper {

  import opened Options
  import opened FiniteSets
  import opened Knowledge

  /** The cell lies on a board of `height` rows and `width` columns. */
  predicate OnBoard(c: Cell, height: int, width: int)
  {
    0 <= c.0 < height && 0 <= c.1 < width
  }

  /** The board cells within one row and one column of `c`, `c` included. */
  function Around(c: Cell, height: int, width: int): set<Cell>
  {
    set r, k | c.0 - 1 <= r <= c.0 + 1 && c.1 - 1 <= k <= c.1 + 1 && 0 <= r < height && 0 <= k < width :: (r, k)
  }

  /** The board cells within one row and one column of `c`, not counting `c` itself. */
  function Neighbours(c: Cell, height: int, width: int): set<Cell>
  {
    Around(c, height, width) - {c}
  }

  /** The cells of row `i` from column `j` on, left to right. */
  function RowCells(i: int, j: int, width: int): (r: seq<Cell>)
    ensures forall x :: x in r <==> x.0 == i && j <= x.1 < width
    decreases width - j
  {
    if j >= width then [] else [(i, j)] + RowCells(i, j + 1, width)
  }

  /** The cells of rows `i`, `i + 1`, ... of the board, row by row. */
  function BoardCells(i: int, height: int, width: int): (r: seq<Cell>)
    ensures forall x :: x in r <==> i <= x.0 < height && 0 <= x.1 < width
    decreases height - i
  {
    if i >= height then [] else RowCells(i, 0, width) + BoardCells(i + 1, height, width)
  }

  /**
   * The beliefs after the first steps of `add_knowledge`: `cell` is known to be safe, and a sentence is appended
   * about the board cells around it that are still unknown, its count lowered by the known mines among them.
   */
  function Told(k: Beliefs, cell: Cell, count: int, height: int, width: int): Beliefs
  {
    WithAround(LearnSafes(k, {cell}), cell, count, height, width)
  }

  /** `k` with a sentence appended about the cells around `cell` that it does not know yet, its count lowered by the known mines among them. */
  function WithAround(k: Beliefs, cell: Cell, count: int, height: int, width: int): Beliefs
  {
    var around := Around(cell, height, width) - k.safes;
    Beliefs(k.mines, k.safes, k.facts + [Fact(around - k.mines, count - |around * k.mines|)])
  }

  /** The appended sentence is about the neighbours of `cell` that are neither known safe nor known mines; `cell` itself is left out. */
  lemma ToldNeighbours(k: Beliefs, cell: Cell, count: int, height: int, width: int)
    ensures var t := Told(k, cell, count, height, width);
      t.facts[|t.facts| - 1].cells == Neighbours(cell, height, width) - t.safes - t.mines && cell !in t.facts[|t.facts| - 1].cells &&
      t.facts[|t.facts| - 1].count == count - |(Neighbours(cell, height, width) - t.safes) * t.mines|
  {
    var t := Told(k, cell, count, height, width);
    assert Around(cell, height, width) - t.safes == Neighbours(cell, height, width) - t.safes;
  }

  /**
   * When the reported count is the true number of mines around a safe cell, the appended sentence is true,
   * so sound beliefs stay sound.
   */
  lemma ToldSound(k: Beliefs, cell: Cell, count: int, height: int, width: int, layout: set<Cell>)
    requires Sound(k, layout) && cell !in layout
    requires count == |Neighbours(cell, height, width) * layout|
    ensures Sound(Told(k, cell, count, height, width), layout)
  {
    var k1 := LearnSafes(k, {cell});
    LearnSafesSound(k, {cell}, layout);
    var around := Around(cell, height, width) - k1.safes;
    assert around * layout == Neighbours(cell, height, width) * layout;
    UnknownCountTrue(around, k1.mines, layout);
    AppendSound(k1, Fact(around - k1.mines, count - |around * k1.mines|), layout);
  }

  /** Taking the known mines out of a set of cells lowers the number of mines in it by the known mines among them. */
  lemma UnknownCountTrue(cells: set<Cell>, mines: set<Cell>, layout: set<Cell>)
    requires mines <= layout
    ensures Satisfied(Fact(cells - mines, |cells * layout| - |cells * mines|), layout)
  {
    assert cells * layout == (cells - mines) * layout + cells * mines;
    assert (cells - mines) * layout !! cells * mines;
  }

  /** The game board: where the mines are, and which mines the player has flagged. */
  class Minesweeper {
    const height: int
    const width: int
    var board: seq<seq<bool>>
    var mines: set<Cell>
    var minesFound: set<Cell>

    /** The board has the stated shape and holds `true` exactly on the mines, which all lie on it. */
    predicate Valid()
      reads this
    {
      0 <= height && 0 <= width &&
      |board| == height && (forall i | 0 <= i < height :: |board[i]| == width) &&
      (forall c | c in mines :: OnBoard(c, height, width)) &&
      (forall i, j | 0 <= i < height && 0 <= j < width :: board[i][j] <==> (i, j) in mines)
    }

    /** A board with the given mines and nothing flagged yet. */
    constructor (mines: set<Cell>, height: nat := 8, width: nat := 8)
      requires forall c | c in mines :: OnBoard(c, height, width)
      ensures Valid()
      ensures this.height == height && this.width == width && this.mines == mines && minesFound == {}
    {
      this.height := height;
      this.width := width;
      var rows: seq<seq<bool>> := [];
      for i := 0 to height
        invariant |rows| == i
        invariant forall r | 0 <= r < i :: |rows[r]| == width
        invariant forall r, k | 0 <= r < i && 0 <= k < width :: rows[r][k] <==> (r, k) in mines
      {
        var row: seq<bool> := [];
        for j := 0 to width
          invariant |row| == j
          invariant forall k | 0 <= k < j :: row[k] <==> (i, k) in mines
        {
          row := row + [(i, j) in mines];
        }
        rows := rows + [row];
      }
      this.board := rows;
      this.mines := mines;
      this.minesFound := {};
    }

    /** The number of mines next to `cell`, counted square by square around it. */
    method NearbyMines(cell: Cell) returns (count: nat)
      requires Valid()
      ensures count == |Neighbours(cell, height, width) * mines|
    {
      count := 0;
      ghost var seen: set<Cell> := {};
      for i := cell.0 - 1 to cell.0 + 2
        invariant count == |seen|
        invariant forall x :: x in seen <==> x in Neighbours(cell, height, width) && x in mines && x.0 < i
      {
        var inRow := NearbyMinesInRow(cell, i);
        ghost var row := NearbyInRow(cell, i);
        assert seen !! row;
        seen := seen + row;
        count := count + inRow;
      }
      assert seen == Neighbours(cell, height, width) * mines;
    }

    /** The mines next to `cell` that lie in row `i`. */
    ghost function NearbyInRow(cell: Cell, i: int): set<Cell>
      reads this
    {
      set x | x in Neighbours(cell, height, width) && x in mines && x.0 == i
    }

    /** The inner loop of `NearbyMines`: the number of mines next to `cell` in row `i`. */
    method NearbyMinesInRow(cell: Cell, i: int) returns (count: nat)
      requires Valid() && cell.0 - 1 <= i <= cell.0 + 1
      ensures count == |NearbyInRow(cell, i)|
    {
      count := 0;
      ghost var seen: set<Cell> := {};
      for j := cell.1 - 1 to cell.1 + 2
        invariant count == |seen|
        invariant forall x :: x in seen <==> x in Neighbours(cell, height, width) && x in mines && x.0 == i && x.1 < j
      {
        assert (i, j) in Neighbours(cell, height, width) <==> (i, j) != cell && 0 <= i < height && 0 <= j < width;
        if (i, j) == cell {
          continue;
        }
        if 0 <= i < height && 0 <= j < width {
          if board[i][j] {
            count := count + 1;
            seen := seen + {(i, j)};
          }
        }
      }
      assert seen == NearbyInRow(cell, i);
    }

    /** The player has won when the flagged cells are exactly the mines of the board. */
    predicate Won()
      requires Valid()
      reads this
      ensures Won() <==>
        (forall c | c in minesFound :: OnBoard(c, height, width) && board[c.0][c.1]) &&
        (forall i, j | 0 <= i < height && 0 <= j < width && board[i][j] :: (i, j) in minesFound)
    {
      minesFound == mines
    }
  }

  /** A sentence of the AI: `count` of the cells in `cells` are mines. Marking updates it in place. */
  class Sentence {
    var cells: set<Cell>
    var count: int

    constructor (cells: set<Cell>, count: int)
      ensures Value() == Fact(cells, count)
    {
      this.cells := cells;
      this.count := count;
    }

    /** What the sentence currently says. */
    function Value(): Fact
      reads this
    {
      Fact(cells, count)
    }

    /** Sentences are equal when they say the same thing, whichever objects they are. */
    predicate Equals(other: Sentence)
      reads this, other
      ensures Equals(other) <==> Value() == other.Value()
    {
      cells == other.cells && count == other.count
    }

    /**
     * The cells of the sentence it alone shows to be mines: all of them when every cell must be a mine, none otherwise.
     * Every layout it is true of has mines there, and on a sentence some layout can make true it misses no cell that
     * all such layouts have a mine on.
     */
    function KnownMines(): (r: set<Cell>)
      reads this
      ensures r == MinesOf(Value()) && r <= cells
      ensures forall layout | Satisfied(Value(), layout) :: r <= layout
      ensures Consistent(Value()) ==>
        forall c | c in cells :: c in r <==> forall layout | Satisfied(Value(), layout) :: c in layout
    {
      assert forall layout | Satisfied(Value(), layout) :: MinesOf(Value()) <= layout by {
        forall layout | Satisfied(Value(), layout)
          ensures MinesOf(Value()) <= layout
        {
          MinesOfSound(Value(), layout);
        }
      }
      assert Consistent(Value()) ==>
        forall c | c in cells :: c in MinesOf(Value()) <==> forall layout | Satisfied(Value(), layout) :: c in layout
      by {
        if Consistent(Value()) {
          forall c | c in cells
            ensures c in MinesOf(Value()) <==> forall layout | Satisfied(Value(), layout) :: c in layout
          {
            MinesOfExact(Value(), c);
          }
        }
      }
      MinesOf(Value())
    }

    /**
     * The cells of the sentence it alone shows to be safe: all of them when the count is zero, none otherwise.
     * No layout it is true of has a mine there, and on a sentence some layout can make true it misses no cell that
     * no such layout has a mine on.
     */
    function KnownSafes(): (r: set<Cell>)
      reads this
      ensures r == SafesOf(Value()) && r <= cells
      ensures forall layout | Satisfied(Value(), layout) :: r !! layout
      ensures Consistent(Value()) ==>
        forall c | c in cells :: c in r <==> forall layout | Satisfied(Value(), layout) :: c !in layout
    {
      assert forall layout | Satisfied(Value(), layout) :: SafesOf(Value()) !! layout by {
        forall layout | Satisfied(Value(), layout)
          ensures SafesOf(Value()) !! layout
        {
          SafesOfSound(Value(), layout);
        }
      }
      assert Consistent(Value()) ==>
        forall c | c in cells :: c in SafesOf(Value()) <==> forall layout | Satisfied(Value(), layout) :: c !in layout
      by {
        if Consistent(Value()) {
          forall c | c in cells
            ensures c in SafesOf(Value()) <==> forall layout | Satisfied(Value(), layout) :: c !in layout
          {
            SafesOfExact(Value(), c);
          }
        }
      }
      SafesOf(Value())
    }

    /** Learns that `c` is a mine: if the sentence mentions it, it drops the cell and one mine. */
    method MarkMine(c: Cell)
      modifies this
      ensures Value() == MarkMinesIn(old(Value()), {c})
    {
      if c in cells {
        assert cells * {c} == {c};
        count := count - 1;
        cells := cells - {c};
      } else {
        assert cells * {c} == {};
      }
    }

    /** Learns that `c` is safe: if the sentence mentions it, it drops the cell and keeps the count. */
    method MarkSafe(c: Cell)
      modifies this
      ensures Value() == MarkSafesIn(old(Value()), {c})
    {
      if c in cells {
        cells := cells - {c};
      }
    }
  }

  /** The AI player: the moves it made, the cells it knows to be mines or safe, and its list of sentences. */
  class MinesweeperAI {
    const height: int
    const width: int
    var movesMade: set<Cell>
    var mines: set<Cell>
    var safes: set<Cell>
    var knowledge: seq<Sentence>

    /** What the sentences currently say, in list order. */
    function Facts(): (r: seq<Fact>)
      reads this, knowledge
      ensures |r| == |knowledge|
      ensures forall i | 0 <= i < |knowledge| :: r[i] == knowledge[i].Value()
    {
      seq(|knowledge|, i reads this, knowledge requires 0 <= i < |knowledge| => knowledge[i].Value())
    }

    /** The AI's knowledge base as a value. */
    function Current(): Beliefs
      reads this, knowledge
    {
      Beliefs(mines, safes, Facts())
    }

    /** The sentences are distinct objects about cells of the board that are not yet known. */
    predicate Valid()
      reads this, knowledge
    {
      0 <= height && 0 <= width &&
      (forall i, j | 0 <= i < j < |knowledge| :: knowledge[i] != knowledge[j]) &&
      (forall i | 0 <= i < |knowledge| ::
        (forall c | c in knowledge[i].cells :: OnBoard(c, height, width)) &&
        knowledge[i].cells !! mines && knowledge[i].cells !! safes)
    }

    /** An AI that has made no move and knows nothing. */
    constructor (height: nat := 8, width: nat := 8)
      ensures Valid()
      ensures this.height == height && this.width == width
      ensures movesMade == {} && mines == {} && safes == {} && knowledge == []
    {
      this.height := height;
      this.width := width;
      movesMade := {};
      mines := {};
      safes := {};
      knowledge := [];
    }

    /** Records that `c` is a mine, in the mine set and in every sentence. */
    method MarkMine(c: Cell)
      requires Valid()
      modifies this, knowledge
      ensures Valid()
      ensures knowledge == old(knowledge) && movesMade == old(movesMade)
      ensures Current() == LearnMines(old(Current()), {c})
      ensures forall i | 0 <= i < |knowledge| :: c !in knowledge[i].cells
    {
      ghost var start := Facts();
      mines := mines + {c};
      MarkMineEverywhere(c);
      assert Facts() == MarkMines(start, {c});
    }

    /** The loop of `MarkMine`: marks `c` as a mine in each sentence of the list in turn. */
    method MarkMineEverywhere(c: Cell)
      requires forall k, l | 0 <= k < l < |knowledge| :: knowledge[k] != knowledge[l]
      modifies knowledge
      ensures forall k | 0 <= k < |knowledge| :: knowledge[k].Value() == MarkMinesIn(old(knowledge[k].Value()), {c})
    {
      ghost var start := Facts();
      for i := 0 to |knowledge|
        invariant |start| == |knowledge|
        invariant forall k | 0 <= k < i :: knowledge[k].Value() == MarkMinesIn(start[k], {c})
        invariant forall k | i <= k < |knowledge| :: knowledge[k].Value() == start[k]
      {
        MarkMineAt(i, c);
      }
    }

    /** Marks `c` as a mine in the sentence at `i`, leaving the other sentences alone. */
    method MarkMineAt(i: nat, c: Cell)
      requires i < |knowledge|
      requires forall k, l | 0 <= k < l < |knowledge| :: knowledge[k] != knowledge[l]
      modifies knowledge[i]
      ensures knowledge[i].Value() == MarkMinesIn(old(knowledge[i].Value()), {c})
      ensures forall k | 0 <= k < |knowledge| && k != i :: knowledge[k].Value() == old(knowledge[k].Value())
    {
      knowledge[i].MarkMine(c);
    }

    /** Records that `c` is safe, in the safe set and in every sentence. */
    method MarkSafe(c: Cell)
      requires Valid()
      modifies this, knowledge
      ensures Valid()
      ensures knowledge == old(knowledge) && movesMade == old(movesMade)
      ensures Current() == LearnSafes(old(Current()), {c})
      ensures forall i | 0 <= i < |knowledge| :: c !in knowledge[i].cells
    {
      ghost var start := Facts();
      safes := safes + {c};
      MarkSafeEverywhere(c);
      assert Facts() == MarkSafes(start, {c});
    }

    /** The loop of `MarkSafe`: marks `c` as safe in each sentence of the list in turn. */
    method MarkSafeEverywhere(c: Cell)
      requires forall k, l | 0 <= k < l < |knowledge| :: knowledge[k] != knowledge[l]
      modifies knowledge
      ensures forall k | 0 <= k < |knowledge| :: knowledge[k].Value() == MarkSafesIn(old(knowledge[k].Value()), {c})
    {
      ghost var start := Facts();
      for i := 0 to |knowledge|
        invariant |start| == |knowledge|
        invariant forall k | 0 <= k < i :: knowledge[k].Value() == MarkSafesIn(start[k], {c})
        invariant forall k | i <= k < |knowledge| :: knowledge[k].Value() == start[k]
      {
        MarkSafeAt(i, c);
      }
    }

    /** Marks `c` as safe in the sentence at `i`, leaving the other sentences alone. */
    method MarkSafeAt(i: nat, c: Cell)
      requires i < |knowledge|
      requires forall k, l | 0 <= k < l < |knowledge| :: knowledge[k] != knowledge[l]
      modifies knowledge[i]
      ensures knowledge[i].Value() == MarkSafesIn(old(knowledge[i].Value()), {c})
      ensures forall k | 0 <= k < |knowledge| && k != i :: knowledge[k].Value() == old(knowledge[k].Value())
    {
      knowledge[i].MarkSafe(c);
    }
  
    /** A cell known to be safe that has not been played and is not known to be a mine; `None` when there is none. Changes nothing. */
    method MakeSafeMove() returns (move: Option<Cell>)
      ensures move.Some? ==> move.value in safes && move.value !in movesMade && move.value !in mines
      ensures move.None? <==> safes <= movesMade + mines
    {
      var todo := safes;
      while todo != {}
        invariant todo <= safes
        invariant forall c | c in safes - todo :: c in movesMade || c in mines
        decreases todo
      {
        ghost var w := Pick(todo);
        var c :| c in todo;
        if c !in movesMade && c !in mines {
          return Some(c);
        }
        todo := todo - {c};
      }
      return None;
    }

    /** The board cells, row by row, that have not been played and are not known to be mines. */
    function Candidates(): (r: seq<Cell>)
      reads this
      ensures forall c :: c in r <==> OnBoard(c, height, width) && c !in movesMade && c !in mines
    {
      Unplayed(BoardCells(0, height, width))
    }

    /** The cells of `cells` that have not been played and are not known to be mines, in their order. */
    function Unplayed(cells: seq<Cell>): (r: seq<Cell>)
      reads this
      ensures forall c :: c in r <==> c in cells && c !in movesMade && c !in mines
    {
      if cells == [] then []
      else if cells[0] !in movesMade && cells[0] !in mines then [cells[0]] + Unplayed(cells[1..])
      else Unplayed(cells[1..])
    }

    /**
     * A board cell that has not been played and is not known to be a mine; `None` exactly when every
     * board cell has been played or is a known mine. The shuffle that decides which candidate comes first
     * is the parameter `pick`.
     */
    function MakeRandomMove(pick: nat): (move: Option<Cell>)
      reads this
      ensures move.Some? ==> OnBoard(move.value, height, width) && move.value !in movesMade && move.value !in mines
      ensures move.None? <==> forall c | OnBoard(c, height, width) :: c in movesMade || c in mines
    {
      var all := Candidates();
      if all == [] then None else Some(all[pick % |all|])
    }
  
    /**
     * The unknown board cells around `cell` and, as a negative number, how many of the cells around it are known
     * mines, found by scanning the 3x3 block around it.
     */
    method Surroundings(cell: Cell) returns (unknown: set<Cell>, minusCount: int)
      requires OnBoard(cell, height, width)
      ensures unknown == Around(cell, height, width) - safes - mines
      ensures minusCount == -|(Around(cell, height, width) - safes) * mines|
    {
      unknown := {};
      minusCount := 0;
      ghost var known: set<Cell> := {};
      for row := cell.0 - 1 to cell.0 + 2
        invariant forall x :: x in unknown <==> x in Around(cell, height, width) && x !in safes && x !in mines && x.0 < row
        invariant forall x :: x in known <==> x in Around(cell, height, width) && x !in safes && x in mines && x.0 < row
        invariant minusCount == -|known|
      {
        for col := cell.1 - 1 to cell.1 + 2
          invariant forall x :: x in unknown <==>
            (x in Around(cell, height, width) && x !in safes && x !in mines && (x.0 < row || (x.0 == row && x.1 < col)))
          invariant forall x :: x in known <==>
            (x in Around(cell, height, width) && x !in safes && x in mines && (x.0 < row || (x.0 == row && x.1 < col)))
          invariant minusCount == -|known|
        {
          if !(row < 0 || row == height) && !(col < 0 || col == width) {
            if (row, col) !in safes {
              if (row, col) !in mines {
                unknown := unknown + {(row, col)};
              } else {
                minusCount := minusCount - 1;
                known := known + {(row, col)};
              }
            }
          }
        }
      }
      assert unknown == Around(cell, height, width) - safes - mines;
      assert known == (Around(cell, height, width) - safes) * mines;
    }

    /** Marks every cell of `cells` safe, one at a time in any order, as the loop over a sentence's known safes does. */
    method MarkAllSafe(cells: set<Cell>)
      requires Valid()
      modifies this, knowledge
      ensures Valid()
      ensures knowledge == old(knowledge) && movesMade == old(movesMade)
      ensures Current() == LearnSafes(old(Current()), cells)
    {
      LearnNothing(Current());
      var todo := cells;
      ghost var done: set<Cell> := {};
      while todo != {}
        invariant Valid()
        invariant knowledge == old(knowledge) && movesMade == old(movesMade)
        invariant todo + done == cells && todo !! done
        invariant Current() == LearnSafes(old(Current()), done)
        decreases todo
      {
        ghost var w := Pick(todo);
        var c :| c in todo;
        LearnSafesTwice(old(Current()), done, {c});
        MarkSafe(c);
        todo := todo - {c};
        done := done + {c};
      }
    }

    /** Marks every cell of `cells` as a mine, one at a time in any order, as the loop over a sentence's known mines does. */
    method MarkAllMines(cells: set<Cell>)
      requires Valid()
      modifies this, knowledge
      ensures Valid()
      ensures knowledge == old(knowledge) && movesMade == old(movesMade)
      ensures Current() == LearnMines(old(Current()), cells)
    {
      LearnNothing(Current());
      var todo := cells;
      ghost var done: set<Cell> := {};
      while todo != {}
        invariant Valid()
        invariant knowledge == old(knowledge) && movesMade == old(movesMade)
        invariant todo + done == cells && todo !! done
        invariant Current() == LearnMines(old(Current()), done)
        decreases todo
      {
        ghost var w := Pick(todo);
        var c :| c in todo;
        LearnMinesTwice(old(Current()), done, {c});
        MarkMine(c);
        todo := todo - {c};
        done := done + {c};
      }
    }

    /**
     * The resolution pass: each sentence in turn, the cells it shows safe are marked safe (from a snapshot of
     * its set), then the cells it now shows to be mines are marked as mines.
     */
    method ResolvePass(ghost layout: set<Cell>)
      requires Valid()
      modifies this, knowledge
      ensures Valid()
      ensures knowledge == old(knowledge) && movesMade == old(movesMade)
      ensures Current() == Resolve(old(Current()))
      ensures old(mines) <= mines && old(safes) <= safes
      ensures Sound(old(Current()), layout) ==> Sound(Current(), layout)
    {
      ghost var start := Current();
      ghost var k := start;
      for i := 0 to |knowledge|
        invariant Valid()
        invariant knowledge == old(knowledge) && movesMade == old(movesMade)
        invariant old(mines) <= mines && old(safes) <= safes
        invariant Current() == k && |k.facts| == |knowledge| && ResolveFrom(k, i) == Resolve(start)
        invariant Sound(start, layout) ==> Sound(Current(), layout)
      {
        ResolveWith(i, layout);
        k := ResolveStep(k, i);
      }
    }

    /** One step of the resolution pass, with the sentence at `i`. */
    method ResolveWith(i: nat, ghost layout: set<Cell>)
      requires Valid() && i < |knowledge|
      modifies this, knowledge
      ensures Valid()
      ensures knowledge == old(knowledge) && movesMade == old(movesMade)
      ensures Current() == ResolveStep(old(Current()), i)
      ensures old(mines) <= mines && old(safes) <= safes
      ensures Sound(old(Current()), layout) ==> Sound(Current(), layout)
    {
      ghost var before := Current();
      if Sound(before, layout) {
        ResolveStepSound(before, i, layout);
      }
      var sentence := knowledge[i];
      assert sentence.Value() == before.facts[i];
      if sentence.KnownSafes() != {} {
        MarkAllSafe(sentence.KnownSafes());
      } else {
        LearnNothing(before);
      }
      ghost var middle := Current();
      assert middle == LearnSafes(before, SafesOf(before.facts[i]));
      assert sentence.Value() == middle.facts[i];
      if sentence.KnownMines() != {} {
        MarkAllMines(sentence.KnownMines());
      } else {
        LearnNothing(middle);
      }
      assert Current() == LearnMines(middle, MinesOf(middle.facts[i]));
    }

    /**
     * The subset pass: every sentence, walking the list as it grows, is compared with every sentence of the list
     * as it then stands; when the first is a different sentence whose cells lie inside the second's, their
     * difference is appended if it names some cells, has a count of at least zero and is not in the list yet.
     * It ends because true sentences about the same cells are equal, and the board has finitely many cell sets.
     */
    method SubsetPass(ghost layout: set<Cell>)
      requires Valid() && Sound(Current(), layout)
      modifies this
      ensures Valid() && Sound(Current(), layout)
      ensures mines == old(mines) && safes == old(safes) && movesMade == old(movesMade)
      ensures |old(knowledge)| <= |knowledge| && knowledge[..|old(knowledge)|] == old(knowledge)
      ensures SubsetPassOutcome(old(Facts()), Facts())
    {
      ghost var start := knowledge;
      ghost var startFacts := Facts();
      ghost var universe := BoardCells(0, height, width);
      ghost var gap := |CellSets(Facts())| - |knowledge|;
      ghost var bound := |Subsets(universe)| - gap;
      OnBoardBounded(universe);
      ghost var ends: seq<int> := [];
      ghost var last := |knowledge|;
      var i := 0;
      while i < |knowledge|
        invariant Valid() && Sound(Current(), layout)
        invariant mines == old(mines) && safes == old(safes) && movesMade == old(movesMade)
        invariant |start| <= |knowledge| && knowledge[..|start|] == start
        invariant Extends(startFacts, Facts())
        invariant i <= |knowledge| && HandledBelow(Facts(), i, |startFacts|)
        invariant |ends| == i
        invariant last == |knowledge| && (i == 0 ==> last == |start|) && (i > 0 ==> ends[i - 1] == last)
        invariant RowsDone(startFacts, Facts(), ends)
        invariant |CellSets(Facts())| - |knowledge| == gap && |knowledge| <= bound
        decreases bound - i
      {
        ghost var prev := knowledge;
        ghost var prevFacts := Facts();
        CompareRow(i, layout, startFacts, universe);
        assert knowledge[..|start|] == prev[..|start|];
        RowsDoneNext(startFacts, prevFacts, Facts(), ends, i, last, |knowledge|);
        ends := ends + [|knowledge|];
        last := |knowledge|;
        i := i + 1;
      }
      assert |ends| == |Facts()| && RowsDone(startFacts, Facts(), ends);
    }

    /** One row of the subset pass: the sentence at `i` against every sentence of the list as it grows. */
    method CompareRow(i: nat, ghost layout: set<Cell>, ghost before: seq<Fact>, ghost universe: seq<Cell>)
      requires Valid() && Sound(Current(), layout) && i < |knowledge|
      requires Extends(before, Facts()) && HandledBelow(Facts(), i, |before|)
      requires universe == BoardCells(0, height, width)
      modifies this
      ensures Valid() && Sound(Current(), layout)
      ensures mines == old(mines) && safes == old(safes) && movesMade == old(movesMade)
      ensures |old(knowledge)| <= |knowledge| && knowledge[..|old(knowledge)|] == old(knowledge)
      ensures GrewInRow(old(Facts()), Facts(), i)
      ensures Extends(before, Facts()) && HandledBelow(Facts(), i + 1, |before|) && HandledRow(Facts(), i, |knowledge|)
      ensures |CellSets(Facts())| - |knowledge| == |CellSets(old(Facts()))| - |old(knowledge)|
      ensures |CellSets(Facts())| <= |Subsets(universe)|
    {
      ghost var start := knowledge;
      ghost var gap := |CellSets(Facts())| - |knowledge|;
      OnBoardBounded(universe);
      ghost var facts := Facts();
      ghost var startFacts := facts;
      var j := 0;
      while j < |knowledge|
        invariant Valid() && Sound(Current(), layout)
        invariant mines == old(mines) && safes == old(safes) && movesMade == old(movesMade)
        invariant |start| <= |knowledge| && knowledge[..|start|] == start
        invariant facts == Facts() && |facts| == |knowledge|
        invariant GrewInRow(startFacts, facts, i)
        invariant Extends(before, facts)
        invariant i < |facts| && j <= |facts| && HandledBelow(facts, i, |before|) && HandledRow(facts, i, j)
        invariant |CellSets(facts)| - |facts| == gap && |CellSets(facts)| <= |Subsets(universe)|
        decreases |Subsets(universe)| - gap - j
      {
        CompareAndKeep(i, j, layout, before, startFacts, universe);
        facts := Facts();
        j := j + 1;
      }
      RowDone(facts, i, |before|);
    }

    /** One comparison of the subset pass: the sentence at `i` against the sentence at `j`. */
    method CompareStep(i: nat, j: nat, ghost layout: set<Cell>)
      requires Valid() && Sound(Current(), layout) && i < |knowledge| && j < |knowledge|
      modifies this
      ensures Valid() && Sound(Current(), layout)
      ensures mines == old(mines) && safes == old(safes) && movesMade == old(movesMade)
      ensures |old(knowledge)| <= |knowledge| && knowledge[..|old(knowledge)|] == old(knowledge)
      ensures Facts() == SubsetStep(old(Facts()), i, j)
    {
      ghost var prev := Facts();
      var sentence1 := knowledge[i];
      var sentence2 := knowledge[j];
      assert sentence1.Value() == prev[i] && sentence2.Value() == prev[j];
      if !sentence1.Equals(sentence2) && sentence1.cells <= sentence2.cells {
        var newCells := sentence2.cells - sentence1.cells;
        var newCount := sentence2.count - sentence1.count;
        if newCells != {} && newCount >= 0 {
          if Fact(newCells, newCount) !in Facts() {
            DifferenceSound(prev[i], prev[j], layout);
            AddSentence(newCells, newCount);
          }
        }
      }
    }

    /** `CompareStep`, together with what the subset pass keeps true from one comparison to the next. */
    method CompareAndKeep(i: nat, j: nat, ghost layout: set<Cell>, ghost before: seq<Fact>, ghost rowStart: seq<Fact>, ghost universe: seq<Cell>)
      requires Valid() && Sound(Current(), layout) && i < |knowledge| && j < |knowledge|
      requires Extends(before, Facts()) && HandledBelow(Facts(), i, |before|) && HandledRow(Facts(), i, j)
      requires GrewInRow(rowStart, Facts(), i)
      requires universe == BoardCells(0, height, width)
      modifies this
      ensures Valid() && Sound(Current(), layout)
      ensures mines == old(mines) && safes == old(safes) && movesMade == old(movesMade)
      ensures |old(knowledge)| <= |knowledge| && knowledge[..|old(knowledge)|] == old(knowledge)
      ensures Extends(before, Facts()) && HandledBelow(Facts(), i, |before|) && HandledRow(Facts(), i, j + 1)
      ensures GrewInRow(rowStart, Facts(), i)
      ensures |CellSets(Facts())| - |knowledge| == |CellSets(old(Facts()))| - |old(knowledge)|
      ensures |CellSets(Facts())| <= |Subsets(universe)|
    {
      ghost var prev := Facts();
      CompareStep(i, j, layout);
      SubsetStepSound(prev, i, j, layout);
      SubsetStepNewCells(prev, i, j, layout);
      SubsetStepExtends(before, prev, i, j);
      SubsetStepHandles(prev, i, j, |before|);
      SubsetStepGrewInRow(rowStart, prev, i, j);
      OnBoardBounded(universe);
    }

    /** Appends a new sentence, a fresh object, saying that `count` of `cells` are mines. */
    method AddSentence(cells: set<Cell>, count: int)
      requires Valid()
      requires forall c | c in cells :: OnBoard(c, height, width)
      requires cells !! mines && cells !! safes
      modifies this
      ensures Valid()
      ensures mines == old(mines) && safes == old(safes) && movesMade == old(movesMade)
      ensures |knowledge| == |old(knowledge)| + 1 && knowledge == old(knowledge) + [knowledge[|old(knowledge)|]]
      ensures fresh(knowledge[|old(knowledge)|])
      ensures forall s | s in knowledge :: s in old(knowledge) || fresh(s)
      ensures Facts() == old(Facts()) + [Fact(cells, count)]
    {
      var sentence := new Sentence(cells, count);
      knowledge := knowledge + [sentence];
      assert Facts() == old(Facts()) + [sentence.Value()];
    }

    /**
     * What the AI does when the board reports that `count` of the neighbours of the safe cell `cell` are mines:
     * it records the move, marks the cell safe, appends a sentence about the neighbours whose state is still
     * unknown (its count lowered by the known mines among them), runs the resolution pass once and then the
     * subset pass once. When `count` is the true number and the beliefs were true of the layout, they stay true.
     */
    method AddKnowledge(cell: Cell, count: int, ghost layout: set<Cell>)
      requires Valid() && Sound(Current(), layout)
      requires OnBoard(cell, height, width) && cell !in layout
      requires count == |Neighbours(cell, height, width) * layout|
      modifies this, knowledge
      ensures Valid() && Sound(Current(), layout)
      ensures movesMade == old(movesMade) + {cell} && cell in safes
      ensures var r := Resolve(Told(old(Current()), cell, count, height, width));
        mines == r.mines && safes == r.safes && SubsetPassOutcome(r.facts, Facts())
    {
      Observe(cell, count, layout);
      ResolvePass(layout);
      ghost var resolved := Current();
      SubsetPass(layout);
      assert mines == resolved.mines && safes == resolved.safes && SubsetPassOutcome(resolved.facts, Facts());
    }

    /** The first three steps of `AddKnowledge`: record the move, mark the cell safe, append the sentence about its neighbours. */
    method Observe(cell: Cell, count: int, ghost layout: set<Cell>)
      requires Valid() && Sound(Current(), layout)
      requires OnBoard(cell, height, width) && cell !in layout
      requires count == |Neighbours(cell, height, width) * layout|
      modifies this, knowledge
      ensures Valid() && Sound(Current(), layout)
      ensures movesMade == old(movesMade) + {cell} && cell in safes
      ensures Current() == Told(old(Current()), cell, count, height, width)
      ensures |knowledge| == |old(knowledge)| + 1 && knowledge == old(knowledge) + [knowledge[|old(knowledge)|]]
      ensures fresh(knowledge[|old(knowledge)|])
      ensures forall s | s in knowledge :: s in old(knowledge) || fresh(s)
    {
      ghost var start := Current();
      ToldSound(start, cell, count, height, width, layout);
      Played(cell);
      AddAround(cell, count);
    }

    /** Records the move and marks the cell safe. */
    method Played(cell: Cell)
      requires Valid()
      modifies this, knowledge
      ensures Valid()
      ensures knowledge == old(knowledge) && movesMade == old(movesMade) + {cell}
      ensures Current() == LearnSafes(old(Current()), {cell})
    {
      movesMade := movesMade + {cell};
      MarkSafe(cell);
    }

    /** Appends the sentence about the cells around `cell` whose state is still unknown. */
    method AddAround(cell: Cell, count: int)
      requires Valid() && OnBoard(cell, height, width)
      modifies this
      ensures Valid()
      ensures movesMade == old(movesMade)
      ensures |knowledge| == |old(knowledge)| + 1 && knowledge == old(knowledge) + [knowledge[|old(knowledge)|]]
      ensures fresh(knowledge[|old(knowledge)|])
      ensures forall s | s in knowledge :: s in old(knowledge) || fresh(s)
      ensures Current() == WithAround(old(Current()), cell, count, height, width)
    {
      var unknown, minusCount := Surroundings(cell);
      AddSentence(unknown, count + minusCount);
    }

    /** Every sentence talks about cells of `universe`, the cells of the board. */
    lemma OnBoardBounded(universe: seq<Cell>)
      requires Valid() && universe == BoardCells(0, height, width)
      ensures forall k | 0 <= k < |Facts()| :: Facts()[k].cells <= Elements(universe)
      ensures |CellSets(Facts())| <= |Subsets(universe)|
    {
      CellSetsBounded(Facts(), universe);
    }
  }
}
