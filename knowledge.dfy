/**
 * What the Minesweeper AI knows, as values: a sentence "`count` of these `cells` are mines",
 * the cells it concludes from one sentence, the effect of learning that cells are mines or safe,
 * and the single resolution pass `add_knowledge` runs over its list of sentences.
 * A mine layout (the set of cells holding mines) is what makes a sentence true or false.
 */
module Knowledge {

  import opened FiniteSets

  /** A board cell as (row, column). */
  type Cell = (int, int)

  /** The contents of a sentence: exactly `count` of `cells` hold mines. */
  datatype Fact = Fact(cells: set<Cell>, count: int)

  /** The fact is true of the mine layout `layout`. */
  predicate Satisfied(f: Fact, layout: set<Cell>)
  {
    |f.cells * layout| == f.count
  }

  /** Some mine layout makes the fact true: the count lies between zero and the number of cells. */
  predicate Consistent(f: Fact)
  {
    0 <= f.count <= |f.cells|
  }

  /** The cells the fact alone shows to be mines: all of them when every cell must be a mine. */
  function MinesOf(f: Fact): set<Cell>
  {
    if |f.cells| == f.count then f.cells else {}
  }

  /** The cells the fact alone shows to be safe: all of them when the count is zero. */
  function SafesOf(f: Fact): set<Cell>
  {
    if f.count == 0 then f.cells else {}
  }

  /** The fact once the cells of `m` are known to be mines: they leave the fact and take their mines with them. */
  function MarkMinesIn(f: Fact, m: set<Cell>): Fact
  {
    Fact(f.cells - m, f.count - |f.cells * m|)
  }

  /** The fact once the cells of `s` are known to be safe: they leave the fact, the count stays. */
  function MarkSafesIn(f: Fact, s: set<Cell>): Fact
  {
    Fact(f.cells - s, f.count)
  }

  /** The fact inferred from `small` and `big` when the cells of `small` lie inside those of `big`. */
  function Difference(small: Fact, big: Fact): Fact
  {
    Fact(big.cells - small.cells, big.count - small.count)
  }

  /** Every layout the fact is true of holds mines on all of `MinesOf(f)`. */
  lemma MinesOfSound(f: Fact, layout: set<Cell>)
    requires Satisfied(f, layout)
    ensures MinesOf(f) <= layout
  {
    if |f.cells| == f.count {
      SubsetSameCard(f.cells * layout, f.cells);
    }
  }

  /** No layout the fact is true of holds a mine on `SafesOf(f)`. */
  lemma SafesOfSound(f: Fact, layout: set<Cell>)
    requires Satisfied(f, layout)
    ensures SafesOf(f) !! layout
  {
    if f.count == 0 {
      assert f.cells * layout == {};
      assert forall z | z in f.cells :: z !in f.cells * layout;
    }
  }

  /**
   * On a consistent fact, a cell is reported as a mine exactly when every layout the fact is true of
   * puts a mine on it: `MinesOf` misses nothing the fact alone implies.
   */
  lemma MinesOfExact(f: Fact, c: Cell)
    requires Consistent(f) && c in f.cells
    ensures c in MinesOf(f) <==> forall layout | Satisfied(f, layout) :: c in layout
  {
    forall layout | Satisfied(f, layout)
      ensures MinesOf(f) <= layout
    {
      MinesOfSound(f, layout);
    }
    if c !in MinesOf(f) {
      var others := SubsetOfSize(f.cells - {c}, f.count);
      assert f.cells * others == others;
      assert Satisfied(f, others) && c !in others;
    }
  }

  /**
   * On a consistent fact, a cell is reported as safe exactly when no layout the fact is true of
   * puts a mine on it.
   */
  lemma SafesOfExact(f: Fact, c: Cell)
    requires Consistent(f) && c in f.cells
    ensures c in SafesOf(f) <==> forall layout | Satisfied(f, layout) :: c !in layout
  {
    forall layout | Satisfied(f, layout)
      ensures SafesOf(f) !! layout
    {
      SafesOfSound(f, layout);
    }
    if c !in SafesOf(f) {
      var others := SubsetOfSize(f.cells - {c}, f.count - 1);
      var layout := others + {c};
      assert f.cells * layout == layout;
      assert Satisfied(f, layout) && c in layout;
    }
  }

  /** Taking out cells that are mines of the layout keeps a true fact true. */
  lemma MarkMinesSound(f: Fact, m: set<Cell>, layout: set<Cell>)
    requires Satisfied(f, layout) && m <= layout
    ensures Satisfied(MarkMinesIn(f, m), layout)
  {
    var inside := f.cells * m;
    assert f.cells * layout == (f.cells - m) * layout + inside;
    assert (f.cells - m) * layout !! inside;
  }

  /** Taking out cells that are safe in the layout keeps a true fact true. */
  lemma MarkSafesSound(f: Fact, s: set<Cell>, layout: set<Cell>)
    requires Satisfied(f, layout) && s !! layout
    ensures Satisfied(MarkSafesIn(f, s), layout)
  {
    assert (f.cells - s) * layout == f.cells * layout;
  }

  /** Marking mines in two rounds is marking them all at once; in particular marking the same mines twice changes nothing more. */
  lemma MarkMinesTwice(f: Fact, a: set<Cell>, b: set<Cell>)
    ensures MarkMinesIn(MarkMinesIn(f, a), b) == MarkMinesIn(f, a + b)
  {
    var c := f.cells;
    assert c * (a + b) == c * a + (c - a) * b;
    assert c * a !! (c - a) * b;
    assert c - a - b == c - (a + b);
  }

  /** Marking safe cells in two rounds is marking them all at once. */
  lemma MarkSafesTwice(f: Fact, a: set<Cell>, b: set<Cell>)
    ensures MarkSafesIn(MarkSafesIn(f, a), b) == MarkSafesIn(f, a + b)
  {
    assert f.cells - a - b == f.cells - (a + b);
  }

  /** The subset rule: if two facts are true and the cells of one lie inside the other, their difference is true. */
  lemma DifferenceSound(small: Fact, big: Fact, layout: set<Cell>)
    requires small.cells <= big.cells
    requires Satisfied(small, layout) && Satisfied(big, layout)
    ensures Satisfied(Difference(small, big), layout)
  {
    assert big.cells * layout == (big.cells - small.cells) * layout + small.cells * layout;
    assert (big.cells - small.cells) * layout !! small.cells * layout;
  }

  /** Marks the cells of `m` as mines in every fact of the list. */
  function MarkMines(facts: seq<Fact>, m: set<Cell>): (r: seq<Fact>)
    ensures |r| == |facts|
    ensures forall i | 0 <= i < |facts| :: r[i] == MarkMinesIn(facts[i], m)
  {
    seq(|facts|, i requires 0 <= i < |facts| => MarkMinesIn(facts[i], m))
  }

  /** Marks the cells of `s` as safe in every fact of the list. */
  function MarkSafes(facts: seq<Fact>, s: set<Cell>): (r: seq<Fact>)
    ensures |r| == |facts|
    ensures forall i | 0 <= i < |facts| :: r[i] == MarkSafesIn(facts[i], s)
  {
    seq(|facts|, i requires 0 <= i < |facts| => MarkSafesIn(facts[i], s))
  }

  /** The AI's knowledge base: the cells known to be mines, those known to be safe, and the list of sentences. */
  datatype Beliefs = Beliefs(mines: set<Cell>, safes: set<Cell>, facts: seq<Fact>)

  /** The layout agrees with all of the beliefs. */
  predicate Sound(k: Beliefs, layout: set<Cell>)
  {
    k.mines <= layout && k.safes !! layout &&
    forall i | 0 <= i < |k.facts| :: Satisfied(k.facts[i], layout)
  }

  /** Appending a true fact to sound beliefs keeps them sound. */
  lemma AppendSound(k: Beliefs, f: Fact, layout: set<Cell>)
    requires Sound(k, layout) && Satisfied(f, layout)
    ensures Sound(Beliefs(k.mines, k.safes, k.facts + [f]), layout)
  {
    var facts := k.facts + [f];
    forall i | 0 <= i < |facts|
      ensures Satisfied(facts[i], layout)
    {
      if i < |k.facts| {
        assert facts[i] == k.facts[i];
      }
    }
  }

  /** The beliefs once the cells of `m` are known to be mines. */
  function LearnMines(k: Beliefs, m: set<Cell>): Beliefs
  {
    Beliefs(k.mines + m, k.safes, MarkMines(k.facts, m))
  }

  /** The beliefs once the cells of `s` are known to be safe. */
  function LearnSafes(k: Beliefs, s: set<Cell>): Beliefs
  {
    Beliefs(k.mines, k.safes + s, MarkSafes(k.facts, s))
  }

  /** Learning mines cell by cell, in any order, adds up to learning them all at once. */
  lemma LearnMinesTwice(k: Beliefs, a: set<Cell>, b: set<Cell>)
    ensures LearnMines(LearnMines(k, a), b) == LearnMines(k, a + b)
  {
    forall i | 0 <= i < |k.facts|
      ensures MarkMines(MarkMines(k.facts, a), b)[i] == MarkMines(k.facts, a + b)[i]
    {
      MarkMinesTwice(k.facts[i], a, b);
    }
  }

  /** Learning safe cells cell by cell, in any order, adds up to learning them all at once. */
  lemma LearnSafesTwice(k: Beliefs, a: set<Cell>, b: set<Cell>)
    ensures LearnSafes(LearnSafes(k, a), b) == LearnSafes(k, a + b)
  {
    forall i | 0 <= i < |k.facts|
      ensures MarkSafes(MarkSafes(k.facts, a), b)[i] == MarkSafes(k.facts, a + b)[i]
    {
      MarkSafesTwice(k.facts[i], a, b);
    }
  }

  /** Learning nothing changes nothing. */
  lemma LearnNothing(k: Beliefs)
    ensures LearnMines(k, {}) == k && LearnSafes(k, {}) == k
  {
    assert MarkMines(k.facts, {}) == k.facts;
    assert MarkSafes(k.facts, {}) == k.facts;
  }

  /** Learning that true mines are mines keeps sound beliefs sound. */
  lemma LearnMinesSound(k: Beliefs, m: set<Cell>, layout: set<Cell>)
    requires Sound(k, layout) && m <= layout
    ensures Sound(LearnMines(k, m), layout)
  {
    forall i | 0 <= i < |k.facts|
      ensures Satisfied(MarkMines(k.facts, m)[i], layout)
    {
      MarkMinesSound(k.facts[i], m, layout);
    }
  }

  /** Learning that safe cells are safe keeps sound beliefs sound. */
  lemma LearnSafesSound(k: Beliefs, s: set<Cell>, layout: set<Cell>)
    requires Sound(k, layout) && s !! layout
    ensures Sound(LearnSafes(k, s), layout)
  {
    forall i | 0 <= i < |k.facts|
      ensures Satisfied(MarkSafes(k.facts, s)[i], layout)
    {
      MarkSafesSound(k.facts[i], s, layout);
    }
  }

  /**
   * One step of the resolution pass, for sentence `i`: mark the cells it shows safe,
   * then look at the sentence again and mark the cells it now shows to be mines.
   */
  function ResolveStep(k: Beliefs, i: nat): (r: Beliefs)
    requires i < |k.facts|
    ensures |r.facts| == |k.facts|
  {
    var afterSafes := LearnSafes(k, SafesOf(k.facts[i]));
    LearnMines(afterSafes, MinesOf(afterSafes.facts[i]))
  }

  /** The rest of the resolution pass from sentence `n` on: one visit to each later sentence, in list order. */
  function ResolveFrom(k: Beliefs, n: nat): Beliefs
    requires n <= |k.facts|
    decreases |k.facts| - n
  {
    if n == |k.facts| then k else ResolveFrom(ResolveStep(k, n), n + 1)
  }

  /** The resolution pass: one visit to each sentence, in list order, with no second round. */
  function Resolve(k: Beliefs): Beliefs
  {
    ResolveFrom(k, 0)
  }

  /** The resolution pass only adds to the known mines and the known safe cells. */
  lemma {:induction false} ResolveFromLearns(k: Beliefs, n: nat)
    requires n <= |k.facts|
    ensures k.mines <= ResolveFrom(k, n).mines && k.safes <= ResolveFrom(k, n).safes
    decreases |k.facts| - n
  {
    if n < |k.facts| {
      ResolveFromLearns(ResolveStep(k, n), n + 1);
    }
  }

  /** After its step a sentence has nothing left to conclude: it shows no cell safe and no cell a mine. */
  lemma ResolveStepSettles(k: Beliefs, i: nat)
    requires i < |k.facts|
    ensures SafesOf(ResolveStep(k, i).facts[i]) == {} && MinesOf(ResolveStep(k, i).facts[i]) == {}
  {
    var f := k.facts[i];
    var g := MarkSafesIn(f, SafesOf(f));
    var h := MarkMinesIn(g, MinesOf(g));
    if f.count == 0 {
      assert g.cells == {};
    }
    if |g.cells| == g.count {
      assert h.cells == {} && h.count == 0;
    }
  }

  /** A step of the resolution pass keeps sound beliefs sound: every cell it marks really is a mine or really is safe. */
  lemma ResolveStepSound(k: Beliefs, i: nat, layout: set<Cell>)
    requires i < |k.facts| && Sound(k, layout)
    ensures Sound(ResolveStep(k, i), layout)
  {
    SafesOfSound(k.facts[i], layout);
    var afterSafes := LearnSafes(k, SafesOf(k.facts[i]));
    LearnSafesSound(k, SafesOf(k.facts[i]), layout);
    MinesOfSound(afterSafes.facts[i], layout);
    LearnMinesSound(afterSafes, MinesOf(afterSafes.facts[i]), layout);
  }

  /** The subset rule applies to the pair: they differ, the cells of `small` lie inside those of `big`, and the difference names some cells and a count of at least zero. */
  predicate Derivable(small: Fact, big: Fact)
  {
    small != big && small.cells <= big.cells &&
    Difference(small, big).cells != {} && Difference(small, big).count >= 0
  }

  /** `f` is new to `prev` and follows from two of its sentences by the subset rule. */
  predicate DerivedFrom(prev: seq<Fact>, f: Fact)
  {
    f !in prev &&
    exists a, b | 0 <= a < |prev| && 0 <= b < |prev| :: Derivable(prev[a], prev[b]) && f == Difference(prev[a], prev[b])
  }

  /** The pair of sentences `a` (the smaller) and `b` (the larger) has been dealt with: if the rule applies, its conclusion is in the list. */
  predicate Handled(facts: seq<Fact>, a: nat, b: nat)
    requires a < |facts| && b < |facts|
  {
    Derivable(facts[a], facts[b]) ==> Difference(facts[a], facts[b]) in facts
  }

  /** The sentence at `k` is the conclusion of the sentence at `a` with a sentence before `k`. */
  predicate FromRow(facts: seq<Fact>, a: nat, k: nat)
    requires a < |facts| && k < |facts|
  {
    exists b | 0 <= b < k :: Derivable(facts[a], facts[b]) && facts[k] == Difference(facts[a], facts[b])
  }

  /** Where the row of the sentence at `a` began: the end of the row before it, or `n`, the length the pass began with. */
  function RowStart(n: nat, ends: seq<int>, a: nat): int
    requires a < |ends|
  {
    if a == 0 then n else ends[a - 1]
  }

  /**
   * The rows of the sentences before `|ends|` are done, and `ends[a]` was the length of the list when the row
   * of the sentence at `a` finished: the rows ran in order over a list that only grew, each over at least the
   * sentences up to its own and those the pass began with; each row handled the pairs of its sentence with
   * every sentence before its end, and the sentences appended while it ran are conclusions of its own sentence.
   */
  predicate RowsDone(before: seq<Fact>, facts: seq<Fact>, ends: seq<int>)
  {
    |ends| <= |facts| &&
    (forall a | 0 <= a < |ends| :: a < ends[a] <= |facts| && |before| <= ends[a]) &&
    (forall a {:trigger RowStart(|before|, ends, a)} | 0 <= a < |ends| :: RowStart(|before|, ends, a) <= ends[a]) &&
    (forall a, b | 0 <= a < |ends| && 0 <= b < ends[a] :: Handled(facts, a, b)) &&
    (forall a, k | 0 <= a < |ends| && 0 <= k && RowStart(|before|, ends, a) <= k < ends[a] :: FromRow(facts, a, k))
  }

  /**
   * What one subset pass leaves behind, given the list it started from: the old sentences stay in front,
   * every sentence after them was new when added and follows from two earlier ones, and there are row ends,
   * one for every sentence of the final list, that make every row done.
   */
  ghost predicate SubsetPassOutcome(before: seq<Fact>, after: seq<Fact>)
  {
    |before| <= |after| && after[..|before|] == before &&
    (forall k | |before| <= k < |after| :: DerivedFrom(after[..k], after[k])) &&
    exists ends :: |ends| == |after| && RowsDone(before, after, ends)
  }

  /** After a pass, the conclusion of every pair is in the list when its larger sentence was there from the start or comes no later than its smaller one. */
  lemma SubsetPassHandles(before: seq<Fact>, after: seq<Fact>)
    requires SubsetPassOutcome(before, after)
    ensures forall a, b | 0 <= a < |after| && 0 <= b < |after| && (b <= a || b < |before|) :: Handled(after, a, b)
  {
    var ends :| |ends| == |after| && RowsDone(before, after, ends);
    forall a, b | 0 <= a < |after| && 0 <= b < |after| && (b <= a || b < |before|)
      ensures Handled(after, a, b)
    {
      assert b < ends[a];
    }
  }

  /**
   * An example: starting from "one of (0,0), (0,1) is a mine" and "one of (0,0), (0,1), (0,2) is a mine",
   * whatever the pass appends, its outcome holds "(0,2) is not a mine".
   */
  lemma SubsetPassExample(after: seq<Fact>)
    requires SubsetPassOutcome([Fact({(0, 0), (0, 1)}, 1), Fact({(0, 0), (0, 1), (0, 2)}, 1)], after)
    ensures Fact({(0, 2)}, 0) in after
  {
    var before := [Fact({(0, 0), (0, 1)}, 1), Fact({(0, 0), (0, 1), (0, 2)}, 1)];
    SubsetPassHandles(before, after);
    assert after[0] == before[0] && after[1] == before[1];
    assert Difference(after[0], after[1]) == Fact({(0, 2)}, 0);
    assert Handled(after, 0, 1);
  }

  /**
   * An example of what the row ends pin down: from "one of (0,0), (0,1) is a mine", "one of (0,2), (0,3) is a mine"
   * and "two of (0,0) to (0,4) are mines", when the pass has appended "one of (0,2), (0,3), (0,4) is a mine" at
   * position 3, the row of the second sentence still meets it, so "(0,4) is not a mine" is in the outcome.
   */
  lemma SubsetPassRowsExample(after: seq<Fact>)
    requires SubsetPassOutcome([Fact({(0, 0), (0, 1)}, 1), Fact({(0, 2), (0, 3)}, 1), Fact({(0, 0), (0, 1), (0, 2), (0, 3), (0, 4)}, 2)], after)
    requires |after| > 3 && after[3] == Fact({(0, 2), (0, 3), (0, 4)}, 1)
    ensures Fact({(0, 4)}, 0) in after
  {
    var before := [Fact({(0, 0), (0, 1)}, 1), Fact({(0, 2), (0, 3)}, 1), Fact({(0, 0), (0, 1), (0, 2), (0, 3), (0, 4)}, 2)];
    var ends :| |ends| == |after| && RowsDone(before, after, ends);
    // Position 3 was not appended by the row of the sentence at 2 or at 3, so the row of the sentence at 1 ran past it.
    RowsExampleAppends(after);
    assert RowStart(3, ends, 1) <= ends[1] && RowStart(3, ends, 2) <= ends[2] && RowStart(3, ends, 3) <= ends[3];
    assert ends[1] > 3;
    assert Handled(after, 1, 3);
    RowsExampleDerives(after);
  }

  /** In the example above, the sentence at 1 and the one at 3 give "(0,4) is not a mine". */
  lemma RowsExampleDerives(after: seq<Fact>)
    requires |after| > 3 && after[..3] == [Fact({(0, 0), (0, 1)}, 1), Fact({(0, 2), (0, 3)}, 1), Fact({(0, 0), (0, 1), (0, 2), (0, 3), (0, 4)}, 2)]
    requires after[3] == Fact({(0, 2), (0, 3), (0, 4)}, 1)
    ensures Derivable(after[1], after[3]) && Difference(after[1], after[3]) == Fact({(0, 4)}, 0)
  {
    assert after[1] == after[..3][1];
    assert (0, 4) in Difference(after[1], after[3]).cells;
    assert Difference(after[1], after[3]).cells == {(0, 4)};
  }

  /** In the example above, neither the sentence at 2 nor the one at 3 has the sentence at 3 as a conclusion. */
  lemma RowsExampleAppends(after: seq<Fact>)
    requires |after| > 3 && after[..3] == [Fact({(0, 0), (0, 1)}, 1), Fact({(0, 2), (0, 3)}, 1), Fact({(0, 0), (0, 1), (0, 2), (0, 3), (0, 4)}, 2)]
    requires after[3] == Fact({(0, 2), (0, 3), (0, 4)}, 1)
    ensures !FromRow(after, 2, 3) && !FromRow(after, 3, 3)
  {
    assert after[2] == after[..3][2];
    forall b | 0 <= b < 3
      ensures !(Derivable(after[2], after[b]) && after[3] == Difference(after[2], after[b]))
      ensures !(Derivable(after[3], after[b]) && after[3] == Difference(after[3], after[b]))
    {
      assert (0, 4) in after[2].cells && (0, 4) in after[3].cells;
      if b == 2 {
        assert (0, 2) !in Difference(after[3], after[b]).cells;
      }
    }
  }

  /** The distinct cell sets the sentences talk about. */
  function CellSets(facts: seq<Fact>): set<set<Cell>>
  {
    set k | 0 <= k < |facts| :: facts[k].cells
  }

  /** A pair handled before a sentence is appended stays handled after. */
  lemma HandledAppend(facts: seq<Fact>, f: Fact, a: nat, b: nat)
    requires a < |facts| && b < |facts| && Handled(facts, a, b)
    ensures Handled(facts + [f], a, b)
  {
    var more := facts + [f];
    assert more[a] == facts[a] && more[b] == facts[b];
    if Derivable(facts[a], facts[b]) {
      var d := Difference(facts[a], facts[b]);
      var k :| 0 <= k < |facts| && facts[k] == d;
      assert more[k] == d;
    }
  }

  /**
   * Appending a true sentence that is not already in a list of true sentences adds a cell set the list did not
   * talk about: two true sentences about the same cells are the same sentence.
   */
  lemma {:induction false} CellSetsAppend(facts: seq<Fact>, f: Fact, layout: set<Cell>)
    requires forall k | 0 <= k < |facts| :: Satisfied(facts[k], layout)
    requires Satisfied(f, layout) && f !in facts
    ensures CellSets(facts + [f]) == CellSets(facts) + {f.cells}
    ensures |CellSets(facts + [f])| == |CellSets(facts)| + 1
  {
    var more := facts + [f];
    assert f.cells !in CellSets(facts);
    forall x
      ensures x in CellSets(more) <==> x in CellSets(facts) || x == f.cells
    {
      if x in CellSets(facts) {
        var k :| 0 <= k < |facts| && facts[k].cells == x;
        assert more[k] == facts[k];
      }
      if x == f.cells {
        assert more[|facts|] == f;
      }
      if x in CellSets(more) {
        var k :| 0 <= k < |more| && more[k].cells == x;
        if k < |facts| {
          assert more[k] == facts[k];
        }
      }
    }
  }

  /** Every sentence of the list is true of the layout. */
  predicate AllSatisfied(facts: seq<Fact>, layout: set<Cell>)
  {
    forall k | 0 <= k < |facts| :: Satisfied(facts[k], layout)
  }

  /** The list starts with `before`, and every sentence after it was new when added and follows from two earlier ones. */
  predicate Extends(before: seq<Fact>, facts: seq<Fact>)
  {
    |before| <= |facts| && facts[..|before|] == before &&
    forall k | |before| <= k < |facts| :: DerivedFrom(facts[..k], facts[k])
  }

  /**
   * Every pair whose smaller sentence comes before position `i` is handled when its larger sentence is one of
   * the first `n` or comes no later than the smaller one.
   */
  predicate HandledBelow(facts: seq<Fact>, i: nat, n: nat)
  {
    forall a, b | 0 <= a < i && a < |facts| && 0 <= b < |facts| && (b <= a || b < n) :: Handled(facts, a, b)
  }

  /** Every pair of the sentence at `i` with a larger sentence before position `j` is handled. */
  predicate HandledRow(facts: seq<Fact>, i: nat, j: nat)
  {
    forall b | 0 <= b < j && b < |facts| && i < |facts| :: Handled(facts, i, b)
  }

  /** One inner step of the subset pass: the sentences at `i` and `j` are compared and their conclusion appended if it is new. */
  function SubsetStep(facts: seq<Fact>, i: nat, j: nat): seq<Fact>
    requires i < |facts| && j < |facts|
  {
    var d := Difference(facts[i], facts[j]);
    if Derivable(facts[i], facts[j]) && d !in facts then facts + [d] else facts
  }

  /** One inner step keeps every sentence true. */
  lemma SubsetStepSound(facts: seq<Fact>, i: nat, j: nat, layout: set<Cell>)
    requires i < |facts| && j < |facts| && AllSatisfied(facts, layout)
    ensures AllSatisfied(SubsetStep(facts, i, j), layout)
  {
    var d := Difference(facts[i], facts[j]);
    var next := SubsetStep(facts, i, j);
    if next != facts {
      DifferenceSound(facts[i], facts[j], layout);
      forall k | 0 <= k < |next|
        ensures Satisfied(next[k], layout)
      {
        if k < |facts| {
          assert next[k] == facts[k];
        } else {
          assert next[k] == d;
        }
      }
    }
  }

  /** Among true sentences, an inner step that appends brings a cell set the list did not talk about. */
  lemma SubsetStepNewCells(facts: seq<Fact>, i: nat, j: nat, layout: set<Cell>)
    requires i < |facts| && j < |facts| && AllSatisfied(facts, layout)
    ensures |CellSets(SubsetStep(facts, i, j))| - |SubsetStep(facts, i, j)| == |CellSets(facts)| - |facts|
  {
    var d := Difference(facts[i], facts[j]);
    if SubsetStep(facts, i, j) != facts {
      DifferenceSound(facts[i], facts[j], layout);
      CellSetsAppend(facts, d, layout);
    }
  }

  /** One inner step keeps the old sentences in front and adds only new conclusions of earlier sentences. */
  lemma SubsetStepExtends(before: seq<Fact>, facts: seq<Fact>, i: nat, j: nat)
    requires i < |facts| && j < |facts| && Extends(before, facts)
    ensures Extends(before, SubsetStep(facts, i, j))
  {
    var next := SubsetStep(facts, i, j);
    if next != facts {
      var d := Difference(facts[i], facts[j]);
      assert next[..|before|] == before by {
        assert next[..|before|] == facts[..|before|];
      }
      forall k | |before| <= k < |next|
        ensures DerivedFrom(next[..k], next[k])
      {
        if k < |facts| {
          assert next[..k] == facts[..k];
        } else {
          assert next[..k] == facts;
          assert DerivedFrom(facts, d);
        }
      }
    }
  }

  /** One inner step keeps handled pairs handled and handles the pair it compared. */
  lemma SubsetStepHandles(facts: seq<Fact>, i: nat, j: nat, n: nat)
    requires i < |facts| && j < |facts| && n <= |facts|
    requires HandledBelow(facts, i, n) && HandledRow(facts, i, j)
    ensures HandledBelow(SubsetStep(facts, i, j), i, n) && HandledRow(SubsetStep(facts, i, j), i, j + 1)
  {
    var next := SubsetStep(facts, i, j);
    var d := Difference(facts[i], facts[j]);
    if next != facts {
      forall a, b | 0 <= a < i && a < |next| && 0 <= b < |next| && (b <= a || b < n)
        ensures Handled(next, a, b)
      {
        HandledAppend(facts, d, a, b);
      }
      forall b | 0 <= b < j + 1 && b < |next| && i < |next|
        ensures Handled(next, i, b)
      {
        if b < j {
          HandledAppend(facts, d, i, b);
        } else {
          assert next[i] == facts[i] && next[b] == facts[b];
          assert next[|facts|] == d;
        }
      }
    } else {
      assert Handled(facts, i, j);
    }
  }

  /**
   * Once the sentence at `i` has been compared with the whole list, which holds at least the first `n` sentences,
   * the pairs tracked below `i + 1` are handled.
   */
  lemma RowDone(facts: seq<Fact>, i: nat, n: nat)
    requires i < |facts| && n <= |facts|
    requires HandledBelow(facts, i, n) && HandledRow(facts, i, |facts|)
    ensures HandledBelow(facts, i + 1, n)
  {
  }

  /** A handled pair stays handled when the list is extended at its end. */
  lemma HandledPrefix(prev: seq<Fact>, facts: seq<Fact>, a: nat, b: nat)
    requires |prev| <= |facts| && facts[..|prev|] == prev
    requires a < |prev| && b < |prev| && Handled(prev, a, b)
    ensures Handled(facts, a, b)
  {
    assert facts[a] == prev[a] && facts[b] == prev[b];
    if Derivable(prev[a], prev[b]) {
      var k :| 0 <= k < |prev| && prev[k] == Difference(prev[a], prev[b]);
      assert facts[k] == prev[k];
    }
  }

  /** A sentence that came from a row still does when the list is extended at its end. */
  lemma FromRowPrefix(prev: seq<Fact>, facts: seq<Fact>, a: nat, k: nat)
    requires |prev| <= |facts| && facts[..|prev|] == prev
    requires a < |prev| && k < |prev| && FromRow(prev, a, k)
    ensures FromRow(facts, a, k)
  {
    var b :| 0 <= b < k && Derivable(prev[a], prev[b]) && prev[k] == Difference(prev[a], prev[b]);
    assert facts[a] == prev[a] && facts[b] == prev[b] && facts[k] == prev[k];
  }

  /** Since the list was `prev` it has only grown at its end, and every sentence appended is a conclusion of the sentence at `i`. */
  predicate GrewInRow(prev: seq<Fact>, facts: seq<Fact>, i: nat)
  {
    |prev| <= |facts| && facts[..|prev|] == prev && i < |facts| &&
    forall k | |prev| <= k < |facts| :: FromRow(facts, i, k)
  }

  /** One inner step of the row of the sentence at `i` appends, if anything, a conclusion of that sentence. */
  lemma SubsetStepGrewInRow(prev: seq<Fact>, facts: seq<Fact>, i: nat, j: nat)
    requires GrewInRow(prev, facts, i) && j < |facts|
    ensures GrewInRow(prev, SubsetStep(facts, i, j), i)
  {
    var next := SubsetStep(facts, i, j);
    if next != facts {
      assert next[..|facts|] == facts;
      assert next[..|prev|] == facts[..|prev|];
      forall k | |prev| <= k < |next|
        ensures FromRow(next, i, k)
      {
        if k < |facts| {
          FromRowPrefix(facts, next, i, k);
        } else {
          assert next[i] == facts[i] && next[j] == facts[j] && next[k] == Difference(facts[i], facts[j]);
        }
      }
    }
  }

  /**
   * Once the row of the next sentence has run from where the last row ended to the end of the list, having
   * handled its pairs with the whole list and appended only its own conclusions, that row is done too.
   */
  lemma RowsDoneNext(before: seq<Fact>, prev: seq<Fact>, facts: seq<Fact>, ends: seq<int>, i: nat, last: int, end: nat)
    requires RowsDone(before, prev, ends) && |ends| == i < |prev| && last == |prev|
    requires (i == 0 ==> last == |before|) && (i > 0 ==> ends[i - 1] == last)
    requires GrewInRow(prev, facts, i) && HandledRow(facts, i, end) && end == |facts|
    ensures RowsDone(before, facts, ends + [end])
  {
    var more := ends + [end];
    forall a | 0 <= a < |more|
      ensures RowStart(|before|, more, a) <= more[a]
    {
      if a < |ends| {
        assert RowStart(|before|, more, a) == RowStart(|before|, ends, a);
      }
    }
    forall a, b | 0 <= a < |more| && 0 <= b < more[a]
      ensures Handled(facts, a, b)
    {
      if a < |ends| {
        HandledPrefix(prev, facts, a, b);
      }
    }
    forall a, k | 0 <= a < |more| && RowStart(|before|, more, a) <= k < more[a]
      ensures FromRow(facts, a, k)
    {
      if a < |ends| {
        assert RowStart(|before|, more, a) == RowStart(|before|, ends, a);
        FromRowPrefix(prev, facts, a, k);
      }
    }
  }

  /** A list of sentences about cells of `universe` talks about no more cell sets than `universe` has subsets. */
  lemma CellSetsBounded(facts: seq<Fact>, universe: seq<Cell>)
    requires forall k | 0 <= k < |facts| :: facts[k].cells <= Elements(universe)
    ensures |CellSets(facts)| <= |Subsets(universe)|
  {
    SubsetCard(CellSets(facts), Subsets(universe));
  }
}
