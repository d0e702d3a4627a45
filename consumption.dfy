/** The deferred removal pass: which cells of the matrix copy it selects, and
    what it does to the live matrix at those cells. */
module Consumption {
  import opened Items
  import opened Matching

  /** The counters the pass keeps: for each kind outside the mushroom
      category the units still to remove (`exact`), and the units still to
      remove over all mushroom kinds together (`pool`). Which mushroom kind a
      mushroom cell is charged to never changes which cells are selected, so
      the pooled count is all that matters. */
  datatype Counters = Counters(exact: multiset<Material>, pool: nat)

  /** The counters freshly copied from a requirement. */
  function CountersOf(itemsToRemove: multiset<Material>): Counters
  {
    Counters(Exact(itemsToRemove), MushroomCount(itemsToRemove))
  }

  /** How many units the counters still allow to be removed. */
  function Open(c: Counters): nat
  {
    |c.exact| + c.pool
  }

  /** One step of the pass on a copied cell: a mushroom cell is selected while
      any mushroom counter is positive, any other occupied cell while the
      counter of its own kind is positive, and a selected cell uses up one
      unit of that counter. Empty and air cells are passed over. */
  function Visit(cell: Option<Stack>, c: Counters): (step: (bool, Counters))
    ensures step.0 ==> IsOccupied(cell) && Open(step.1) == Open(c) - 1
    ensures !step.0 ==> step.1 == c
  {
    if !IsOccupied(cell) then (false, c)
    else
      var m := cell.value.material;
      if m in Mushrooms then
        if c.pool > 0 then (true, c.(pool := c.pool - 1)) else (false, c)
      else if c.exact[m] > 0 then (true, c.(exact := c.exact - multiset{m}))
      else (false, c)
  }

  /** The cells of the copy that the pass selects, walking them in order. */
  function Selection(copy: seq<Option<Stack>>, c: Counters): (sel: seq<bool>)
    ensures |sel| == |copy|
    ensures forall i :: 0 <= i < |copy| && sel[i] ==> IsOccupied(copy[i])
  {
    if copy == [] then []
    else
      var step := Visit(copy[0], c);
      [step.0] + Selection(copy[1..], step.1)
  }

  /** The selection from cell `i` on starts with that cell's visit. */
  lemma SelectionStep(copy: seq<Option<Stack>>, i: int, c: Counters)
    requires 0 <= i < |copy|
    ensures Selection(copy[i..], c) == [Visit(copy[i], c).0] + Selection(copy[i + 1..], Visit(copy[i], c).1)
  {
    assert copy[i..][1..] == copy[i + 1..];
  }

  /** Advancing the pass by one cell: the pending part of a selection starts
      with that cell's decision, and the counters it leaves select the rest. */
  lemma PlanAdvance(copy: seq<Option<Stack>>, plan: seq<bool>, i: int, c: Counters, picked: bool, c': Counters)
    requires 0 <= i < |copy| == |plan|
    requires plan[i..] == Selection(copy[i..], c)
    requires Visit(copy[i], c) == (picked, c')
    ensures plan[i] == picked && plan[i + 1..] == Selection(copy[i + 1..], c')
  {
    var sel := Selection(copy[i..], c);
    assert copy[i..][1..] == copy[i + 1..];
    assert sel[0] == picked && sel[1..] == Selection(copy[i + 1..], c');
    assert plan[i] == plan[i..][0] && plan[i + 1..] == plan[i..][1..];
  }

  /** The selection for a fresh set of counters copied from the recipe. */
  function Plan(copy: seq<Option<Stack>>, required: multiset<Material>): seq<bool>
  {
    Selection(copy, CountersOf(required))
  }

  /** How many cells a selection picks. */
  function Chosen(sel: seq<bool>): nat
  {
    if sel == [] then 0 else (if sel[0] then 1 else 0) + Chosen(sel[1..])
  }

  /** Every selection uses up one counter unit, so no more cells are picked
      than there were units to remove and no counter goes below zero. */
  lemma {:induction false} SelectionBound(copy: seq<Option<Stack>>, c: Counters)
    ensures Chosen(Selection(copy, c)) <= Open(c)
  {
    if copy != [] {
      SelectionBound(copy[1..], Visit(copy[0], c).1);
    }
  }

  /** At most the recipe total of cells is selected. */
  lemma PlanBound(copy: seq<Option<Stack>>, required: multiset<Material>)
    ensures Chosen(Plan(copy, required)) <= |required|
  {
    SelectionBound(copy, CountersOf(required));
  }

  /** Visiting a cell whose unit is still owed selects it and leaves owed
      exactly the units of the cells after it. */
  lemma VisitOwed(cell: Option<Stack>, rest: multiset<Material>)
    ensures Visit(cell, CountersOf(CellUnit(cell) + rest)) == (IsOccupied(cell), CountersOf(rest))
  {
    if IsOccupied(cell) {
      var m := cell.value.material;
      var owed := rest + multiset{m};
      assert CellUnit(cell) + rest == owed;
      AddOne(rest, m);
      ExactAt(owed, m);
      var c := CountersOf(owed);
      if m in Mushrooms {
        assert c.pool > 0;
        assert c.(pool := c.pool - 1) == CountersOf(rest);
      } else {
        assert c.exact[m] > 0;
        assert c.(exact := c.exact - multiset{m}) == CountersOf(rest);
      }
    } else {
      assert CellUnit(cell) + rest == rest;
    }
  }

  /** Visiting an occupied cell whose counter is positive selects it and
      charges one unit to `charged`: its own kind, or for a mushroom cell
      any mushroom kind with a positive counter. */
  lemma VisitCharges(cell: Option<Stack>, counters: multiset<Material>, charged: Material)
    requires IsOccupied(cell) && counters[charged] > 0
    requires cell.value.material in Mushrooms ==> charged in Mushrooms
    requires cell.value.material !in Mushrooms ==> charged == cell.value.material
    ensures Visit(cell, CountersOf(counters)) == (true, CountersOf(counters - multiset{charged}))
  {
    RemoveOne(counters, charged);
    ExactAt(counters, charged);
  }

  /** Visiting an empty cell, or one whose counters are used up, selects
      nothing and charges nothing. */
  lemma VisitPasses(cell: Option<Stack>, counters: multiset<Material>)
    requires IsOccupied(cell) ==>
      if cell.value.material in Mushrooms then forall k :: k in Mushrooms ==> counters[k] == 0
      else counters[cell.value.material] == 0
    ensures Visit(cell, CountersOf(counters)) == (false, CountersOf(counters))
  {
    if IsOccupied(cell) {
      ExactAt(counters, cell.value.material);
    }
  }

  /** With the copy's own occupied slots as counters, the first cell is
      selected exactly when occupied and leaves the slots of the rest owed. */
  lemma OwedStep(copy: seq<Option<Stack>>)
    requires copy != []
    ensures Visit(copy[0], CountersOf(Occupied(copy))) == (IsOccupied(copy[0]), CountersOf(Occupied(copy[1..])))
  {
    assert Occupied(copy) == CellUnit(copy[0]) + Occupied(copy[1..]);
    VisitOwed(copy[0], Occupied(copy[1..]));
  }

  /** A selection that picks the first cell exactly when occupied, followed by
      one that picks exactly the occupied cells of the rest, picks exactly the
      occupied cells. */
  lemma SelectionPointwise(copy: seq<Option<Stack>>, c: Counters, c': Counters)
    requires copy != [] && Visit(copy[0], c) == (IsOccupied(copy[0]), c')
    requires forall i :: 0 <= i < |copy| - 1 ==> Selection(copy[1..], c')[i] == IsOccupied(copy[1..][i])
    ensures forall i :: 0 <= i < |copy| ==> Selection(copy, c)[i] == IsOccupied(copy[i])
  {
    var sel, tail := Selection(copy, c), Selection(copy[1..], c');
    assert sel == [IsOccupied(copy[0])] + tail;
    forall i | 1 <= i < |copy| ensures sel[i] == IsOccupied(copy[i]) {
      assert sel[i] == tail[i - 1] && copy[i] == copy[1..][i - 1];
    }
  }

  /** When the counters are exactly the occupied cells of the copy, up to the
      choice of mushroom kinds, every occupied cell is selected. */
  lemma {:induction false} SelectionCoversAll(copy: seq<Option<Stack>>)
    ensures forall i :: 0 <= i < |copy| ==> Selection(copy, CountersOf(Occupied(copy)))[i] == IsOccupied(copy[i])
  {
    if copy != [] {
      OwedStep(copy);
      SelectionCoversAll(copy[1..]);
      SelectionPointwise(copy, CountersOf(Occupied(copy)), CountersOf(Occupied(copy[1..])));
    }
  }

  /** On a matching matrix the plan picks exactly the occupied cells. */
  lemma PlanSelectsOccupied(copy: seq<Option<Stack>>, required: multiset<Material>)
    requires GridMatches(required, copy)
    ensures forall i :: 0 <= i < |copy| ==> Plan(copy, required)[i] == IsOccupied(copy[i])
  {
    MatchCharacterisation(required, Occupied(copy));
    assert CountersOf(required) == CountersOf(Occupied(copy));
    SelectionCoversAll(copy);
  }

  /** The effect on one live slot of a selected cell whose copy held kind
      `expected`: an empty slot or one that now holds another kind is left
      alone, a stack of more than one loses one item, and a last item is
      cleared. */
  function TakeOne(live: Option<Stack>, expected: Material): Option<Stack>
  {
    match live
    case None => None
    case Some(s) =>
      if s.material != expected then live
      else if s.amount > 1 then Some(Stack(s.material, s.amount - 1))
      else None
  }

  /** One live slot after the pass, given its copied cell and whether the
      pass selected it. */
  function ConsumeCell(live: Option<Stack>, copied: Option<Stack>, picked: bool): Option<Stack>
  {
    if picked && copied.Some? then TakeOne(live, copied.value.material) else live
  }

  /** The live matrix after the pass applied the selection `sel` of the
      copy. */
  function Consume(live: seq<Option<Stack>>, copy: seq<Option<Stack>>, sel: seq<bool>): (after: seq<Option<Stack>>)
    requires |live| == |copy| == |sel|
    ensures |after| == |live|
    ensures forall i :: 0 <= i < |live| && !sel[i] ==> after[i] == live[i]
    ensures forall i :: 0 <= i < |live| && after[i] != live[i] ==>
      && sel[i] && live[i].Some? && copy[i].Some?
      && live[i].value.material == copy[i].value.material
      && (after[i] == None || after[i] == Some(Stack(live[i].value.material, live[i].value.amount - 1)))
  {
    seq(|live|, i requires 0 <= i < |live| => ConsumeCell(live[i], copy[i], sel[i]))
  }

  /** A matrix that agrees with the pass cell by cell is its result. */
  lemma ConsumeCellwise(after: seq<Option<Stack>>, live: seq<Option<Stack>>, copy: seq<Option<Stack>>, sel: seq<bool>)
    requires |after| == |live| == |copy| == |sel|
    requires forall j :: 0 <= j < |after| ==> after[j] == ConsumeCell(live[j], copy[j], sel[j])
    ensures after == Consume(live, copy, sel)
  {
  }

  /** The total number of items in a matrix. */
  function Units(cells: seq<Option<Stack>>): int
  {
    if cells == [] then 0 else (if cells[0].Some? then cells[0].value.amount else 0) + Units(cells[1..])
  }

  /** Stacks in a live inventory hold at least one item. */
  predicate WellFormed(cells: seq<Option<Stack>>)
  {
    forall i :: 0 <= i < |cells| && cells[i].Some? ==> cells[i].value.amount >= 1
  }

  /** Each selected slot gives up at most one item and unselected slots give
      up none, so the pass removes no more items than cells it selected. */
  lemma {:induction false} ConsumeRemovesAtMostChosen(live: seq<Option<Stack>>, copy: seq<Option<Stack>>, sel: seq<bool>)
    requires |live| == |copy| == |sel|
    requires WellFormed(live)
    ensures WellFormed(Consume(live, copy, sel))
    ensures Units(live) - Chosen(sel) <= Units(Consume(live, copy, sel)) <= Units(live)
  {
    if live != [] {
      var after := Consume(live, copy, sel);
      assert after[1..] == Consume(live[1..], copy[1..], sel[1..]);
      ConsumeRemovesAtMostChosen(live[1..], copy[1..], sel[1..]);
    }
  }

  /** The pass takes at most the recipe total of items out of the live
      matrix, however that matrix changed since the copy was taken, and never
      adds any. */
  lemma RemovalBound(live: seq<Option<Stack>>, copy: seq<Option<Stack>>, required: multiset<Material>)
    requires |live| == |copy| && WellFormed(live)
    ensures Units(live) - |required| <= Units(Consume(live, copy, Plan(copy, required))) <= Units(live)
  {
    PlanBound(copy, required);
    ConsumeRemovesAtMostChosen(live, copy, Plan(copy, required));
  }

  /** Selecting exactly the occupied cells of an untouched matrix takes one
      item from each of them and leaves the other cells alone. */
  lemma ConsumeOccupied(cells: seq<Option<Stack>>, sel: seq<bool>)
    requires |sel| == |cells|
    requires forall i :: 0 <= i < |cells| ==> sel[i] == IsOccupied(cells[i])
    ensures var after := Consume(cells, cells, sel);
      && (forall i :: 0 <= i < |cells| && IsOccupied(cells[i]) && cells[i].value.amount > 1 ==>
            after[i] == Some(Stack(cells[i].value.material, cells[i].value.amount - 1)))
      && (forall i :: 0 <= i < |cells| && IsOccupied(cells[i]) && cells[i].value.amount <= 1 ==> after[i] == None)
      && (forall i :: 0 <= i < |cells| && !IsOccupied(cells[i]) ==> after[i] == cells[i])
  {
  }

  /** If a matching matrix is still untouched when the pass runs, every
      occupied slot loses exactly one item, and the matrix matches again
      afterwards exactly when no occupied slot held a single item: the
      potion can be crafted again at once only while every stack lasts. */
  lemma ChainedProduction(required: multiset<Material>, cells: seq<Option<Stack>>)
    requires GridMatches(required, cells)
    ensures var after := Consume(cells, cells, Plan(cells, required));
      && (forall i :: 0 <= i < |cells| && IsOccupied(cells[i]) && cells[i].value.amount > 1 ==>
            after[i] == Some(Stack(cells[i].value.material, cells[i].value.amount - 1)))
      && (forall i :: 0 <= i < |cells| && IsOccupied(cells[i]) && cells[i].value.amount <= 1 ==> after[i] == None)
      && (forall i :: 0 <= i < |cells| && !IsOccupied(cells[i]) ==> after[i] == cells[i])
      && (GridMatches(required, after) <==>
            forall i :: 0 <= i < |cells| && IsOccupied(cells[i]) ==> cells[i].value.amount > 1)
  {
    var sel := Plan(cells, required);
    PlanSelectsOccupied(cells, required);
    ConsumeOccupied(cells, sel);
    RematchAfterConsume(required, cells, Consume(cells, cells, sel));
  }

  /** A matching matrix from which each occupied slot lost one item, a last
      item clearing the slot, matches again exactly when every occupied stack
      held more than one item. */
  lemma RematchAfterConsume(required: multiset<Material>, cells: seq<Option<Stack>>, after: seq<Option<Stack>>)
    requires GridMatches(required, cells) && |after| == |cells|
    requires forall i :: 0 <= i < |cells| && IsOccupied(cells[i]) && cells[i].value.amount > 1 ==>
      after[i] == Some(Stack(cells[i].value.material, cells[i].value.amount - 1))
    requires forall i :: 0 <= i < |cells| && IsOccupied(cells[i]) && cells[i].value.amount <= 1 ==> after[i] == None
    requires forall i :: 0 <= i < |cells| && !IsOccupied(cells[i]) ==> after[i] == cells[i]
    ensures GridMatches(required, after) <==>
      forall i :: 0 <= i < |cells| && IsOccupied(cells[i]) ==> cells[i].value.amount > 1
  {
    forall i | 0 <= i < |cells| && IsOccupied(after[i])
      ensures IsOccupied(cells[i]) && after[i].value.material == cells[i].value.material
    {
    }
    if forall i :: 0 <= i < |cells| && IsOccupied(cells[i]) ==> cells[i].value.amount > 1 {
      AmountsIrrelevant(cells, after);
    } else {
      var j :| 0 <= j < |cells| && IsOccupied(cells[j]) && cells[j].value.amount <= 1;
      OccupiedShrinks(cells, after, j);
    }
  }

  /** Clearing some occupied cells and leaving the kinds of all others alone
      lowers the number of non-empty slots. */
  lemma {:induction false} OccupiedShrinks(big: seq<Option<Stack>>, small: seq<Option<Stack>>, j: int)
    requires |big| == |small| && 0 <= j < |big|
    requires forall i :: 0 <= i < |small| && IsOccupied(small[i]) ==>
      IsOccupied(big[i]) && small[i].value.material == big[i].value.material
    requires IsOccupied(big[j]) && !IsOccupied(small[j])
    ensures |Occupied(small)| < |Occupied(big)|
  {
    if j == 0 {
      OccupiedNoLarger(big[1..], small[1..]);
    } else {
      OccupiedShrinks(big[1..], small[1..], j - 1);
      assert |CellUnit(small[0])| <= |CellUnit(big[0])|;
    }
  }

  lemma {:induction false} OccupiedNoLarger(big: seq<Option<Stack>>, small: seq<Option<Stack>>)
    requires |big| == |small|
    requires forall i :: 0 <= i < |small| && IsOccupied(small[i]) ==>
      IsOccupied(big[i]) && small[i].value.material == big[i].value.material
    ensures |Occupied(small)| <= |Occupied(big)|
  {
    if big != [] {
      OccupiedNoLarger(big[1..], small[1..]);
      assert |CellUnit(small[0])| <= |CellUnit(big[0])|;
    }
  }

  /** The grid of the counterexample below: a brown mushroom and two nether
      stars, one of each per slot. */
  function SurplusGrid(): seq<Option<Stack>>
  {
    [Some(Stack(BrownMushroom, 1)), Some(Stack(Other("NETHER_STAR"), 1)), Some(Stack(Other("NETHER_STAR"), 1))]
  }

  lemma SurplusGridCounts()
    ensures Occupied(SurplusGrid()) == multiset{BrownMushroom, Other("NETHER_STAR"), Other("NETHER_STAR")}
  {
    var c0: Option<Stack>, c1: Option<Stack> := Some(Stack(BrownMushroom, 1)), Some(Stack(Other("NETHER_STAR"), 1));
    assert SurplusGrid()[1..] == [c1, c1] && [c1, c1][1..] == [c1] && |[c1][1..]| == 0;
    assert Occupied([c1]) == multiset{c1.value.material} by {
      assert Occupied([c1]) == CellUnit(c1) + Occupied([]);
    }
    assert Occupied([c1, c1]) == multiset{c1.value.material, c1.value.material} by {
      assert Occupied([c1, c1]) == CellUnit(c1) + Occupied([c1]);
    }
    assert Occupied(SurplusGrid()) == CellUnit(c0) + Occupied([c1, c1]);
  }

  lemma SurplusGridPlan()
    ensures Plan(SurplusGrid(), multiset{BrownMushroom, RedMushroom, Other("NETHER_STAR")}) == [true, true, false]
  {
    var star := Other("NETHER_STAR");
    var required := multiset{BrownMushroom, RedMushroom, star};
    var c0: Option<Stack>, c1: Option<Stack> := Some(Stack(BrownMushroom, 1)), Some(Stack(star, 1));
    assert SurplusGrid()[1..] == [c1, c1] && [c1, c1][1..] == [c1] && |[c1][1..]| == 0;
    assert CountersOf(required) == Counters(multiset{star}, 2) by {
      assert Exact(required) == multiset{star};
    }
    assert Visit(c0, Counters(multiset{star}, 2)) == (true, Counters(multiset{star}, 1));
    assert Visit(c1, Counters(multiset{star}, 1)) == (true, Counters(multiset{}, 1));
    assert Visit(c1, Counters(multiset{}, 1)) == (false, Counters(multiset{}, 1));
    assert Selection([c1], Counters(multiset{}, 1)) == [false];
    assert Selection([c1, c1], Counters(multiset{star}, 1)) == [true, false];
  }

  /** What the repository's check lets through: the recipe brown mushroom,
      red mushroom and nether star is accepted on the slots brown mushroom,
      nether star, nether star, and the pass then selects only the first two
      cells, so the surplus nether star stays in the grid although the potion
      was handed out. */
  lemma AsWrittenLeavesSurplus()
    ensures var required := multiset{BrownMushroom, RedMushroom, Other("NETHER_STAR")};
            && MatchesAsWritten(required, Occupied(SurplusGrid()), |Occupied(SurplusGrid())|)
            && !GridMatches(required, SurplusGrid())
            && Plan(SurplusGrid(), required) == [true, true, false]
  {
    SurplusGridCounts();
    SurplusGridPlan();
    AsWrittenAcceptsMissingMushroom();
  }
}
