/** The crafting listener: it loads the recipe, puts the size potion into the
    result slot of a matching grid, and when the player takes the potion it
    cancels the default take, hands the potion over and consumes the
    ingredients itself in a later pass, after which it evaluates the grid
    again. The two deferred scheduler tasks are the methods RemoveIngredients
    and Reevaluate, called one after the other. */
module Crafting {
  import opened Items
  import opened Recipe
  import opened Matching
  import opened Consumption

  /** A crafting inventory: the result slot is inventory slot 0, and matrix
      cell `i` is inventory slot `i + 1`. */
  class CraftingInventory {
    const kind: InventoryType
    const matrix: array<Option<Stack>>
    var result: Option<Item>

    constructor (kind: InventoryType, cells: seq<Option<Stack>>, result: Option<Item>)
      ensures this.kind == kind && this.result == result
      ensures fresh(matrix) && matrix[..] == cells
    {
      this.kind := kind;
      this.result := result;
      matrix := new Option<Stack>[|cells|](i requires 0 <= i < |cells| => cells[i]);
    }
  }

  /** A click on an inventory slot, with what the player holds on the cursor. */
  datatype Click = Click(slot: int, cursor: Option<Item>)

  /** What handling a click decides: whether the default action is cancelled,
      what the cursor holds afterwards, and the copy of the matrix the
      deferred removal pass works from, when one was scheduled. */
  datatype ClickOutcome = ClickOutcome(cancelled: bool, cursor: Option<Item>, pending: Option<seq<Option<Stack>>>)

  /** An empty cursor holds nothing or air. */
  predicate CursorEmpty(cursor: Option<Item>)
  {
    cursor.None? || (cursor.value.Plain? && cursor.value.stack.material == Air)
  }

  /** Reads the matrix into the number of occupied slots per kind and the
      number of non-empty slots; a stack counts once whatever its size. */
  method CountMatrix(inv: CraftingInventory) returns (craftingItems: multiset<Material>, nonEmptySlots: int)
    ensures craftingItems == Occupied(inv.matrix[..])
    ensures nonEmptySlots == |craftingItems| <= inv.matrix.Length
  {
    craftingItems, nonEmptySlots := multiset{}, 0;
    var i := 0;
    while i < inv.matrix.Length
      invariant 0 <= i <= inv.matrix.Length
      invariant craftingItems == Occupied(inv.matrix[..i])
      invariant nonEmptySlots == |craftingItems|
    {
      var item := inv.matrix[i];
      OccupiedSnoc(inv.matrix[..i], item);
      assert inv.matrix[..i + 1] == inv.matrix[..i] + [item];
      if item.Some? && item.value.material != Air {
        var material := item.value.material;
        craftingItems := craftingItems + multiset{material};
        nonEmptySlots := nonEmptySlots + 1;
      }
      i := i + 1;
    }
    assert inv.matrix[..i] == inv.matrix[..];
  }

  /** The count of `counts` over those mushroom kinds that are in `kinds`. */
  function CountIn(counts: multiset<Material>, kinds: set<Material>): nat
  {
    (if BrownMushroom in kinds then counts[BrownMushroom] else 0)
    + (if RedMushroom in kinds then counts[RedMushroom] else 0)
    + (if CrimsonFungus in kinds then counts[CrimsonFungus] else 0)
    + (if WarpedFungus in kinds then counts[WarpedFungus] else 0)
  }

  /** Adds up the slots of all four mushroom kinds, visiting the category in
      no particular order. */
  method CountMushrooms(counts: multiset<Material>) returns (mushroomCount: int)
    ensures mushroomCount == MushroomCount(counts)
  {
    mushroomCount := 0;
    var rest := Mushrooms;
    while rest != {}
      invariant rest <= Mushrooms
      invariant mushroomCount + CountIn(counts, rest) == MushroomCount(counts)
      decreases rest
    {
      var mushroom :| mushroom in rest;
      mushroomCount := mushroomCount + counts[mushroom];
      rest := rest - {mushroom};
    }
  }

  class CraftManager {
    /** The recipe: how many slots of each kind the potion needs. */
    var requiredItems: multiset<Material>

    constructor (parse: string -> Option<Material>, tokens: seq<string>)
      ensures requiredItems == RecipeOf(parse, tokens)
    {
      requiredItems := multiset{};
      new;
      LoadRecipe(parse, tokens);
    }

    /** Rebuilds the recipe from the configured token list: each recognised
        name adds one unit of its kind, and unrecognised names are skipped. */
    method LoadRecipe(parse: string -> Option<Material>, tokens: seq<string>)
      modifies this
      ensures requiredItems == RecipeOf(parse, tokens)
    {
      requiredItems := multiset{};
      var i := 0;
      while i < |tokens|
        invariant 0 <= i <= |tokens|
        invariant requiredItems == RecipeOf(parse, tokens[..i])
      {
        var token := tokens[i];
        RecipePrefixStep(parse, tokens, i);
        match parse(token) {
          case Some(material) =>
            requiredItems := requiredItems + multiset{material};
          case None =>
        }
        i := i + 1;
      }
      assert tokens[..i] == tokens;
    }

    /** Whether the slot counts satisfy the recipe; the mushroom requirements
        are covered by the mushroom slots pooled. */
    method MatchesRecipe(craftingItems: multiset<Material>, nonEmptySlots: int) returns (ok: bool)
      ensures ok == Matches(requiredItems, craftingItems, nonEmptySlots)
    {
      var mushroomCount := CountMushrooms(craftingItems);
      var mushroomsRequired := CountMushrooms(requiredItems);
      if mushroomCount < mushroomsRequired {
        return false;
      }
      var pending := set m | m in requiredItems && m !in Mushrooms;
      while pending != {}
        invariant forall m | m in requiredItems && m !in Mushrooms && m !in pending :: craftingItems[m] >= requiredItems[m]
        decreases pending
      {
        var requiredMaterial :| requiredMaterial in pending;
        if craftingItems[requiredMaterial] < requiredItems[requiredMaterial] {
          return false;
        }
        pending := pending - {requiredMaterial};
      }
      ok := nonEmptySlots == |requiredItems|;
    }

    /** The recipe check as the repository computes it: each requirement in
        turn, a mushroom requirement compared with the pooled count of all
        four mushroom kinds, then the slot total. The handlers use the
        corrected `MatchesRecipe` instead. */
    method MatchesRecipeAsWritten(craftingItems: multiset<Material>, nonEmptySlots: int) returns (ok: bool)
      ensures ok == MatchesAsWritten(requiredItems, craftingItems, nonEmptySlots)
    {
      var pending := set m | m in requiredItems;
      while pending != {}
        invariant forall m | m in pending :: m in requiredItems
        invariant forall m | m in requiredItems && m !in pending ::
          if m in Mushrooms then MushroomCount(craftingItems) >= requiredItems[m]
          else craftingItems[m] >= requiredItems[m]
        decreases pending
      {
        var requiredMaterial :| requiredMaterial in pending;
        var requiredAmount := requiredItems[requiredMaterial];
        if requiredMaterial in Mushrooms {
          var mushroomCount := CountMushrooms(craftingItems);
          if mushroomCount < requiredAmount {
            return false;
          }
        } else {
          var actualAmount := craftingItems[requiredMaterial];
          if actualAmount < requiredAmount {
            return false;
          }
        }
        pending := pending - {requiredMaterial};
      }
      ok := nonEmptySlots == |requiredItems|;
    }

    /** The grid-changed handler: with the feature enabled and an allowed
        inventory kind, a matching grid gets the size potion as its result;
        otherwise the result slot is left as it was. */
    method OnPrepareCraft(enabled: bool, inv: CraftingInventory)
      modifies inv`result
      ensures inv.result ==
        if enabled && GridAllowed(inv.kind, |requiredItems|) && GridMatches(requiredItems, inv.matrix[..])
        then Some(SizePotion) else old(inv.result)
    {
      if !enabled {
        return;
      }
      var totalRequiredItems := |requiredItems|;
      if !GridAllowed(inv.kind, totalRequiredItems) {
        return;
      }
      var craftingItems, nonEmptySlots := CountMatrix(inv);
      var ok := MatchesRecipe(craftingItems, nonEmptySlots);
      if ok {
        inv.result := Some(SizePotion);
      }
    }

    /** A click takes the potion over when the feature is enabled, the
        inventory kind is allowed, the result slot holds the size potion, the
        clicked slot number is 0 and the cursor is empty. The slot number is
        an index into whichever inventory was clicked. */
    predicate Commits(enabled: bool, inv: CraftingInventory, click: Click)
      reads this, inv
    {
      && enabled
      && GridAllowed(inv.kind, |requiredItems|)
      && inv.result == Some(SizePotion)
      && click.slot == 0
      && CursorEmpty(click.cursor)
    }

    /** The click handler: when the click commits it cancels the default take,
        puts the potion on the cursor and copies the matrix for the deferred
        removal pass; otherwise it changes nothing. Neither path writes the
        inventory. */
    method OnInventoryClick(enabled: bool, inv: CraftingInventory, click: Click) returns (outcome: ClickOutcome)
      ensures Commits(enabled, inv, click) ==>
        outcome == ClickOutcome(true, Some(SizePotion), Some(inv.matrix[..]))
      ensures !Commits(enabled, inv, click) ==>
        outcome == ClickOutcome(false, click.cursor, None)
    {
      outcome := ClickOutcome(false, click.cursor, None);
      if !enabled {
        return;
      }
      if !GridAllowed(inv.kind, |requiredItems|) {
        return;
      }
      var result := inv.result;
      if result.None? || !result.value.SizePotion? {
        return;
      }
      if click.slot != 0 {
        return;
      }
      if !CursorEmpty(click.cursor) {
        return;
      }
      var matrixCopy: seq<Option<Stack>> := [];
      var i := 0;
      while i < inv.matrix.Length
        invariant 0 <= i <= inv.matrix.Length
        invariant matrixCopy == inv.matrix[..i]
      {
        matrixCopy := matrixCopy + [inv.matrix[i]];
        i := i + 1;
      }
      assert inv.matrix[..i] == inv.matrix[..];
      outcome := ClickOutcome(true, result, Some(matrixCopy));
    }

    /** The first deferred task: walks the copy with fresh counters from the
        recipe and, for each selected cell, re-reads the live slot and takes
        one item from it, clearing a last item and skipping a slot that is
        empty or now holds another kind. The counter is used up before the
        live slot is read. */
    method RemoveIngredients(inv: CraftingInventory, matrixCopy: seq<Option<Stack>>)
      requires |matrixCopy| == inv.matrix.Length
      modifies inv.matrix
      ensures inv.matrix[..] == Consume(old(inv.matrix[..]), matrixCopy, Plan(matrixCopy, requiredItems))
    {
      var itemsToRemove := requiredItems;
      ghost var plan := Plan(matrixCopy, requiredItems);
      var i := 0;
      while i < |matrixCopy|
        invariant 0 <= i <= |matrixCopy|
        invariant plan[i..] == Selection(matrixCopy[i..], CountersOf(itemsToRemove))
        invariant forall j :: 0 <= j < |matrixCopy| ==>
          inv.matrix[j] == if j < i then ConsumeCell(old(inv.matrix[j]), matrixCopy[j], plan[j]) else old(inv.matrix[j])
      {
        ghost var before := itemsToRemove;
        var shouldRemove;
        shouldRemove, itemsToRemove := RemoveFromCell(inv, i, matrixCopy[i], itemsToRemove);
        PlanAdvance(matrixCopy, plan, i, CountersOf(before), shouldRemove, CountersOf(itemsToRemove));
        i := i + 1;
      }
      ConsumeCellwise(inv.matrix[..], old(inv.matrix[..]), matrixCopy, plan);
    }

    /** One iteration of the removal pass: charges the copied cell
        `originalItem` to the counters and, when it is selected, takes one
        item from live slot `i`. */
    static method RemoveFromCell(inv: CraftingInventory, i: int, originalItem: Option<Stack>, itemsToRemove: multiset<Material>)
      returns (shouldRemove: bool, remaining: multiset<Material>)
      requires 0 <= i < inv.matrix.Length
      modifies inv.matrix
      ensures Visit(originalItem, CountersOf(itemsToRemove)) == (shouldRemove, CountersOf(remaining))
      ensures inv.matrix[i] == ConsumeCell(old(inv.matrix[i]), originalItem, shouldRemove)
      ensures forall j :: 0 <= j < inv.matrix.Length && j != i ==> inv.matrix[j] == old(inv.matrix[j])
    {
      shouldRemove, remaining := ChargeCell(originalItem, itemsToRemove);
      if shouldRemove {
        TakeFromSlot(inv, i, originalItem.value.material);
      }
    }

    /** Decides whether the pass selects a copied cell and uses up its
        counter: a mushroom cell is charged to any mushroom kind whose counter
        is positive, any other occupied cell to its own kind; empty and air
        cells are passed over. */
    static method ChargeCell(originalItem: Option<Stack>, itemsToRemove: multiset<Material>)
      returns (shouldRemove: bool, remaining: multiset<Material>)
      ensures Visit(originalItem, CountersOf(itemsToRemove)) == (shouldRemove, CountersOf(remaining))
      ensures shouldRemove ==> |remaining| == |itemsToRemove| - 1
      ensures !shouldRemove ==> remaining == itemsToRemove
    {
      shouldRemove, remaining := false, itemsToRemove;
      if originalItem.None? || originalItem.value.material == Air {
        VisitPasses(originalItem, itemsToRemove);
        return;
      }
      var itemType := originalItem.value.material;
      var requiredType := itemType;
      if itemType in Mushrooms {
        if exists mushroom :: mushroom in Mushrooms && itemsToRemove[mushroom] > 0 {
          requiredType :| requiredType in Mushrooms && itemsToRemove[requiredType] > 0;
          shouldRemove := true;
        }
      } else {
        shouldRemove := itemsToRemove[itemType] > 0;
      }
      if shouldRemove {
        VisitCharges(originalItem, itemsToRemove, requiredType);
        remaining := itemsToRemove - multiset{requiredType};
      } else {
        VisitPasses(originalItem, itemsToRemove);
      }
    }

    /** Re-reads live slot `i + 1` and takes one item of kind `itemType` from
        it: a larger stack shrinks by one, a last item is cleared, and an
        empty slot or one holding another kind is left alone. */
    static method TakeFromSlot(inv: CraftingInventory, i: int, itemType: Material)
      requires 0 <= i < inv.matrix.Length
      modifies inv.matrix
      ensures inv.matrix[i] == TakeOne(old(inv.matrix[i]), itemType)
      ensures forall j :: 0 <= j < inv.matrix.Length && j != i ==> inv.matrix[j] == old(inv.matrix[j])
    {
      var currentItem := inv.matrix[i];
      if currentItem.None? || currentItem.value.material != itemType {
        return;
      }
      var currentAmount := currentItem.value.amount;
      if currentAmount > 1 {
        inv.matrix[i] := Some(Stack(itemType, currentAmount - 1));
      } else {
        inv.matrix[i] := None;
      }
    }

    /** The second deferred task: counts the depleted matrix again and puts a
        fresh potion into the result slot if it still matches, or clears the
        result slot. */
    method Reevaluate(inv: CraftingInventory)
      modifies inv`result
      ensures inv.result == if GridMatches(requiredItems, inv.matrix[..]) then Some(SizePotion) else None
    {
      var craftingItems, nonEmptySlots := CountMatrix(inv);
      var ok := MatchesRecipe(craftingItems, nonEmptySlots);
      if ok {
        inv.result := Some(SizePotion);
      } else {
        inv.result := None;
      }
    }

    /** A click followed by its two deferred tasks, with nothing else touching
        the grid in between. A click that does not commit changes nothing.
        One that commits hands the potion over, takes one item from each
        selected slot and re-evaluates; on a grid that matched, every
        occupied slot gives up one item and the potion is offered again
        exactly when every stack held more than one item. */
    method TakeResult(enabled: bool, inv: CraftingInventory, click: Click) returns (outcome: ClickOutcome)
      modifies inv.matrix, inv`result
      ensures !old(Commits(enabled, inv, click)) ==>
        && outcome == ClickOutcome(false, click.cursor, None)
        && inv.matrix[..] == old(inv.matrix[..]) && inv.result == old(inv.result)
      ensures old(Commits(enabled, inv, click)) ==>
        && outcome.cancelled && outcome.cursor == Some(SizePotion)
        && inv.matrix[..] == Consume(old(inv.matrix[..]), old(inv.matrix[..]), Plan(old(inv.matrix[..]), requiredItems))
        && inv.result == (if GridMatches(requiredItems, inv.matrix[..]) then Some(SizePotion) else None)
      ensures old(Commits(enabled, inv, click) && GridMatches(requiredItems, inv.matrix[..])) ==>
        (inv.result == Some(SizePotion) <==>
          forall i :: 0 <= i < inv.matrix.Length && IsOccupied(old(inv.matrix[i])) ==> old(inv.matrix[i]).value.amount > 1)
    {
      outcome := OnInventoryClick(enabled, inv, click);
      if outcome.pending.Some? {
        ghost var before := inv.matrix[..];
        RemoveIngredients(inv, outcome.pending.value);
        Reevaluate(inv);
        if GridMatches(requiredItems, before) {
          ChainedProduction(requiredItems, before);
        }
      }
    }
  }
}
