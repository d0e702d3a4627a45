# PlayerSize potion crafting engine, modelled in Dafny

This project models the potion crafting engine of the PlayerSize server plugin
(`CraftManager`). Players brew a size potion in a crafting grid. The engine
has four parts:

- **Recipe.** A configured list of material names becomes a requirement: a
  count of slots per material.
- **Matching.** The crafting matrix is read into a count of occupied slots
  per material. A stack counts once, whatever its size. The grid matches when
  every requirement is covered and the grid holds exactly as many occupied
  slots as the recipe total. The four mushroom kinds (brown and red mushroom,
  crimson and warped fungus) are interchangeable.
- **Commit.** Taking the potion from the result slot cancels the default take,
  puts the potion on the cursor and copies the matrix.
- **Deferred tasks.** A deferred removal pass walks that copy with fresh
  counters from the recipe. It takes one item from each selected live slot.
  A second deferred task then re-evaluates the grid and either fills the
  result slot again or clears it.

Modules:

- `Items` (`items.dfy`): materials, stacks and the mushroom category. A Java
  `Map<Material, Integer>` with positive counts is a `multiset<Material>`.
- `Recipe` (`recipe.dfy`): the requirement built from a token list.
- `Matching` (`matching.dfy`): slot counting, the recipe check (corrected and
  as written) and the inventory-kind gate.
- `Consumption` (`consumption.dfy`): the removal pass as specification
  functions. `Selection` gives the cells the pass picks and `Consume` the
  live matrix afterwards. The module also proves the lemmas about them.
- `Crafting` (`crafting.dfy`): the imperative engine. `CraftingInventory` is a
  class whose matrix is an array updated in place and whose result slot is a
  field. `CraftManager` is a class holding the recipe, with one method per
  handler and per deferred task. `TakeResult` runs a click and its two
  deferred tasks one after the other.

The removal pass picks a mushroom key with a positive counter in the
unspecified iteration order of a `Set.of`. The model chooses any such key.
The spec functions track the non-mushroom counters exactly and the mushroom
counters as one pooled number. That is enough, because the choice of key
never changes which cells are selected.

When the grid does not match, the grid-changed handler leaves the result slot
as it was: it only ever installs the potion, never clears a stale one
(`CraftManager.java:93-97`), and `OnPrepareCraft` does the same. The result is
cleared only by the re-evaluation after a commit.

## Model

| member | source | states |
|---|---|---|
| Items.MushroomCount | src/main/java/com/meows/playersize/CraftManager.java:24-28 | The pooled mushroom count is at most the total, and is zero exactly when none of the four mushroom kinds is present |
| Items.Exact | src/main/java/com/meows/playersize/CraftManager.java:24-28 | Splits a count into the part matched by exact kind and the mushroom pool: a sub-multiset whose size plus the pool is the total |
| Recipe.RecipeOf | src/main/java/com/meows/playersize/CraftManager.java:39-46 | The recipe total never exceeds the number of configured tokens |
| Recipe.RecipeConcat | src/main/java/com/meows/playersize/CraftManager.java:39-46 | Loading two token lists one after the other sums their requirements, so token order does not matter |
| Recipe.TokenEffect | src/main/java/com/meows/playersize/CraftManager.java:41-45 | A recognised token adds exactly one unit of its material wherever it stands; an unrecognised token changes nothing |
| Recipe.RecipeKeys | src/main/java/com/meows/playersize/CraftManager.java:39-46 | A material has a (hence positive) count exactly when some token names it |
| Recipe.RecipeTotal | src/main/java/com/meows/playersize/CraftManager.java:39-46 | The recipe total equals the number of tokens exactly when every token is recognised |
| Crafting.CraftManager.constructor | src/main/java/com/meows/playersize/CraftManager.java:30-33 | A new manager holds the recipe loaded from the configured tokens |
| Crafting.CraftManager.LoadRecipe | src/main/java/com/meows/playersize/CraftManager.java:35-46 | The loop leaves in requiredItems the requirement built from the tokens, so the Recipe lemmas apply to it |
| Matching.Occupied | src/main/java/com/meows/playersize/CraftManager.java:83-90 | The occupied-slot count never exceeds the number of cells and never contains air |
| Matching.OccupiedUpdate | src/main/java/com/meows/playersize/CraftManager.java:83-90 | Replacing one cell changes the slot count by exactly the old and new cells' units |
| Matching.AmountsIrrelevant | src/main/java/com/meows/playersize/CraftManager.java:84-88 | Two matrices with the same kinds in the same occupied cells have the same count, whatever the stack sizes |
| Crafting.CountMatrix | src/main/java/com/meows/playersize/CraftManager.java:79-90 | The scan yields the occupied-slot count of the matrix, and nonEmptySlots equals the sum of its values and is at most the matrix size |
| Crafting.CountMushrooms | src/main/java/com/meows/playersize/CraftManager.java:354-357 | Summing over the mushroom set in any order gives the pooled mushroom count |
| Crafting.CraftManager.MatchesRecipe | src/main/java/com/meows/playersize/CraftManager.java:346-374 | The result is true exactly when every non-mushroom requirement has that many slots of its kind, the mushroom slots together cover the mushroom requirements together, and nonEmptySlots equals the recipe total |
| Matching.MatchesAsWritten | src/main/java/com/meows/playersize/CraftManager.java:346-374 | The check as the program computes it: each non-mushroom requirement against its own kind, each mushroom requirement on its own against the pooled mushroom count, and the slot total |
| Crafting.CraftManager.MatchesRecipeAsWritten | src/main/java/com/meows/playersize/CraftManager.java:346-374 | The per-entry loop of the program returns exactly MatchesAsWritten of the recipe and the counts |
| Matching.MatchCharacterisation | src/main/java/com/meows/playersize/CraftManager.java:346-374 | With the slot count of a real grid, the check holds exactly when the occupied slots are the recipe up to the choice of mushroom kinds (both directions) |
| Matching.DilutionRejected | src/main/java/com/meows/playersize/CraftManager.java:370-373 | Adding one item to an empty cell of a matching grid makes it fail |
| Matching.MushroomGeneralisation | src/main/java/com/meows/playersize/CraftManager.java:353-360 | A one-mushroom recipe is met by a single slot of any mushroom kind and by no other kind |
| Matching.AirNeverMatches | src/main/java/com/meows/playersize/CraftManager.java:84-88 | A recipe that names air is never met, because air slots are not counted |
| Matching.SmallGridNeverMatches | src/main/java/com/meows/playersize/CraftManager.java:370-373 | A grid with fewer cells than the recipe total never matches |
| Matching.GridAllowed | src/main/java/com/meows/playersize/CraftManager.java:66-77 | The workbench is always allowed, the 2x2 grid exactly when the recipe total is below five, any other inventory never |
| Matching.CorrectedImpliesAsWritten | src/main/java/com/meows/playersize/CraftManager.java:353-360 | Every grid the corrected check accepts is also accepted by the check as written |
| Matching.AsWrittenAgreesForOneMushroomKind | src/main/java/com/meows/playersize/CraftManager.java:353-360 | When the recipe names at most one mushroom kind, the check as written and the corrected check agree |
| Matching.AsWrittenAcceptsMissingMushroom | src/main/java/com/meows/playersize/CraftManager.java:353-360 | The check as written accepts brown mushroom, nether star, nether star for the recipe brown mushroom, red mushroom, nether star; the corrected check rejects it |
| Crafting.CraftManager.OnPrepareCraft | src/main/java/com/meows/playersize/CraftManager.java:52-97 | With the feature on and the inventory kind allowed, a matching grid gets the potion as its result; in every other case the result slot is unchanged |
| Crafting.CraftManager.OnInventoryClick | src/main/java/com/meows/playersize/CraftManager.java:101-181 | Only when enabled, the kind is allowed, the result is the potion, the clicked slot number is 0 and the cursor is empty or air: the click is cancelled, the potion goes to the cursor and a copy equal to the matrix is scheduled. Otherwise nothing is cancelled, the cursor is kept and nothing is scheduled |
| Consumption.Visit | src/main/java/com/meows/playersize/CraftManager.java:209-244 | A cell is selected only if occupied, and a selection uses up exactly one open counter unit; a cell passed over changes no counter |
| Consumption.Selection | src/main/java/com/meows/playersize/CraftManager.java:208-244 | The pass decides once for every copied cell and selects only occupied cells |
| Consumption.SelectionBound | src/main/java/com/meows/playersize/CraftManager.java:236-244 | No more cells are selected than there were counter units, so no counter goes below zero |
| Consumption.PlanBound | src/main/java/com/meows/playersize/CraftManager.java:193-244 | The pass selects at most the recipe total of cells |
| Consumption.SelectionCoversAll | src/main/java/com/meows/playersize/CraftManager.java:208-244 | With counters equal to the copy's own occupied slots, every occupied cell is selected and no other |
| Consumption.PlanSelectsOccupied | src/main/java/com/meows/playersize/CraftManager.java:193-244 | On a matching copy the pass selects exactly the occupied cells |
| Consumption.Consume | src/main/java/com/meows/playersize/CraftManager.java:246-289 | An unselected slot is unchanged. A slot that changes was selected, still holds the copied kind, and either loses exactly one item or is cleared |
| Consumption.ConsumeRemovesAtMostChosen | src/main/java/com/meows/playersize/CraftManager.java:267-289 | The pass keeps stacks positive and removes no more items than cells it selected, and adds none |
| Consumption.RemovalBound | src/main/java/com/meows/playersize/CraftManager.java:193-289 | However the live matrix changed since the copy, the pass removes at most the recipe total of items and adds none |
| Consumption.ChainedProduction | src/main/java/com/meows/playersize/CraftManager.java:193-337 | On an untouched matching grid every occupied slot loses one item (cleared at one) and the others stay; the grid matches again exactly when every occupied stack held more than one item |
| Consumption.RematchAfterConsume | src/main/java/com/meows/playersize/CraftManager.java:311-337 | A matching grid from which every occupied slot lost one item (cleared at one) matches again exactly when every occupied stack held more than one item |
| Consumption.AsWrittenLeavesSurplus | src/main/java/com/meows/playersize/CraftManager.java:208-244 | On the grid the check as written wrongly accepts, the pass selects only the first two cells, so a nether star stays behind after the potion is handed out |
| Crafting.CraftManager.ChargeCell | src/main/java/com/meows/playersize/CraftManager.java:209-244 | One step of the counter walk agrees with Visit: select when the cell's counter (any positive mushroom key for a mushroom) is positive and decrement that counter by one, else leave the counters alone |
| Crafting.CraftManager.TakeFromSlot | src/main/java/com/meows/playersize/CraftManager.java:246-289 | Slot i loses one item if it still holds the expected kind, is cleared at one item, is skipped when empty or changed; no other slot changes |
| Crafting.CraftManager.RemoveFromCell | src/main/java/com/meows/playersize/CraftManager.java:208-289 | One iteration of the pass: the counters step as Visit prescribes, live slot i becomes ConsumeCell of its old value, every other slot is unchanged |
| Crafting.CraftManager.RemoveIngredients | src/main/java/com/meows/playersize/CraftManager.java:192-293 | The live matrix becomes Consume of its old value under the selection computed from the copy alone, so a skipped slot still uses up its counter |
| Crafting.CraftManager.Reevaluate | src/main/java/com/meows/playersize/CraftManager.java:311-338 | The result slot holds a fresh potion if the depleted grid matches and is cleared otherwise |
| Crafting.CraftManager.TakeResult | src/main/java/com/meows/playersize/CraftManager.java:153-343 | A click that does not commit changes neither grid nor result. One that commits cancels, hands over the potion, consumes by the plan of the copy and re-evaluates. After a matching grid the potion is offered again exactly when every occupied stack held more than one item |

## Left out

- Bukkit event plumbing, event priorities and the scheduler are left out. The two deferred `runTask` steps are the consecutive calls `RemoveIngredients` then `Reevaluate`, with nothing touching the grid in between in `TakeResult`. `RemoveIngredients` alone accepts any live matrix, which covers changes made before the pass runs.
- Debug logging and the debug-only copy loop are left out; the non-debug copy is modelled and is equivalent.
- `Material.valueOf(token.toUpperCase())` is a foreign enum lookup. It becomes the parameter `parse`, with `None` for names it rejects. The warning logged for a rejected name is left out.
- Creating and recognising the size potion belong to `SizePotionManager`, which is not part of this model. The potion is the opaque value `SizePotion`, and recognising it is a constructor test.
- The configuration switch is the parameter `enabled`. Reading the recipe from the configuration is the token list passed to `LoadRecipe`.
- The `instanceof CraftingInventory` test and the null-inventory test are left out. Every inventory in the model is a crafting inventory and is never null.
- The clicking player is left out. `ClickOutcome.cursor` is what the player holds on the cursor afterwards.
- Java `int` overflow of the counts and of the recipe total is not modelled. Counts are unbounded, and overflow would need more than two billion configured tokens.
- Crafting.CraftManager.MatchesRecipe: implements the corrected, pooled mushroom check, not the check as written. The program's check is modelled by `Crafting.CraftManager.MatchesRecipeAsWritten` and `Matching.MatchesAsWritten`, and the two are compared under "Findings".
- Crafting.CraftManager.OnPrepareCraft: gates on the corrected, pooled mushroom check. For the recipe BROWN_MUSHROOM, RED_MUSHROOM, NETHER_STAR and occupied slots brown mushroom, nether star, nether star, the program installs the potion. The model leaves the result slot as it was.
- Crafting.CraftManager.Reevaluate: re-evaluates with the corrected, pooled mushroom check. For the same recipe, a depleted grid of brown mushroom, nether star, nether star gets the potion again in the program. The model clears the result slot. Such a grid is left after a commit on brown mushroom ×2, nether star ×2, nether star ×1.
- Crafting.CraftManager.TakeResult: its commit case re-evaluates through `Reevaluate` with the corrected check. It therefore differs from the program on the input above, and on any recipe that names two or more mushroom kinds where the two checks disagree (`Matching.AsWrittenAcceptsMissingMushroom`).
- The clicked slot number is compared with 0 as the program does. Which inventory the number indexes (the crafting grid or the player's own) is not modelled: a `Click` carries only the number.
- `PlayerSizePlugin.java`, `PlayerSizeManager.java`, `ConfigManager.java` and `SizePotionManager.java` are not part of this model. They hold commands, JSON and YAML persistence, floating-point size handling and foreign API calls.

## Findings

| source | as written | input that shows it | evidently intended | confidence | as-written member | corrected member |
|---|---|---|---|---|---|---|
| src/main/java/com/meows/playersize/CraftManager.java:353-360 | Each required mushroom kind is compared on its own with the pooled count of all mushroom slots. | Recipe BROWN_MUSHROOM, RED_MUSHROOM, NETHER_STAR and grid brown mushroom, nether star, nether star. The check accepts, one mushroom is missing, and the removal pass leaves one nether star in the grid. | The mushroom requirements, added together, are compared with the pooled mushroom slots. | high; not executed | Consumption.AsWrittenLeavesSurplus | Matching.MatchCharacterisation |
