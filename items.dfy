/** Item kinds, stacks and the mushroom category used by the potion recipe.
    A Java `Map<Material, Integer>` whose counts are all positive is modelled
    as a `multiset<Material>`: `getOrDefault(m, 0)` is `ms[m]`, the sum of the
    values is `|ms|`. */
module Items {

  datatype Option<+T> = None | Some(value: T)

  /** An item kind (Bukkit's `Material`). Only the kinds the engine singles
      out are named; every other kind is identified by its enum name. */
  datatype Material =
    | Air
    | BrownMushroom
    | RedMushroom
    | CrimsonFungus
    | WarpedFungus
    | Other(name: string)

  /** A stack in one slot: its kind and how many items it holds. */
  datatype Stack = Stack(material: Material, amount: int)

  /** What the result slot or the cursor can hold: the engine's own size
      potion (an opaque token) or any other stack. */
  datatype Item = SizePotion | Plain(stack: Stack)

  /** The inventory kinds the engine distinguishes: the 3x3 workbench, the
      player's own 2x2 crafting grid, and everything else. */
  datatype InventoryType = Workbench | Crafting | OtherInventory

  /** The fixed category of interchangeable mushrooms. */
  const Mushrooms: set<Material> := {BrownMushroom, RedMushroom, CrimsonFungus, WarpedFungus}

  /** How many units of `ms` are mushrooms, all four kinds pooled. */
  function MushroomCount(ms: multiset<Material>): (n: nat)
    ensures n <= |ms|
    ensures n == 0 <==> forall k :: k in Mushrooms ==> ms[k] == 0
  {
    var rest := ms[BrownMushroom := 0][RedMushroom := 0][CrimsonFungus := 0][WarpedFungus := 0];
    assert |rest| == |ms| - ms[BrownMushroom] - ms[RedMushroom] - ms[CrimsonFungus] - ms[WarpedFungus];
    ms[BrownMushroom] + ms[RedMushroom] + ms[CrimsonFungus] + ms[WarpedFungus]
  }

  /** The part of `ms` that must be matched by exact kind: everything but the
      mushrooms. */
  function Exact(ms: multiset<Material>): (r: multiset<Material>)
    ensures r <= ms
    ensures |r| + MushroomCount(ms) == |ms|
  {
    ms[BrownMushroom := 0][RedMushroom := 0][CrimsonFungus := 0][WarpedFungus := 0]
  }

  /** Kinds outside the category keep their count in the exact part;
      mushrooms have none there. */
  lemma ExactAt(ms: multiset<Material>, k: Material)
    ensures Exact(ms)[k] == if k in Mushrooms then 0 else ms[k]
  {
  }

  /** A matrix cell takes part in matching when it holds something other
      than air. */
  predicate IsOccupied(cell: Option<Stack>)
  {
    cell.Some? && cell.value.material != Air
  }

  /** Adding one unit of kind `m` adds it to the exact part or to the pool. */
  lemma AddOne(ms: multiset<Material>, m: Material)
    ensures m in Mushrooms ==>
      Exact(ms + multiset{m}) == Exact(ms) && MushroomCount(ms + multiset{m}) == MushroomCount(ms) + 1
    ensures m !in Mushrooms ==>
      Exact(ms + multiset{m}) == Exact(ms) + multiset{m} && MushroomCount(ms + multiset{m}) == MushroomCount(ms)
  {
    var ms' := ms + multiset{m};
    if m in Mushrooms {
      assert Exact(ms') == Exact(ms);
    } else {
      assert Exact(ms') == Exact(ms) + multiset{m};
    }
  }

  /** Removing one unit of kind `m` (present in `ms`) removes it from the
      exact part or from the pool. */
  lemma RemoveOne(ms: multiset<Material>, m: Material)
    requires m in ms
    ensures m in Mushrooms ==>
      Exact(ms - multiset{m}) == Exact(ms) && MushroomCount(ms - multiset{m}) == MushroomCount(ms) - 1
    ensures m !in Mushrooms ==>
      Exact(ms - multiset{m}) == Exact(ms) - multiset{m} && MushroomCount(ms - multiset{m}) == MushroomCount(ms)
  {
    var ms' := ms - multiset{m};
    assert ms == ms' + multiset{m};
    AddOne(ms', m);
  }
}
