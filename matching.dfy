/** Reading the crafting matrix into per-kind slot counts, and deciding
    whether those counts satisfy the recipe. */
module Matching {
  import opened Items

  /** The unit one matrix cell contributes to the slot count: one of its kind
      when occupied, whatever the size of its stack. */
  function CellUnit(cell: Option<Stack>): multiset<Material>
  {
    if IsOccupied(cell) then multiset{cell.value.material} else multiset{}
  }

  /** The per-kind count of occupied slots of a matrix. Its cardinality is
      the number of non-empty slots, which can never exceed the number of
      cells; air is never counted. */
  function Occupied(cells: seq<Option<Stack>>): (counts: multiset<Material>)
    ensures |counts| <= |cells|
    ensures Air !in counts
  {
    if cells == [] then multiset{} else CellUnit(cells[0]) + Occupied(cells[1..])
  }

  lemma {:induction false} OccupiedConcat(a: seq<Option<Stack>>, b: seq<Option<Stack>>)
    ensures Occupied(a + b) == Occupied(a) + Occupied(b)
  {
    if a == [] {
      assert a + b == b;
    } else {
      assert (a + b)[1..] == a[1..] + b;
      OccupiedConcat(a[1..], b);
    }
  }

  /** Counting one more cell adds that cell's unit: the step of the counting
      loop. */
  lemma OccupiedSnoc(cells: seq<Option<Stack>>, c: Option<Stack>)
    ensures Occupied(cells + [c]) == Occupied(cells) + CellUnit(c)
  {
    OccupiedConcat(cells, [c]);
    assert [c][1..] == [];
  }

  /** Replacing one cell changes the count by exactly that cell's unit. */
  lemma OccupiedUpdate(cells: seq<Option<Stack>>, i: int, c: Option<Stack>)
    requires 0 <= i < |cells|
    ensures Occupied(cells[i := c]) + CellUnit(cells[i]) == Occupied(cells) + CellUnit(c)
  {
    var pre, post := cells[..i], cells[i + 1..];
    assert cells == pre + [cells[i]] + post;
    assert cells[i := c] == pre + [c] + post;
    OccupiedConcat(pre + [cells[i]], post);
    OccupiedConcat(pre + [c], post);
    OccupiedSnoc(pre, cells[i]);
    OccupiedSnoc(pre, c);
  }

  /** Only the kind in each slot matters, never the size of its stack. */
  lemma {:induction false} AmountsIrrelevant(cells: seq<Option<Stack>>, other: seq<Option<Stack>>)
    requires |cells| == |other|
    requires forall i :: 0 <= i < |cells| ==> IsOccupied(cells[i]) == IsOccupied(other[i])
    requires forall i :: 0 <= i < |cells| && IsOccupied(cells[i]) && IsOccupied(other[i]) ==> cells[i].value.material == other[i].value.material
    ensures Occupied(cells) == Occupied(other)
  {
    if cells != [] {
      assert CellUnit(cells[0]) == CellUnit(other[0]);
      AmountsIrrelevant(cells[1..], other[1..]);
    }
  }

  /** The recipe check on the slot counts `craftingItems` and the number of
      non-empty slots: every kind outside the mushroom category has at least
      its required number of slots, the mushroom slots together cover the
      mushroom requirements together, and the grid holds no more and no less
      than the recipe total. */
  predicate Matches(required: multiset<Material>, craftingItems: multiset<Material>, nonEmptySlots: int)
  {
    && (forall m | m in required && m !in Mushrooms :: craftingItems[m] >= required[m])
    && MushroomCount(craftingItems) >= MushroomCount(required)
    && nonEmptySlots == |required|
  }

  /** The recipe check as the repository writes it: each required mushroom
      kind on its own is compared with the pooled count of all mushroom
      slots. */
  predicate MatchesAsWritten(required: multiset<Material>, craftingItems: multiset<Material>, nonEmptySlots: int)
  {
    && (forall m | m in required ::
          if m in Mushrooms then MushroomCount(craftingItems) >= required[m]
          else craftingItems[m] >= required[m])
    && nonEmptySlots == |required|
  }

  /** The recipe check applied to a whole matrix. */
  predicate GridMatches(required: multiset<Material>, cells: seq<Option<Stack>>)
  {
    Matches(required, Occupied(cells), |Occupied(cells)|)
  }

  /** Two multisets of kinds are the same when mushroom kinds are not told
      apart. */
  predicate SameUpToMushrooms(a: multiset<Material>, b: multiset<Material>)
  {
    Exact(a) == Exact(b) && MushroomCount(a) == MushroomCount(b)
  }

  /** A grid matches exactly when its occupied slots are the recipe, up to
      the choice of mushroom kinds. */
  lemma MatchCharacterisation(required: multiset<Material>, counts: multiset<Material>)
    ensures Matches(required, counts, |counts|) <==> SameUpToMushrooms(counts, required)
  {
    if Matches(required, counts, |counts|) {
      var er, ec := Exact(required), Exact(counts);
      forall k ensures er[k] <= ec[k] {
        if k !in Mushrooms && k in required {
          assert counts[k] >= required[k];
        }
      }
      assert er <= ec;
      assert |er| + MushroomCount(required) == |ec| + MushroomCount(counts);
      assert ec == er + (ec - er);
    }
    if SameUpToMushrooms(counts, required) {
      forall m | m in required && m !in Mushrooms ensures counts[m] >= required[m] {
        assert Exact(counts)[m] == Exact(required)[m];
      }
    }
  }

  /** Putting one more item into an empty cell of a matching grid makes it
      fail: a correct combination diluted with an extra item is rejected. */
  lemma DilutionRejected(required: multiset<Material>, cells: seq<Option<Stack>>, i: int, s: Stack)
    requires 0 <= i < |cells| && !IsOccupied(cells[i]) && s.material != Air
    requires GridMatches(required, cells)
    ensures !GridMatches(required, cells[i := Some(s)])
  {
    var filled := cells[i := Some(s)];
    OccupiedUpdate(cells, i, Some(s));
    assert CellUnit(cells[i]) == multiset{};
    assert CellUnit(Some(s)) == multiset{s.material};
    assert Occupied(filled) == Occupied(cells) + multiset{s.material};
  }

  /** A one-mushroom recipe is met by any single mushroom kind and by
      nothing outside the category. */
  lemma MushroomGeneralisation(k: Material, cells: seq<Option<Stack>>, v: Material)
    requires k in Mushrooms
    requires Occupied(cells) == multiset{v}
    ensures GridMatches(multiset{k}, cells) <==> v in Mushrooms
  {
    assert MushroomCount(multiset{k}) == 1;
    if v in Mushrooms {
      assert MushroomCount(multiset{v}) == 1;
    } else {
      assert MushroomCount(multiset{v}) == 0;
    }
  }

  /** A recipe naming air can never be met, since air slots are not counted. */
  lemma AirNeverMatches(required: multiset<Material>, cells: seq<Option<Stack>>)
    requires Air in required
    ensures !GridMatches(required, cells)
  {
  }

  /** A grid with fewer cells than the recipe total never matches; in
      particular the 2x2 grid cannot hold a recipe of five or more items. */
  lemma SmallGridNeverMatches(required: multiset<Material>, cells: seq<Option<Stack>>)
    requires |cells| < |required|
    ensures !GridMatches(required, cells)
  {
  }

  /** Which inventories may produce the potion: a recipe of five or more
      items needs the workbench, a smaller one also accepts the 2x2 grid. */
  function GridAllowed(kind: InventoryType, total: int): (ok: bool)
    ensures ok ==> kind != OtherInventory
    ensures kind == Workbench ==> ok
    ensures kind == Crafting ==> (ok <==> total < 5)
  {
    if total >= 5 then kind == Workbench else kind == Workbench || kind == Crafting
  }

  /** The corrected check accepts no grid the repository's check rejects. */
  lemma CorrectedImpliesAsWritten(required: multiset<Material>, counts: multiset<Material>, n: int)
    requires Matches(required, counts, n)
    ensures MatchesAsWritten(required, counts, n)
  {
    forall m | m in required && m in Mushrooms ensures MushroomCount(counts) >= required[m] {
      assert required[m] <= MushroomCount(required);
    }
  }

  /** When the recipe names at most one mushroom kind the two checks agree. */
  lemma AsWrittenAgreesForOneMushroomKind(required: multiset<Material>, counts: multiset<Material>, n: int)
    requires forall k, k' :: k in Mushrooms && k' in Mushrooms && k in required && k' in required ==> k == k'
    ensures MatchesAsWritten(required, counts, n) <==> Matches(required, counts, n)
  {
    if MatchesAsWritten(required, counts, n) {
      if k :| k in Mushrooms && k in required {
        assert MushroomCount(required) == required[k];
      } else {
        assert MushroomCount(required) == 0;
      }
    }
    if Matches(required, counts, n) {
      CorrectedImpliesAsWritten(required, counts, n);
    }
  }

  /** The repository's check accepts a grid that lacks a required mushroom
      and holds a surplus item instead: the recipe brown mushroom, red
      mushroom and nether star against the slots brown mushroom, nether star,
      nether star. */
  lemma AsWrittenAcceptsMissingMushroom()
    ensures var required := multiset{BrownMushroom, RedMushroom, Other("NETHER_STAR")};
            var counts := multiset{BrownMushroom, Other("NETHER_STAR"), Other("NETHER_STAR")};
            MatchesAsWritten(required, counts, 3) && !Matches(required, counts, 3)
  {
    var required := multiset{BrownMushroom, RedMushroom, Other("NETHER_STAR")};
    var counts := multiset{BrownMushroom, Other("NETHER_STAR"), Other("NETHER_STAR")};
    assert MushroomCount(counts) == 1;
    assert MushroomCount(required) == 2;
    forall m | m in required ensures if m in Mushrooms then MushroomCount(counts) >= required[m] else counts[m] >= required[m] {
      assert m == BrownMushroom || m == RedMushroom || m == Other("NETHER_STAR");
    }
  }
}
