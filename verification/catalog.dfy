/** The fixed item catalog built by the inventory's constructor, and the
    scaling of a uniform draw in [0, 1) onto a catalog index or a count. */
module Catalog {

  /** One item definition: identifier, display name and CSS colour. */
  datatype ItemDef = ItemDef(id: string, name: string, color: string)

  /** Number of definitions in the catalog. */
  const CatalogSize: nat := 13

  /** The catalog, in the constructor's order. */
  const Items: seq<ItemDef> := [
    ItemDef("stone", "Stone", "#808080"),
    ItemDef("dirt", "Dirt", "#8B7355"),
    ItemDef("grass", "Grass Block", "#2d5016"),
    ItemDef("wood", "Oak Log", "#6B4423"),
    ItemDef("planks", "Oak Planks", "#C19A6B"),
    ItemDef("sand", "Sand", "#E0D896"),
    ItemDef("cobblestone", "Cobblestone", "#707070"),
    ItemDef("oak_leaves", "Oak Leaves", "#2d5016"),
    ItemDef("iron_ore", "Iron Ore", "#8B6914"),
    ItemDef("coal_ore", "Coal Ore", "#1a1a1a"),
    ItemDef("gold_ore", "Gold Ore", "#E6AD00"),
    ItemDef("diamond_ore", "Diamond Ore", "#117a9c"),
    ItemDef("bookshelf", "Bookshelf", "#8B4513")
  ]

  /** The catalog has `CatalogSize` entries and no identifier occurs twice,
      so an item id names exactly one definition. */
  lemma CatalogWellFormed()
    ensures |Items| == CatalogSize
    ensures forall i, j :: 0 <= i < j < |Items| ==> Items[i].id != Items[j].id
  {
  }

  /** `Math.floor(u * n)` for a draw `u` of `Math.random()`, computed over the
      reals: it always lands on a valid index below `n`. */
  function Pick(u: real, n: nat): (k: nat)
    requires 0.0 <= u < 1.0
    requires n > 0
    ensures k < n
    ensures k as real <= u * n as real < k as real + 1.0
  {
    assert 0.0 <= u * n as real < n as real;
    (u * n as real).Floor
  }

  /** Every index below `n` is produced by some draw, so no catalog item
      and no count is out of reach of the random fill. */
  lemma PickCoversRange(n: nat, k: nat)
    requires 0 < n && k < n
    ensures exists u: real :: 0.0 <= u < 1.0 && Pick(u, n) == k
  {
    var u := k as real / n as real;
    assert u * n as real == k as real;
    assert Pick(u, n) == k;
  }
}
