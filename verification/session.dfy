/** A session of the inventory page: the startup state and the effect of a
    sequence of user actions, each one of the transitions of `Inventory`. */
module Session {
  import opened Wrappers
  import opened Catalog
  import opened Inventory

  /** The user actions, with the dialog answer and the two random draws
      supplied as inputs. */
  datatype Command =
    | PrimaryClick(slot: nat)
    | SecondaryClick(slot: nat, pick: nat, offset: nat)
    | KeyDown(key: string)
    | CloseButton
    | SaveButton
    | ClearButton(confirmed: bool)

  /** Slot indices name real slots and the draws are in range. */
  predicate WellFormedCommand(c: Command) {
    match c
    case PrimaryClick(i) => i < Capacity
    case SecondaryClick(i, k, r) => i < Capacity && k < CatalogSize && r < MaxCount
    case _ => true
  }

  /** The state the page starts in: the constructor's empty inventory with
      the sample fill applied. Exactly the six sample slots hold items:
      stone and dirt ×64, oak log ×32, oak planks ×48, iron ore ×1 and coal
      ore ×12. */
  method Boot() returns (s: State)
    ensures Valid(s) && s.selected == 0
    ensures forall j :: 0 <= j < Capacity ==> (s.slots[j].Some? <==> j in SampleSlots)
    ensures s.slots[0] == Some(Entry(0, 64)) && s.slots[1] == Some(Entry(1, 64))
    ensures s.slots[3] == Some(Entry(3, 32)) && s.slots[4] == Some(Entry(4, 48))
    ensures s.slots[28] == Some(Entry(8, 1)) && s.slots[29] == Some(Entry(9, 12))
  {
    var s0 := Initial();
    s := SampleFill(s0);
  }

  /** Dispatches one action. Saving serialises the state elsewhere and
      leaves it as it is. */
  function Step(s: State, c: Command): (r: State)
    requires WellFormed(s) && WellFormedCommand(c)
    ensures WellFormed(r)
    ensures Valid(s) ==> Valid(r)
    ensures c.SaveButton? || c.CloseButton? ==> r == s
  {
    match c
    case PrimaryClick(i) => Click(s, i)
    case SecondaryClick(i, k, r) => RightClick(s, i, k, r)
    case KeyDown(key) => HandleKey(s, key)
    case CloseButton => Close(s)
    case SaveButton => s
    case ClearButton(ok) => Clear(s, ok)
  }

  /** Runs the actions in order. The invariant survives every prefix. */
  function Run(s: State, cs: seq<Command>): (r: State)
    requires WellFormed(s)
    requires forall n :: 0 <= n < |cs| ==> WellFormedCommand(cs[n])
    ensures WellFormed(r)
    ensures Valid(s) ==> Valid(r)
    decreases |cs|
  {
    if |cs| == 0 then s else Run(Step(s, cs[0]), cs[1..])
  }

  /** Two right clicks on one slot: the second overwrites the first, so
      only the later draws matter. */
  lemma RightClickTwice(s: State, i: nat, k1: nat, r1: nat, k2: nat, r2: nat)
    requires WellFormed(s) && i < Capacity
    requires k1 < CatalogSize && r1 < MaxCount && k2 < CatalogSize && r2 < MaxCount
    ensures RightClick(RightClick(s, i, k1, r1), i, k2, r2) == RightClick(s, i, k2, r2)
  {
  }

  /** Right click does not read the slot it writes: states that differ only
      in slot `i` give the same result. */
  lemma RightClickIgnoresPrior(s: State, t: State, i: nat, k: nat, r: nat)
    requires WellFormed(s) && WellFormed(t) && i < Capacity
    requires k < CatalogSize && r < MaxCount
    requires s.selected == t.selected
    requires forall j :: 0 <= j < Capacity && j != i ==> s.slots[j] == t.slots[j]
    ensures RightClick(s, i, k, r) == RightClick(t, i, k, r)
  {
  }

  /** Every valid entry is something a right click can put in a slot: each
      catalog item with each count in 1..64. */
  lemma RightClickReachesEveryEntry(s: State, i: nat, e: Entry)
    requires WellFormed(s) && i < Capacity && ValidEntry(e)
    ensures exists k: nat, r: nat :: k < CatalogSize && r < MaxCount
              && RightClick(s, i, k, r).slots[i] == Some(e)
  {
    var r: nat := e.count - 1;
    assert RightClick(s, i, e.kind, r).slots[i] == Some(e);
  }

  /** The key that selects hotbar slot `j`. */
  function HotbarKeyFor(j: nat): (key: string)
    requires HotbarStart <= j < HotbarStart + HotbarSize
    ensures IsHotbarKey(key) && HotbarSlot(key) == j
  {
    [('1' as int + (j - HotbarStart)) as char]
  }

  /** The hotbar keys select exactly the hotbar: each digit key selects a
      slot in 27..35, and each of those slots has a key selecting it. */
  lemma HotbarKeysCoverHotbar(s: State)
    ensures forall key :: IsHotbarKey(key) ==>
              HotbarStart <= HandleKey(s, key).selected < HotbarStart + HotbarSize
    ensures forall j :: HotbarStart <= j < HotbarStart + HotbarSize ==>
              HandleKey(s, HotbarKeyFor(j)).selected == j
  {
  }

  /** Digit 3 selects slot 29, also from the empty constructor state. */
  lemma HotbarThreeSelects29()
    ensures HandleKey(Initial(), "3").selected == 29
    ensures HandleKey(Initial(), "3").slots == Initial().slots
  {
  }

  /** The close key in either case, like the Close button, changes nothing. */
  lemma CloseKeysChangeNothing(s: State)
    ensures HandleKey(s, "e") == s
    ensures HandleKey(s, "E") == s
    ensures WellFormed(s) ==> Step(s, CloseButton) == s
  {
  }

  /** A confirmed clear returns to the constructor's state from anywhere. */
  lemma ClearRestoresInitial(s: State)
    ensures Clear(s, true) == Initial()
    ensures Clear(s, false) == s
  {
  }
}
