/** The inventory state machine: 37 optional slot entries and one selected
    slot index, with one pure transition per user action. */
module Inventory {
  import opened Wrappers
  import opened Catalog

  /** Slots 0..26 are main storage, 27..35 the hotbar, 36 the cursor slot. */
  const Capacity: nat := 37
  const HotbarStart: nat := 27
  const HotbarSize: nat := 9
  /** Largest count a slot is ever given. */
  const MaxCount: int := 64

  /** A filled slot: a copy of a catalog definition plus a stack count. The
      catalog never changes and every entry copies one of its definitions
      unaltered, so the copy is represented by its catalog index `kind`. */
  datatype Entry = Entry(kind: nat, count: int)

  /** The definition an entry copies. */
  function ItemOf(e: Entry): ItemDef
    requires e.kind < CatalogSize
  {
    Items[e.kind]
  }

  /** The whole inventory: the slot array and the selected slot index. */
  datatype State = State(slots: seq<Option<Entry>>, selected: nat)

  /** The shape every transition works on: exactly `Capacity` slots. */
  predicate WellFormed(s: State) {
    |s.slots| == Capacity
  }

  predicate ValidEntry(e: Entry) {
    e.kind < CatalogSize && 1 <= e.count <= MaxCount
  }

  /** The inventory's invariant: right length, selection inside the array,
      and every filled slot a catalog item with a count in 1..64. */
  predicate Valid(s: State) {
    && WellFormed(s)
    && s.selected < Capacity
    && forall i :: 0 <= i < |s.slots| && s.slots[i].Some? ==> ValidEntry(s.slots[i].value)
  }

  /** The constructor's state: every slot empty, slot 0 selected. */
  function Initial(): (s: State)
    ensures Valid(s)
    ensures |s.slots| == Capacity && s.selected == 0
    ensures forall i :: 0 <= i < |s.slots| ==> s.slots[i] == None
  {
    State(seq(Capacity, _ => None), 0)
  }

  /** `selectSlot`: records the index with no bounds check of its own; the
      selection stays valid exactly when the index is a slot. */
  function SelectSlot(s: State, i: nat): (r: State)
    ensures r.slots == s.slots
    ensures r.selected == i
    ensures Valid(s) ==> (Valid(r) <==> i < Capacity)
  {
    s.(selected := i)
  }

  /** Primary click on slot `i`: selects it when it holds an item; a click on
      an empty slot changes nothing. */
  function Click(s: State, i: nat): (r: State)
    requires WellFormed(s) && i < Capacity
    ensures r.slots == s.slots
    ensures s.slots[i].Some? ==> r.selected == i
    ensures s.slots[i].None? ==> r == s
    ensures r.selected == i || r.selected == s.selected
    ensures Valid(s) ==> Valid(r)
  {
    if s.slots[i].Some? then SelectSlot(s, i) else s
  }

  /** Right click on slot `i` with injected draws: catalog index `k` and
      count offset `r`. Overwrites the slot whatever it held. */
  function RightClick(s: State, i: nat, k: nat, r: nat): (t: State)
    requires WellFormed(s) && i < Capacity
    requires k < CatalogSize && r < MaxCount
    ensures WellFormed(t) && t.selected == s.selected
    ensures t.slots[i].Some? && t.slots[i].value.kind == k && ItemOf(t.slots[i].value) == Items[k]
    ensures 1 <= t.slots[i].value.count <= MaxCount
    ensures t.slots[i].value.count == r + 1
    ensures forall j :: 0 <= j < Capacity && j != i ==> t.slots[j] == s.slots[j]
    ensures Valid(s) ==> Valid(t)
  {
    s.(slots := s.slots[i := Some(Entry(k, r + 1))])
  }

  /** One scheduled write of the sample fill: a slot, the catalog index of
      the item, and the count. */
  datatype Assignment = Assignment(slot: nat, kind: nat, count: int)

  /** The position in `ws` of the last assignment that writes slot `j`, if
      any: no later assignment writes `j`, and `None` means none at all. */
  function LastWrite(ws: seq<Assignment>, j: nat): (lw: Option<nat>)
    ensures lw.None? <==> forall k :: 0 <= k < |ws| ==> ws[k].slot != j
    ensures lw.Some? ==> lw.value < |ws| && ws[lw.value].slot == j
    ensures lw.Some? ==> forall k :: lw.value < k < |ws| ==> ws[k].slot != j
    decreases |ws|
  {
    if |ws| == 0 then None
    else if ws[|ws| - 1].slot == j then Some(|ws| - 1)
    else LastWrite(ws[..|ws| - 1], j)
  }

  /** What slot `j` holds after the writes `ws`, starting from `prior`. */
  function Written(prior: Option<Entry>, ws: seq<Assignment>, j: nat): Option<Entry>
    requires forall k :: 0 <= k < |ws| ==> ws[k].kind < CatalogSize
  {
    match LastWrite(ws, j)
    case None => prior
    case Some(k) => Some(Entry(ws[k].kind, ws[k].count))
  }

  /** Applies the writes in order, each an unconditional overwrite: every
      slot ends up holding its last write, and slots no write targets keep
      their contents. */
  function ApplyAll(slots: seq<Option<Entry>>, ws: seq<Assignment>): (r: seq<Option<Entry>>)
    requires forall k :: 0 <= k < |ws| ==> ws[k].slot < |slots| && ws[k].kind < CatalogSize
    ensures |r| == |slots|
    ensures forall j :: 0 <= j < |slots| ==> r[j] == Written(slots[j], ws, j)
    decreases |ws|
  {
    if |ws| == 0 then slots
    else
      var w := ws[|ws| - 1];
      ApplyAll(slots, ws[..|ws| - 1])[w.slot := Some(Entry(w.kind, w.count))]
  }

  /** The startup fill's writes, in the source's order. */
  const SampleAssignments: seq<Assignment> := [
    Assignment(0, 0, 64),
    Assignment(1, 1, 64),
    Assignment(3, 3, 32),
    Assignment(4, 4, 48),
    Assignment(28, 8, 1),
    Assignment(29, 9, 12)
  ]

  /** The slots the sample fill writes. */
  const SampleSlots: set<nat> := {0, 1, 3, 4, 28, 29}

  /** Writes that each store a valid entry keep every filled slot valid. */
  lemma ApplyAllKeepsEntriesValid(slots: seq<Option<Entry>>, ws: seq<Assignment>)
    requires forall k :: 0 <= k < |ws| ==> ws[k].slot < |slots| && ws[k].kind < CatalogSize && 1 <= ws[k].count <= MaxCount
    ensures (forall i :: 0 <= i < |slots| && slots[i].Some? ==> ValidEntry(slots[i].value)) ==>
              forall i :: 0 <= i < |slots| && ApplyAll(slots, ws)[i].Some? ==>
                ValidEntry(ApplyAll(slots, ws)[i].value)
  {
  }

  /** Every write of the sample fill stores a valid entry. */
  lemma SampleWritesValid()
    ensures forall k :: 0 <= k < |SampleAssignments| ==>
              SampleAssignments[k].slot < Capacity && SampleAssignments[k].kind < CatalogSize
              && 1 <= SampleAssignments[k].count <= MaxCount
  {
  }

  /** No two writes of `ws` target the same slot. */
  predicate DistinctSlots(ws: seq<Assignment>) {
    forall a, b :: 0 <= a < b < |ws| ==> ws[a].slot != ws[b].slot
  }

  /** When the writes target distinct slots, the last write to the slot of
      write `k` is write `k` itself. */
  lemma LastWriteOfDistinct(ws: seq<Assignment>, k: nat)
    requires DistinctSlots(ws) && k < |ws|
    ensures LastWrite(ws, ws[k].slot) == Some(k)
  {
  }

  /** The last write to each slot of the sample fill. */
  lemma SampleLastWrites()
    ensures LastWrite(SampleAssignments, 0) == Some(0)
    ensures LastWrite(SampleAssignments, 1) == Some(1)
    ensures LastWrite(SampleAssignments, 3) == Some(2)
    ensures LastWrite(SampleAssignments, 4) == Some(3)
    ensures LastWrite(SampleAssignments, 28) == Some(4)
    ensures LastWrite(SampleAssignments, 29) == Some(5)
  {
    var ws := SampleAssignments;
    assert DistinctSlots(ws);
    LastWriteOfDistinct(ws, 0);
    LastWriteOfDistinct(ws, 1);
    LastWriteOfDistinct(ws, 2);
    LastWriteOfDistinct(ws, 3);
    LastWriteOfDistinct(ws, 4);
    LastWriteOfDistinct(ws, 5);
  }

  /** The six slots the sample fill targets end up with its entries. */
  lemma SampleFillWrites(slots: seq<Option<Entry>>)
    requires |slots| == Capacity
    ensures ApplyAll(slots, SampleAssignments)[0] == Some(Entry(0, 64))
    ensures ApplyAll(slots, SampleAssignments)[1] == Some(Entry(1, 64))
    ensures ApplyAll(slots, SampleAssignments)[3] == Some(Entry(3, 32))
    ensures ApplyAll(slots, SampleAssignments)[4] == Some(Entry(4, 48))
    ensures ApplyAll(slots, SampleAssignments)[28] == Some(Entry(8, 1))
    ensures ApplyAll(slots, SampleAssignments)[29] == Some(Entry(9, 12))
  {
    SampleLastWrites();
  }

  /** Each slot in `SampleSlots` is filled by the sample writes. */
  lemma SampleFillFills(slots: seq<Option<Entry>>)
    requires |slots| == Capacity
    ensures forall j :: j in SampleSlots ==> j < Capacity && ApplyAll(slots, SampleAssignments)[j].Some?
  {
    SampleFillWrites(slots);
  }

  /** Every slot the sample fill does not target keeps its contents. */
  lemma SampleFillFrame(slots: seq<Option<Entry>>)
    requires |slots| == Capacity
    ensures |ApplyAll(slots, SampleAssignments)| == Capacity
    ensures forall j :: 0 <= j < Capacity && j !in SampleSlots ==>
              ApplyAll(slots, SampleAssignments)[j] == slots[j]
  {
  }

  /** `addSampleItems`: performs the sample writes in order. Six fixed
      slots get fixed catalog items and counts; every other slot and the
      selection are left alone. */
  method SampleFill(s: State) returns (r: State)
    requires WellFormed(s)
    ensures WellFormed(r) && r.selected == s.selected
    ensures r.slots[0] == Some(Entry(0, 64))
    ensures r.slots[1] == Some(Entry(1, 64))
    ensures r.slots[3] == Some(Entry(3, 32))
    ensures r.slots[4] == Some(Entry(4, 48))
    ensures r.slots[28] == Some(Entry(8, 1))
    ensures r.slots[29] == Some(Entry(9, 12))
    ensures forall j :: 0 <= j < Capacity && j !in SampleSlots ==> r.slots[j] == s.slots[j]
    ensures forall j :: j in SampleSlots ==> j < Capacity && r.slots[j].Some?
    ensures Valid(s) ==> Valid(r)
  {
    var ws := SampleAssignments;
    var slots := s.slots;
    var n := 0;
    while n < |ws|
      invariant n <= |ws|
      invariant slots == ApplyAll(s.slots, ws[..n])
    {
      var w := ws[n];
      assert ws[..n + 1][..n] == ws[..n];
      slots := slots[w.slot := Some(Entry(w.kind, w.count))];
      n := n + 1;
    }
    assert ws[..n] == ws;
    SampleFillWrites(s.slots);
    SampleFillFrame(s.slots);
    SampleFillFills(s.slots);
    SampleWritesValid();
    ApplyAllKeepsEntriesValid(s.slots, ws);
    r := s.(slots := slots);
  }

  /** A `KeyboardEvent.key` value is a hotbar digit when it is one of the
      characters 1..9. */
  predicate IsHotbarKey(key: string) {
    |key| == 1 && '1' <= key[0] <= '9'
  }

  /** The slot a hotbar digit key selects. */
  function HotbarSlot(key: string): (i: nat)
    requires IsHotbarKey(key)
    ensures HotbarStart <= i < HotbarStart + HotbarSize
    ensures i - HotbarStart == (key[0] - '1') as int
  {
    HotbarStart + ((key[0] - '0') as nat - 1)
  }

  /** Whether the key lower-cases to `e`, the close shortcut. */
  predicate IsCloseKey(key: string) {
    key == "e" || key == "E"
  }

  /** `closeInventory`: only announces the close; no state changes. */
  function Close(s: State): (r: State)
    ensures r == s
  {
    s
  }

  /** `handleKeyboard`: a digit 1..9 selects the matching hotbar slot whether
      or not it holds anything; every other key, the close key included,
      leaves the state as it was. */
  function HandleKey(s: State, key: string): (r: State)
    ensures r.slots == s.slots
    ensures IsHotbarKey(key) ==> HotbarStart <= r.selected < HotbarStart + HotbarSize
    ensures IsHotbarKey(key) ==> r.selected == HotbarStart + (key[0] - '1') as int
    ensures !IsHotbarKey(key) ==> r == s
    ensures Valid(s) ==> Valid(r)
  {
    var afterDigit := if IsHotbarKey(key) then SelectSlot(s, HotbarSlot(key)) else s;
    if IsCloseKey(key) then Close(afterDigit) else afterDigit
  }

  /** `clearInventory` with the answer of the confirmation dialog: when
      confirmed, the state is the constructor's; when declined, untouched. */
  function Clear(s: State, confirmed: bool): (r: State)
    ensures confirmed ==> r.selected == 0 && |r.slots| == Capacity
    ensures confirmed ==> forall i :: 0 <= i < |r.slots| ==> r.slots[i] == None
    ensures !confirmed ==> r == s
    ensures Valid(s) ==> Valid(r)
  {
    if confirmed then Initial() else s
  }
}
