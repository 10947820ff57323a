# Inventory state machine

A Dafny model of the `MinecraftInventory` class of `script.js`: a 37-slot
inventory (slots 0–26 main storage, 27–35 hotbar, 36 cursor) where each slot
is empty or holds a copy of one of 13 catalog items with a count, plus one
selected slot index. Every user action is a pure transition over
`State(slots: seq<Option<Entry>>, selected: nat)`; the rendering pass is a
projection of that state onto what each slot element shows.

Files and modules:

- `wrappers.dfy` — `Wrappers.Option`, standing for the source's `null`.
- `catalog.dfy` — `Catalog`: the 13 item definitions and `Pick`, the
  scaling `Math.floor(Math.random() * n)` of a draw onto an index.
- `decimal.dfy` — `Decimal`: the decimal text a count becomes in
  `textContent`, with its round trip.
- `inventory.dfy` — `Inventory`: the state, its invariant `Valid`, and one
  transition per method of the class (constructor, `selectSlot`, click,
  right click, sample fill, keyboard, close, clear).
- `render.dfy` — `Render`: the per-slot projection of `renderInventory` and
  the box-shadow defect described under Findings.
- `session.dfy` — `Session`: startup (constructor plus `init`), the user
  actions as commands, and the invariant over any sequence of them.

Inputs the source reads from the environment are parameters: the slot index
of a click (`parseInt` of the element's `data-slot`), the key of a key event,
the answer of the `confirm()` dialog, and the two `Math.random()` draws, given
as a catalog index below 13 and a count offset below 64.

An entry is represented by the catalog index of the definition it copies
(`Entry(kind, count)`, with `ItemOf(e) == Items[e.kind]`) rather than by the
copied `id`, `name` and `color` fields: the catalog is never mutated and every
entry copies a definition unaltered, so the two carry the same information.

The invariant `Valid` is: exactly 37 slots, the selection below 37, and every
filled slot a catalog item with a count in 1..64. `Click`, `RightClick`,
`SampleFill`, `Session.Step` and `Session.Run` require the 37-slot shape;
they, `HandleKey`, `Close` and `Clear` carry `Valid(s) ==> Valid(r)`, and
`Session.Run` extends it to any sequence of actions. `SelectSlot`, which
has no bounds check in the source, keeps `Valid` exactly when the index is
below 37.

## Model

| member | source | states |
|---|---|---|
| Catalog.CatalogWellFormed | script.js:6-20 | the catalog has 13 definitions and no item id occurs twice |
| Catalog.Pick | script.js:66-68 | scaling a draw in [0, 1) by n and flooring lands on an index below n, the floor of u·n |
| Catalog.PickCoversRange | script.js:66-68 | every index below n is produced by some draw, so every item and every count 1..64 can be drawn |
| Decimal.ToDecimal | script.js:109 | a number's text is non-empty, digits only, and has no leading zero except for 0 |
| Decimal.DecimalRoundTrip | script.js:109 | reading the rendered text of a count back gives the count |
| Decimal.DecimalInjective | script.js:109 | distinct counts render as distinct labels |
| Inventory.Initial | script.js:3-5 | the constructor's state: 37 empty slots, slot 0 selected, satisfying the invariant |
| Inventory.SelectSlot | script.js:73-76 | the selection becomes the index with the slots unchanged; the invariant survives exactly when the index is below 37, as there is no bounds check |
| Inventory.Click | script.js:49-59 | a click on a filled slot selects it; on an empty slot it changes nothing; the slots never change |
| Inventory.RightClick | script.js:61-71 | slot i gets catalog item k with count r + 1 (in 1..64) whatever it held; every other slot and the selection are unchanged |
| Inventory.LastWrite | script.js:89-91 | the position of the last write to a slot: it targets the slot and no later write does; none exactly when no write targets it |
| Inventory.ApplyAll | script.js:89-91 | performing overwrites in order leaves each slot with its last write, or its old contents if no write targets it |
| Inventory.ApplyAllKeepsEntriesValid | script.js:89-91 | writes of catalog items with counts in 1..64 keep every filled slot valid |
| Inventory.SampleLastWrites | script.js:80-87 | the six sample writes target distinct slots, so each is the last write to its slot |
| Inventory.SampleFill | script.js:78-94 | slots 0, 1, 3, 4, 28, 29 get items 0, 1, 3, 4, 8, 9 with counts 64, 64, 32, 48, 1, 12; every other slot and the selection are unchanged; the invariant survives |
| Inventory.HotbarSlot | script.js:123-124 | digit d selects slot 27 + (d − 1), always within the hotbar 27..35 |
| Inventory.Close | script.js:149-152 | closing leaves the state as it was |
| Inventory.HandleKey | script.js:121-132 | a digit 1..9 selects its hotbar slot even when empty, leaving the slots alone; any other key, e and E included, changes nothing |
| Inventory.Clear | script.js:140-147 | a confirmed clear gives 37 empty slots with slot 0 selected; a declined one leaves the state unchanged |
| Render.RenderSlot | script.js:96-117 | a slot's text is empty exactly when the slot is empty, and otherwise is the count's decimal text without leading zero, reading back as the count; `data-item` is present exactly when filled and is the item's id; the pass sets a shadow exactly on the selected slot, with the inset glow when it is filled |
| Render.RenderAll | script.js:96-119 | the pass yields one view per slot in index order, each the slot's projection; exactly the selected slot gets a shadow |
| Render.RenderDeterminesContents | script.js:107-110 | two valid states whose rendered text and `data-item` of a slot agree hold the same entry there |
| Render.ShadowsAfterPassAsWritten | script.js:102-117 | as written, the selected slot gets its shadow and every other element keeps the shadow it had |
| Render.StaleHighlightAsWritten | script.js:102-117 | from any valid state with slot 0 selected, as at startup, a pass, digit 1 and another pass leave slots 0 and 27 both highlighted |
| Render.StaleHighlightAtStartup | script.js:102-117 | from no shadows, the startup passes (empty state, then slot 0 holding stone ×64 selected) followed by digit 1 and a pass leave slot 0 with the filled ring and slot 27 with the plain ring |
| Render.ShadowsAfterPass | script.js:102-117 | with the shadow reset too, exactly the selected slot is highlighted after a pass, whatever was shown before |
| Session.Boot | script.js:3-28 | the page starts with a valid state, slot 0 selected, and exactly the six sample slots filled, with the sample entries |
| Session.Step | script.js:30-47 | each action keeps the 37-slot shape and the invariant; save and the Close button change nothing |
| Session.Run | script.js:30-47 | any sequence of actions from a valid state ends in a valid state |
| Session.RightClickTwice | script.js:66-68 | a second right click on a slot overwrites the first: only the later draws matter |
| Session.RightClickIgnoresPrior | script.js:68 | right click does not read the slot it writes: states that differ only there give the same result |
| Session.RightClickReachesEveryEntry | script.js:66-68 | every catalog item with every count in 1..64 can be put into a slot by a right click |
| Session.HotbarKeyFor | script.js:123-124 | for each hotbar slot there is a digit key that selects it |
| Session.HotbarKeysCoverHotbar | script.js:123-126 | the digit keys select exactly the hotbar slots 27..35 |
| Session.HotbarThreeSelects29 | script.js:124 | digit 3 selects slot 29 and leaves the slots unchanged |
| Session.CloseKeysChangeNothing | script.js:129-131 | e, E and the Close button leave slots and selection unchanged |
| Session.ClearRestoresInitial | script.js:140-147 | a confirmed clear returns the constructor's state from any state; a declined one is the identity |

## Left out

- DOM event wiring, `closest` and `dataset` parsing (script.js:30-53, 62-65, 97-98): a click becomes a slot index below 37, and the page is taken to hold one `.inventory-slot` element per index 0..36, in index order, with `data-slot` equal to that index. The markup is not part of this model, so the per-index claims of `Render.RenderAll`, `Render.ShadowsAfterPassAsWritten`, `Render.StaleHighlightAsWritten`, `Render.StaleHighlightAtStartup` and `Render.ShadowsAfterPass` (one view or shadow per slot index, in index order) hold under that assumption.
- Notifications, their timers and the animation style element (script.js:154-205): presentation only, asynchronous.
- Saving (script.js:134-138): `JSON.stringify` and `localStorage` are foreign code and I/O, and the file has no load routine to round-trip against. Saving is modelled only as leaving the state unchanged.
- `confirm()` (script.js:141): its answer is a boolean parameter.
- `Math.random()` (script.js:66, 68): the transitions take the drawn integers; `Catalog.Pick` relates a draw to them over the reals, without floating-point rounding.
- `console.log` in `closeInventory` (script.js:151): output only.
- Inline `background` and `borderColor` resets (script.js:104-105): nothing ever sets them, so they do not appear in a slot's view.
- HandleKey: the source tests `e.key >= '1' && e.key <= '9'` as a string comparison; the model treats a key as a hotbar digit when it is one character from 1 to 9. The two differ only on multi-character keys starting with a digit, which keyboard events do not produce.
- Grid focus navigation, viewport column breakpoints and a persistence load path: `script.js` contains no such code.

## Findings

| source | as written | input that shows it | evidently intended | confidence | as-written member | corrected member |
|---|---|---|---|---|---|---|
| script.js:102-117 | each render pass clears a slot's text, `data-item`, background and border colour, but never its `boxShadow`, so a highlight stays after the selection moves | after startup (slot 0 selected, holding stone ×64, highlighted), press 1: slot 27 is selected and both 0 and 27 are highlighted | the pass resets the shadow with the other styles, so only the selected slot is highlighted | not executed; high | Render.StaleHighlightAsWritten, Render.StaleHighlightAtStartup | Render.ShadowsAfterPass |
