/** One rendering pass: what the pass writes into each slot element. */
module Render {
  import opened Wrappers
  import opened Catalog
  import opened Decimal
  import opened Inventory

  /** Box shadow set on the selected slot when it is empty. */
  const RingEmpty: string := "0 0 0 2px #ffff00"
  /** Box shadow set on the selected slot when it holds an item. */
  const RingFilled: string := "0 0 0 2px #ffff00, inset 0 0 4px rgba(255, 255, 0, 0.5)"

  /** What the pass leaves on one slot element: its text content, its `data-item`
      attribute, and the box shadow it sets (`None` when the pass does not
      touch the shadow, so whatever an earlier pass set remains). */
  datatype SlotView = SlotView(text: string, dataItem: Option<string>, shadow: Option<string>)

  /** The projection of slot `i`. */
  function RenderSlot(s: State, i: nat): (v: SlotView)
    requires Valid(s) && i < Capacity
    ensures v.text == "" <==> s.slots[i].None?
    ensures v.dataItem.None? <==> s.slots[i].None?
    ensures s.slots[i].Some? ==> v.dataItem == Some(ItemOf(s.slots[i].value).id)
    ensures s.slots[i].Some? ==>
              (forall c :: 0 <= c < |v.text| ==> IsDigit(v.text[c]))
              && v.text[0] != '0'
              && FromDecimal(v.text) == s.slots[i].value.count
    ensures v.shadow.Some? <==> i == s.selected
    ensures i == s.selected ==>
              v.shadow == Some(if s.slots[i].Some? then RingFilled else RingEmpty)
  {
    match s.slots[i]
    case Some(e) =>
      DecimalRoundTrip(e.count);
      SlotView(ToDecimal(e.count), Some(ItemOf(e).id), if i == s.selected then Some(RingFilled) else None)
    case None =>
      SlotView("", None, if i == s.selected then Some(RingEmpty) else None)
  }

  /** The whole pass, slot element by slot element in index order. Exactly
      the selected slot gets a shadow, whether or not it holds an item. */
  method RenderAll(s: State) returns (views: seq<SlotView>)
    requires Valid(s)
    ensures |views| == Capacity
    ensures forall i :: 0 <= i < |views| ==> views[i] == RenderSlot(s, i)
    ensures forall i :: 0 <= i < |views| ==> (views[i].shadow.Some? <==> i == s.selected)
    ensures forall i :: 0 <= i < |views| ==> (views[i].text == "" <==> s.slots[i].None?)
  {
    views := [];
    var i := 0;
    while i < Capacity
      invariant 0 <= i <= Capacity
      invariant |views| == i
      invariant forall j :: 0 <= j < i ==> views[j] == RenderSlot(s, j)
    {
      views := views + [RenderSlot(s, i)];
      i := i + 1;
    }
  }

  /** A rendered slot shows enough to recover its entry: item ids are
      unique in the catalog, so two valid states whose views of slot `i`
      agree hold the same entry there. */
  lemma RenderDeterminesContents(s: State, t: State, i: nat)
    requires Valid(s) && Valid(t) && i < Capacity
    requires RenderSlot(s, i).text == RenderSlot(t, i).text
    requires RenderSlot(s, i).dataItem == RenderSlot(t, i).dataItem
    ensures s.slots[i].None? <==> t.slots[i].None?
    ensures s.slots[i].Some? ==> s.slots[i] == t.slots[i]
  {
    CatalogWellFormed();
  }

  /** The box shadows on the 37 slot elements between passes (`None`: no
      shadow). */
  type Shadows = seq<Option<string>>

  /** No slot element has a shadow yet. */
  function NoShadows(): (sh: Shadows)
    ensures |sh| == Capacity && forall i :: 0 <= i < |sh| ==> sh[i].None?
  {
    seq(Capacity, _ => None)
  }

  /** The shadows after a pass as the source performs it: the pass resets
      text, `data-item`, background and border colour, but not the shadow,
      so an element keeps whatever shadow an earlier pass gave it. */
  function ShadowsAfterPassAsWritten(prev: Shadows, s: State): (sh: Shadows)
    requires Valid(s) && |prev| == Capacity
    ensures |sh| == Capacity
    ensures sh[s.selected] == RenderSlot(s, s.selected).shadow
    ensures forall i :: 0 <= i < Capacity && i != s.selected ==> sh[i] == prev[i]
  {
    seq(Capacity, i requires 0 <= i < Capacity =>
      if RenderSlot(s, i).shadow.Some? then RenderSlot(s, i).shadow else prev[i])
  }

  /** With slot 0 selected, as at startup, a pass followed by digit 1 and
      another pass leaves both slot 0 and slot 27 highlighted under the pass
      as written, whatever the elements showed before. */
  lemma StaleHighlightAsWritten(prev: Shadows, s: State)
    requires Valid(s) && s.selected == 0 && |prev| == Capacity
    ensures var s2 := HandleKey(s, "1");
            var sh := ShadowsAfterPassAsWritten(ShadowsAfterPassAsWritten(prev, s), s2);
            s2.selected == 27 && sh[0].Some? && sh[27].Some?
  {
  }

  /** The page's real start: no shadows, the pass on the empty constructor
      state, the pass after the sample fill (slot 0 holds stone ×64 and is
      selected, slot 27 is empty), then digit 1 and its pass. Slot 0 keeps
      the filled ring while slot 27 gets the plain one. */
  lemma StaleHighlightAtStartup(s: State)
    requires Valid(s) && s.selected == 0
    requires s.slots[0] == Some(Entry(0, 64)) && s.slots[27].None?
    ensures var sh0 := ShadowsAfterPassAsWritten(NoShadows(), Initial());
            var sh1 := ShadowsAfterPassAsWritten(sh0, s);
            var sh := ShadowsAfterPassAsWritten(sh1, HandleKey(s, "1"));
            sh[0] == Some(RingFilled) && sh[27] == Some(RingEmpty)
  {
  }

  /** The shadows after a pass that also resets the shadow of every element,
      as it does for the background: only the selected slot is highlighted,
      whatever earlier passes left. */
  function ShadowsAfterPass(prev: Shadows, s: State): (sh: Shadows)
    requires Valid(s) && |prev| == Capacity
    ensures |sh| == Capacity
    ensures forall i :: 0 <= i < Capacity ==> (sh[i].Some? <==> i == s.selected)
    ensures sh[s.selected] == Some(if s.slots[s.selected].Some? then RingFilled else RingEmpty)
  {
    seq(Capacity, i requires 0 <= i < Capacity => RenderSlot(s, i).shadow)
  }
}
