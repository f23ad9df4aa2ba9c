/** The OEM list on the product page: the first five numbers, with a
    button that shows all of them and back. */
module PartNumbers {

  import Strings

  /** `displayCount` */
  const DISPLAY_COUNT := 5

  /** What the component renders: "None", or the listed numbers with the
      toggle button's label when there is one. */
  datatype View =
    | NoneText
    | Listing(items: seq<string>, button: ButtonLabel)

  datatype ButtonLabel = NoButton | ShowAll(more: nat) | ShowLess

  /** `displayedOem`: all numbers when expanded, else the first five. */
  function Displayed(oem: seq<string>, showAll: bool): (r: seq<string>)
    ensures r <= oem
    ensures showAll ==> r == oem
    ensures !showAll ==> |r| == if |oem| < DISPLAY_COUNT then |oem| else DISPLAY_COUNT
  {
    if showAll || |oem| <= DISPLAY_COUNT then oem else oem[..DISPLAY_COUNT]
  }

  /** `hasMore` */
  predicate HasMore(oem: seq<string>) {
    |oem| > DISPLAY_COUNT
  }

  /** The rendered view for the `showAll` state. */
  function Render(oem: seq<string>, showAll: bool): (v: View)
    ensures v.NoneText? <==> oem == []
    ensures v.Listing? ==> v.items == Displayed(oem, showAll)
    ensures v.Listing? ==> (v.button.NoButton? <==> !HasMore(oem))
    ensures v.Listing? && HasMore(oem) ==>
              v.button == if showAll then ShowLess else ShowAll(|oem| - DISPLAY_COUNT)
  {
    if oem == [] then NoneText
    else
      var button :=
        if !HasMore(oem) then NoButton
        else if showAll then ShowLess
        else ShowAll(|oem| - DISPLAY_COUNT);
      Listing(Displayed(oem, showAll), button)
  }

  /** The button's text. */
  function LabelText(b: ButtonLabel): string
    requires !b.NoButton?
  {
    match b
    case ShowAll(more) => "Show All (" + Strings.NatToString(more) + " more)"
    case ShowLess => "Show Less"
  }

  /** Collapsed, the list hides exactly the numbers the button counts; no
      number is lost or reordered, and expanding shows the rest. */
  lemma CollapsedCountsHidden(oem: seq<string>)
    requires HasMore(oem)
    ensures var v := Render(oem, false);
      && v.Listing? && v.button.ShowAll?
      && v.items + oem[|v.items|..] == oem
      && |oem[|v.items|..]| == v.button.more
      && Render(oem, true).items == v.items + oem[|v.items|..]
  {
  }

  /** With more than five numbers the button offers to show the hidden
      count while collapsed and to show less while expanded, so each click
      switches between the two labels. */
  lemma ToggleLabels(oem: seq<string>, showAll: bool)
    requires HasMore(oem)
    ensures LabelText(Render(oem, false).button) == "Show All (" + Strings.NatToString(|oem| - DISPLAY_COUNT) + " more)"
    ensures LabelText(Render(oem, true).button) == "Show Less"
    ensures Render(oem, !showAll).button != Render(oem, showAll).button
  {
  }

  /** A list of five or fewer looks the same in either state, and has no
      button to change it. */
  lemma ShortListUnaffected(oem: seq<string>)
    requires !HasMore(oem)
    ensures Render(oem, true) == Render(oem, false)
  {
  }
}
