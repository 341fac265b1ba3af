/** `toggle_collapse`: the filter panel's open state flips on every click;
    while the button has never been clicked (`n_clicks` is None, or 0) the
    state is returned unchanged. */
module Collapse {
  import opened Optional

  /** Python truthiness of `n_clicks`: None and 0 are falsy. */
  predicate Clicked(n: Option<int>)
  {
    n.Some? && n.value != 0
  }

  function ToggleCollapse(n: Option<int>, isOpen: bool): (open: bool)
    ensures open != isOpen <==> Clicked(n)
  {
    if Clicked(n) then !isOpen else isOpen
  }

  /** Before any click (None or 0) the panel keeps its state. */
  lemma UnclickedKeepsState(n: Option<int>, isOpen: bool)
    requires n == None || n == Some(0)
    ensures ToggleCollapse(n, isOpen) == isOpen
  {
  }

  /** Two clicks in a row bring the panel back to where it was. */
  lemma ToggleTwiceRestores(n: Option<int>, m: Option<int>, isOpen: bool)
    requires Clicked(n) && Clicked(m)
    ensures ToggleCollapse(m, ToggleCollapse(n, isOpen)) == isOpen
  {
  }
}
