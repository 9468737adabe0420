/**
 * End-to-end runs of the two components on fresh objects, each stated as the observable
 * outcome: the focused index after a sequence of keys, the open state after a key or a focus move.
 */
module Scenarios {
  import opened Dom
  import opened Keys
  import opened Navigation
  import opened ListboxComponent
  import opened SelectComponent

  /** `n` fresh, enabled option elements. */
  method NewOptions(n: nat) returns (options: seq<ListboxOption>)
    ensures |options| == n && Distinct(options)
    ensures forall j :: 0 <= j < n ==> fresh(options[j]) && IsListboxItem(options[j])
  {
    options := [];
    while |options| < n
      invariant |options| <= n && Distinct(options)
      invariant forall j :: 0 <= j < |options| ==> fresh(options[j]) && IsListboxItem(options[j])
    {
      var o := new ListboxOption(true, Some("option"), false);
      options := options + [o];
    }
  }

  /** A connected listbox populated with `n` enabled options. */
  method NewPopulatedListbox(n: nat) returns (lb: Listbox)
    ensures fresh(lb) && forall j :: 0 <= j < |lb.listboxItems| ==> fresh(lb.listboxItems[j])
    ensures lb.Valid() && lb.connected
    ensures |lb.listboxItems| == n && lb.focusedOptionIndex == Some(0)
  {
    var options := NewOptions(n);
    lb := new Listbox();
    lb.ConnectedCallback();
    KeptInFull(options);
    lb.SetItems(options);
  }

  /** Enabled options are all kept, in order. */
  lemma {:induction false} KeptInFull(s: seq<ListboxOption>)
    requires forall j :: 0 <= j < |s| ==> IsListboxItem(s[j])
    ensures FilterItems(s) == s
  {
    if s != [] {
      KeptInFull(s[1..]);
    }
  }

  /** One key press on a connected listbox, seen through its focused index. */
  method Press(lb: Listbox, k: Key) returns (index: Maybe<int>)
    requires lb.Valid() && lb.connected
    modifies lb`focusedOptionIndex, lb`activeDescendent, lb`domFocus, lb.listboxItems`selected, lb.listboxItems`tabindex
    ensures lb.Valid() && lb.connected && lb.listboxItems == old(lb.listboxItems)
    ensures index == lb.focusedOptionIndex == Navigate(Dispatch(k), old(lb.focusedOptionIndex), |lb.listboxItems|)
  {
    var _ := lb.KeydownHandler(k);
    index := lb.focusedOptionIndex;
  }

  /** Three ArrowDowns over three options: 0, 1, 2, then clamped at 2. */
  method ArrowDownClamps() returns (indices: seq<Maybe<int>>)
    ensures indices == [Some(0), Some(1), Some(2), Some(2)]
  {
    var lb := NewPopulatedListbox(3);
    var first := Press(lb, ArrowDown);
    var second := Press(lb, ArrowDown);
    var third := Press(lb, ArrowDown);
    indices := [Some(0), first, second, third];
  }

  /** Home then End over five options: 0, then 4. */
  method HomeThenEnd() returns (indices: seq<Maybe<int>>)
    ensures indices == [Some(0), Some(4)]
  {
    var lb := NewPopulatedListbox(5);
    var home := Press(lb, Home);
    var end := Press(lb, End);
    indices := [home, end];
  }

  /** A connected, closed select around a populated listbox. */
  method NewSelect() returns (s: Select)
    ensures fresh(s) && fresh(s.button) && fresh(s.listbox)
    ensures forall j :: 0 <= j < |s.listbox.listboxItems| ==> fresh(s.listbox.listboxItems[j])
    ensures s.Valid() && s.connected && !s.open
    ensures |s.listbox.listboxItems| == 3 && s.listbox.focusedOptionIndex == Some(0)
  {
    var lb := NewPopulatedListbox(3);
    var button := new Element();
    s := new Select(lb, button, 0, {0, 1, 2});
    s.ConnectedCallback();
  }

  /** Enter on a closed select opens it; the listbox ignores Enter, so the focused index stays. */
  method EnterOpensWithoutMoving() returns (open: bool, expanded: string, index: Maybe<int>)
    ensures open && expanded == "true" && index == Some(0)
  {
    var s := NewSelect();
    var _, _ := s.KeypressHandlerButton(Enter);
    open, expanded, index := s.open, s.button.attributes["aria-expanded"], s.listbox.focusedOptionIndex;
  }

  /** An open select closes when focus leaves for nowhere. */
  method FocusOutToNothingCloses() returns (handled: bool, open: bool, expanded: string)
    ensures handled && !open && expanded == "false"
  {
    var s := NewSelect();
    var _, _ := s.KeypressHandlerButton(Space);
    handled := s.HandleFocusOut(None);
    open, expanded := s.open, s.button.attributes["aria-expanded"];
  }
}
