/**
 * The listbox: an ordered list of option elements filtered from its slotted children, and a
 * focused index whose change handler is the one place that rewrites every option's `selected`
 * flag and tabindex and sets `activeDescendent`.
 */
module ListboxComponent {
  import opened Dom
  import opened Keys
  import opened OptionIds
  import opened OptionFlags
  import opened Navigation

  /** An option element as the listbox sees it. */
  class ListboxOption {
    var isElement: bool
    var role: Maybe<string>
    var disabled: bool
    var readOnly: bool
    var selected: bool
    var tabindex: Maybe<string>
    var id: string

    constructor (isElement: bool, role: Maybe<string>, disabled: bool)
      ensures this.isElement == isElement && this.role == role && this.disabled == disabled
      ensures !readOnly && !selected && tabindex == None && id == ""
    {
      this.isElement, this.role, this.disabled := isElement, role, disabled;
      readOnly, selected, tabindex, id := false, false, None, "";
    }
  }

  function StateOf(o: ListboxOption): OptionState
    reads o
  {
    OptionState(o.isElement, o.role, o.disabled, o.readOnly, o.selected, o.tabindex, o.id)
  }

  /** The states of a list of options, position by position. */
  function Snapshot(s: seq<ListboxOption>): (r: seq<OptionState>)
    reads s
    ensures |r| == |s| && forall j :: 0 <= j < |s| ==> r[j] == StateOf(s[j])
  {
    seq(|s|, j requires 0 <= j < |s| reads s => StateOf(s[j]))
  }

  /** The filter of `itemsChanged`: element nodes with role "option" that are not disabled. */
  predicate IsListboxItem(o: ListboxOption)
    reads o
  {
    IsCandidate(StateOf(o))
  }

  /** The `itemsChanged` filter, in input order. */
  function FilterItems(s: seq<ListboxOption>): (r: seq<ListboxOption>)
    reads s
    ensures |r| <= |s|
    ensures forall j :: 0 <= j < |r| ==> r[j] in s && IsListboxItem(r[j])
    ensures forall j :: 0 <= j < |s| && IsListboxItem(s[j]) ==> s[j] in r
  {
    if s == [] then [] else (if IsListboxItem(s[0]) then [s[0]] else []) + FilterItems(s[1..])
  }

  /** The filter keeps input order: filtering a concatenation concatenates the filtered parts. */
  lemma {:induction false} FilterConcat(a: seq<ListboxOption>, b: seq<ListboxOption>)
    ensures FilterItems(a + b) == FilterItems(a) + FilterItems(b)
  {
    if a == [] {
      assert a + b == b;
    } else {
      assert (a + b)[0] == a[0] && (a + b)[1..] == a[1..] + b;
      FilterConcat(a[1..], b);
    }
  }

  /** Filtering distinct nodes gives distinct nodes. */
  lemma {:induction false} FilterDistinct(s: seq<ListboxOption>)
    requires Distinct(s)
    ensures Distinct(FilterItems(s))
  {
    if s != [] {
      FilterDistinct(s[1..]);
      var rest := FilterItems(s[1..]);
      assert s[0] !in s[1..];
      assert s[0] !in rest;
    }
  }

  /** After the disabled cascade, repopulating from the same options keeps none of them. */
  lemma {:induction false} FilterOfDisabledIsEmpty(s: seq<ListboxOption>)
    requires forall j :: 0 <= j < |s| ==> s[j].disabled
    ensures FilterItems(s) == []
  {
    if s != [] {
      FilterOfDisabledIsEmpty(s[1..]);
    }
  }

  /** The ids `setupOptions` gives: position i is `option-i`. */
  function Renumbered(s: seq<OptionState>): (r: seq<OptionState>)
    ensures |r| == |s|
    ensures forall j :: 0 <= j < |s| ==> r[j] == s[j].(id := OptionId(j))
    ensures forall i, j :: 0 <= i < j < |s| ==> r[i].id != r[j].id
  {
    OptionIdsDistinct(|s|);
    seq(|s|, j requires 0 <= j < |s| => s[j].(id := OptionId(j)))
  }

  class Listbox {
    /** `$fastController.isConnected` */
    var connected: bool
    var disabled: bool
    var readOnly: bool
    var activeDescendent: Maybe<string>
    var focusable: bool
    var focusedOptionIndex: Maybe<int>
    /** The slotted children last delivered. */
    var items: seq<ListboxOption>
    var listboxItems: seq<ListboxOption>
    var listboxItemsCount: int
    /** The option that last received DOM focus from this listbox. */
    var domFocus: ListboxOption?

    /** The option list is well formed: counted, distinct, numbered by position. */
    ghost predicate ItemsValid()
      reads this`listboxItems, this`listboxItemsCount, listboxItems`id
    {
      listboxItemsCount == |listboxItems| &&
      Distinct(listboxItems) &&
      forall j :: 0 <= j < |listboxItems| ==> listboxItems[j].id == OptionId(j)
    }

    /** In a well-formed list an option's id names it and no other: `activeDescendent` is unambiguous. */
    lemma IdNamesOneOption(i: nat)
      requires ItemsValid() && i < |listboxItems|
      ensures forall j :: 0 <= j < |listboxItems| ==> (listboxItems[j].id == OptionId(i) <==> j == i)
    {
      forall j | 0 <= j < |listboxItems|
        ensures listboxItems[j].id == OptionId(i) <==> j == i
      {
        OptionIdInjective(i, j);
      }
    }

    ghost predicate Valid()
      reads this`listboxItems, this`listboxItemsCount, this`focusedOptionIndex, listboxItems`id
    {
      ItemsValid() && IndexInvariant(focusedOptionIndex, |listboxItems|)
    }

    constructor ()
      ensures Valid()
      ensures !connected && !disabled && !readOnly && !focusable
      ensures activeDescendent == None && focusedOptionIndex == None && domFocus == null
      ensures items == [] && listboxItems == [] && listboxItemsCount == 0
    {
      connected, disabled, readOnly, focusable := false, false, false, false;
      activeDescendent, focusedOptionIndex, domFocus := None, None, null;
      items, listboxItems, listboxItemsCount := [], [], 0;
    }

    /** The controller's connection to the document (listener registration is not modelled). */
    method ConnectedCallback()
      modifies this`connected
      ensures connected
    {
      connected := true;
    }

    /**
     * The effect of assigning `v` to `focusedOptionIndex`: the change handler runs only when the
     * value changes; it commits `v` when connected and `v` names an option, and otherwise leaves
     * every flag, `activeDescendent` and the DOM focus as they were.
     */
    twostate predicate IndexCommitted(v: Maybe<int>)
      reads this, listboxItems
    {
      focusedOptionIndex == v &&
      listboxItems == old(listboxItems) && listboxItemsCount == old(listboxItemsCount) &&
      if v != old(focusedOptionIndex) && connected && InRange(v, |listboxItems|) then
        Snapshot(listboxItems) == CommitAt(old(Snapshot(listboxItems)), v.value) &&
        activeDescendent == Some(OptionId(v.value)) &&
        domFocus == listboxItems[v.value]
      else
        unchanged(listboxItems) && activeDescendent == old(activeDescendent) && domFocus == old(domFocus)
    }

    /** `getFocusedOption`: the option at `focusedOptionIndex || 0`, or null when there is none. */
    function GetFocusedOption(): (r: ListboxOption?)
      reads this`listboxItems, this`focusedOptionIndex
      ensures r != null ==> r in listboxItems
      ensures focusedOptionIndex.None? && listboxItems != [] ==> r == listboxItems[0]
      ensures InRange(focusedOptionIndex, |listboxItems|) ==> r == listboxItems[focusedOptionIndex.value]
      ensures IndexInvariant(focusedOptionIndex, |listboxItems|) ==> (r != null <==> listboxItems != [])
    {
      var i := match focusedOptionIndex case None => 0 case Some(i) => i;
      if 0 <= i < |listboxItems| then listboxItems[i] else null
    }

    /** `focusedOptionIndexChanged` */
    method FocusedOptionIndexChanged(newValue: Maybe<int>)
      requires ItemsValid()
      modifies this`activeDescendent, this`domFocus, listboxItems`selected, listboxItems`tabindex
      ensures connected && InRange(newValue, |listboxItems|) ==>
        Snapshot(listboxItems) == CommitAt(old(Snapshot(listboxItems)), newValue.value) &&
        activeDescendent == Some(OptionId(newValue.value)) &&
        domFocus == listboxItems[newValue.value]
      ensures !(connected && InRange(newValue, |listboxItems|)) ==>
        unchanged(listboxItems) && activeDescendent == old(activeDescendent) && domFocus == old(domFocus)
    {
      if !connected {
        return;
      }
      if !InRange(newValue, |listboxItems|) {
        return;
      }
      var focusedOption := listboxItems[newValue.value];
      var k := 0;
      while k < |listboxItems|
        invariant 0 <= k <= |listboxItems|
        invariant forall j :: 0 <= j < k ==> !listboxItems[j].selected && listboxItems[j].tabindex == None
        modifies listboxItems`selected, listboxItems`tabindex
      {
        listboxItems[k].selected := false;
        listboxItems[k].tabindex := None;
        k := k + 1;
      }
      focusedOption.selected := true;
      activeDescendent := Some(focusedOption.id);
      focusedOption.tabindex := Some("0");
      domFocus := focusedOption;
      ghost var i := newValue.value;
      forall j | 0 <= j < |listboxItems|
        ensures StateOf(listboxItems[j]) ==
          old(StateOf(listboxItems[j])).(selected := j == i, tabindex := if j == i then Some("0") else None)
      {
        if j != i {
          assert listboxItems[j] != focusedOption;
        }
      }
      CommitAtPointwise(old(Snapshot(listboxItems)), Snapshot(listboxItems), i);
    }

    /** Assignment to the observable `focusedOptionIndex`. */
    method SetFocusedOptionIndex(v: Maybe<int>)
      requires ItemsValid() && IndexInvariant(v, |listboxItems|)
      modifies this`focusedOptionIndex, this`activeDescendent, this`domFocus, listboxItems`selected, listboxItems`tabindex
      ensures Valid()
      ensures IndexCommitted(v)
    {
      if v != focusedOptionIndex {
        focusedOptionIndex := v;
        FocusedOptionIndexChanged(v);
      }
    }

    /** Assignment to the observable `items`: the slot always delivers a new array, so the handler runs. */
    method SetItems(v: seq<ListboxOption>)
      requires Valid() && Distinct(v)
      modifies this`items, this`listboxItems, this`listboxItemsCount, this`focusedOptionIndex
      modifies this`activeDescendent, this`domFocus, v`id, v`selected, v`tabindex
      ensures Valid() && items == v
      ensures ItemsReplaced(v)
    {
      items := v;
      ItemsChanged(v);
    }

    /**
     * The effect of `itemsChanged(newValue)`. Disconnected: nothing. Connected: the kept options
     * are the filter of `newValue`, renumbered `option-0`, `option-1`, ..., and the focused index
     * is set to 0; the flags are committed to position 0 only when the index was not 0 already.
     * Options that are not kept are not touched.
     */
    twostate predicate ItemsReplaced(newValue: seq<ListboxOption>)
      reads this, listboxItems, newValue
    {
      (forall j :: 0 <= j < |newValue| && newValue[j] !in listboxItems ==> unchanged(newValue[j])) &&
      if !connected then
        listboxItems == old(listboxItems) && listboxItemsCount == old(listboxItemsCount) &&
        focusedOptionIndex == old(focusedOptionIndex) && unchanged(newValue) &&
        activeDescendent == old(activeDescendent) && domFocus == old(domFocus)
      else
        listboxItems == old(FilterItems(newValue)) && listboxItemsCount == |listboxItems| &&
        focusedOptionIndex == Some(0) &&
        var renumbered := Renumbered(old(Snapshot(FilterItems(newValue))));
        if old(focusedOptionIndex) != Some(0) && listboxItems != [] then
          Snapshot(listboxItems) == CommitAt(renumbered, 0) &&
          activeDescendent == Some(OptionId(0)) && domFocus == listboxItems[0]
        else
          Snapshot(listboxItems) == renumbered &&
          activeDescendent == old(activeDescendent) && domFocus == old(domFocus)
    }

    /** `itemsChanged` */
    method ItemsChanged(newValue: seq<ListboxOption>)
      requires Valid() && Distinct(newValue)
      modifies this`listboxItems, this`listboxItemsCount, this`focusedOptionIndex
      modifies this`activeDescendent, this`domFocus, newValue`id, newValue`selected, newValue`tabindex
      ensures Valid()
      ensures ItemsReplaced(newValue)
    {
      if !connected {
        return;
      }
      FilterDistinct(newValue);
      listboxItems := FilterItems(newValue);
      listboxItemsCount := |listboxItems|;
      SetupOptions();
    }

    /** `setupOptions`: number the options by position and focus the first. */
    method SetupOptions()
      requires listboxItemsCount == |listboxItems| && Distinct(listboxItems)
      modifies this`focusedOptionIndex, this`activeDescendent, this`domFocus
      modifies listboxItems`id, listboxItems`selected, listboxItems`tabindex
      ensures Valid()
      ensures focusedOptionIndex == Some(0)
      ensures var renumbered := Renumbered(old(Snapshot(listboxItems)));
        if old(focusedOptionIndex) != Some(0) && connected && listboxItems != [] then
          Snapshot(listboxItems) == CommitAt(renumbered, 0) &&
          activeDescendent == Some(OptionId(0)) && domFocus == listboxItems[0]
        else
          Snapshot(listboxItems) == renumbered &&
          activeDescendent == old(activeDescendent) && domFocus == old(domFocus)
    {
      ghost var before := Snapshot(listboxItems);
      var i := 0;
      while i < |listboxItems|
        invariant 0 <= i <= |listboxItems|
        invariant forall j :: 0 <= j < i ==> listboxItems[j].id == OptionId(j)
        modifies listboxItems`id
      {
        listboxItems[i].id := OptionId(i);
        i := i + 1;
      }
      forall j | 0 <= j < |listboxItems| ensures StateOf(listboxItems[j]) == before[j].(id := OptionId(j)) {
      }
      assert Snapshot(listboxItems) == Renumbered(before);
      SetFocusedOptionIndex(Some(0));
    }

    /** `keydownHandler`; the result tells whether propagation of the event was stopped. */
    method KeydownHandler(k: Key) returns (stopped: bool)
      requires Valid()
      modifies this`focusedOptionIndex, this`activeDescendent, this`domFocus, listboxItems`selected, listboxItems`tabindex
      ensures Valid()
      ensures stopped == (Dispatch(k) != Stay)
      ensures IndexCommitted(Navigate(Dispatch(k), old(focusedOptionIndex), listboxItemsCount))
    {
      var key := KeyName(k);
      if key == "" {
        return false;
      }
      if key == "Enter" {
        // Enter changes nothing.
        stopped := false;
      } else if key == "ArrowUp" || key == "ArrowLeft" {
        stopped := SelectPreviousOption();
      } else if key == "ArrowDown" || key == "ArrowRight" {
        stopped := SelectNextOption();
      } else if key == "Home" {
        stopped := SelectFirstOption();
      } else if key == "End" {
        stopped := SelectLastOption();
      } else {
        stopped := false;
      }
    }

    /** `selectFirstOption` */
    method SelectFirstOption() returns (stopped: bool)
      requires Valid()
      modifies this`focusedOptionIndex, this`activeDescendent, this`domFocus, listboxItems`selected, listboxItems`tabindex
      ensures Valid() && stopped
      ensures IndexCommitted(Navigate(First, old(focusedOptionIndex), listboxItemsCount))
    {
      stopped := true;
      SetFocusedOptionIndex(Some(0));
    }

    /** `selectLastOption`: on an empty list this is -1, which names no option. */
    method SelectLastOption() returns (stopped: bool)
      requires Valid()
      modifies this`focusedOptionIndex, this`activeDescendent, this`domFocus, listboxItems`selected, listboxItems`tabindex
      ensures Valid() && stopped
      ensures IndexCommitted(Navigate(Last, old(focusedOptionIndex), listboxItemsCount))
    {
      stopped := true;
      SetFocusedOptionIndex(Some(listboxItemsCount - 1));
    }

    /** `selectPreviousOption`: decrements only above 0. */
    method SelectPreviousOption() returns (stopped: bool)
      requires Valid()
      modifies this`focusedOptionIndex, this`activeDescendent, this`domFocus, listboxItems`selected, listboxItems`tabindex
      ensures Valid() && stopped
      ensures IndexCommitted(Navigate(Previous, old(focusedOptionIndex), listboxItemsCount))
    {
      stopped := true;
      if focusedOptionIndex.Some? && focusedOptionIndex.value > 0 {
        SetFocusedOptionIndex(Some(focusedOptionIndex.value - 1));
      }
    }

    /** `selectNextOption`: increments only below the last position. */
    method SelectNextOption() returns (stopped: bool)
      requires Valid()
      modifies this`focusedOptionIndex, this`activeDescendent, this`domFocus, listboxItems`selected, listboxItems`tabindex
      ensures Valid() && stopped
      ensures IndexCommitted(Navigate(Next, old(focusedOptionIndex), listboxItemsCount))
    {
      stopped := true;
      if focusedOptionIndex.Some? && focusedOptionIndex.value < listboxItemsCount - 1 {
        SetFocusedOptionIndex(Some(focusedOptionIndex.value + 1));
      }
    }

    /**
     * `clickHandler`. `captured` is what `closest("[role='option']")` found from the click
     * target (null when nothing), `isEqualNode` the node comparison used to find it in the list.
     */
    method ClickHandler(captured: ListboxOption?, isEqualNode: (ListboxOption, ListboxOption) -> bool)
      requires Valid()
      modifies this`focusedOptionIndex, this`activeDescendent, this`domFocus, listboxItems`selected, listboxItems`tabindex
      ensures Valid()
      ensures disabled || readOnly || captured == null ==> IndexCommitted(old(focusedOptionIndex))
      ensures !disabled && !readOnly && captured != null ==>
        var j := FindIndex(listboxItems, o => isEqualNode(o, captured));
        IndexCommitted(if j == -1 then old(focusedOptionIndex) else Some(j))
    {
      if disabled || readOnly || captured == null {
        return;
      }
      var selectedIndex := FindIndex(listboxItems, o => isEqualNode(o, captured));
      if selectedIndex != -1 {
        SetFocusedOptionIndex(Some(selectedIndex));
      }
    }

    /** Assignment to the `disabled` attribute. */
    method SetDisabled(b: bool)
      requires Valid()
      modifies this`disabled, listboxItems`disabled
      ensures Valid() && disabled == b
      ensures Snapshot(listboxItems) ==
        if b != old(disabled) then WithDisabled(old(Snapshot(listboxItems)), b) else old(Snapshot(listboxItems))
    {
      if b != disabled {
        disabled := b;
        DisabledChanged();
      }
    }

    /** `disabledChanged`: every option takes the listbox's `disabled`. */
    method DisabledChanged()
      requires Valid()
      modifies listboxItems`disabled
      ensures Valid()
      ensures Snapshot(listboxItems) == WithDisabled(old(Snapshot(listboxItems)), disabled)
    {
      ghost var before := Snapshot(listboxItems);
      var k := 0;
      while k < |listboxItems|
        invariant 0 <= k <= |listboxItems|
        invariant forall j :: 0 <= j < k ==> listboxItems[j].disabled == disabled
      {
        if disabled {
          listboxItems[k].disabled := true;
        } else {
          listboxItems[k].disabled := false;
        }
        k := k + 1;
      }
      forall j | 0 <= j < |listboxItems| ensures StateOf(listboxItems[j]) == before[j].(disabled := disabled) {
      }
      assert Snapshot(listboxItems) == WithDisabled(before, disabled);
    }

    /** Assignment to the `readonly` attribute. */
    method SetReadOnly(b: bool)
      requires Valid()
      modifies this`readOnly, listboxItems`readOnly
      ensures Valid() && readOnly == b
      ensures Snapshot(listboxItems) ==
        if b != old(readOnly) then WithReadOnly(old(Snapshot(listboxItems)), b) else old(Snapshot(listboxItems))
    {
      if b != readOnly {
        readOnly := b;
        ReadOnlyChanged();
      }
    }

    /** `readOnlyChanged`: every option takes the listbox's `readOnly`. */
    method ReadOnlyChanged()
      requires Valid()
      modifies listboxItems`readOnly
      ensures Valid()
      ensures Snapshot(listboxItems) == WithReadOnly(old(Snapshot(listboxItems)), readOnly)
    {
      ghost var before := Snapshot(listboxItems);
      var k := 0;
      while k < |listboxItems|
        invariant 0 <= k <= |listboxItems|
        invariant forall j :: 0 <= j < k ==> listboxItems[j].readOnly == readOnly
      {
        if readOnly {
          listboxItems[k].readOnly := true;
        } else {
          listboxItems[k].readOnly := false;
        }
        k := k + 1;
      }
      forall j | 0 <= j < |listboxItems| ensures StateOf(listboxItems[j]) == before[j].(readOnly := readOnly) {
      }
      assert Snapshot(listboxItems) == WithReadOnly(before, readOnly);
    }

    /** `focus`: becomes focusable and moves DOM focus to the focused option, which must exist. */
    method Focus()
      requires Valid() && listboxItems != []
      modifies this`focusable, this`domFocus
      ensures focusable && domFocus != null && domFocus == old(GetFocusedOption())
    {
      focusable := true;
      var focusedOption := GetFocusedOption();
      domFocus := focusedOption;
    }

    /** `focusOutHandler`: handled (default prevented, propagation stopped) only without a related target. */
    method FocusOutHandler(relatedTarget: Maybe<NodeId>) returns (handled: bool)
      modifies this`focusable
      ensures !focusable
      ensures handled <==> relatedTarget.None?
    {
      handled := relatedTarget.None?;
      focusable := false;
    }

    /** `handleBlur`: only a blur whose target is the listbox itself clears `focusable`. */
    method HandleBlur(targetIsListbox: bool)
      modifies this`focusable
      ensures focusable == (if targetIsListbox then false else old(focusable))
    {
      if !targetIsListbox {
        return;
      }
      focusable := false;
    }

    /**
     * The option `keypressHandler` works on: the event target when it is one of the options,
     * otherwise the focused option; -1 when there is none.
     */
    function KeypressPosition(target: ListboxOption?): (p: int)
      reads this`listboxItems, this`focusedOptionIndex
      ensures -1 <= p < |listboxItems|
      ensures target != null && target in listboxItems ==> p >= 0 && listboxItems[p] == target
      ensures !(target != null && target in listboxItems) ==>
        (p == -1 <==> GetFocusedOption() == null) && (p >= 0 ==> listboxItems[p] == GetFocusedOption())
    {
      if target != null && target in listboxItems then IndexOf(listboxItems, target)
      else
        var i := match focusedOptionIndex case None => 0 case Some(i) => i;
        if 0 <= i < |listboxItems| then i else -1
    }

    /** `keypressHandler`: the captured option becomes the tab stop if selected, else loses its tabindex. */
    method KeypressHandler(target: ListboxOption?)
      requires Distinct(listboxItems)
      modifies listboxItems`tabindex
      ensures connected && KeypressPosition(target) >= 0 ==>
        Snapshot(listboxItems) == SyncTabStop(old(Snapshot(listboxItems)), KeypressPosition(target))
      ensures !connected || KeypressPosition(target) == -1 ==> unchanged(listboxItems)
    {
      if !connected {
        return;
      }
      var captured: ListboxOption? := target;
      if !(target != null && target in listboxItems) {
        captured := GetFocusedOption();
      }
      if captured != null {
        if captured.selected {
          captured.tabindex := Some("0");
        } else {
          captured.tabindex := None;
        }
        ghost var p := KeypressPosition(target);
        assert listboxItems[p] == captured;
        forall j | 0 <= j < |listboxItems|
          ensures StateOf(listboxItems[j]) == if j == p then
            old(StateOf(listboxItems[j])).(tabindex := if old(listboxItems[j].selected) then Some("0") else None)
            else old(StateOf(listboxItems[j]))
        {
          if j != p {
            assert listboxItems[j] != captured;
          }
        }
        SyncTabStopPointwise(old(Snapshot(listboxItems)), Snapshot(listboxItems), p);
      }
    }
  }
}
