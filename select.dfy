/**
 * The select: a button that opens and closes a slotted listbox. The button's `aria-expanded`
 * attribute follows `open`; keyboard input on the select toggles it (space, enter) and is
 * forwarded to the listbox while it is open; focus leaving the select, or the listbox, closes it.
 */
module SelectComponent {
  import opened Dom
  import opened Keys
  import opened Navigation
  import opened ListboxComponent

  /** The `keyCode`s that toggle the select. */
  function IsToggleKey(k: Key): (r: bool)
    ensures r <==> k == Space || k == Enter
  {
    KeyCode(k) == KeyCodeSpace || KeyCode(k) == KeyCodeEnter
  }

  /** A toggle key means nothing to the listbox's own key handling. */
  lemma ToggleKeysDoNotNavigate(k: Key)
    requires IsToggleKey(k)
    ensures Dispatch(k) == Stay
  {
  }

  /** The text of a boolean in a template string, as `aria-expanded` receives it. */
  function AriaExpanded(b: bool): (s: string)
    ensures s == "true" || s == "false"
    ensures s == "true" <==> b
  {
    if b then "true" else "false"
  }

  /**
   * The `handleFocusOut` test: the select closes when focus goes somewhere outside it
   * (or nowhere), or to the select element itself.
   */
  predicate FocusOutCloses(subtree: set<NodeId>, selfNode: NodeId, relatedTarget: Maybe<NodeId>) {
    !Contains(subtree, relatedTarget) || relatedTarget == Some(selfNode)
  }

  /** Light dismiss from the select: exactly the targets that are not a proper descendant close it. */
  lemma FocusOutClosesExactly(subtree: set<NodeId>, selfNode: NodeId, relatedTarget: Maybe<NodeId>)
    ensures FocusOutCloses(subtree, selfNode, relatedTarget) <==>
      relatedTarget.None? || relatedTarget.value !in subtree - {selfNode}
  {
  }

  /**
   * The `focusoutHandlerListbox` test: with a slotted listbox, an open select closes when focus
   * goes nowhere or outside the first slotted listbox.
   */
  function ListboxFocusOutCloses(open: bool, slottedListbox: Maybe<seq<set<NodeId>>>, relatedTarget: Maybe<NodeId>): (r: bool)
    requires slottedListbox.Some? && open && relatedTarget.Some? ==> slottedListbox.value != []
    ensures r ==> open && slottedListbox.Some?
    ensures r <==> open && slottedListbox.Some? && (relatedTarget.None? || relatedTarget.value !in slottedListbox.value[0])
  {
    if slottedListbox.None? then false
    else open && (relatedTarget.None? || !Contains(slottedListbox.value[0], relatedTarget))
  }

  class Select {
    /** `$fastController.isConnected` */
    var connected: bool
    var disabled: bool
    var readOnly: bool
    var open: bool
    var value: string
    /** `label` */
    var labelText: string
    var activeOptionIndex: int
    /** The button part; null until the template has rendered it. */
    var button: Element?
    /** The part that shows the selected value. */
    var selectedValue: Element?
    /** The form proxy input. */
    var proxy: Element?
    /** The listbox part, assigned once by the template. */
    const listbox: Listbox
    /** The slotted listboxes, each given by its inclusive subtree; None while undefined. */
    var slottedListbox: Maybe<seq<set<NodeId>>>
    /** The select element itself and its inclusive subtree. */
    const selfNode: NodeId
    const subtree: set<NodeId>

    /** Once connected, the button exists and its `aria-expanded` says whether the select is open. */
    ghost predicate ExpandedInSync()
      reads this`connected, this`button, this`open, Part(button)`attributes
    {
      connected ==>
        button != null && "aria-expanded" in button.attributes &&
        button.attributes["aria-expanded"] == AriaExpanded(open)
    }

    ghost predicate Valid()
      reads this`connected, this`button, this`open, Part(button)`attributes
      reads listbox`listboxItems, listbox`listboxItemsCount, listbox`focusedOptionIndex, listbox.listboxItems`id
    {
      selfNode in subtree && ExpandedInSync() && listbox.Valid()
    }

    constructor (listbox: Listbox, button: Element?, selfNode: NodeId, subtree: set<NodeId>)
      requires listbox.Valid() && selfNode in subtree
      ensures Valid()
      ensures this.listbox == listbox && this.button == button
      ensures this.selfNode == selfNode && this.subtree == subtree
      ensures !connected && !disabled && !readOnly && !open
      ensures value == "Selected Value" && labelText == "Choose one..." && activeOptionIndex == 0
      ensures selectedValue == null && proxy == null && slottedListbox == None
    {
      this.listbox, this.button, this.selfNode, this.subtree := listbox, button, selfNode, subtree;
      connected, disabled, readOnly, open := false, false, false, false;
      value, labelText, activeOptionIndex := "Selected Value", "Choose one...", 0;
      selectedValue, proxy, slottedListbox := null, null, None;
    }

    /**
     * `connectedCallback`: the controller connects and the button part gets its controller
     * code. Listener registration and the form update (which does nothing) are not modelled.
     */
    method ConnectedCallback()
      requires Valid() && button != null
      modifies this`connected, Part(button)`attributes
      ensures Valid() && connected
      ensures ButtonControlled(old(button.attributes))
    {
      connected := true;
      ApplyButtonControllerCode();
    }

    /** The attributes `applyButtonControllerCode` gives the button, on top of `before`. */
    ghost predicate ButtonControlled(before: map<string, string>)
      reads this`button, this`open, Part(button)`attributes
    {
      button != null &&
      button.attributes == before["tabindex" := "0"]["aria-haspopup" := "listbox"]
        ["aria-expanded" := AriaExpanded(open)]["role" := "button"]
    }

    /** `applyButtonControllerCode`: make the button part a focusable popup button. */
    method ApplyButtonControllerCode()
      modifies Part(button)`attributes
      ensures button != null ==> ButtonControlled(old(button.attributes))
      ensures button != null ==> "aria-expanded" in button.attributes && button.attributes["aria-expanded"] == AriaExpanded(open)
      ensures button != null ==> button.attributes["role"] == "button" && button.attributes["tabindex"] == "0"
      ensures button != null ==> button.attributes["aria-haspopup"] == "listbox"
    {
      if button != null {
        button.SetAttribute("tabindex", "0");
        button.SetAttribute("aria-haspopup", "listbox");
        button.SetAttribute("aria-expanded", if open then "true" else "false");
        button.SetAttribute("role", "button");
      }
    }

    /** `updateButtonPartAttr`: when connected, `aria-expanded` takes the text of `open`. */
    method UpdateButtonPartAttr()
      requires connected ==> button != null
      modifies Part(button)`attributes
      ensures ExpandedInSync()
      ensures connected ==> button.attributes == old(button.attributes)["aria-expanded" := AriaExpanded(open)]
      ensures !connected && button != null ==> button.attributes == old(button.attributes)
    {
      if !connected {
        return;
      }
      button.SetAttribute("aria-expanded", AriaExpanded(open));
    }

    /**
     * The effect of assigning `v` to `open`: only a change runs `openChanged`, which updates
     * `aria-expanded` when connected and, when opening, focuses the listbox.
     */
    twostate predicate OpenApplied(v: bool)
      reads this, button, listbox
    {
      open == v && button == old(button) &&
      (if v != old(open) && connected then
         button != null && button.attributes == old(button.attributes)["aria-expanded" := AriaExpanded(v)]
       else
         button != null ==> button.attributes == old(button.attributes)) &&
      (if v && !old(open) then
         listbox.focusable && listbox.domFocus == old(listbox.GetFocusedOption())
       else
         listbox.focusable == old(listbox.focusable) && listbox.domFocus == old(listbox.domFocus))
    }

    /** `openChanged` */
    method OpenChanged(newValue: bool)
      requires listbox.Valid() && (connected ==> button != null)
      requires newValue ==> listbox.listboxItems != []
      modifies Part(button)`attributes, listbox`focusable, listbox`domFocus
      ensures ExpandedInSync() && listbox.Valid()
      ensures connected ==> button.attributes == old(button.attributes)["aria-expanded" := AriaExpanded(open)]
      ensures !connected && button != null ==> button.attributes == old(button.attributes)
      ensures newValue ==> listbox.focusable && listbox.domFocus == old(listbox.GetFocusedOption())
      ensures !newValue ==> listbox.focusable == old(listbox.focusable) && listbox.domFocus == old(listbox.domFocus)
    {
      UpdateButtonPartAttr();
      if newValue {
        listbox.Focus();
      }
    }

    /** Assignment to the observable `open`. Opening needs an option to focus. */
    method SetOpen(v: bool)
      requires Valid()
      requires v && !open ==> listbox.listboxItems != []
      modifies this`open, Part(button)`attributes, listbox`focusable, listbox`domFocus
      ensures Valid()
      ensures OpenApplied(v)
    {
      if v != open {
        open := v;
        OpenChanged(v);
      }
    }

    /**
     * The closing step of `keypressHandlerButton`: while the select is open the key is handed
     * to the listbox and propagation stops.
     */
    method ForwardKeyWhileOpen(k: Key) returns (stopped: bool)
      requires listbox.Valid()
      modifies listbox`focusedOptionIndex, listbox`activeDescendent, listbox`domFocus
      modifies listbox.listboxItems`selected, listbox.listboxItems`tabindex
      ensures listbox.Valid()
      ensures stopped == open
      ensures open ==> listbox.IndexCommitted(Navigate(Dispatch(k), old(listbox.focusedOptionIndex), listbox.listboxItemsCount))
      ensures !open ==> listbox.IndexCommitted(old(listbox.focusedOptionIndex))
    {
      stopped := false;
      if open {
        stopped := true;
        var _ := listbox.KeydownHandler(k);
      }
    }

    /**
     * The `keyCode` switch of `keypressHandlerButton`: space and enter prevent the default action,
     * toggle `open` and go to the listbox's key handling, which ignores them.
     */
    method ToggleOnKey(k: Key) returns (prevented: bool)
      requires Valid()
      requires IsToggleKey(k) && !open ==> listbox.listboxItems != []
      modifies this`open, Part(button)`attributes, listbox`focusable, listbox`domFocus
      modifies listbox`focusedOptionIndex, listbox`activeDescendent
      modifies listbox.listboxItems`selected, listbox.listboxItems`tabindex
      ensures Valid()
      ensures prevented == IsToggleKey(k)
      ensures listbox.focusedOptionIndex == old(listbox.focusedOptionIndex)
      ensures listbox.activeDescendent == old(listbox.activeDescendent)
      ensures listbox.listboxItems == old(listbox.listboxItems) && unchanged(listbox.listboxItems)
      ensures IsToggleKey(k) ==> OpenApplied(!old(open))
      ensures !IsToggleKey(k) ==> OpenApplied(old(open))
    {
      prevented := false;
      if KeyCode(k) == KeyCodeSpace || KeyCode(k) == KeyCodeEnter {
        prevented := true;
        SetOpen(!open);
        ToggleKeysDoNotNavigate(k);
        var _ := listbox.KeydownHandler(k);
      }
    }

    /**
     * `keypressHandlerButton`: the `keyCode` switch, then, while the select is open, the key
     * goes to the listbox. Results: default prevented, propagation stopped.
     */
    method KeypressHandlerButton(k: Key) returns (prevented: bool, stopped: bool)
      requires Valid()
      requires IsToggleKey(k) && !open ==> listbox.listboxItems != []
      modifies this`open, Part(button)`attributes, listbox`focusable, listbox`domFocus
      modifies listbox`focusedOptionIndex, listbox`activeDescendent
      modifies listbox.listboxItems`selected, listbox.listboxItems`tabindex
      ensures Valid()
      ensures prevented == IsToggleKey(k)
      ensures stopped == open
      ensures open == if IsToggleKey(k) then !old(open) else old(open)
      ensures listbox.listboxItems == old(listbox.listboxItems)
      ensures IsToggleKey(k) ==>
        listbox.focusedOptionIndex == old(listbox.focusedOptionIndex) && unchanged(listbox.listboxItems) &&
        listbox.activeDescendent == old(listbox.activeDescendent)
      ensures IsToggleKey(k) && open ==> listbox.focusable && listbox.domFocus == old(listbox.GetFocusedOption())
      ensures !IsToggleKey(k) ==> listbox.IndexCommitted(
        if open then Navigate(Dispatch(k), old(listbox.focusedOptionIndex), |listbox.listboxItems|)
        else old(listbox.focusedOptionIndex))
      ensures !IsToggleKey(k) ==> button == null || button.attributes == old(button.attributes)
      ensures !IsToggleKey(k) ==> listbox.focusable == old(listbox.focusable)
      ensures IsToggleKey(k) ==> OpenApplied(!old(open))
    {
      prevented := ToggleOnKey(k);
      stopped := ForwardKeyWhileOpen(k);
    }

    /** `handleFocusOut`; the result tells whether the event was handled (and the select closed). */
    method HandleFocusOut(relatedTarget: Maybe<NodeId>) returns (handled: bool)
      requires Valid()
      modifies this`open, Part(button)`attributes, listbox`focusable, listbox`domFocus
      ensures Valid()
      ensures handled == FocusOutCloses(subtree, selfNode, relatedTarget)
      ensures handled ==> OpenApplied(false) && !open
      ensures !handled ==> open == old(open) && (button != null ==> button.attributes == old(button.attributes))
      ensures listbox.focusable == old(listbox.focusable) && listbox.domFocus == old(listbox.domFocus)
    {
      handled := !Contains(subtree, relatedTarget) || relatedTarget == Some(selfNode);
      if handled {
        SetOpen(false);
      }
    }

    /** `focusoutHandlerListbox`: light dismiss when focus leaves the slotted listbox. */
    method FocusoutHandlerListbox(relatedTarget: Maybe<NodeId>)
      requires Valid()
      requires slottedListbox.Some? && open && relatedTarget.Some? ==> slottedListbox.value != []
      modifies this`open, Part(button)`attributes, listbox`focusable, listbox`domFocus
      ensures Valid()
      ensures OpenApplied(if ListboxFocusOutCloses(old(open), slottedListbox, relatedTarget) then false else old(open))
    {
      if slottedListbox.None? {
        return;
      }
      if open && (relatedTarget.None? || !Contains(slottedListbox.value[0], relatedTarget)) {
        SetOpen(false);
      }
    }

    /** `clickHandler`: unless disabled or read-only, toggle `open` and focus the listbox. */
    method ClickHandler()
      requires Valid()
      requires !disabled && !readOnly ==> listbox.listboxItems != []
      modifies this`open, Part(button)`attributes, listbox`focusable, listbox`domFocus
      ensures Valid()
      ensures disabled || readOnly ==> OpenApplied(old(open))
      ensures !disabled && !readOnly ==>
        open == !old(open) && listbox.focusable && listbox.domFocus == old(listbox.GetFocusedOption()) &&
        (connected ==> button.attributes == old(button.attributes)["aria-expanded" := AriaExpanded(open)])
      ensures !connected && button != null ==> button.attributes == old(button.attributes)
    {
      if !disabled && !readOnly {
        SetOpen(!open);
        listbox.Focus();
      }
    }

    /** `valueChanged`: the proxy input mirrors the value. */
    method ValueChanged()
      modifies Part(proxy)`value
      ensures proxy != null ==> proxy.value == value
    {
      if proxy != null {
        proxy.value := value;
      }
    }

    /** Assignment to `value`, observed by the form-associated base class. */
    method SetValue(v: string)
      modifies this`value, Part(proxy)`value
      ensures value == v
      ensures v != old(value) && proxy != null ==> proxy.value == v
      ensures v == old(value) && proxy != null ==> proxy.value == old(proxy.value)
    {
      if v != value {
        value := v;
        ValueChanged();
      }
    }

    /** The host's `label` attribute in the template: the value when it is not empty, else `label`. */
    function LabelAttribute(): (r: string)
      reads this`value, this`labelText
      ensures r == value || r == labelText
      ensures value != "" ==> r == value
      ensures value == "" ==> r == labelText
    {
      if value != "" then value else labelText
    }

    /** `updateSelectValue`: set the value and show it in the selected-value part. */
    method UpdateSelectValue(v: string)
      modifies this`value, Part(proxy)`value, Part(selectedValue)`textContent
      ensures value == v && labelText == old(labelText)
      ensures v != "" ==> LabelAttribute() == v
      ensures selectedValue != null ==> selectedValue.textContent == v
      ensures v != old(value) && proxy != null ==> proxy.value == v
      ensures v == old(value) && proxy != null ==> proxy.value == old(proxy.value)
    {
      SetValue(v);
      if selectedValue != null {
        selectedValue.textContent := v;
      }
    }
  }
}
