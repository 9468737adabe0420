# FAST listbox and select, modelled in Dafny

This project models the two cooperating components at the core of the FAST `fast-listbox` and
`fast-select` web components, as they are written in
`packages/web-components/fast-foundation/src/listbox/listbox.ts` and
`packages/web-components/fast-foundation/src/select/select.ts`.

**The listbox** (`ListboxComponent.Listbox`, in `listbox.dfy`) is a class whose fields change in place.
- It keeps the slotted `items`, the filtered `listboxItems` with their count, and a `focusedOptionIndex`.
- Its index-change handler is the only place that rewrites every option's `selected` flag and `tabindex` and sets `activeDescendent`.
- The pure views of those rewrites live in `option_flags.dfy`:
  - `CommitAt` commits a focused position;
  - `WithDisabled` and `WithReadOnly` are the cascades;
  - `SyncTabStop` is the keypress rewrite.
- Keyboard dispatch and clamping live in `navigation.dfy`.
- The ids `option-0`, `option-1`, … live in `option_ids.dfy`.
- The key type in `keys.dfy` gives both the `key` string that the listbox switches on and the `keyCode` that the select compares. `Other(name)` stands for any key outside the eight named ones; a subset type keeps it from carrying a named key's string.

**The select** (`SelectComponent.Select`, in `select.dfy`) is a two-state machine on `open` that drives its listbox part.
- Its invariant `Valid` says that, once connected, the button's `aria-expanded` is the text of `open`. Every handler preserves it.

**Scenarios.** `scenarios.dfy` runs both classes end to end on fresh objects:
- three ArrowDowns clamp at the last option;
- Home then End on five options;
- Enter on a closed select;
- focus leaving for nowhere.

**Modelling conventions.**
- The observable and attribute setters of fast-element are written out as `SetX(v)`. Each assigns the field and calls the matching `xChanged` only when the value changes.
- An undefined `focusedOptionIndex` is `None` of `Dom.Maybe`, the optional-value type (not the option element).
- DOM containment is a set of node ids per element. A focus event without a related target is contained nowhere.
- Default and propagation suppression are returned as booleans.

What the code does, where its comments or the component's documentation suggest more:
- Enter is a no-op in the listbox's `keydownHandler` (listbox.ts:193-196). So Enter on a closed select opens it without moving the focused index (`Scenarios.EnterOpensWithoutMoving`).
- Keyboard navigation and clicks never look at an option's `disabled` flag; only the filter in `itemsChanged` does.
- The flags are rewritten only when the index value changes. Repopulating the items while the index is already 0 renumbers the ids but leaves `selected` and `tabindex` as they were (`ListboxComponent.Listbox.ItemsChanged`).
- Clicking the select's button also focuses the listbox when the click closes it.

## Model

| member | source | states |
|---|---|---|
| ListboxComponent.Listbox.constructor | packages/web-components/fast-foundation/src/listbox/listbox.ts:36-43 | a new listbox is valid, not focusable, with no options and an undefined focused index |
| ListboxComponent.Listbox.ConnectedCallback | packages/web-components/fast-foundation/src/listbox/listbox.ts:115-123 | after connecting, the controller counts as connected |
| ListboxComponent.Listbox.DisabledChanged | packages/web-components/fast-foundation/src/listbox/listbox.ts:24-34 | every current option takes the listbox's `disabled`, nothing else about them changes, and the list stays valid |
| ListboxComponent.Listbox.SetDisabled | packages/web-components/fast-foundation/src/listbox/listbox.ts:22-34 | assigning `disabled` cascades to every option exactly when the value changes |
| ListboxComponent.Listbox.ReadOnlyChanged | packages/web-components/fast-foundation/src/listbox/listbox.ts:73-83 | every current option takes the listbox's `readOnly`, nothing else about them changes |
| ListboxComponent.Listbox.SetReadOnly | packages/web-components/fast-foundation/src/listbox/listbox.ts:71-83 | assigning `readOnly` cascades to every option exactly when the value changes |
| ListboxComponent.Listbox.FocusedOptionIndexChanged | packages/web-components/fast-foundation/src/listbox/listbox.ts:44-63 | connected and naming an option: the options' states become the commit of that position (only it selected and the tab stop), `activeDescendent` is `option-i` and DOM focus moves to it; otherwise no option, `activeDescendent` or focus changes |
| ListboxComponent.Listbox.SetFocusedOptionIndex | packages/web-components/fast-foundation/src/listbox/listbox.ts:42-63 | assigning the index keeps the listbox valid and has the commit effect only when the value changes |
| ListboxComponent.Listbox.GetFocusedOption | packages/web-components/fast-foundation/src/listbox/listbox.ts:173-175 | the option at the focused index, or the first when undefined; null exactly when there is no option |
| ListboxComponent.Listbox.ItemsChanged | packages/web-components/fast-foundation/src/listbox/listbox.ts:100-113 | disconnected: nothing changes; connected: the options are exactly the filtered input in order, counted, renumbered by position, the index is 0, and the flags are committed to position 0 unless the index already was 0; options filtered out are untouched |
| ListboxComponent.Listbox.SetItems | packages/web-components/fast-foundation/src/listbox/listbox.ts:98-113 | assigning the slotted items always runs the change handler with its full effect and keeps the listbox valid |
| ListboxComponent.FilterItems | packages/web-components/fast-foundation/src/listbox/listbox.ts:105-110 | every kept node is an enabled element with role "option" taken from the input, and every such input node is kept |
| ListboxComponent.FilterConcat | packages/web-components/fast-foundation/src/listbox/listbox.ts:105-110 | the filter keeps input order: filtering a concatenation concatenates the filtered parts |
| ListboxComponent.FilterDistinct | packages/web-components/fast-foundation/src/listbox/listbox.ts:105-110 | filtering distinct nodes yields distinct options |
| ListboxComponent.FilterOfDisabledIsEmpty | packages/web-components/fast-foundation/src/listbox/listbox.ts:105-110 | once every option is disabled, repopulating from them keeps none |
| ListboxComponent.Renumbered | packages/web-components/fast-foundation/src/listbox/listbox.ts:132 | position i gets the id `option-i` and keeps everything else, so no two options share an id |
| ListboxComponent.Listbox.IdNamesOneOption | packages/web-components/fast-foundation/src/listbox/listbox.ts:60 | in a valid listbox, the id `option-i` belongs to option i and to no other, so `activeDescendent` names one option |
| ListboxComponent.Listbox.SetupOptions | packages/web-components/fast-foundation/src/listbox/listbox.ts:131-134 | the ids become `option-0`, `option-1`, … by position, the index becomes 0 with the commit effect when it changed, and the listbox is valid |
| OptionIds.NatToString | packages/web-components/fast-foundation/src/listbox/listbox.ts:132 | the decimal text of a number is a non-empty string of digits without a leading zero |
| OptionIds.ParseNatToString | packages/web-components/fast-foundation/src/listbox/listbox.ts:132 | reading the decimal text back gives the number |
| OptionIds.OptionId | packages/web-components/fast-foundation/src/listbox/listbox.ts:132 | the id of a position is `option-` followed by a non-empty string of digits |
| OptionIds.OptionIdInjective | packages/web-components/fast-foundation/src/listbox/listbox.ts:132 | two positions get the same id exactly when they are equal, so ids are unique |
| OptionIds.OptionIdsDistinct | packages/web-components/fast-foundation/src/listbox/listbox.ts:131-134 | the first n positions all get different ids |
| ListboxComponent.Listbox.Focus | packages/web-components/fast-foundation/src/listbox/listbox.ts:125-129 | the listbox becomes focusable and DOM focus moves to the focused option, which exists on a non-empty list |
| ListboxComponent.Listbox.FocusOutHandler | packages/web-components/fast-foundation/src/listbox/listbox.ts:136-142 | `focusable` is cleared; the event is handled exactly when there is no related target |
| ListboxComponent.Listbox.KeypressPosition | packages/web-components/fast-foundation/src/listbox/listbox.ts:149-153 | the event target's position when it is an option, else the focused option's position, else -1 when there is none |
| ListboxComponent.Listbox.KeypressHandler | packages/web-components/fast-foundation/src/listbox/listbox.ts:144-163 | connected with an option found: only that option's tabindex changes, to "0" when it is selected and removed otherwise; else nothing changes |
| ListboxComponent.Listbox.HandleBlur | packages/web-components/fast-foundation/src/listbox/listbox.ts:177-183 | `focusable` is cleared exactly when the blur's target is the listbox itself |
| ListboxComponent.Listbox.KeydownHandler | packages/web-components/fast-foundation/src/listbox/listbox.ts:185-215 | propagation stops exactly for arrows, Home and End; the index becomes the navigation result for the key, with the commit effect, and the listbox stays valid |
| ListboxComponent.Listbox.SelectFirstOption | packages/web-components/fast-foundation/src/listbox/listbox.ts:217-220 | the index becomes 0, with the commit effect |
| ListboxComponent.Listbox.SelectLastOption | packages/web-components/fast-foundation/src/listbox/listbox.ts:222-225 | the index becomes count-1 (-1 on an empty list, which commits nothing) |
| ListboxComponent.Listbox.SelectPreviousOption | packages/web-components/fast-foundation/src/listbox/listbox.ts:227-233 | the index decreases by one only above 0 |
| ListboxComponent.Listbox.SelectNextOption | packages/web-components/fast-foundation/src/listbox/listbox.ts:239-244 | the index increases by one only below count-1 |
| ListboxComponent.Listbox.ClickHandler | packages/web-components/fast-foundation/src/listbox/listbox.ts:246-257 | disabled, read-only or no option hit: nothing changes; otherwise the index becomes the first position whose option equals the hit one, and stays if none does |
| Dom.FindIndex | packages/web-components/fast-foundation/src/listbox/listbox.ts:253 | the first position satisfying the test, -1 exactly when none does |
| Dom.IndexOf | packages/web-components/fast-foundation/src/listbox/listbox.ts:151 | the `includes` test extended with a position: the first position holding the element, -1 exactly when it is absent |
| Navigation.Dispatch | packages/web-components/fast-foundation/src/listbox/listbox.ts:185-215 | ArrowUp/ArrowLeft go back, ArrowDown/ArrowRight forward, Home first, End last; Enter, Space and every other key do nothing |
| Navigation.Navigate | packages/web-components/fast-foundation/src/listbox/listbox.ts:217-244 | Home gives 0, End count-1; previous moves back only from above 0 and next forward only from below count-1, otherwise the index stays (so on an empty list End's -1 and Home's 0 stay put), with no wraparound; an undefined index stays undefined, and the range of possible index values is preserved |
| Navigation.PressAllStaysInRange | packages/web-components/fast-foundation/src/listbox/listbox.ts:227-244 | from a position of a non-empty list, any sequence of keys leaves the index on a position |
| Navigation.ArrowUpAtStartStays | packages/web-components/fast-foundation/src/listbox/listbox.ts:227-233 | any number of ArrowUps at the first option stay there |
| Navigation.ArrowDownAtEndStays | packages/web-components/fast-foundation/src/listbox/listbox.ts:239-244 | any number of ArrowDowns at the last option stay there |
| Navigation.IgnoredKeysKeepIndex | packages/web-components/fast-foundation/src/listbox/listbox.ts:185-215 | keys the switch ignores, Enter included, never move the index |
| OptionFlags.CommitAt | packages/web-components/fast-foundation/src/listbox/listbox.ts:54-61 | after a commit exactly position i is selected and has tabindex "0", all others are deselected without tabindex, and nothing else changes |
| OptionFlags.CommitSelectsExactlyOne | packages/web-components/fast-foundation/src/listbox/listbox.ts:54-61 | single selection: after a commit exactly one option is selected, the committed one |
| OptionFlags.CommitIdempotent | packages/web-components/fast-foundation/src/listbox/listbox.ts:54-61 | committing the same position twice is the same as once |
| OptionFlags.WithDisabled | packages/web-components/fast-foundation/src/listbox/listbox.ts:24-34 | every option takes the given `disabled` and nothing else changes |
| OptionFlags.WithReadOnly | packages/web-components/fast-foundation/src/listbox/listbox.ts:73-83 | every option takes the given `readOnly` and nothing else changes |
| OptionFlags.DisabledCascadeExcludesAll | packages/web-components/fast-foundation/src/listbox/listbox.ts:105-110 | after disabling, no option passes the `itemsChanged` filter |
| OptionFlags.CascadesKeepSelection | packages/web-components/fast-foundation/src/listbox/listbox.ts:24-34 | the cascades leave the number of selected options unchanged |
| OptionFlags.SyncTabStop | packages/web-components/fast-foundation/src/listbox/listbox.ts:155-162 | only the captured option's tabindex changes: "0" when selected, removed otherwise |
| OptionFlags.SyncTabStopAfterCommit | packages/web-components/fast-foundation/src/listbox/listbox.ts:155-162 | right after a commit, the keypress rewrite changes nothing |
| SelectComponent.IsToggleKey | packages/web-components/fast-foundation/src/select/select.ts:115-117 | the key codes for space and enter pick out exactly the Space and Enter keys |
| SelectComponent.ToggleKeysDoNotNavigate | packages/web-components/fast-foundation/src/select/select.ts:115-121 | the listbox ignores the keys that toggle the select |
| SelectComponent.AriaExpanded | packages/web-components/fast-foundation/src/select/select.ts:175 | the text is "true" exactly when open, and "false" otherwise |
| SelectComponent.FocusOutClosesExactly | packages/web-components/fast-foundation/src/select/select.ts:133-140 | focus-out closes exactly when the related target is absent, outside the select, or the select itself |
| SelectComponent.ListboxFocusOutCloses | packages/web-components/fast-foundation/src/select/select.ts:149-161 | closing happens exactly when open, with slotted listboxes, and the related target is absent or outside the first one; it never opens |
| SelectComponent.Select.constructor | packages/web-components/fast-foundation/src/select/select.ts:82-91 | the defaults: value "Selected Value", label "Choose one...", `activeOptionIndex` 0, closed |
| SelectComponent.Select.ConnectedCallback | packages/web-components/fast-foundation/src/select/select.ts:93-106 | after connecting, the button carries the controller attributes and `aria-expanded` agrees with `open` |
| SelectComponent.Select.ApplyButtonControllerCode | packages/web-components/fast-foundation/src/select/select.ts:202-211 | with a button: tabindex "0", aria-haspopup "listbox", aria-expanded matching `open`, role "button", other attributes kept |
| SelectComponent.Select.UpdateButtonPartAttr | packages/web-components/fast-foundation/src/select/select.ts:171-176 | connected: `aria-expanded` becomes the text of `open` and nothing else changes; disconnected: nothing is written |
| SelectComponent.Select.OpenChanged | packages/web-components/fast-foundation/src/select/select.ts:23-28 | `aria-expanded` is updated when connected, and opening focuses the listbox's focused option |
| SelectComponent.Select.SetOpen | packages/web-components/fast-foundation/src/select/select.ts:20-28 | assigning `open` has the change effect only when the value changes, and keeps `aria-expanded` in sync |
| SelectComponent.Select.ToggleOnKey | packages/web-components/fast-foundation/src/select/select.ts:115-125 | Space and Enter are prevented and flip `open`; no key moves the listbox's index or touches its options |
| SelectComponent.Select.ForwardKeyWhileOpen | packages/web-components/fast-foundation/src/select/select.ts:127-130 | while open the key navigates the listbox and propagation stops; closed, nothing reaches it |
| SelectComponent.Select.KeypressHandlerButton | packages/web-components/fast-foundation/src/select/select.ts:112-131 | Space/Enter flip `open` with its full effect (`aria-expanded` follows when connected; opening focuses the listbox) but never move the listbox's index; other keys navigate the listbox only while open and leave the button alone; propagation stops exactly when open |
| SelectComponent.Select.HandleFocusOut | packages/web-components/fast-foundation/src/select/select.ts:133-140 | handled exactly when the light-dismiss test holds, and then the select is closed; otherwise nothing changes; it never opens |
| SelectComponent.Select.FocusoutHandlerListbox | packages/web-components/fast-foundation/src/select/select.ts:149-161 | `open` becomes false exactly when the listbox light-dismiss test holds, and is unchanged otherwise |
| SelectComponent.Select.ClickHandler | packages/web-components/fast-foundation/src/select/select.ts:163-169 | disabled or read-only: nothing changes; otherwise `open` flips, `aria-expanded` follows when connected and the button is untouched when not, and the listbox is focused |
| SelectComponent.Select.ValueChanged | packages/web-components/fast-foundation/src/select/select.ts:83-87 | the proxy, when present, holds the value |
| SelectComponent.Select.SetValue | packages/web-components/fast-foundation/src/select/select.ts:82-87 | assigning the value mirrors it into the proxy exactly when it changes |
| SelectComponent.Select.LabelAttribute | packages/web-components/fast-foundation/src/select/select.template.ts:21 | the host's label shows the value when it is not empty and the `label` text otherwise |
| SelectComponent.Select.UpdateSelectValue | packages/web-components/fast-foundation/src/select/select.ts:184-187 | the value becomes v, the selected-value part shows v when present, and the proxy mirrors a changed value |
| Scenarios.KeptInFull | packages/web-components/fast-foundation/src/listbox/listbox.ts:105-110 | a list of enabled options passes the filter unchanged |
| Scenarios.NewPopulatedListbox | packages/web-components/fast-foundation/src/listbox/listbox.ts:100-134 | populating a connected listbox with n enabled options gives n options and index 0 |
| Scenarios.Press | packages/web-components/fast-foundation/src/listbox/listbox.ts:185-244 | one key press moves a connected listbox's index to the navigation result |
| Scenarios.ArrowDownClamps | packages/web-components/fast-foundation/src/listbox/listbox.ts:239-244 | with three options, three ArrowDowns give 0, 1, 2, 2 |
| Scenarios.HomeThenEnd | packages/web-components/fast-foundation/src/listbox/listbox.ts:217-225 | with five options, Home then End give 0 then 4 |
| Scenarios.NewSelect | packages/web-components/fast-foundation/src/select/select.ts:93-106 | a connected select starts closed around a populated listbox |
| Scenarios.EnterOpensWithoutMoving | packages/web-components/fast-foundation/src/select/select.ts:112-131 | Enter on a closed select opens it, sets `aria-expanded` to "true" and leaves the focused index at 0 |
| Scenarios.FocusOutToNothingCloses | packages/web-components/fast-foundation/src/select/select.ts:133-140 | on an open select, focus leaving for nowhere is handled, closes it and sets `aria-expanded` to "false" |

## Left out

- Templates and styles: `select.styles.ts` and the markup in the three templates are presentation. Only the select's label fallback (`select.template.ts:21`) is modelled.
- The option template's tabindex rule (`option.template.ts:13`): it reads the option's own `focusable`, and `option.ts` is not part of this model.
- Listener registration in both `connectedCallback`s and `registerButtonSlotChange`: event wiring is not behaviour of the state machines. The handlers are modelled as methods called directly.
- The listbox's `handleFocus`: it does nothing.
- `listboxChanged`, `slottedListboxChanged`, `optionsChanged` and `updateForm`: their bodies are empty.
- The FormAssociated base class, `super.keypressHandler` in `keypressHandlerButton`, the `StartEnd` mixin and fast-element's observable machinery are not part of this model. Instead:
  - change callbacks are explicit calls made after a changing assignment;
  - `value` is taken to be observed by the base class, so that `valueChanged` runs;
  - the select's `disabled` is a plain field.
- DOM focus: `option.focus()` is recorded as the listbox's `domFocus`. Browser focus events are inputs to the handlers.
- `closest("[role='option']")` and `isEqualNode` in the listbox's click handler are parameters: the option found (or null) and the node comparison.
- `this.contains` and `isSameNode` in the select are membership in a set of node ids per element.
- `console.log` in the select's click handler: output only.
- Event objects: `preventDefault` and `stopPropagation` are returned as booleans.
- Values before first use. The source leaves these fields undefined until they are first assigned; the model starts them at a defined value:
  - `listboxItems` starts empty. Both cascades guard against the undefined list (listbox.ts:25, listbox.ts:75). The other readers do not, and there the source throws a TypeError while the model does nothing:
    - the focused-index handler when connected (listbox.ts:49);
    - the keypress handler (listbox.ts:151);
    - `getFocusedOption` (listbox.ts:174);
    - the click handler (listbox.ts:253).
  - `listboxItemsCount` starts at 0 in the constructor. In the source it is undefined, so End before any items gives `NaN` (listbox.ts:224), where the model gives -1. Either value names no option, so no option changes.
  - `disabled` and `readOnly` start false. In the source they start undefined, so a first assignment of `false` counts as a change and runs the cascade (listbox.ts:24-34, listbox.ts:73-83). In the model that assignment changes nothing. This differs only when options are present before the first assignment.
  - `open` starts false. The source's undefined behaves the same under `!open`.
- Keys other than the named ones carry `keyCode` 0.
- Crashes the source would hit become preconditions:
  - `listbox.focus()` requires a non-empty list;
  - `updateButtonPartAttr` requires a button once connected;
  - `focusoutHandlerListbox` requires a first slotted listbox when it reads one.
- The select's `listbox` part is assigned once, so it is a constant of the select.
- `label` is a reserved word in Dafny, so the field is `labelText`.
- ListboxComponent.Listbox.KeypressHandler: requires only that the options are distinct, and does not restate `Valid`. It writes nothing but `tabindex`, which `Valid` does not read.
- `keypressHandlerButton` is proved as two steps, `ToggleOnKey` for its switch and `ForwardKeyWhileOpen` for its closing block. `KeypressHandlerButton` restates what both steps promise about `open`, the button's `aria-expanded`, the listbox's focus and its index, for toggle keys and for the others.
