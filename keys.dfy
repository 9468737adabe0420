/**
 * Keyboard keys. The listbox dispatches on `KeyboardEvent.key` (a string), the select on
 * `KeyboardEvent.keyCode` (a number); one datatype gives both views of the same key press.
 */
module Keys {

  datatype KeyPress =
    | Enter | Space
    | ArrowUp | ArrowDown | ArrowLeft | ArrowRight
    | Home | End
      /** Any other key, named by its `key` string; its `keyCode` is taken to be 0. */
    | Other(name: string)

  /** The `key` strings of the named keys above. */
  const NamedKeys: set<string> := {"Enter", " ", "ArrowUp", "ArrowDown", "ArrowLeft", "ArrowRight", "Home", "End"}

  /**
   * A key press whose two views agree: `Other` never carries the `key` string of a named key,
   * so a press the listbox reads as, say, Enter is also Enter (code 13) to the select.
   */
  type Key = k: KeyPress | k.Other? ==> k.name !in NamedKeys witness Enter

  /** The `keyCode` constants the select compares with. */
  const KeyCodeEnter: int := 13
  const KeyCodeSpace: int := 32

  /** `KeyboardEvent.key` */
  function KeyName(k: Key): (name: string)
    ensures k.Other? <==> name !in NamedKeys
  {
    match k
    case Enter => "Enter"
    case Space => " "
    case ArrowUp => "ArrowUp"
    case ArrowDown => "ArrowDown"
    case ArrowLeft => "ArrowLeft"
    case ArrowRight => "ArrowRight"
    case Home => "Home"
    case End => "End"
    case Other(name) => name
  }

  /** `KeyboardEvent.keyCode` */
  function KeyCode(k: Key): int {
    match k
    case Enter => KeyCodeEnter
    case Space => KeyCodeSpace
    case ArrowLeft => 37
    case ArrowUp => 38
    case ArrowRight => 39
    case ArrowDown => 40
    case Home => 36
    case End => 35
    case Other(_) => 0
  }
}
