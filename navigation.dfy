/**
 * Keyboard navigation of the listbox as values: which key moves the focused index where.
 * `focusedOptionIndex` starts out undefined (None); the End key on an empty list sets it to -1.
 */
module Navigation {
  import opened Dom
  import opened Keys

  /** The helper `keydownHandler` hands a key to, or Stay for keys it ignores. */
  datatype Nav = First | Last | Previous | Next | Stay

  /** The `keydownHandler` switch on `e.key`. */
  function Dispatch(k: Key): (nav: Nav)
    ensures k == ArrowUp || k == ArrowLeft ==> nav == Previous
    ensures k == ArrowDown || k == ArrowRight ==> nav == Next
    ensures k == Home ==> nav == First
    ensures k == End ==> nav == Last
    ensures k == Enter || k == Space ==> nav == Stay
    ensures k.Other? ==> nav == Stay
  {
    var key := KeyName(k);
    if key == "" then Stay
    else if key == "ArrowUp" || key == "ArrowLeft" then Previous
    else if key == "ArrowDown" || key == "ArrowRight" then Next
    else if key == "Home" then First
    else if key == "End" then Last
    else Stay
  }

  /** The index names a position of a list of `count` options. */
  predicate InRange(index: Maybe<int>, count: nat) {
    index.Some? && 0 <= index.value < count
  }

  /**
   * The values the focused index can take with `count` options: undefined, a position,
   * or, on an empty list, the 0 of Home and the -1 of End.
   */
  predicate IndexInvariant(index: Maybe<int>, count: nat) {
    match index
    case None => true
    case Some(i) => if count == 0 then -1 <= i <= 0 else 0 <= i < count
  }

  /** The new focused index after one navigation step over `count` options (no wraparound). */
  function Navigate(nav: Nav, index: Maybe<int>, count: nat): (r: Maybe<int>)
    ensures nav == First ==> r == Some(0)
    ensures nav == Last ==> r == Some(count - 1)
    ensures nav == Stay ==> r == index
    ensures (nav == Previous || nav == Next) && index.None? ==> r == None
    ensures nav == Previous && index.Some? ==> r == if index.value > 0 then Some(index.value - 1) else index
    ensures nav == Next && index.Some? ==> r == if index.value < count - 1 then Some(index.value + 1) else index
    ensures IndexInvariant(index, count) ==> IndexInvariant(r, count)
  {
    match nav
    case First => Some(0)
    case Last => Some(count - 1)
    case Previous => if index.Some? && index.value > 0 then Some(index.value - 1) else index
    case Next => if index.Some? && index.value < count - 1 then Some(index.value + 1) else index
    case Stay => index
  }

  /** The focused index after a sequence of key presses, each handled by `keydownHandler`. */
  function PressAll(keys: seq<Key>, index: Maybe<int>, count: nat): Maybe<int> {
    if keys == [] then index else PressAll(keys[1..], Navigate(Dispatch(keys[0]), index, count), count)
  }

  /** Clamping: from a position of a non-empty list, no sequence of keys leaves the list. */
  lemma {:induction false} PressAllStaysInRange(keys: seq<Key>, index: Maybe<int>, count: nat)
    requires InRange(index, count)
    ensures InRange(PressAll(keys, index, count), count)
  {
    if keys != [] {
      PressAllStaysInRange(keys[1..], Navigate(Dispatch(keys[0]), index, count), count);
    }
  }

  /** Repeated ArrowUp at the first option stays there. */
  lemma {:induction false} ArrowUpAtStartStays(n: nat, count: nat)
    requires count > 0
    ensures PressAll(seq(n, _ => ArrowUp), Some(0), count) == Some(0)
  {
    if n > 0 {
      assert seq(n, _ => ArrowUp)[1..] == seq(n - 1, _ => ArrowUp);
      ArrowUpAtStartStays(n - 1, count);
    }
  }

  /** Repeated ArrowDown at the last option stays there. */
  lemma {:induction false} ArrowDownAtEndStays(n: nat, count: nat)
    requires count > 0
    ensures PressAll(seq(n, _ => ArrowDown), Some(count - 1), count) == Some(count - 1)
  {
    if n > 0 {
      assert seq(n, _ => ArrowDown)[1..] == seq(n - 1, _ => ArrowDown);
      ArrowDownAtEndStays(n - 1, count);
    }
  }

  /** Keys that are neither arrows nor Home/End, Space and Enter included, leave the index alone. */
  lemma {:induction false} IgnoredKeysKeepIndex(keys: seq<Key>, index: Maybe<int>, count: nat)
    requires forall j :: 0 <= j < |keys| ==> Dispatch(keys[j]) == Stay
    ensures PressAll(keys, index, count) == index
  {
    if keys != [] {
      IgnoredKeysKeepIndex(keys[1..], index, count);
    }
  }
}
