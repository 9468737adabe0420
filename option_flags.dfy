/**
 * The flags an option carries, as values, and the rewrites the listbox applies to the whole
 * list of them: committing a focused position, and cascading `disabled` / `readOnly`.
 */
module OptionFlags {
  import opened Dom

  /** The state of one option element that the listbox reads or writes. */
  datatype OptionState = OptionState(
    isElement: bool,          // nodeType === ELEMENT_NODE
    role: Maybe<string>,     // getAttribute("role")
    disabled: bool,
    readOnly: bool,
    selected: bool,
    tabindex: Maybe<string>, // the tabindex attribute, None when removed
    id: string)

  /** The options a listbox keeps when its slotted children change: enabled elements with role "option". */
  predicate IsCandidate(o: OptionState) {
    o.isElement && o.role == Some("option") && !o.disabled
  }

  /** The two states agree on everything but `selected` and `tabindex`. */
  predicate SameButSelection(a: OptionState, b: OptionState) {
    a.(selected := false, tabindex := None) == b.(selected := false, tabindex := None)
  }

  /** First phase of a commit: every option deselected and its tabindex removed. */
  function Deselected(s: seq<OptionState>): (r: seq<OptionState>)
    ensures |r| == |s|
    ensures forall j :: 0 <= j < |s| ==> !r[j].selected && r[j].tabindex == None && SameButSelection(r[j], s[j])
  {
    seq(|s|, j requires 0 <= j < |s| => s[j].(selected := false, tabindex := None))
  }

  /** The flag rewrite of committing position i: deselect everything, then select i and make it the tab stop. */
  function CommitAt(s: seq<OptionState>, i: nat): (r: seq<OptionState>)
    requires i < |s|
    ensures |r| == |s|
    ensures forall j :: 0 <= j < |s| ==> r[j].selected == (j == i)
    ensures forall j :: 0 <= j < |s| ==> r[j].tabindex == (if j == i then Some("0") else None)
    ensures forall j :: 0 <= j < |s| ==> SameButSelection(r[j], s[j])
  {
    var d := Deselected(s);
    d[i := d[i].(selected := true, tabindex := Some("0"))]
  }

  /** CommitAt, position by position. */
  lemma CommitAtPointwise(before: seq<OptionState>, after: seq<OptionState>, i: nat)
    requires i < |before| && |after| == |before|
    requires forall j :: 0 <= j < |before| ==>
      after[j] == before[j].(selected := j == i, tabindex := if j == i then Some("0") else None)
    ensures after == CommitAt(before, i)
  {
  }

  /** Number of options whose `selected` flag is set. */
  function CountSelected(s: seq<OptionState>): nat {
    if s == [] then 0 else (if s[0].selected then 1 else 0) + CountSelected(s[1..])
  }

  lemma {:induction false} NoneSelected(s: seq<OptionState>)
    requires forall j :: 0 <= j < |s| ==> !s[j].selected
    ensures CountSelected(s) == 0
  {
    if s != [] {
      NoneSelected(s[1..]);
    }
  }

  lemma {:induction false} OnlyOneSelected(s: seq<OptionState>, i: nat)
    requires i < |s|
    requires forall j :: 0 <= j < |s| ==> s[j].selected == (j == i)
    ensures CountSelected(s) == 1
  {
    if i == 0 {
      NoneSelected(s[1..]);
    } else {
      OnlyOneSelected(s[1..], i - 1);
    }
  }

  /** Single selection: after a commit exactly one option is selected, the committed one. */
  lemma CommitSelectsExactlyOne(s: seq<OptionState>, i: nat)
    requires i < |s|
    ensures CountSelected(CommitAt(s, i)) == 1 && CommitAt(s, i)[i].selected
  {
    OnlyOneSelected(CommitAt(s, i), i);
  }

  /** Committing the same position twice changes nothing the first commit did not. */
  lemma CommitIdempotent(s: seq<OptionState>, i: nat)
    requires i < |s|
    ensures CommitAt(CommitAt(s, i), i) == CommitAt(s, i)
  {
  }

  /** The `disabledChanged` cascade: every option takes the listbox's flag. */
  function WithDisabled(s: seq<OptionState>, b: bool): (r: seq<OptionState>)
    ensures |r| == |s|
    ensures forall j :: 0 <= j < |s| ==> r[j] == s[j].(disabled := b)
  {
    if s == [] then [] else [s[0].(disabled := b)] + WithDisabled(s[1..], b)
  }

  /** The `readOnlyChanged` cascade: every option takes the listbox's flag. */
  function WithReadOnly(s: seq<OptionState>, b: bool): (r: seq<OptionState>)
    ensures |r| == |s|
    ensures forall j :: 0 <= j < |s| ==> r[j] == s[j].(readOnly := b)
  {
    if s == [] then [] else [s[0].(readOnly := b)] + WithReadOnly(s[1..], b)
  }

  /** Once disabled by the cascade, no option qualifies when the list is next populated. */
  lemma DisabledCascadeExcludesAll(s: seq<OptionState>)
    ensures forall j :: 0 <= j < |s| ==> !IsCandidate(WithDisabled(s, true)[j])
  {
  }

  /** Cascades touch neither selection nor ids. */
  lemma {:induction false} CascadesKeepSelection(s: seq<OptionState>, b: bool)
    ensures CountSelected(WithDisabled(s, b)) == CountSelected(s)
    ensures CountSelected(WithReadOnly(s, b)) == CountSelected(s)
  {
    if s != [] {
      CascadesKeepSelection(s[1..], b);
      assert WithDisabled(s, b)[1..] == WithDisabled(s[1..], b);
      assert WithReadOnly(s, b)[1..] == WithReadOnly(s[1..], b);
    }
  }

  /**
   * The listbox `keypressHandler` rewrite of the option at position i:
   * it becomes the tab stop when selected and loses its tabindex otherwise.
   */
  function SyncTabStop(s: seq<OptionState>, i: nat): (r: seq<OptionState>)
    requires i < |s|
    ensures |r| == |s|
    ensures r[i].tabindex == (if s[i].selected then Some("0") else None)
    ensures forall j :: 0 <= j < |s| && j != i ==> r[j] == s[j]
    ensures forall j :: 0 <= j < |s| ==> r[j] == s[j].(tabindex := r[j].tabindex)
  {
    s[i := s[i].(tabindex := if s[i].selected then Some("0") else None)]
  }

  /** SyncTabStop, position by position. */
  lemma SyncTabStopPointwise(before: seq<OptionState>, after: seq<OptionState>, i: nat)
    requires i < |before| && |after| == |before|
    requires forall j :: 0 <= j < |before| ==>
      after[j] == if j == i then before[j].(tabindex := if before[j].selected then Some("0") else None) else before[j]
    ensures after == SyncTabStop(before, i)
  {
  }

  /** After a commit the tab stops already agree with selection, so the keypress rewrite is a no-op. */
  lemma SyncTabStopAfterCommit(s: seq<OptionState>, i: nat, j: nat)
    requires i < |s| && j < |s|
    ensures SyncTabStop(CommitAt(s, i), j) == CommitAt(s, i)
  {
  }
}
