/** Stand-ins for the pieces of the browser DOM that the listbox and the select read and write. */
module Dom {

  /** An optional value (`undefined`/`null` in the source become `None`); not to be confused with the option element. */
  datatype Maybe<+T> = None | Some(value: T)

  /** Identity of a DOM node, as far as focus events are concerned. */
  type NodeId = nat

  /**
   * `root.contains(node)`: `subtree` is the inclusive subtree of `root` (so `root` itself is in it).
   * A missing node (a focus event without a related target) is contained nowhere.
   */
  predicate Contains(subtree: set<NodeId>, node: Maybe<NodeId>) {
    node.Some? && node.value in subtree
  }

  /** No element occurs twice: the children of a slot are distinct nodes. */
  predicate Distinct<T(==)>(s: seq<T>) {
    forall i, j :: 0 <= i < j < |s| ==> s[i] != s[j]
  }

  /** `Array.prototype.findIndex`: the first position whose element satisfies `p`, or -1. */
  function FindIndex<T>(s: seq<T>, p: T -> bool): (r: int)
    ensures -1 <= r < |s|
    ensures r == -1 <==> forall j :: 0 <= j < |s| ==> !p(s[j])
    ensures r != -1 ==> p(s[r]) && forall j :: 0 <= j < r ==> !p(s[j])
  {
    if s == [] then -1
    else if p(s[0]) then 0
    else
      var r := FindIndex(s[1..], p);
      if r == -1 then -1 else r + 1
  }

  /** `includes` extended with the position `keypressHandler` goes on to rewrite: the first position holding `x`, or -1. */
  function IndexOf<T(==)>(s: seq<T>, x: T): (r: int)
    ensures -1 <= r < |s|
    ensures r == -1 <==> x !in s
    ensures r != -1 ==> s[r] == x && x !in s[..r]
  {
    if s == [] then -1
    else if s[0] == x then 0
    else
      var r := IndexOf(s[1..], x);
      assert r != -1 ==> s[1..][..r] == s[1..r + 1];
      if r == -1 then -1 else r + 1
  }

  /** A part that may not be rendered yet, as a frame: nothing when it is null. */
  function Part(e: Element?): (r: set<Element>)
    ensures e != null <==> e in r
    ensures |r| <= 1
  {
    if e == null then {} else {e}
  }

  /** An HTML element whose attributes, text and form value are written by the components. */
  class Element {
    var attributes: map<string, string>
    var textContent: string
    var value: string

    constructor ()
      ensures attributes == map[] && textContent == "" && value == ""
    {
      attributes, textContent, value := map[], "", "";
    }

    /** `setAttribute(name, v)` */
    method SetAttribute(name: string, v: string)
      modifies this`attributes
      ensures attributes == old(attributes)[name := v]
    {
      attributes := attributes[name := v];
    }
  }
}
