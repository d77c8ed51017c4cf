/** `BlockCompressor::addListener` and `removeListener`: the ordered list of
    registered observers. A listener is identified by its handle; the null
    pointer is `None`. */
module Listeners {
  import opened Wrappers

  /** A registered observer, known only by its identity. */
  datatype Listener = Listener(id: nat)

  /** Position of the first occurrence of `l`, as `std::find` returns it. */
  function FirstIndex(ls: seq<Listener>, l: Listener): (i: nat)
    ensures i <= |ls|
    ensures i < |ls| ==> ls[i] == l
    ensures forall k :: 0 <= k < i ==> ls[k] != l
  {
    if |ls| == 0 then 0
    else if ls[0] == l then 0
    else 1 + FirstIndex(ls[1..], l)
  }

  /** Appends a listener; a null one is refused and the list is kept. */
  function AddListener(ls: seq<Listener>, l: Option<Listener>): (r: (bool, seq<Listener>))
    ensures r.0 <==> l.Some?
    ensures r.0 ==> r.1 == ls + [l.value]
    ensures !r.0 ==> r.1 == ls
  {
    match l
    case None => (false, ls)
    case Some(x) => (true, ls + [x])
  }

  /** Erases the first occurrence of a listener; reports whether there was
      one. A null handle is never registered, so it is never found. */
  function RemoveListener(ls: seq<Listener>, l: Option<Listener>): (r: (bool, seq<Listener>))
    ensures r.0 <==> l.Some? && l.value in ls
    ensures !r.0 ==> r.1 == ls
    ensures r.0 ==> multiset(r.1) == multiset(ls) - multiset{l.value}
    ensures r.0 ==> |r.1| == |ls| - 1
  {
    match l
    case None => (false, ls)
    case Some(x) =>
      var i := FirstIndex(ls, x);
      if i == |ls| then (false, ls)
      else
        assert ls == ls[..i] + [ls[i]] + ls[i + 1..];
        (true, ls[..i] + ls[i + 1..])
  }

  /** Removing a listener keeps the others in their registration order:
      what is left is the list with its first occurrence cut out. */
  lemma RemoveKeepsOrder(ls: seq<Listener>, x: Listener)
    requires x in ls
    ensures RemoveListener(ls, Some(x)).1 == ls[..FirstIndex(ls, x)] + ls[FirstIndex(ls, x) + 1..]
    ensures x !in ls[..FirstIndex(ls, x)]
  {
  }

  /** Adding a listener that was not registered and removing it again gives
      back the original list. */
  lemma {:induction false} AddThenRemove(ls: seq<Listener>, x: Listener)
    requires x !in ls
    ensures RemoveListener(AddListener(ls, Some(x)).1, Some(x)) == (true, ls)
  {
    var added := ls + [x];
    assert FirstIndex(added, x) == |ls| by {
      FirstIndexPastAbsent(ls, x);
    }
    assert added[|ls|] == x;
    assert added[..|ls|] + added[|ls| + 1..] == ls;
  }

  lemma {:induction false} FirstIndexPastAbsent(ls: seq<Listener>, x: Listener)
    requires x !in ls
    ensures FirstIndex(ls + [x], x) == |ls|
    decreases |ls|
  {
    if |ls| > 0 {
      assert (ls + [x])[1..] == ls[1..] + [x];
      FirstIndexPastAbsent(ls[1..], x);
    }
  }
}
