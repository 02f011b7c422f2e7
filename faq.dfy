/**
 * The FAQ accordion: a click on an item's question closes every item, then
 * opens the clicked one only if it was closed before the click.
 */
module Faq {

  /** The open/closed state after a click on item `i` of `items`. */
  function AfterClick(items: seq<bool>, i: nat): (r: seq<bool>)
    requires i < |items|
  {
    seq(|items|, j requires 0 <= j < |items| => false)[i := !items[i]]
  }

  /** The number of open items. */
  function OpenCount(items: seq<bool>): (n: nat)
    ensures n <= |items|
  {
    if items == [] then 0 else (if items[0] then 1 else 0) + OpenCount(items[1..])
  }

  /** Items closed everywhere except possibly at `i` hold at most one open. */
  lemma {:induction false} AtMostOneOpen(items: seq<bool>, i: nat)
    requires i < |items|
    requires forall j :: 0 <= j < |items| && j != i ==> !items[j]
    ensures OpenCount(items) <= 1
    ensures OpenCount(items) == 1 <==> items[i]
  {
    if i == 0 {
      NoneOpen(items[1..]);
    } else {
      AtMostOneOpen(items[1..], i - 1);
    }
  }

  lemma {:induction false} NoneOpen(items: seq<bool>)
    requires forall j :: 0 <= j < |items| ==> !items[j]
    ensures OpenCount(items) == 0
  {
    if items != [] {
      NoneOpen(items[1..]);
    }
  }

  /** After any click exactly the clicked item may be open, and it is open
      iff it was closed before; so at most one item is ever open. */
  lemma ClickLeavesAtMostOneOpen(items: seq<bool>, i: nat)
    requires i < |items|
    ensures |AfterClick(items, i)| == |items|
    ensures AfterClick(items, i)[i] == !items[i]
    ensures forall j :: 0 <= j < |items| && j != i ==> !AfterClick(items, i)[j]
    ensures OpenCount(AfterClick(items, i)) == (if items[i] then 0 else 1)
  {
    AtMostOneOpen(AfterClick(items, i), i);
  }

  /** Clicking the open item closes the whole accordion. */
  lemma ClickOnOpenClosesAll(items: seq<bool>, i: nat)
    requires i < |items| && items[i]
    ensures OpenCount(AfterClick(items, i)) == 0
  {
    ClickLeavesAtMostOneOpen(items, i);
  }

  class Accordion {
    /** `active` class of each `.faq-item`, in document order. */
    var items: array<bool>

    ghost predicate Valid()
      reads this, items
    {
      OpenCount(items[..]) <= 1
    }

    /** The page as loaded: every item closed. */
    constructor (n: nat)
      ensures Valid() && fresh(items) && items.Length == n
      ensures forall j :: 0 <= j < n ==> !items[j]
    {
      items := new bool[n](_ => false);
      new;
      NoneOpen(items[..]);
    }

    /** The click handler of the question of item `i`. */
    method Click(i: nat)
      requires i < items.Length
      modifies items
      ensures Valid()
      ensures items[..] == AfterClick(old(items[..]), i)
    {
      var wasActive := items[i];
      var k := 0;
      while k < items.Length
        invariant 0 <= k <= items.Length
        invariant forall j :: 0 <= j < k ==> !items[j]
      {
        items[k] := false;
        k := k + 1;
      }
      if !wasActive {
        items[i] := true;
      }
      assert items[..] == AfterClick(old(items[..]), i);
      ClickLeavesAtMostOneOpen(old(items[..]), i);
    }
  }
}
