/**
 * The FAQ accordion's rule, on the sequence of item states (`true` = the item
 * has class `active`): a click on question `k` first closes every item, then
 * reopens item `k` if it was closed before the click.
 */
module Accordion {

  /** Number of open items. */
  function OpenCount(items: seq<bool>): nat
  {
    if items == [] then 0 else OpenCount(items[..|items| - 1]) + (if items[|items| - 1] then 1 else 0)
  }

  /** No two distinct items are open. */
  ghost predicate AtMostOneOpen(items: seq<bool>)
  {
    forall i, j :: 0 <= i < |items| && 0 <= j < |items| && items[i] && items[j] ==> i == j
  }

  /** Item states after a click on question `k`. */
  function AfterClick(items: seq<bool>, k: nat): (r: seq<bool>)
    requires k < |items|
    ensures |r| == |items|
  {
    seq(|items|, i requires 0 <= i < |items| => i == k && !items[k])
  }

  /** A click leaves the clicked item toggled and every other item closed. */
  lemma AfterClickItems(items: seq<bool>, k: nat)
    requires k < |items|
    ensures AfterClick(items, k)[k] == !items[k]
    ensures forall i :: 0 <= i < |items| && i != k ==> !AfterClick(items, k)[i]
    ensures AtMostOneOpen(AfterClick(items, k))
  {
  }

  /** Clicking an open item leaves no item open; clicking a closed one leaves exactly one open. */
  lemma AfterClickOpenCount(items: seq<bool>, k: nat)
    requires k < |items|
    ensures OpenCount(AfterClick(items, k)) == if items[k] then 0 else 1
  {
    OnlyOneCanBeOpen(AfterClick(items, k), k);
  }

  /** A sequence where only item `k` may be open has `OpenCount` 1 or 0 depending on item `k`. */
  lemma {:induction false} OnlyOneCanBeOpen(items: seq<bool>, k: nat)
    requires k < |items|
    requires forall i :: 0 <= i < |items| && i != k ==> !items[i]
    ensures OpenCount(items) == if items[k] then 1 else 0
  {
    var n := |items| - 1;
    if k < n {
      OnlyOneCanBeOpen(items[..n], k);
    } else {
      NoneOpen(items[..n]);
    }
  }

  /** A sequence with every item closed has `OpenCount` 0. */
  lemma {:induction false} NoneOpen(items: seq<bool>)
    requires forall i :: 0 <= i < |items| ==> !items[i]
    ensures OpenCount(items) == 0
  {
    if items != [] {
      NoneOpen(items[..|items| - 1]);
    }
  }

  /** Counting and pairwise statements of "at most one item is open" agree. */
  lemma {:induction false} OpenCountAtMostOne(items: seq<bool>)
    ensures OpenCount(items) <= 1 <==> AtMostOneOpen(items)
  {
    if items != [] {
      var n := |items| - 1;
      var init := items[..n];
      OpenCountAtMostOne(init);
      if items[n] {
        if OpenCount(items) <= 1 {
          assert OpenCount(init) == 0;
          ZeroOpen(init);
        } else {
          assert OpenCount(init) >= 1;
          var i := SomeOpen(init);
          assert items[i] && items[n] && i != n;
        }
      } else {
        if AtMostOneOpen(init) {
          forall i, j | 0 <= i < |items| && 0 <= j < |items| && items[i] && items[j]
            ensures i == j
          {
            assert init[i] && init[j];
          }
        }
      }
    }
  }

  /** `OpenCount` 0 means every item is closed. */
  lemma {:induction false} ZeroOpen(items: seq<bool>)
    requires OpenCount(items) == 0
    ensures forall i :: 0 <= i < |items| ==> !items[i]
  {
    if items != [] {
      ZeroOpen(items[..|items| - 1]);
    }
  }

  /** A positive `OpenCount` has an open item as witness. */
  lemma {:induction false} SomeOpen(items: seq<bool>) returns (i: nat)
    requires OpenCount(items) > 0
    ensures i < |items| && items[i]
  {
    var n := |items| - 1;
    if items[n] {
      i := n;
    } else {
      i := SomeOpen(items[..n]);
    }
  }
}
