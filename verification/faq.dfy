/**
 The FAQ accordion of src/App.tsx: every `FAQItem` owns one `isOpen` flag,
 initially false, which a click on its header negates. The list of items is
 a sequence of those flags, one per question.
 */
module Faq {

  /** The accordion as the page first renders it: every one of the `n` answers hidden. */
  function Closed(n: nat): (p: seq<bool>)
    ensures |p| == n
    ensures forall k :: 0 <= k < n ==> !p[k]
  {
    seq(n, _ => false)
  }

  /** A click on the header of item `k`: `setIsOpen(!isOpen)` on that item only. */
  function Toggle(p: seq<bool>, k: int): (q: seq<bool>)
    requires 0 <= k < |p|
    ensures |q| == |p|
    ensures q[k] != p[k]
    ensures forall j :: 0 <= j < |p| && j != k ==> q[j] == p[j]
  {
    p[k := !p[k]]
  }

  /** Two clicks on the same header restore the accordion. */
  lemma ToggleTwice(p: seq<bool>, k: int)
    requires 0 <= k < |p|
    ensures Toggle(Toggle(p, k), k) == p
  {
  }

  /** Clicks on two headers commute: the items do not interact. */
  lemma ToggleCommutes(p: seq<bool>, j: int, k: int)
    requires 0 <= j < |p| && 0 <= k < |p|
    ensures Toggle(Toggle(p, j), k) == Toggle(Toggle(p, k), j)
  {
  }

  /** The indices of the items whose answer is shown. */
  function OpenItems(p: seq<bool>): set<int>
  {
    set k | 0 <= k < |p| && p[k]
  }

  /** Opening one item of a closed accordion shows that answer and no other. */
  lemma OnlyClickedItemOpen(n: nat, k: int)
    requires 0 <= k < n
    ensures OpenItems(Toggle(Closed(n), k)) == {k}
  {
  }

  /** The accordion after the header clicks `clicks`, in order. */
  function Clicks(p: seq<bool>, clicks: seq<int>): (q: seq<bool>)
    requires forall i :: 0 <= i < |clicks| ==> 0 <= clicks[i] < |p|
    ensures |q| == |p|
    decreases |clicks|
  {
    if |clicks| == 0 then p
    else
      var last := clicks[|clicks| - 1];
      Toggle(Clicks(p, clicks[..|clicks| - 1]), last)
  }

  /** How many of `clicks` were on item `k`. */
  function ClicksOn(clicks: seq<int>, k: int): nat
  {
    if |clicks| == 0 then 0
    else ClicksOn(clicks[..|clicks| - 1], k) + (if clicks[|clicks| - 1] == k then 1 else 0)
  }

  /** Item `k` has changed state exactly when it was clicked an odd number of times. */
  lemma {:induction false} ParityOfClicks(p: seq<bool>, clicks: seq<int>, k: int)
    requires forall i :: 0 <= i < |clicks| ==> 0 <= clicks[i] < |p|
    requires 0 <= k < |p|
    ensures Clicks(p, clicks)[k] == (p[k] != (ClicksOn(clicks, k) % 2 == 1))
    decreases |clicks|
  {
    if |clicks| > 0 {
      var init := clicks[..|clicks| - 1];
      assert forall i :: 0 <= i < |init| ==> init[i] == clicks[i];
      ParityOfClicks(p, init, k);
    }
  }

  /** From a closed accordion, an answer is shown exactly when its header was clicked an odd number of times. */
  lemma OpenIffOddClicks(n: nat, clicks: seq<int>, k: int)
    requires forall i :: 0 <= i < |clicks| ==> 0 <= clicks[i] < n
    requires 0 <= k < n
    ensures Clicks(Closed(n), clicks)[k] <==> ClicksOn(clicks, k) % 2 == 1
  {
    ParityOfClicks(Closed(n), clicks, k);
  }

}
