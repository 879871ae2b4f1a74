/**
 A carousel over a fixed, non-empty list of `length` items, as written twice
 in src/App.tsx (ImageCarousel and PhoneCarousel): the state is one index,
 the arrow buttons step it forward or back with wrap-around, and each
 pagination dot jumps straight to its own position.
 */
module Carousel {

  import opened Arith

  /** The invariant of every carousel: the index names an item of the list. */
  predicate ValidIndex(length: nat, index: int) {
    0 <= index < length
  }

  /**
   JavaScript's `%` on numbers: it truncates toward zero, so the remainder
   takes the sign of the dividend (unlike Dafny's Euclidean `%`).
   */
  function JsRem(a: int, b: int): (r: int)
    requires b > 0
    ensures a >= 0 ==> 0 <= r < b && r == a % b
    ensures a < 0 ==> -b < r <= 0 && (a - r) % b == 0
  {
    if a >= 0 then a % b
    else
      var r := -((-a) % b);
      DivModUnique(a - r, b, -((-a) / b), 0);
      r
  }

  /**
   The right arrow: `(prev + 1) % images.length`. With an empty list the
   source computes NaN, hence `length >= 1`; a negative index would give a
   negative JavaScript remainder, hence `index >= 0`.
   */
  function Next(length: nat, index: int): (r: int)
    requires length >= 1 && index >= 0
    ensures ValidIndex(length, r)
    ensures ValidIndex(length, index) ==>
              r == (if index == length - 1 then 0 else index + 1)
  {
    var r := JsRem(index + 1, length);
    if ValidIndex(length, index) then
      DivModUnique(index, length, 0, index);
      ModSucc(index, length);
      r
    else
      r
  }

  /** The left arrow: `(prev - 1 + images.length) % images.length`. */
  function Prev(length: nat, index: int): (r: int)
    requires length >= 1 && index >= 0
    ensures ValidIndex(length, r)
    ensures ValidIndex(length, index) ==>
              r == (if index == 0 then length - 1 else index - 1)
  {
    var r := JsRem(index - 1 + length, length);
    if ValidIndex(length, index) then
      DivModUnique(index + length, length, 1, index);
      ModPred(index + length, length);
      r
    else
      r
  }

  /**
   Pagination dot `idx`: the page renders one dot per item, so only a
   valid `idx` can be clicked, and the click replaces the index.
   */
  function Select(length: nat, index: int, idx: int): (r: int)
    requires ValidIndex(length, idx)
    ensures ValidIndex(length, r)
    ensures Dots(length, r)[idx]
  {
    idx
  }

  /** Dot `j` is highlighted exactly when `currentIndex === j`. */
  function Dots(length: nat, index: int): (d: seq<bool>)
    ensures |d| == length
    ensures ValidIndex(length, index) ==> CountTrue(d) == 1
  {
    var d := seq(length, j => j == index);
    CountOfIndicator(d, index);
    d
  }

  /** Number of `true` entries of `d`. */
  function CountTrue(d: seq<bool>): nat
  {
    if |d| == 0 then 0 else CountTrue(d[..|d| - 1]) + (if d[|d| - 1] then 1 else 0)
  }

  lemma {:induction false} CountOfIndicator(d: seq<bool>, i: int)
    requires forall j :: 0 <= j < |d| ==> (d[j] <==> j == i)
    ensures CountTrue(d) == (if 0 <= i < |d| then 1 else 0)
  {
    if |d| > 0 {
      CountOfIndicator(d[..|d| - 1], i);
    }
  }

  /** Whatever the index, exactly one dot is the active one. */
  lemma ExactlyOneActiveDot(length: nat, index: int)
    requires ValidIndex(length, index)
    ensures CountTrue(Dots(length, index)) == 1
  {
    CountOfIndicator(Dots(length, index), index);
  }

  /** Clicking dot `idx` makes `idx`, and only `idx`, the active dot. */
  lemma SelectActivatesOnlyThatDot(length: nat, index: int, idx: int)
    requires ValidIndex(length, idx)
    ensures forall j :: 0 <= j < length ==> (Dots(length, Select(length, index, idx))[j] <==> j == idx)
    ensures CountTrue(Dots(length, Select(length, index, idx))) == 1
  {
    ExactlyOneActiveDot(length, idx);
  }

  /** The two arrows undo each other. */
  lemma PrevUndoesNext(length: nat, index: int)
    requires ValidIndex(length, index)
    ensures Prev(length, Next(length, index)) == index
    ensures Next(length, Prev(length, index)) == index
  {
  }

  /** With a single item both arrows leave the index where it is. */
  lemma SingleItemIsFixed(index: int)
    requires ValidIndex(1, index)
    ensures Next(1, index) == index && Prev(1, index) == index
  {
  }

  /** `n` clicks on the right arrow. */
  function NextN(length: nat, index: int, n: nat): (r: int)
    requires ValidIndex(length, index)
    ensures ValidIndex(length, r)
  {
    if n == 0 then index else Next(length, NextN(length, index, n - 1))
  }

  /** `n` clicks on the left arrow. */
  function PrevN(length: nat, index: int, n: nat): (r: int)
    requires ValidIndex(length, index)
    ensures ValidIndex(length, r)
  {
    if n == 0 then index else Prev(length, PrevN(length, index, n - 1))
  }

  /** `n` forward clicks move `n` places round the cycle. */
  lemma {:induction false} NextNMoves(length: nat, index: int, n: nat)
    requires ValidIndex(length, index)
    ensures NextN(length, index, n) == (index + n) % length
  {
    if n > 0 {
      NextNMoves(length, index, n - 1);
      ModSucc(index + n - 1, length);
    }
  }

  /** `n` backward clicks move `n` places the other way round the cycle. */
  lemma {:induction false} PrevNMoves(length: nat, index: int, n: nat)
    requires ValidIndex(length, index)
    ensures PrevN(length, index, n) == (index - n) % length
  {
    if n > 0 {
      PrevNMoves(length, index, n - 1);
      ModPred(index - (n - 1), length);
    }
  }

  /** Clicking the right arrow `length` times comes back to the start. */
  lemma NextCycle(length: nat, index: int)
    requires ValidIndex(length, index)
    ensures NextN(length, index, length) == index
  {
    NextNMoves(length, index, length);
    DivModUnique(index + length, length, 1, index);
  }

  /** So does clicking the left arrow `length` times. */
  lemma PrevCycle(length: nat, index: int)
    requires ValidIndex(length, index)
    ensures PrevN(length, index, length) == index
  {
    PrevNMoves(length, index, length);
    DivModUnique(index - length, length, -1, index);
  }

  /** A user action on one carousel. */
  datatype Action = Forward | Back | Jump(idx: int)

  /** Only dots that exist can be clicked. */
  predicate Clickable(length: nat, a: Action) {
    a.Jump? ==> ValidIndex(length, a.idx)
  }

  /** One action: an arrow click or a dot click. */
  function Apply(length: nat, index: int, a: Action): (r: int)
    requires ValidIndex(length, index) && Clickable(length, a)
    ensures ValidIndex(length, r)
  {
    match a
    case Forward => Next(length, index)
    case Back => Prev(length, index)
    case Jump(idx) => Select(length, index, idx)
  }

  /** The index after a sequence of actions. */
  function Run(length: nat, index: int, acts: seq<Action>): (r: int)
    requires ValidIndex(length, index)
    requires forall k :: 0 <= k < |acts| ==> Clickable(length, acts[k])
    ensures ValidIndex(length, r)
    decreases |acts|
  {
    if |acts| == 0 then index
    else
      var last := acts[|acts| - 1];
      assert Clickable(length, last);
      Apply(length, Run(length, index, acts[..|acts| - 1]), last)
  }

  /** One more action after a run is one more step of that run. */
  lemma RunSnoc(length: nat, index: int, acts: seq<Action>, a: Action)
    requires ValidIndex(length, index)
    requires forall k :: 0 <= k < |acts| ==> Clickable(length, acts[k])
    requires Clickable(length, a)
    ensures Run(length, index, acts + [a]) == Apply(length, Run(length, index, acts), a)
  {
    assert (acts + [a])[..|acts|] == acts;
  }

  /** Net number of places moved by the arrow clicks in `acts`. */
  function Offset(acts: seq<Action>): int
  {
    if |acts| == 0 then 0
    else Offset(acts[..|acts| - 1]) + (match acts[|acts| - 1]
                                        case Forward => 1
                                        case Back => -1
                                        case Jump(_) => 0)
  }

  /** A forward click on the residue of `x` gives the residue of `x + 1`. */
  lemma NextOfResidue(length: nat, x: int)
    requires length >= 1
    ensures Next(length, x % length) == (x + 1) % length
  {
    ModSucc(x, length);
  }

  /** A backward click on the residue of `x` gives the residue of `x - 1`. */
  lemma PrevOfResidue(length: nat, x: int)
    requires length >= 1
    ensures Prev(length, x % length) == (x - 1) % length
  {
    ModPred(x, length);
  }

  /** Arrow clicks only: the index is the start shifted by the net offset, modulo the length. */
  lemma {:induction false} RunIsNetOffset(length: nat, index: int, acts: seq<Action>)
    requires ValidIndex(length, index)
    requires forall k :: 0 <= k < |acts| ==> !acts[k].Jump?
    ensures Run(length, index, acts) == (index + Offset(acts)) % length
    decreases |acts|
  {
    if |acts| == 0 {
      DivModUnique(index, length, 0, index);
    } else {
      var init := acts[..|acts| - 1];
      assert forall k :: 0 <= k < |init| ==> init[k] == acts[k];
      RunIsNetOffset(length, index, init);
      var x := index + Offset(init);
      if acts[|acts| - 1].Forward? {
        NextOfResidue(length, x);
      } else {
        PrevOfResidue(length, x);
      }
    }
  }

}
