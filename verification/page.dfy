/**
 The `App` page of src/App.tsx as one state machine: the countdown value the
 page owns, the index of each of its two carousels, and the open flags of
 its FAQ items. Each event is a timer callback or a click on one widget.
 */
module Page {

  import Carousel
  import Countdown
  import Faq
  import TimeFormat

  /** `SAMPLE_IMAGES.length`, the product samples shown by `ImageCarousel`. */
  const SampleCount: nat := 7
  /** `WHATSAPP_PROOFS.length`, the screenshots shown by `PhoneCarousel`. */
  const ProofCount: nat := 6
  /** The number of `FAQItem`s in the FAQ section. */
  const FaqCount: nat := 8

  datatype State = State(timeLeft: nat, sample: int, proof: int, faq: seq<bool>)

  datatype Event =
    | Second                            // the one-second interval fires
    | SampleClick(a: Carousel.Action)   // an arrow or dot of the sample carousel
    | ProofClick(a: Carousel.Action)    // an arrow or dot of the phone carousel
    | FaqClick(item: int)               // the header of one FAQ item

  /** What the page holds as it mounts. */
  function Initial(): (st: State)
    ensures Valid(st)
  {
    State(Countdown.Start, 0, 0, Faq.Closed(FaqCount))
  }

  /** Every reachable state: the countdown has not grown, both indices name an item, one flag per question. */
  predicate Valid(st: State) {
    && st.timeLeft <= Countdown.Start
    && Carousel.ValidIndex(SampleCount, st.sample)
    && Carousel.ValidIndex(ProofCount, st.proof)
    && |st.faq| == FaqCount
  }

  /** Only rendered controls can be clicked: a dot per item, a header per question. */
  predicate Enabled(e: Event) {
    match e
    case Second => true
    case SampleClick(a) => Carousel.Clickable(SampleCount, a)
    case ProofClick(a) => Carousel.Clickable(ProofCount, a)
    case FaqClick(k) => 0 <= k < FaqCount
  }

  predicate AllEnabled(es: seq<Event>) {
    forall i :: 0 <= i < |es| ==> Enabled(es[i])
  }

  /**
   One event. A valid state stays valid, and every event changes the state
   of its own widget only: no widget reads or writes another's state.
   */
  function Step(st: State, e: Event): (st': State)
    requires Valid(st) && Enabled(e)
    ensures Valid(st')
    ensures !e.Second? ==> st'.timeLeft == st.timeLeft
    ensures !e.SampleClick? ==> st'.sample == st.sample
    ensures !e.ProofClick? ==> st'.proof == st.proof
    ensures !e.FaqClick? ==> st'.faq == st.faq
  {
    match e
    case Second => st.(timeLeft := Countdown.Tick(st.timeLeft))
    case SampleClick(a) => st.(sample := Carousel.Apply(SampleCount, st.sample, a))
    case ProofClick(a) => st.(proof := Carousel.Apply(ProofCount, st.proof, a))
    case FaqClick(k) => st.(faq := Faq.Toggle(st.faq, k))
  }

  /** The state after the events `es`, in order. */
  function Run(st: State, es: seq<Event>): (st': State)
    requires Valid(st) && AllEnabled(es)
    ensures Valid(st')
    decreases |es|
  {
    if |es| == 0 then st
    else
      var init := es[..|es| - 1];
      assert AllEnabled(init) by {
        assert forall i :: 0 <= i < |init| ==> init[i] == es[i];
      }
      Step(Run(st, init), es[|es| - 1])
  }

  /** The text of the countdown bar. */
  function Banner(st: State): string {
    TimeFormat.FormatTime(st.timeLeft)
  }

  /** How many interval callbacks `es` holds. */
  function SecondsIn(es: seq<Event>): nat
  {
    if |es| == 0 then 0
    else SecondsIn(es[..|es| - 1]) + (if es[|es| - 1].Second? then 1 else 0)
  }

  /** The clicks of `es` on the sample carousel. */
  function SampleActions(es: seq<Event>): (acts: seq<Carousel.Action>)
    ensures AllEnabled(es) ==> forall k :: 0 <= k < |acts| ==> Carousel.Clickable(SampleCount, acts[k])
  {
    if |es| == 0 then []
    else
      var init := es[..|es| - 1];
      assert AllEnabled(es) ==> AllEnabled(init) by {
        assert forall i :: 0 <= i < |init| ==> init[i] == es[i];
      }
      SampleActions(init) + (if es[|es| - 1].SampleClick? then [es[|es| - 1].a] else [])
  }

  /** The clicks of `es` on the phone carousel. */
  function ProofActions(es: seq<Event>): (acts: seq<Carousel.Action>)
    ensures AllEnabled(es) ==> forall k :: 0 <= k < |acts| ==> Carousel.Clickable(ProofCount, acts[k])
  {
    if |es| == 0 then []
    else
      var init := es[..|es| - 1];
      assert AllEnabled(es) ==> AllEnabled(init) by {
        assert forall i :: 0 <= i < |init| ==> init[i] == es[i];
      }
      ProofActions(init) + (if es[|es| - 1].ProofClick? then [es[|es| - 1].a] else [])
  }

  /** The FAQ headers clicked in `es`. */
  function FaqClicks(es: seq<Event>): (ks: seq<int>)
    ensures AllEnabled(es) ==> forall k :: 0 <= k < |ks| ==> 0 <= ks[k] < FaqCount
  {
    if |es| == 0 then []
    else
      var init := es[..|es| - 1];
      assert AllEnabled(es) ==> AllEnabled(init) by {
        assert forall i :: 0 <= i < |init| ==> init[i] == es[i];
      }
      FaqClicks(init) + (if es[|es| - 1].FaqClick? then [es[|es| - 1].item] else [])
  }

  /** One more click after a run of clicks is one more toggle. */
  lemma FaqClicksSnoc(p: seq<bool>, ks: seq<int>, k: int)
    requires forall i :: 0 <= i < |ks| ==> 0 <= ks[i] < |p|
    requires 0 <= k < |p|
    ensures Faq.Clicks(p, ks + [k]) == Faq.Toggle(Faq.Clicks(p, ks), k)
  {
    assert (ks + [k])[..|ks|] == ks;
  }

  /** The last event of a run is one more step. */
  lemma RunSnoc(st: State, es: seq<Event>)
    requires Valid(st) && AllEnabled(es) && |es| > 0
    ensures AllEnabled(es[..|es| - 1]) && Enabled(es[|es| - 1])
    ensures Run(st, es) == Step(Run(st, es[..|es| - 1]), es[|es| - 1])
  {
    var init := es[..|es| - 1];
    assert forall i :: 0 <= i < |init| ==> init[i] == es[i];
  }

  /** The countdown of a run has seen the timer only. */
  lemma {:induction false} RunTimeLeft(st: State, es: seq<Event>)
    requires Valid(st) && AllEnabled(es)
    ensures Run(st, es).timeLeft == Countdown.Ticks(st.timeLeft, SecondsIn(es))
    decreases |es|
  {
    if |es| > 0 {
      RunSnoc(st, es);
      RunTimeLeft(st, es[..|es| - 1]);
    }
  }

  /** The sample carousel of a run has seen its own clicks only. */
  lemma {:induction false} RunSample(st: State, es: seq<Event>)
    requires Valid(st) && AllEnabled(es)
    ensures Run(st, es).sample == Carousel.Run(SampleCount, st.sample, SampleActions(es))
    decreases |es|
  {
    if |es| > 0 {
      var init, e := es[..|es| - 1], es[|es| - 1];
      RunSnoc(st, es);
      RunSample(st, init);
      if e.SampleClick? {
        Carousel.RunSnoc(SampleCount, st.sample, SampleActions(init), e.a);
      } else {
        assert SampleActions(es) == SampleActions(init);
      }
    }
  }

  /** The phone carousel of a run has seen its own clicks only. */
  lemma {:induction false} RunProof(st: State, es: seq<Event>)
    requires Valid(st) && AllEnabled(es)
    ensures Run(st, es).proof == Carousel.Run(ProofCount, st.proof, ProofActions(es))
    decreases |es|
  {
    if |es| > 0 {
      var init, e := es[..|es| - 1], es[|es| - 1];
      RunSnoc(st, es);
      RunProof(st, init);
      if e.ProofClick? {
        Carousel.RunSnoc(ProofCount, st.proof, ProofActions(init), e.a);
      } else {
        assert ProofActions(es) == ProofActions(init);
      }
    }
  }

  /** The accordion of a run has seen its own header clicks only. */
  lemma {:induction false} RunFaq(st: State, es: seq<Event>)
    requires Valid(st) && AllEnabled(es)
    ensures Run(st, es).faq == Faq.Clicks(st.faq, FaqClicks(es))
    decreases |es|
  {
    if |es| > 0 {
      var init, e := es[..|es| - 1], es[|es| - 1];
      RunSnoc(st, es);
      RunFaq(st, init);
      if e.FaqClick? {
        FaqClicksSnoc(st.faq, FaqClicks(init), e.item);
      } else {
        assert FaqClicks(es) == FaqClicks(init);
      }
    }
  }

  /** The countdown after any run: the timer callbacks in it, clamped at zero. */
  lemma TimeLeftAfterRun(st: State, es: seq<Event>)
    requires Valid(st) && AllEnabled(es)
    ensures Run(st, es).timeLeft == Countdown.Max(0, st.timeLeft - SecondsIn(es))
  {
    RunTimeLeft(st, es);
    Countdown.TicksClamp(st.timeLeft, SecondsIn(es));
  }

  /** `n` timer callbacks in a row tick the countdown `n` times and touch nothing else. */
  lemma {:induction false} TimerOnly(st: State, n: nat)
    requires Valid(st)
    ensures AllEnabled(seq(n, _ => Second))
    ensures Run(st, seq(n, _ => Second)) == st.(timeLeft := Countdown.Ticks(st.timeLeft, n))
  {
    if n > 0 {
      var es := seq(n, _ => Second);
      assert es[..n - 1] == seq(n - 1, _ => Second);
      TimerOnly(st, n - 1);
      RunSnoc(st, es);
    }
  }

  /** `n` clicks on the sample carousel's right arrow advance it `n` times and touch nothing else. */
  lemma {:induction false} SampleForwardOnly(st: State, n: nat)
    requires Valid(st)
    ensures AllEnabled(seq(n, _ => SampleClick(Carousel.Forward)))
    ensures Run(st, seq(n, _ => SampleClick(Carousel.Forward)))
         == st.(sample := Carousel.NextN(SampleCount, st.sample, n))
  {
    if n > 0 {
      var es := seq(n, _ => SampleClick(Carousel.Forward));
      assert es[..n - 1] == seq(n - 1, _ => SampleClick(Carousel.Forward));
      SampleForwardOnly(st, n - 1);
      RunSnoc(st, es);
    }
  }

  /**
   A visit: the bar shows 59:59; five seconds later 59:54; seven clicks on the
   sample carousel's right arrow come back to the first sample; a click on the
   third question opens that answer and no other.
   */
  lemma Visit()
    ensures Banner(Initial()) == "59:59"
    ensures AllEnabled(seq(5, _ => Second))
    ensures var waited := Run(Initial(), seq(5, _ => Second));
            && Banner(waited) == "59:54"
            && AllEnabled(seq(SampleCount, _ => SampleClick(Carousel.Forward)))
            && var browsed := Run(waited, seq(SampleCount, _ => SampleClick(Carousel.Forward)));
               && browsed.sample == 0
               && Faq.OpenItems(Step(browsed, FaqClick(2)).faq) == {2}
  {
    TimeFormat.FormatTimeAtStart();
    TimerOnly(Initial(), 5);
    Countdown.TicksClamp(Countdown.Start, 5);
    TimeFormat.FormatTimeAfterFiveSeconds();
    var waited := Run(Initial(), seq(5, _ => Second));
    SampleForwardOnly(waited, SampleCount);
    Carousel.NextCycle(SampleCount, 0);
    Faq.OnlyClickedItemOpen(FaqCount, 2);
  }

}
