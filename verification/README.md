# PEI landing page widgets, modelled in Dafny

The landing page in `src/App.tsx` is presentational React, but four small
pieces of state logic sit inside it. This project models them as pure Dafny
functions and proves what the page relies on:

- **Carousels** (`ImageCarousel`, `PhoneCarousel`). One index into a
  non-empty list. The right arrow computes `(i + 1) % L` and the left arrow
  `(i - 1 + L) % L`, using JavaScript's truncating `%`, which is modelled as
  `Carousel.JsRem`. A pagination dot sets the index to its own position.
  Module `Carousel` is generic in the length `L`. The page uses it with
  `L = 7` (`SAMPLE_IMAGES`) and `L = 6` (`WHATSAPP_PROOFS`), in `Page`.
- **Countdown**. `timeLeft` starts at 3599. Each interval callback maps it
  to `prev > 0 ? prev - 1 : 0`. Module `Countdown`.
- **`formatTime`**. Whole minutes, a colon, then the remaining seconds
  left-padded with `'0'` to two characters. Module `TimeFormat` also has
  a strict reader, `ParseTime`. The project proves the reader is exactly
  the inverse of the printer.
- **FAQ accordion** (`FAQItem`). Each item has one `isOpen` flag. It starts
  false and a header click negates it. Module `Faq` models the list of
  items as a `seq<bool>`. `Faq.OpenItems` is the set of items whose answer
  is rendered, which is the `isOpen && …` condition of `FAQItem`.

Module `Page` puts them together as the page's state machine. The state
holds the countdown, both carousel indices and the eight FAQ flags. An
event is a timer callback or a click on one widget. The proofs show that a
run keeps every index in range. They also show that each widget only
reacts to its own events. `Page.Banner` is the countdown bar's text,
`formatTime(timeLeft)`. `Options` holds an `Option` type, and `Arith`
holds facts about Dafny's Euclidean `/` and `%`.

## Model

| member | source | states |
|---|---|---|
| Carousel.JsRem | src/App.tsx:131-132 | JavaScript `%` with a positive divisor: for a non-negative dividend it is the ordinary remainder in `[0, L)`; for a negative one it lies in `(-L, 0]` and is congruent to the dividend |
| Carousel.Next | src/App.tsx:131 | for `L >= 1` and any non-negative index, the right arrow yields an index in `[0, L)`; from a valid index it is the next position, with the last wrapping to 0 |
| Carousel.Prev | src/App.tsx:132 | for `L >= 1` and any non-negative index, the left arrow yields an index in `[0, L)`; from a valid index it is the previous position, with 0 wrapping to `L - 1` |
| Carousel.Select | src/App.tsx:152-156 | clicking dot `idx` (only rendered dots, `0 <= idx < L`) yields a valid index whose highlighted dot is `idx` |
| Carousel.Dots | src/App.tsx:152-157 | one dot per item, and exactly one dot is highlighted for a valid index |
| Carousel.ExactlyOneActiveDot | src/App.tsx:152-157 | for any valid index exactly one dot is highlighted |
| Carousel.SelectActivatesOnlyThatDot | src/App.tsx:155-156 | after clicking dot `idx`, dot `idx` and no other is highlighted |
| Carousel.PrevUndoesNext | src/App.tsx:131-132 | the two arrows are mutual inverses on valid indices |
| Carousel.SingleItemIsFixed | src/App.tsx:131-132 | with one item both arrows leave the index unchanged |
| Carousel.NextNMoves | src/App.tsx:131 | `n` right-arrow clicks from `i` land on `(i + n) mod L` |
| Carousel.PrevNMoves | src/App.tsx:132 | `n` left-arrow clicks from `i` land on `(i - n) mod L` |
| Carousel.NextCycle | src/App.tsx:131 | `L` right-arrow clicks return to the starting index |
| Carousel.PrevCycle | src/App.tsx:132 | `L` left-arrow clicks return to the starting index |
| Carousel.Apply | src/App.tsx:144-155 | any single arrow or dot click keeps the index in `[0, L)` |
| Carousel.Run | src/App.tsx:129-158 | any sequence of arrow and dot clicks keeps the index in `[0, L)` |
| Carousel.RunIsNetOffset | src/App.tsx:131-132 | after arrow clicks only, the index is the start plus (right clicks minus left clicks), modulo `L` |
| Countdown.Tick | src/App.tsx:204 | one callback never yields a negative value: a positive value loses exactly one, anything else becomes 0 |
| Countdown.TicksClamp | src/App.tsx:200-205 | after `n` callbacks from `s >= 0` the value is `max(0, s - n)` |
| Countdown.ReachesZeroAndStays | src/App.tsx:200-205 | from 3599 the value is 0 exactly after 3599 or more callbacks, and never negative |
| Countdown.TicksCompose | src/App.tsx:203-205 | `m` callbacks followed by `n` callbacks equal `m + n` callbacks |
| TimeFormat.Decimal | src/App.tsx:212 | `toString` of a non-negative integer below 10^21 is a canonical digit string (at least one digit, no leading zero) that denotes the number |
| TimeFormat.DecimalOfValue | src/App.tsx:212 | every canonical digit string is `toString` of the number it denotes |
| TimeFormat.DecimalInjective | src/App.tsx:212 | different numbers have different `toString` |
| TimeFormat.PadStart | src/App.tsx:212 | `padStart(width, fill)` keeps the string as a suffix, prefixes only `fill`, and yields length `max(length, width)` |
| TimeFormat.SecondsField | src/App.tsx:211-212 | for a value below 60 the padded seconds are exactly its tens digit then its units digit, two digits denoting the value |
| TimeFormat.FormatTime | src/App.tsx:209-213 | the text is a canonical decimal denoting `floor(s / 60)`, a `':'`, then two digits denoting `s % 60` |
| TimeFormat.ParseFormat | src/App.tsx:209-213 | splitting a formatted time at its first `':'` and reading `mins * 60 + secs` recovers `s` |
| TimeFormat.FormatParse | src/App.tsx:209-213 | every text the strict reader accepts is exactly what `formatTime` prints for its value |
| TimeFormat.ParseIffFormat | src/App.tsx:209-213 | `t` reads as `s` if and only if `formatTime(s)` is `t` |
| TimeFormat.FormatTimeInjective | src/App.tsx:210-212 | `formatTime` is injective on the naturals (on the page, where `toString` prints plain decimals) |
| TimeFormat.FormatTimeAtStart | src/App.tsx:200-226 | the bar first shows `"59:59"` |
| TimeFormat.FormatTimeAfterFiveSeconds | src/App.tsx:209-213 | 3594 seconds show as `"59:54"` |
| TimeFormat.FormatTimeOneMinuteOneSecond | src/App.tsx:209-213 | 61 seconds show as `"1:01"` |
| TimeFormat.FormatTimeAtZero | src/App.tsx:209-213 | 0 seconds show as `"0:00"` |
| Faq.Closed | src/App.tsx:101 | every item starts closed |
| Faq.Toggle | src/App.tsx:105 | a header click negates that item's flag and leaves every other item's flag unchanged |
| Faq.ToggleTwice | src/App.tsx:105 | two clicks on the same header restore the accordion |
| Faq.ToggleCommutes | src/App.tsx:100-105 | clicks on two headers commute, so the items are independent |
| Faq.OnlyClickedItemOpen | src/App.tsx:101-112 | opening one item of a closed accordion shows that answer and no other |
| Faq.ParityOfClicks | src/App.tsx:105 | after any clicks, an item has changed state exactly when its header was clicked an odd number of times |
| Faq.OpenIffOddClicks | src/App.tsx:101-105 | from the initial accordion, an answer is shown if and only if its header was clicked an odd number of times |
| Page.Initial | src/App.tsx:200 | the mounted page (3599 seconds, both carousels at 0, all answers hidden) satisfies the state invariant |
| Page.Step | src/App.tsx:100-207 | every enabled event keeps the invariant and changes only the state of the widget it targets |
| Page.Run | src/App.tsx:100-207 | any sequence of enabled events keeps the invariant: countdown within `[0, 3599]`, both indices in range, one flag per question |
| Page.RunTimeLeft | src/App.tsx:200-207 | after any run the countdown has been ticked once per timer callback in it, whatever the clicks |
| Page.RunSample | src/App.tsx:424 | after any run the sample carousel's index is what its own clicks alone produce |
| Page.RunProof | src/App.tsx:562 | after any run the phone carousel's index is what its own clicks alone produce |
| Page.RunFaq | src/App.tsx:678-709 | after any run the accordion is what its own header clicks alone produce |
| Page.TimeLeftAfterRun | src/App.tsx:200-205 | after any run the countdown is `max(0, start - callbacks)` |
| Page.TimerOnly | src/App.tsx:202-205 | `n` callbacks in a row tick the countdown `n` times and touch nothing else |
| Page.SampleForwardOnly | src/App.tsx:131 | `n` right-arrow clicks on the sample carousel advance it `n` places and touch nothing else |
| Page.Visit | src/App.tsx:200-226 | the bar shows 59:59, then 59:54 after five seconds; seven right-arrow clicks on the 7-image carousel return it to 0; opening the third question leaves only that answer open |

## Left out

- Rendering, Tailwind classes and `motion`/`AnimatePresence` animations are left out: they are presentational.
- `setInterval`/`clearInterval` scheduling and effect teardown are left out: they are timer plumbing. Only the callback's state update is modelled, and the timer is an event of `Page.Run`.
- `scrollToOffer` is left out: it only calls the browser's `getElementById` and `scrollIntoView`.
- The checkout link, the video embed and the image URLs are left out: they are outbound navigation and assets.
- The static content arrays are left out except for their lengths, 7 and 6, and the count of eight FAQ items.
- `StickyNote`, `Badge`, `Section` and `Button` are left out: they are styling wrappers.
- JavaScript numbers are IEEE doubles. Every value here is a small integer (at most 3599 and 7), so doubles represent them exactly, and they are modelled as unbounded integers.
- `toString` prints integers of 10^21 and above in exponent form ("1e+21"). `TimeFormat.Decimal` models only the plain decimal form, which covers every value the page prints (minutes at most 59).
- `images[currentIndex]`, the image shown, is left out. The model only keeps the index. The index always names a list element, so the lookup cannot fail.
- Carousel.Next: for an empty list the source gives `NaN`, so the model requires `L >= 1`. It also requires a non-negative index, because JavaScript's `%` gives a negative remainder for a negative dividend. The carousel's own state never breaks either requirement.
- Carousel.Prev: same requirements as Carousel.Next, for the same reasons.
