# CountDown widget: countdown arithmetic and display selection in Dafny

The CountDown component (`src/components/CountDown/index.js`) shows the time
left until a target instant. Its `useCountdown` hook keeps one state cell,
`msLeft`, set to `target - Date.now()` when the component mounts and again on
every one-second interval tick. Each render clamps that value at zero and
splits the whole seconds into days, hours, minutes and seconds. The
component derives a `done` flag from the clamped value. It pads hours,
minutes and seconds to two digits and shows the values either as four
captioned blocks (`FullCounter`) or as one `days:HH:MM:SS` text
(`CompactCounter`). It builds a `(min-width:Npx)` media query when
`formatAbove` is a number. From `done` it picks the chip label, the button
label and what a click on the button does.

The model has four modules:

- `CountdownEngine` (`countdown_engine.dfy`): the hook. The class
  `Countdown` holds the state cell. Its constructor sets the initial value
  and its `Tick(now)` method is the interval callback, with the host clock
  passed in as `now`. `Decompose` is the per-render breakdown, with lemmas
  for the field bounds, the reconstruction identity, uniqueness, past
  targets, sub-second remainders and monotonicity in the clock.
- `CountdownView` (`countdown_view.dfy`): `pad`, the `done` flag, the
  compact text and the full-layout blocks, the numeric media query, the
  chip and button labels, and the click handler selection.
- `JsText` (`js_text.dfy`): the JavaScript text built-ins the component
  uses, `String(n)` of an integer and `padStart`. It also gives the
  reference readings against which the round trips are stated: `split`
  and `join` on one character, which the component itself never calls,
  and a base-10 reading of digit strings.
- `TextEncoding` (`text_encoding.dfy`): UTF-8 (RFC 3629, section 3) and the
  Windows-1252 code page. These explain the completion label's spelling
  (see Findings).

Instants are whole milliseconds, as JavaScript `Date` values are. The
model uses unbounded integers: every value the hook divides is
non-negative, so `Math.floor(a / b)` is Dafny's `/` and JavaScript's `%` is
Dafny's `%`. The component's state cell is kept raw, as in the source.
It goes negative once the target has passed, and clamping happens when it
is read.

## Model

| member | source | states |
|---|---|---|
| `CountdownEngine.Clamp` | src/components/CountDown/index.js:25 | The clamped value is non-negative, at least the raw value, and either 0 or the raw value, which makes it `max(0, raw)`. |
| `CountdownEngine.Decompose` | src/components/CountDown/index.js:25-32 | The returned `msLeft` is the clamped value and is never negative. `hours` < 24, `minutes` < 60, `seconds` < 60, and `days` ≥ 0. |
| `CountdownEngine.DecomposeReconstructs` | src/components/CountDown/index.js:26-30 | `days*86400 + hours*3600 + minutes*60 + seconds` equals the clamped milliseconds divided by 1000. The milliseconds left out are fewer than 1000. |
| `CountdownEngine.DecomposeUnique` | src/components/CountDown/index.js:26-30 | Any four fields within the bounds that add up to the whole seconds are exactly the hook's breakdown. |
| `CountdownEngine.PastTargetIsZero` | src/components/CountDown/index.js:25-32 | A target at or before `now` gives 0 ms and four zero fields. |
| `CountdownEngine.SubSecondShowsZeros` | src/components/CountDown/index.js:25-30 | With 1 to 999 ms left, all four fields are zero while `msLeft` is still positive. |
| `CountdownEngine.RemainingNonIncreasing` | src/components/CountDown/index.js:21-25 | A later clock reading never gives more milliseconds. Before the target they drop by exactly the elapsed time. |
| `CountdownEngine.OneOfEach` | src/components/CountDown/index.js:26-30 | 90061000 ms before the target, the breakdown is 1 day, 1 hour, 1 minute and 1 second. |
| `CountdownEngine.Countdown.constructor` | src/components/CountDown/index.js:18 | The initial state is the raw `target - now`, unclamped. |
| `CountdownEngine.Countdown.Tick` | src/components/CountDown/index.js:21 | A tick overwrites the state with `target - now`. The returned breakdown is then the one for that instant, and its `msLeft` is 0 exactly when `now` has reached the target. |
| `CountdownEngine.Countdown.Current` | src/components/CountDown/index.js:25-32 | What the hook returns on a render: the breakdown of the cell's current value. `Countdown.Tick` states that after a tick it equals `Decompose(target - now)`. |
| `JsText.NatToString` | src/components/CountDown/index.js:15 | `String(n)` is a non-empty run of decimal digits. It starts with `0` only for 0. |
| `JsText.PadStart` | src/components/CountDown/index.js:15 | `padStart` returns text of length `max(width, |s|)`. It ends with `s` and is filled on the left with the filler. |
| `JsText.ParseIntToString` | src/components/CountDown/index.js:68 | The decimal text of any integer, a negative one included, reads back as that integer. |
| `JsText.IntToString` | src/components/CountDown/index.js:68 | `String(n)` of any integer: the digits of `n`, with a minus sign in front of a negative value. `ParseIntToString` states that it reads back as `n`. |
| `CountdownView.Pad` | src/components/CountDown/index.js:15 | `pad(n)` has at least two characters, all of them decimal digits. |
| `CountdownView.PadTwoDigits` | src/components/CountDown/index.js:15 | For n < 100: length exactly 2. For n ≥ 10 it is the decimal text of n. For n < 10 it is `0` followed by the digit. It reads back as n. |
| `CountdownView.PadWide` | src/components/CountDown/index.js:15 | For n ≥ 100, `padStart` leaves the decimal text unchanged. |
| `CountdownView.PadParses` | src/components/CountDown/index.js:15 | Every padded value reads back as the number padded. |
| `CountdownView.IsDone` | src/components/CountDown/index.js:60 | `done` is `msLeft === 0` on the clamped value. `DoneIffTargetReached` states that it holds iff the target is at or before `now`. |
| `CountdownView.DoneIffTargetReached` | src/components/CountDown/index.js:60 | `done` holds iff the target is at or before `now`, and then all four fields are 0. |
| `CountdownView.ZeroFieldsNotDone` | src/components/CountDown/index.js:60 | The converse fails. One millisecond before the target all fields are 0 and `done` is false. |
| `CountdownView.DoneStaysDone` | src/components/CountDown/index.js:60 | Once `done`, every later tick with a clock reading at least as late is `done` too. |
| `CountdownView.CompactText` | src/components/CountDown/index.js:272 | The `CompactCounter` text `{days}:{hours}:{minutes}:{seconds}`, built from `String(days)` and the padded fields. `CompactTextSplits` and `CompactTextParsesBack` state its round trip. |
| `CountdownView.FullBlocks` | src/components/CountDown/index.js:228-234 | The four `TimeBlock`s of `FullCounter` as (caption, value) pairs. `LayoutsAgree` states that they carry the compact text's four parts in order. |
| `CountdownView.CompactTextSplits` | src/components/CountDown/index.js:272 | Splitting the compact text on `:` gives exactly four parts: `String(days)`, `pad(hours)`, `pad(minutes)`, `pad(seconds)`. |
| `CountdownView.CompactTextParsesBack` | src/components/CountDown/index.js:170-175 | The four parts of the compact text read back as `days`, `hours`, `minutes` and `seconds`. |
| `CountdownView.CompactTextLength` | src/components/CountDown/index.js:170-175 | For a breakdown the hook produces, the compact text is the days' digits plus nine characters: two per padded field and three colons. |
| `CountdownView.LayoutsAgree` | src/components/CountDown/index.js:161-176 | The full layout's four blocks carry the same values, in the same order, as the compact text. Their captions are Days, Hours, Minutes and Seconds. |
| `CountdownView.OneOfEachText` | src/components/CountDown/index.js:272 | 90061000 ms before the target, the compact text is `1:01:01:01`. |
| `CountdownView.QueryFor` | src/components/CountDown/index.js:65-69 | A numeric `formatAbove` gives a literal `min-width` query, and a breakpoint key goes to the theme's `breakpoints.up(key)`. |
| `CountdownView.PixelQueryShape` | src/components/CountDown/index.js:67-68 | A numeric `formatAbove` N gives a literal query. It is `(min-width:`, then `String(N)`, then `px)`, and N reads back from between them. |
| `CountdownView.ChipLabel` | src/components/CountDown/index.js:136 | The chip says "Available" when done and "Upcoming" otherwise. `LabelsFollowClock` ties this to the clock. |
| `CountdownView.ButtonLabelAsWritten` | src/components/CountDown/index.js:207 | The button text as the source renders it: the misspelled completion label when done, else `buttonText`. `DoneLabelIsMisread` states what the label is. |
| `CountdownView.ButtonLabel` | src/components/CountDown/index.js:207 | The button text with the completion label spelled as intended, used by the rest of the model. `DoneLabelSpelling` and `LabelsFollowClock` state its content. |
| `CountdownView.LabelsFollowClock` | src/components/CountDown/index.js:136 | Before the target, the chip says "Upcoming" and the button shows the caller's `buttonText`. From the target on, they show "Available" and the completion label. |
| `CountdownView.DoneLabelIsMisread` | src/components/CountDown/index.js:207 | The completion label as written is the intended label saved as UTF-8 and read back as Windows-1252. It is two characters longer and differs from the intended label. Before completion both show `buttonText`. |
| `CountdownView.DoneLabelSpelling` | src/components/CountDown/index.js:207 | The corrected completion label is "It", U+2019 and "s time!": ten characters, ASCII except for the apostrophe. |
| `CountdownView.HandlerFor` | src/components/CountDown/index.js:85-86 | `onButtonClick ?? builtIn`: a supplied callback, else the built-in handler. `NoticeOnlyBeforeTarget` states what a click then does. |
| `CountdownView.Click` | src/components/CountDown/index.js:87-93 | Running the handler: the supplied callback runs, or the built-in one raises the notice only while not done. `BuiltInHandler` and `NoticeOnlyBeforeTarget` state this. |
| `CountdownView.SuppliedHandlerWins` | src/components/CountDown/index.js:85-86 | A supplied `onButtonClick` is what a click runs, whether done or not. |
| `CountdownView.BuiltInHandler` | src/components/CountDown/index.js:87-93 | Without `onButtonClick`, a click raises the notice exactly when not done, and does nothing when done. |
| `CountdownView.NoticeOnlyBeforeTarget` | src/components/CountDown/index.js:85-93 | A click raises the notice iff no callback was supplied and `now` is before the target. It runs the supplied callback iff one was supplied. |
| `TextEncoding.MisreadApostrophe` | src/components/CountDown/index.js:207 | U+2019 is the UTF-8 bytes E2 80 99, which Windows-1252 reads as U+00E2, U+20AC and U+2122. |

## Left out

- React rendering, the MUI components and all styling: `sx` props, the theme palette, `accentBg`, the Typography and Button `variant`/`size` choices, and `TimeSep`. None of these has a contract beyond layout. Of `FullCounter` and `TimeBlock` only the four (caption, value) pairs are modelled.
- `setInterval`/`clearInterval` and the effect's cleanup are host timer scheduling. `Date.now()` is the host clock, which becomes the `now` argument of the constructor and of `Tick`. The effect re-subscribing when the `target` prop changes is not modelled: an instance's `target` is fixed.
- `theme.breakpoints.up(key)` and `useMediaQuery` are library code. A breakpoint key maps to the symbolic `ThemeBreakpointUp(key)`, and the full/compact decision (`isFull`) is not modelled.
- `fmtLongDate`, the `today` string and `target.toString()` depend on the locale and time zone.
- The `alert` call and its message text are modelled only as the `Notice` click effect.
- The default prop values (target date, title, button text) are left out. The default target is a local-time date that depends on the host's time zone.
- Invalid or NaN target dates, fractional or NaN numeric `formatAbove` values, and JavaScript number precision above 2^53 are left out. Instants are unbounded integers; real `Date` values are integral and far below that bound.
- CountdownView.Pad: takes only non-negative integers, because the component pads only the hours, minutes and seconds of the breakdown.
- CountdownView.DoneStaysDone: holds only for clock readings that do not go backwards. `done` is recomputed from `Date.now()` on every tick, so a host clock set back before the target would turn it false again. The code gives no stronger guarantee than this.

## Findings

| source | as written | input that shows it | evidently intended | confidence | as-written member | corrected member |
|---|---|---|---|---|---|---|
| src/components/CountDown/index.js:207 | The completion label literal is `Itâ€™s time!`: the apostrophe is the three characters U+00E2 U+20AC U+2122. | Any render with `done` true, i.e. `now` at or after the target. | `It’s time!` with one apostrophe, U+2019. The as-written text is that label's UTF-8 bytes read back as Windows-1252. | high (not executed) | `CountdownView.ButtonLabelAsWritten`, `CountdownView.DoneLabelIsMisread` | `CountdownView.ButtonLabel`, `CountdownView.DoneLabelSpelling` |
