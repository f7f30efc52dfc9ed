/** The selection and formatting logic of the CountDown component: the
    two-digit padding helper, the completion flag, the texts of the compact
    and full layouts, the numeric media query, the chip and button labels,
    and the click handler chosen from the completion flag. */
module CountdownView {
  import opened JsText
  import opened CountdownEngine
  import TextEncoding

  // ------- padding -------

  /** `pad`: `String(n).padStart(2, "0")`. The component only pads
      non-negative integers, so `n` is a `nat`. */
  function Pad(n: nat): (s: string)
    ensures |s| >= 2 && AllDigits(s)
  {
    PadStart(NatToString(n), 2, '0')
  }

  /** Below one hundred the padded text has exactly two digits: the plain
      decimal form from ten on, a leading zero and the digit below ten.
      It reads back as `n`. */
  lemma PadTwoDigits(n: nat)
    requires n < 100
    ensures |Pad(n)| == 2
    ensures n >= 10 ==> Pad(n) == NatToString(n)
    ensures n < 10 ==> Pad(n) == ['0', DigitChar(n)]
    ensures ParseNat(Pad(n)) == Some(n)
  {
    NatToStringLength(n);
    PadParses(n);
  }

  /** From one hundred on `padStart` leaves the decimal form alone. */
  lemma PadWide(n: nat)
    requires n >= 100
    ensures Pad(n) == NatToString(n)
  {
    NatToStringLength(n);
  }

  /** Every padded value reads back as itself: the leading zero adds nothing. */
  lemma PadParses(n: nat)
    ensures ParseNat(Pad(n)) == Some(n)
  {
    NatToStringLength(n);
    var s := Pad(n);
    if n < 10 {
      assert s == ['0', DigitChar(n)];
      assert s[..1] == ['0'] && s[..1][..0] == [];
      assert DigitsValue(s[..1]) == 0;
    } else {
      assert s == NatToString(n);
      ParseNatToString(n);
    }
  }

  // ------- completion flag -------

  /** `done = msLeft === 0` on the clamped value the hook returns. */
  predicate IsDone(r: Remaining) {
    r.msLeft == 0
  }

  /** The countdown is done exactly when the target is at or before `now`,
      and then all four fields are zero. */
  lemma DoneIffTargetReached(target: int, now: int)
    ensures IsDone(Decompose(target - now)) <==> target <= now
    ensures IsDone(Decompose(target - now)) ==> Decompose(target - now) == Remaining(0, 0, 0, 0, 0)
  {
    if target <= now {
      PastTargetIsZero(target, now);
    }
  }

  /** The converse fails: one millisecond before the target every field
      reads zero and the countdown is not yet done. */
  lemma ZeroFieldsNotDone(target: int)
    ensures var r := Decompose(target - (target - 1));
      r.days == 0 && r.hours == 0 && r.minutes == 0 && r.seconds == 0 && !IsDone(r)
  {
    SubSecondShowsZeros(target, target - 1);
  }

  /** Once done, every later tick is done too: the flag turns true once and
      stays true while the clock does not go back. */
  lemma DoneStaysDone(target: int, now: int, later: int)
    requires now <= later
    requires IsDone(Decompose(target - now))
    ensures IsDone(Decompose(target - later))
  {
    RemainingNonIncreasing(target, now, later);
  }

  // ------- layouts -------

  /** The four values both layouts show: days unpadded, the rest padded. */
  function DisplayedValues(r: Remaining): seq<string> {
    [NatToString(r.days), Pad(r.hours), Pad(r.minutes), Pad(r.seconds)]
  }

  /** `CompactCounter`: the text `{days}:{hours}:{minutes}:{seconds}`. */
  function CompactText(r: Remaining): string {
    NatToString(r.days) + ":" + Pad(r.hours) + ":" + Pad(r.minutes) + ":" + Pad(r.seconds)
  }

  /** One labelled block of `FullCounter`. */
  datatype Block = Block(caption: string, value: string)

  /** `FullCounter`: four labelled blocks, separated by `TimeSep`. */
  function FullBlocks(r: Remaining): seq<Block> {
    [ Block("Days", NatToString(r.days)), Block("Hours", Pad(r.hours)),
      Block("Minutes", Pad(r.minutes)), Block("Seconds", Pad(r.seconds)) ]
  }

  /** Splitting the compact text on `:` gives exactly the four displayed
      values. */
  lemma CompactTextSplits(r: Remaining)
    ensures SplitOn(CompactText(r), ':') == DisplayedValues(r)
  {
    DigitsExclude(NatToString(r.days), ':');
    DigitsExclude(Pad(r.hours), ':');
    DigitsExclude(Pad(r.minutes), ':');
    DigitsExclude(Pad(r.seconds), ':');
    SplitFour(NatToString(r.days), Pad(r.hours), Pad(r.minutes), Pad(r.seconds), ':');
  }

  /** Each piece of the compact text reads back as its field. */
  lemma CompactTextParsesBack(r: Remaining)
    ensures var parts := SplitOn(CompactText(r), ':');
      |parts| == 4 &&
      ParseNat(parts[0]) == Some(r.days) && ParseNat(parts[1]) == Some(r.hours) &&
      ParseNat(parts[2]) == Some(r.minutes) && ParseNat(parts[3]) == Some(r.seconds)
  {
    CompactTextSplits(r);
    ParseNatToString(r.days);
    PadParses(r.hours);
    PadParses(r.minutes);
    PadParses(r.seconds);
  }

  /** For a breakdown the hook produces, the hours, minutes and seconds take
      two characters each, so the compact text is the days and nine more. */
  lemma CompactTextLength(raw: int)
    ensures var r := Decompose(raw);
      |CompactText(r)| == |NatToString(r.days)| + 9
  {
    var r := Decompose(raw);
    PadTwoDigits(r.hours);
    PadTwoDigits(r.minutes);
    PadTwoDigits(r.seconds);
  }

  /** The full layout's blocks carry, in order, the same four values the
      compact text splits into (`CompactTextSplits`), under the captions
      Days, Hours, Minutes and Seconds. This only unfolds `FullBlocks` and
      `DisplayedValues`; the round trip is in `CompactTextSplits`. */
  lemma LayoutsAgree(r: Remaining)
    ensures |FullBlocks(r)| == |DisplayedValues(r)| == 4
    ensures forall i :: 0 <= i < 4 ==> FullBlocks(r)[i].value == DisplayedValues(r)[i]
    ensures FullBlocks(r)[0].caption == "Days" && FullBlocks(r)[1].caption == "Hours"
    ensures FullBlocks(r)[2].caption == "Minutes" && FullBlocks(r)[3].caption == "Seconds"
  {
  }

  /** One day, one hour, one minute and one second before the target the
      compact layout reads `1:01:01:01`. */
  lemma OneOfEachText(target: int)
    ensures CompactText(Decompose(target - (target - 90061000))) == "1:01:01:01"
  {
    OneOfEach(target);
    assert Pad(1) == "01" by {
      PadTwoDigits(1);
    }
    assert NatToString(1) == "1";
  }

  // ------- media query -------

  /** `formatAbove`: a theme breakpoint key or a number of pixels. */
  datatype Threshold = BreakpointKey(key: string) | Pixels(width: int)

  /** The query handed to `useMediaQuery`: literal text for a number, the
      theme's own query for a breakpoint key. */
  datatype MediaQuery = MinWidth(text: string) | ThemeBreakpointUp(key: string)

  function QueryFor(t: Threshold): (q: MediaQuery)
    ensures q.MinWidth? <==> t.Pixels?
    ensures t.BreakpointKey? ==> q == ThemeBreakpointUp(t.key)
  {
    match t
    case Pixels(n) => MinWidth("(min-width:" + IntToString(n) + "px)")
    case BreakpointKey(k) => ThemeBreakpointUp(k)
  }

  /** For a number `n` the query is `(min-width:`, then `String(n)`, then
      `px)`; the number reads back from between the two. */
  lemma PixelQueryShape(n: int)
    ensures QueryFor(Pixels(n)).MinWidth?
    ensures var q := QueryFor(Pixels(n)).text;
      |q| >= 15 && q[..11] == "(min-width:" && q[|q| - 3..] == "px)" &&
      q[11..|q| - 3] == IntToString(n) && ParseInt(q[11..|q| - 3]) == Some(n)
  {
    var q := QueryFor(Pixels(n)).text;
    assert q[11..|q| - 3] == IntToString(n);
    ParseIntToString(n);
  }

  // ------- labels -------

  const AVAILABLE := "Available"
  const UPCOMING := "Upcoming"

  /** The button's completion label as the source file spells it: the
      apostrophe appears as the three characters U+00E2, U+20AC, U+2122. */
  const DONE_LABEL_AS_WRITTEN := "It\U{00E2}\U{20AC}\U{2122}s time!"

  /** The completion label with its apostrophe, U+2019. */
  const DONE_LABEL := "It\U{2019}s time!"

  /** The chip: "Available" once done, "Upcoming" before. */
  function ChipLabel(done: bool): string {
    if done then AVAILABLE else UPCOMING
  }

  /** The button text as the source renders it. */
  function ButtonLabelAsWritten(done: bool, buttonText: string): string {
    if done then DONE_LABEL_AS_WRITTEN else buttonText
  }

  /** The button text with the completion label spelled as intended. */
  function ButtonLabel(done: bool, buttonText: string): string {
    if done then DONE_LABEL else buttonText
  }

  /** The completion label the source renders is the intended one saved
      as UTF-8 and read back as Windows-1252: every character but the
      apostrophe is intact, and the apostrophe became three characters.
      Before completion both show the caller's text. */
  lemma DoneLabelIsMisread(buttonText: string)
    ensures ButtonLabelAsWritten(true, buttonText) == TextEncoding.Misread(ButtonLabel(true, buttonText))
    ensures ButtonLabelAsWritten(true, buttonText) != ButtonLabel(true, buttonText)
    ensures |ButtonLabelAsWritten(true, buttonText)| == |ButtonLabel(true, buttonText)| + 2
    ensures ButtonLabelAsWritten(false, buttonText) == ButtonLabel(false, buttonText)
  {
    var head, tail := "It", "s time!";
    assert DONE_LABEL == head + ['\U{2019}'] + tail;
    assert DONE_LABEL_AS_WRITTEN == head + ['\U{00E2}', '\U{20AC}', '\U{2122}'] + tail;
    TextEncoding.MisreadAroundApostrophe(head, tail);
  }

  /** The intended completion label is "It", one apostrophe (U+2019) and
      "s time!": ten characters, ASCII apart from the apostrophe. */
  lemma DoneLabelSpelling(buttonText: string)
    ensures var text := ButtonLabel(true, buttonText);
      |text| == 10 && text[2] == '\U{2019}' && text[..2] == "It" && text[3..] == "s time!" &&
      TextEncoding.IsAscii(text[..2] + text[3..])
  {
  }

  /** The chip and button follow the clock: before the target they show
      "Upcoming" and the caller's button text, from the target on
      "Available" and the completion label. */
  lemma LabelsFollowClock(target: int, now: int, buttonText: string)
    ensures var done := IsDone(Decompose(target - now));
      ChipLabel(done) == (if target <= now then AVAILABLE else UPCOMING) &&
      ButtonLabel(done, buttonText) == (if target <= now then DONE_LABEL else buttonText)
  {
    DoneIffTargetReached(target, now);
  }

  // ------- click handling -------

  /** `handleClick`: the caller's `onButtonClick`, or the built-in handler. */
  datatype Handler<H> = Supplied(callback: H) | BuiltIn

  /** What a click does: run the caller's callback, raise the notice
      (the `alert`), or nothing. */
  datatype ClickEffect<H> = Invoke(callback: H) | Notice | NoEffect

  /** `onButtonClick ?? (() => ...)`: an absent callback is `None`. */
  function HandlerFor<H>(onButtonClick: Option<H>): Handler<H> {
    match onButtonClick
    case Some(cb) => Supplied(cb)
    case None => BuiltIn
  }

  /** Running the handler: the built-in one raises the notice only while
      not done. */
  function Click<H>(h: Handler<H>, done: bool): ClickEffect<H> {
    match h
    case Supplied(cb) => Invoke(cb)
    case BuiltIn => if !done then Notice else NoEffect
  }

  /** A supplied callback is always what runs, done or not. This only
      unfolds `HandlerFor` and `Click`; `NoticeOnlyBeforeTarget` ties the
      choice to the clock. */
  lemma SuppliedHandlerWins<H>(cb: H, done: bool)
    ensures Click(HandlerFor(Some(cb)), done) == Invoke(cb)
  {
  }

  /** Without a callback a click raises the notice exactly when not done,
      and does nothing otherwise. Like `SuppliedHandlerWins`, this only
      unfolds the definitions. */
  lemma BuiltInHandler<H>(done: bool)
    ensures Click(HandlerFor<H>(None), done).Notice? <==> !done
    ensures Click(HandlerFor<H>(None), done).NoEffect? <==> done
  {
  }

  /** A click raises the notice exactly when no callback was supplied and
      the target is still ahead of the clock; it never does both. */
  lemma NoticeOnlyBeforeTarget<H>(onButtonClick: Option<H>, target: int, now: int)
    ensures Click(HandlerFor(onButtonClick), IsDone(Decompose(target - now))).Notice?
            <==> onButtonClick.None? && now < target
    ensures Click(HandlerFor(onButtonClick), IsDone(Decompose(target - now))).Invoke?
            <==> onButtonClick.Some?
  {
    DoneIffTargetReached(target, now);
  }
}
