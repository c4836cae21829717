/**
 * srButton: debounce and click classification of one push button, polled
 * once per loop iteration. A poll is a pure step from the button's record,
 * the current millisecond clock and the raw pin reading to the next record;
 * the value a poll reports is the `state` of that record.
 */
module Buttons {
  import opened Clock


  /**
   * Bit positions inside the button's flag byte. They are declared in
   * srButtons.h, which is not part of this model: the values below are
   * placeholders, and the proofs only use that they are distinct and below 8.
   */
  const ContactBit: nat := 0       // FLAG_BIT: the debounced contact reading
  const DebounceBit: nat := 1      // DEBOUNCE_BIT: a debounce window is running
  const OneClickBit: nat := 2      // ONECLICK_BIT: a click waits for its double-click window
  const LongClickBit: nat := 3     // LONGCLICK_BIT: the long click has been reported
  const VirtualClickBit: nat := 4  // VIRTUALCLICK_BIT: report ONECLICK after the window
  const InputTypeBit: nat := 5     // INPUTTYPE_BIT: wiring of the input
  const ButtonTypeBit: nat := 6    // BTNTYPE_BIT: normally open or normally closed

  /** Flag values meaning PULL_UP and BTN_NC (placeholders from srButtons.h). */
  const PullUpFlag: bool := true
  const NormallyClosedFlag: bool := true

  /** The value getButtonState reports (BTN_* in srButtons.h). */
  datatype Event = Released | Pressed | Up | Down | DblClick | OneClick | LongClick

  /** What happens while the button stays held after the first long click (LCM_*). */
  datatype LongClickMode = OnlyOnce | ClickSeries | Continued

  /**
   * The flag byte, one field per named bit. FlagsOf and ByteOf convert
   * between this view and the byte, and SetFlagUpdatesOneField shows that
   * setFlag on a named bit is the update of the matching field.
   */
  datatype Flags = Flags(
    contact: bool, debounce: bool, oneClick: bool, longClick: bool,
    virtualClick: bool, inputType: bool, buttonType: bool, spare: bool)

  /** The srButton fields the classifier reads and writes. Times are millis() values. */
  datatype Button = Button(
    flags: Flags,
    state: Event,
    btnTimer: Millis,         // last raw transition, or last long click in a series
    dblTimer: Millis,         // start of the double-click window
    debounceTimeout: Millis,  // 0 disables debouncing
    longClickTimeout: Millis,
    dblClickTimeout: Millis,
    serialInterval: Millis,   // interval between long clicks in CLICKSERIES mode
    mode: LongClickMode)

  /** The single-bit mask `1 << bit`, for bit positions below 8. */
  function BitMask(bit: nat): (m: bv8)
    requires bit < 8
  {
    match bit
    case 0 => 0x01
    case 1 => 0x02
    case 2 => 0x04
    case 3 => 0x08
    case 4 => 0x10
    case 5 => 0x20
    case 6 => 0x40
    case _ => 0x80
  }

  /** getFlag: bit `bit` of the flag byte; false for positions beyond the byte. */
  function GetFlag(flags: bv8, bit: nat): (r: bool)
    ensures bit >= 8 ==> !r
  {
    bit < 8 && flags & BitMask(bit) != 0
  }

  /** setFlag: sets bit `bit` to `x`; positions beyond the byte are ignored. */
  function SetFlag(flags: bv8, bit: nat, x: bool): (r: bv8)
    ensures bit < 8 ==> GetFlag(r, bit) == x
    ensures forall c :: c != bit ==> GetFlag(r, c) == GetFlag(flags, c)
    ensures bit >= 8 ==> r == flags
  {
    if bit < 8 then
      WriteBitReads(flags, bit, x);
      WriteBit(flags, bit, x)
    else flags
  }

  /** The bit operation of setFlag for a position inside the byte. */
  function WriteBit(flags: bv8, bit: nat, x: bool): bv8
    requires bit < 8
  {
    if x then flags | BitMask(bit) else flags & !BitMask(bit)
  }

  /** Writing a bit makes it read as written and leaves every other bit as it was. */
  lemma WriteBitReads(flags: bv8, bit: nat, x: bool)
    requires bit < 8
    ensures GetFlag(WriteBit(flags, bit, x), bit) == x
    ensures forall c :: c != bit ==> GetFlag(WriteBit(flags, bit, x), c) == GetFlag(flags, c)
  {
    MaskBitSet(flags, bit, x);
    forall c | c != bit
      ensures GetFlag(WriteBit(flags, bit, x), c) == GetFlag(flags, c)
    {
      WriteBitKeepsOther(flags, bit, x, c);
    }
  }

  /** Writing a bit leaves bit `c` as it was. */
  lemma WriteBitKeepsOther(flags: bv8, bit: nat, x: bool, c: nat)
    requires bit < 8 && c != bit
    ensures GetFlag(WriteBit(flags, bit, x), c) == GetFlag(flags, c)
  {
    if c < 8 {
      MaskBitsDiffer(flags, bit, c, x);
    }
  }

  /** Setting or clearing a bit makes it read as set or clear. */
  lemma MaskBitSet(flags: bv8, bit: nat, x: bool)
    requires bit < 8
    ensures (WriteBit(flags, bit, x) & BitMask(bit) != 0) == x
  {
  }

  /** Setting or clearing one bit leaves every other bit as it was. */
  lemma MaskBitsDiffer(flags: bv8, bit: nat, c: nat, x: bool)
    requires bit < 8 && c < 8 && bit != c
    ensures WriteBit(flags, bit, x) & BitMask(c) == flags & BitMask(c)
  {
  }

  /** The named bits of a flag byte. */
  function FlagsOf(f: bv8): (fl: Flags)
  {
    Flags(GetFlag(f, ContactBit), GetFlag(f, DebounceBit), GetFlag(f, OneClickBit),
          GetFlag(f, LongClickBit), GetFlag(f, VirtualClickBit), GetFlag(f, InputTypeBit),
          GetFlag(f, ButtonTypeBit), GetFlag(f, 7))
  }

  /** The flag byte holding the given named bits. */
  function ByteOf(fl: Flags): (f: bv8)
  {
    (if fl.contact then 0x01 else 0) | (if fl.debounce then 0x02 else 0)
    | (if fl.oneClick then 0x04 else 0) | (if fl.longClick then 0x08 else 0)
    | (if fl.virtualClick then 0x10 else 0) | (if fl.inputType then 0x20 else 0)
    | (if fl.buttonType then 0x40 else 0) | (if fl.spare then 0x80 else 0)
  }

  /** The record view loses nothing: byte and record convert back and forth. */
  lemma FlagsViewIsFaithful(f: bv8, fl: Flags)
    ensures ByteOf(FlagsOf(f)) == f
    ensures FlagsOf(ByteOf(fl)) == fl
  {
  }

  /** The record view of setting bit `bit` to `x`. */
  function WithBit(fl: Flags, bit: nat, x: bool): Flags
    requires bit < 8
  {
    match bit
    case 0 => fl.(contact := x)
    case 1 => fl.(debounce := x)
    case 2 => fl.(oneClick := x)
    case 3 => fl.(longClick := x)
    case 4 => fl.(virtualClick := x)
    case 5 => fl.(inputType := x)
    case 6 => fl.(buttonType := x)
    case _ => fl.(spare := x)
  }

  /** setFlag on a bit of the byte updates exactly the matching field of the record view. */
  lemma SetFlagUpdatesOneField(f: bv8, bit: nat, x: bool)
    requires bit < 8
    ensures FlagsOf(SetFlag(f, bit, x)) == WithBit(FlagsOf(f), bit, x)
  {
    var g := SetFlag(f, bit, x);
    forall c | c < 8 && c != bit
      ensures GetFlag(g, c) == GetFlag(f, c)
    {
    }
    assert GetFlag(g, bit) == x;
  }

  /** The reading that getContactsState turns a raw pin level into. */
  predicate IsPullUp(fl: Flags) { fl.inputType == PullUpFlag }
  predicate IsNormallyClosed(fl: Flags) { fl.buttonType == NormallyClosedFlag }

  /**
   * getContactsState: whether the contacts are closed, given the raw pin
   * level. The level is inverted once for a pull-up input and once more for a
   * normally closed button, so the two inversions cancel.
   */
  function ContactsClosed(fl: Flags, raw: bool): (closed: bool)
    ensures IsPullUp(fl) == IsNormallyClosed(fl) ==> closed == raw
    ensures IsPullUp(fl) != IsNormallyClosed(fl) ==> closed == !raw
  {
    var v := if IsPullUp(fl) then !raw else raw;
    if IsNormallyClosed(fl) then !v else v
  }

  /**
   * The four wirings of getContactsState: with an input pulled up, a
   * normally open button closes to LOW and a normally closed one opens to
   * LOW; without the pull-up each reads the other way round.
   */
  lemma ContactsTruthTable(fl: Flags)
    ensures IsPullUp(fl) && !IsNormallyClosed(fl) ==> ContactsClosed(fl, false) && !ContactsClosed(fl, true)
    ensures IsPullUp(fl) && IsNormallyClosed(fl) ==> !ContactsClosed(fl, false) && ContactsClosed(fl, true)
    ensures !IsPullUp(fl) && !IsNormallyClosed(fl) ==> !ContactsClosed(fl, false) && ContactsClosed(fl, true)
    ensures !IsPullUp(fl) && IsNormallyClosed(fl) ==> ContactsClosed(fl, false) && !ContactsClosed(fl, true)
  {
  }

  /**
   * The state stored by `_btn_state = isButtonClosed()`: the boolean contact
   * flag read as a state value, which srButtons.h makes PRESSED for true and
   * RELEASED for false.
   */
  function ContactEvent(closed: bool): Event
  {
    if closed then Pressed else Released
  }

  /** A poll never changes the button's configuration: timeouts, mode and wiring. */
  predicate SameConfig(b: Button, c: Button)
  {
    && b.flags.virtualClick == c.flags.virtualClick
    && b.flags.inputType == c.flags.inputType
    && b.flags.buttonType == c.flags.buttonType
    && b.flags.spare == c.flags.spare
    && b.debounceTimeout == c.debounceTimeout
    && b.longClickTimeout == c.longClickTimeout
    && b.dblClickTimeout == c.dblClickTimeout
    && b.serialInterval == c.serialInterval
    && b.mode == c.mode
  }

  /**
   * setBtnUpDown: classifies a debounced edge. A press with no click pending
   * is DOWN and opens the double-click window; a press inside that window is
   * DBLCLICK; a later press leaves the state as it was. A release is UP.
   */
  function SetBtnUpDown(b: Button, closed: bool, now: Millis): (r: Button)
    ensures !r.flags.debounce && r.flags.contact == closed
    ensures closed && !b.flags.oneClick ==>
      r.state == Down && r.flags.oneClick && r.dblTimer == now
    ensures closed && b.flags.oneClick && Elapsed(now, b.dblTimer) <= b.dblClickTimeout ==>
      r.state == DblClick && !r.flags.oneClick && r.dblTimer == b.dblTimer
    ensures closed && b.flags.oneClick && Elapsed(now, b.dblTimer) > b.dblClickTimeout ==>
      r.state == b.state && r.flags.oneClick && r.dblTimer == b.dblTimer
    ensures !closed ==> r.state == Up && r.flags.oneClick == b.flags.oneClick && r.dblTimer == b.dblTimer
    ensures r.flags.longClick == b.flags.longClick
    ensures SameConfig(b, r) && r.btnTimer == b.btnTimer
  {
    var f := b.flags.(debounce := false, contact := closed);
    if closed then
      if !f.oneClick then
        b.(state := Down, flags := f.(oneClick := true), dblTimer := now)
      else if Elapsed(now, b.dblTimer) <= b.dblClickTimeout then
        b.(state := DblClick, flags := f.(oneClick := false))
      else
        b.(flags := f)
    else
      b.(state := Up, flags := f)
  }

  /** The debounce window is running and has not yet elapsed. */
  predicate InDebounceWindow(b: Button, now: Millis)
  {
    b.debounceTimeout > 0 && b.flags.debounce && Elapsed(now, b.btnTimer) < b.debounceTimeout
  }

  /** The first long click of a hold: reported once, with the LONGCLICK bit set. */
  function FirstLongClick(b: Button, now: Millis): Button
  {
    b.(btnTimer := if b.mode == ClickSeries then now else b.btnTimer,
       flags := b.flags.(longClick := true),
       state := LongClick)
  }

  /** A later poll of the same hold, after the first long click, by long-click mode. */
  function RepeatedLongClick(b: Button, now: Millis): Button
  {
    match b.mode
    case OnlyOnce => b.(state := Pressed)
    case ClickSeries =>
      if Elapsed(now, b.btnTimer) >= b.serialInterval then b.(btnTimer := now, state := LongClick)
      else b.(state := Pressed)
    case Continued => b.(state := LongClick)
  }

  /** A poll whose contact reading equals the recorded contact flag. */
  function StablePoll(b: Button, now: Millis, closed: bool): (r: Button)
    ensures SameConfig(b, r)
  {
    if b.flags.debounce then b
    else if !closed then
      if Elapsed(now, b.dblTimer) > b.dblClickTimeout then
        b.(state := if b.flags.virtualClick && b.flags.oneClick then OneClick else Released,
           flags := b.flags.(oneClick := false, longClick := false))
      else
        b.(state := Released)
    else if Elapsed(now, b.btnTimer) < b.longClickTimeout && !b.flags.longClick then
      b.(state := Pressed)
    else
      var h := if !b.flags.longClick then FirstLongClick(b, now) else RepeatedLongClick(b, now);
      h.(flags := h.flags.(oneClick := false))
  }

  /** A poll whose contact reading differs from the recorded contact flag. */
  function ChangePoll(b: Button, now: Millis, closed: bool): (r: Button)
    ensures SameConfig(b, r)
  {
    if b.debounceTimeout > 0 then
      if !b.flags.debounce then
        b.(btnTimer := now,
           flags := b.flags.(debounce := true),
           state := if b.state == LongClick && b.mode == Continued then b.state
                    else ContactEvent(b.flags.contact))
      else if Elapsed(now, b.btnTimer) >= b.debounceTimeout then
        SetBtnUpDown(b.(btnTimer := now), closed, now)
      else
        b
    else
      SetBtnUpDown(b.(btnTimer := now), closed, now)
  }

  /**
   * getButtonState: one poll at time `now` with raw pin level `raw`. The
   * reported value is the resulting record's `state`.
   */
  function Poll(b: Button, now: Millis, raw: bool): (r: Button)
    ensures InDebounceWindow(b, now) ==> r == b
    ensures SameConfig(b, r)
  {
    if InDebounceWindow(b, now) then b
    else
      var closed := ContactsClosed(b.flags, raw);
      if closed == b.flags.contact then StablePoll(b, now, closed)
      else ChangePoll(b, now, closed)
  }

  /** resetButtonState: forgets pending clicks and reports the contact flag. */
  function ResetButtonState(b: Button): (r: Button)
    ensures !r.flags.oneClick && !r.flags.longClick
    ensures r.state == ContactEvent(b.flags.contact)
    ensures r.flags.contact == b.flags.contact && r.flags.debounce == b.flags.debounce
    ensures SameConfig(b, r) && r.btnTimer == b.btnTimer && r.dblTimer == b.dblTimer
  {
    b.(flags := b.flags.(oneClick := false, longClick := false),
       state := ContactEvent(b.flags.contact))
  }

  /**
   * After resetButtonState, the next poll that reads the recorded contact
   * reports it: PRESSED for a held button still inside the long-click
   * timeout, RELEASED for a released one (no virtual click is left).
   */
  lemma ResetThenStablePollReportsContact(b: Button, now: Millis, raw: bool)
    requires ContactsClosed(b.flags, raw) == b.flags.contact
    requires b.flags.contact ==> Elapsed(now, b.btnTimer) < b.longClickTimeout
    ensures Poll(ResetButtonState(b), now, raw).state == ContactEvent(b.flags.contact)
  {
    SameWiringSameReading(b, ResetButtonState(b), raw);
  }

  /** setLongClickMode: CLICKSERIES with no interval set gets the interval 100 ms. */
  function SetLongClickMode(b: Button, mode: LongClickMode): (r: Button)
    ensures r.mode == mode
    ensures mode == ClickSeries && b.serialInterval == 0 ==> r.serialInterval == 100
    ensures !(mode == ClickSeries && b.serialInterval == 0) ==> r.serialInterval == b.serialInterval
    ensures r == b.(mode := mode, serialInterval := r.serialInterval)
  {
    var b1 := b.(mode := mode);
    if b1.mode == ClickSeries && b1.serialInterval == 0 then b1.(serialInterval := 100) else b1
  }

  /**
   * isSecondButtonPressed: this button last reported `st` while `other` is
   * held. When it fires, both buttons forget their pending clicks.
   */
  function SecondButtonPressed(b: Button, other: Button, st: Event): (r: (bool, Button, Button))
    ensures r.0 <==> b.state == st && other.flags.contact
    ensures r.0 ==> r.1 == ResetButtonState(b) && r.2 == ResetButtonState(other)
    ensures !r.0 ==> r.1 == b && r.2 == other
  {
    if b.state == st && other.flags.contact then (true, ResetButtonState(b), ResetButtonState(other))
    else (false, b, other)
  }

  /**
   * The mode set by setLongClickMode decides what a hold reports after its
   * first long click: PRESSED in ONLYONCE, LONGCLICK in CONTINUED, and in
   * CLICKSERIES with no interval set, LONGCLICK once 100 ms have passed.
   */
  lemma ModeDecidesHeldReport(b: Button, mode: LongClickMode, now: Millis, raw: bool)
    requires !b.flags.debounce && b.flags.contact && b.flags.longClick
    requires ContactsClosed(b.flags, raw)
    ensures var r := Poll(SetLongClickMode(b, mode), now, raw);
      && (mode == OnlyOnce ==> r.state == Pressed)
      && (mode == Continued ==> r.state == LongClick)
      && (mode == ClickSeries && b.serialInterval == 0 ==>
            r.state == (if Elapsed(now, b.btnTimer) >= 100 then LongClick else Pressed))
  {
    var c := SetLongClickMode(b, mode);
    assert c.flags == b.flags;
    HeldAfterLongClick(c, now, raw);
  }

  // ---- Sequences of polls ----

  /** One call of getButtonState: the clock value and the raw pin level it reads. */
  datatype Sample = Sample(now: Millis, raw: bool)

  /** The button after a sequence of polls. */
  function After(b: Button, polls: seq<Sample>): (c: Button)
    ensures SameConfig(b, c)
    decreases |polls|
  {
    if polls == [] then b else After(Poll(b, polls[0].now, polls[0].raw), polls[1..])
  }

  /**
   * The values getButtonState reports, one per sample: each poll's report is
   * the state of the button after it, so the last report is the state the
   * sequence leaves the button in.
   */
  function Reports(b: Button, polls: seq<Sample>): (events: seq<Event>)
    ensures |events| == |polls|
    ensures polls != [] ==> events[0] == Poll(b, polls[0].now, polls[0].raw).state
    ensures polls != [] ==> events[|polls| - 1] == After(b, polls).state
    decreases |polls|
  {
    if polls == [] then []
    else
      var c := Poll(b, polls[0].now, polls[0].raw);
      [c.state] + Reports(c, polls[1..])
  }

  /** Polling is compositional: the reports of two runs are the reports of the first then of the second. */
  lemma {:induction false} ReportsAppend(b: Button, p: seq<Sample>, q: seq<Sample>)
    ensures Reports(b, p + q) == Reports(b, p) + Reports(After(b, p), q)
    ensures After(b, p + q) == After(After(b, p), q)
    decreases |p|
  {
    if p == [] {
      assert p + q == q;
    } else {
      var c := Poll(b, p[0].now, p[0].raw);
      assert (p + q)[0] == p[0];
      assert (p + q)[1..] == p[1..] + q;
      ReportsAppend(c, p[1..], q);
    }
  }

  /** Every sample reads the contacts as `closed`, for the wiring of `b`. */
  predicate AllRead(b: Button, polls: seq<Sample>, closed: bool)
  {
    forall i :: 0 <= i < |polls| ==> ContactsClosed(b.flags, polls[i].raw) == closed
  }

  /** The wiring decides the reading: buttons with the same configuration read a pin alike. */
  lemma SameWiringSameReading(b: Button, c: Button, raw: bool)
    requires SameConfig(b, c)
    ensures ContactsClosed(b.flags, raw) == ContactsClosed(c.flags, raw)
  {
  }

  // ---- Properties of one poll ----

  /** Inside a running debounce window a poll changes nothing and reports the previous state. */
  lemma DebounceWindowHolds(b: Button, now: Millis, raw: bool)
    requires b.debounceTimeout > 0 && b.flags.debounce
    requires Elapsed(now, b.btnTimer) < b.debounceTimeout
    ensures Poll(b, now, raw) == b
  {
  }

  /**
   * A reading that has reverted to the recorded contact by the end of the
   * window produces no edge: the state reported before the window stays.
   */
  lemma DebounceRevertedNoEdge(b: Button, now: Millis, raw: bool)
    requires b.flags.debounce
    requires ContactsClosed(b.flags, raw) == b.flags.contact
    ensures Poll(b, now, raw) == b
  {
  }

  /**
   * A raw change with debouncing enabled arms the window: the timer starts,
   * and the state falls back to the recorded contact, unless a continued
   * long click is running.
   */
  lemma ChangeArmsDebounce(b: Button, now: Millis, raw: bool)
    requires b.debounceTimeout > 0 && !b.flags.debounce
    requires ContactsClosed(b.flags, raw) != b.flags.contact
    ensures var r := Poll(b, now, raw);
      && r.flags.debounce && r.btnTimer == now
      && r.flags.contact == b.flags.contact
      && r.flags.oneClick == b.flags.oneClick && r.flags.longClick == b.flags.longClick
      && r.state == (if b.state == LongClick && b.mode == Continued then LongClick
                     else ContactEvent(b.flags.contact))
  {
  }

  /** A change without debouncing is classified by setBtnUpDown at once. */
  lemma ChangeWithoutDebounce(b: Button, now: Millis, raw: bool)
    requires b.debounceTimeout == 0
    requires ContactsClosed(b.flags, raw) != b.flags.contact
    ensures var r := Poll(b, now, raw);
      && r.btnTimer == now && !r.flags.debounce && r.flags.contact == !b.flags.contact
      && (r.flags.contact && !b.flags.oneClick ==> r.state == Down && r.dblTimer == now)
      && (!r.flags.contact ==> r.state == Up)
  {
  }

  /** Released and stable: RELEASED, or ONECLICK exactly when a virtual click is due. */
  lemma StableOpenPoll(b: Button, now: Millis, raw: bool)
    requires !b.flags.debounce && !b.flags.contact
    requires !ContactsClosed(b.flags, raw)
    ensures var r := Poll(b, now, raw);
      && (r.state == OneClick <==>
            Elapsed(now, b.dblTimer) > b.dblClickTimeout && b.flags.virtualClick && b.flags.oneClick)
      && (r.state != OneClick ==> r.state == Released)
      && (Elapsed(now, b.dblTimer) > b.dblClickTimeout ==> !r.flags.oneClick && !r.flags.longClick)
  {
  }

  /** Held before the long-click timeout, with no long click yet: PRESSED. */
  lemma HeldBeforeTimeoutIsPressed(b: Button, now: Millis, raw: bool)
    requires !b.flags.debounce && b.flags.contact && !b.flags.longClick
    requires ContactsClosed(b.flags, raw)
    requires Elapsed(now, b.btnTimer) < b.longClickTimeout
    ensures Poll(b, now, raw) == b.(state := Pressed)
  {
  }

  /** Held past the timeout: the first LONGCLICK, with the LONGCLICK bit set. */
  lemma HeldPastTimeoutIsLongClick(b: Button, now: Millis, raw: bool)
    requires !b.flags.debounce && b.flags.contact && !b.flags.longClick
    requires ContactsClosed(b.flags, raw)
    requires Elapsed(now, b.btnTimer) >= b.longClickTimeout
    ensures var r := Poll(b, now, raw);
      && r.state == LongClick && r.flags.longClick && !r.flags.oneClick
      && r.btnTimer == (if b.mode == ClickSeries then now else b.btnTimer)
  {
  }

  /** Still held after the first long click: the reported value depends on the mode. */
  lemma HeldAfterLongClick(b: Button, now: Millis, raw: bool)
    requires !b.flags.debounce && b.flags.contact && b.flags.longClick
    requires ContactsClosed(b.flags, raw)
    ensures var r := Poll(b, now, raw);
      && r.flags.longClick && !r.flags.oneClick
      && (b.mode == OnlyOnce ==> r.state == Pressed)
      && (b.mode == Continued ==> r.state == LongClick)
      && (b.mode == ClickSeries ==>
            if Elapsed(now, b.btnTimer) >= b.serialInterval
            then r.state == LongClick && r.btnTimer == now
            else r.state == Pressed && r.btnTimer == b.btnTimer)
  {
  }

  // ---- Properties of a sequence of polls ----

  /** A button resting released, with no click pending. */
  predicate Idle(b: Button)
  {
    !b.flags.contact && !b.flags.debounce && !b.flags.oneClick
  }

  /**
   * Without debouncing, press, release and press again inside the
   * double-click window: DOWN, UP, DBLCLICK.
   */
  lemma {:induction false} DoubleClick(b: Button, t1: Millis, t2: Millis, t3: Millis, down: bool, up: bool)
    requires Idle(b) && b.debounceTimeout == 0
    requires ContactsClosed(b.flags, down) && !ContactsClosed(b.flags, up)
    requires Elapsed(t3, t1) <= b.dblClickTimeout
    ensures Reports(b, [Sample(t1, down), Sample(t2, up), Sample(t3, down)]) == [Down, Up, DblClick]
  {
    var polls := [Sample(t1, down), Sample(t2, up), Sample(t3, down)];
    var b1 := Poll(b, t1, down);
    assert b1.state == Down && b1.flags.oneClick && b1.dblTimer == t1 && b1.flags.contact;
    SameWiringSameReading(b, b1, up);
    var b2 := Poll(b1, t2, up);
    assert b2.state == Up && b2.flags.oneClick && b2.dblTimer == t1 && !b2.flags.contact;
    SameWiringSameReading(b, b2, down);
    var b3 := Poll(b2, t3, down);
    assert b3.state == DblClick;
    assert polls[1..] == [Sample(t2, up), Sample(t3, down)];
    assert polls[1..][1..] == [Sample(t3, down)];
    assert Reports(b2, [Sample(t3, down)]) == [DblClick];
  }

  /**
   * With debouncing, a press is reported only once the window has elapsed:
   * the arming poll reports RELEASED, a poll inside the window repeats it,
   * and the first poll after it still reading closed reports DOWN.
   */
  lemma {:induction false} DebouncedPress(b: Button, t0: Millis, t1: Millis, t2: Millis, down: bool)
    requires Idle(b) && b.debounceTimeout > 0 && b.state != LongClick
    requires ContactsClosed(b.flags, down)
    requires Elapsed(t1, t0) < b.debounceTimeout
    requires Elapsed(t2, t0) >= b.debounceTimeout
    ensures Reports(b, [Sample(t0, down), Sample(t1, down), Sample(t2, down)]) == [Released, Released, Down]
  {
    var polls := [Sample(t0, down), Sample(t1, down), Sample(t2, down)];
    var b1 := Poll(b, t0, down);
    assert b1.state == Released && b1.flags.debounce && b1.btnTimer == t0 && !b1.flags.contact;
    var b2 := Poll(b1, t1, down);
    assert b2 == b1;
    SameWiringSameReading(b, b1, down);
    var b3 := Poll(b2, t2, down);
    assert b3.state == Down;
    assert polls[1..] == [Sample(t1, down), Sample(t2, down)];
    assert polls[1..][1..] == [Sample(t2, down)];
    assert Reports(b2, [Sample(t2, down)]) == [Down];
  }

  /** A button held after its long click in ONLYONCE mode. */
  predicate HeldOnce(b: Button)
  {
    b.mode == OnlyOnce && b.flags.contact && !b.flags.debounce && b.flags.longClick
  }

  /** In ONLYONCE mode, a hold that goes on after its long click reports only PRESSED. */
  lemma {:induction false} OnlyOnceHoldStaysPressed(b: Button, polls: seq<Sample>)
    requires HeldOnce(b) && AllRead(b, polls, true)
    ensures forall i :: 0 <= i < |polls| ==> Reports(b, polls)[i] == Pressed
    decreases |polls|
  {
    if polls != [] {
      var c := Poll(b, polls[0].now, polls[0].raw);
      assert c.state == Pressed && HeldOnce(c);
      forall i | 0 <= i < |polls[1..]|
        ensures ContactsClosed(c.flags, polls[1..][i].raw)
      {
        assert polls[1..][i] == polls[i + 1];
        SameWiringSameReading(b, c, polls[i + 1].raw);
      }
      OnlyOnceHoldStaysPressed(c, polls[1..]);
    }
  }

  /**
   * In ONLYONCE mode a hold produces exactly one LONGCLICK: the poll that
   * passes the timeout reports it, and every later poll of the same hold
   * reports PRESSED.
   */
  lemma {:induction false} OnlyOnceLongClickFiresOnce(b: Button, t: Millis, raw: bool, polls: seq<Sample>)
    requires b.mode == OnlyOnce && b.flags.contact && !b.flags.debounce && !b.flags.longClick
    requires ContactsClosed(b.flags, raw) && AllRead(b, polls, true)
    requires Elapsed(t, b.btnTimer) >= b.longClickTimeout
    ensures var events := Reports(b, [Sample(t, raw)] + polls);
      events[0] == LongClick && forall i :: 1 <= i < |events| ==> events[i] == Pressed
  {
    var all := [Sample(t, raw)] + polls;
    var c := Poll(b, t, raw);
    assert c.state == LongClick && HeldOnce(c);
    assert all[1..] == polls;
    forall i | 0 <= i < |polls|
      ensures ContactsClosed(c.flags, polls[i].raw)
    {
      SameWiringSameReading(b, c, polls[i].raw);
    }
    OnlyOnceHoldStaysPressed(c, polls);
  }

  /** A released button with no click pending reports RELEASED on every poll. */
  lemma {:induction false} SettledOpenStaysReleased(b: Button, polls: seq<Sample>)
    requires Idle(b) && AllRead(b, polls, false)
    ensures forall i :: 0 <= i < |polls| ==> Reports(b, polls)[i] == Released
    decreases |polls|
  {
    if polls != [] {
      var c := Poll(b, polls[0].now, polls[0].raw);
      assert c.state == Released && Idle(c);
      forall i | 0 <= i < |polls[1..]|
        ensures ContactsClosed(c.flags, polls[1..][i].raw) == false
      {
        assert polls[1..][i] == polls[i + 1];
        SameWiringSameReading(b, c, polls[i + 1].raw);
      }
      SettledOpenStaysReleased(c, polls[1..]);
    }
  }

  /**
   * At most one virtual click per press: once the double-click window has
   * expired, the pending click is reported as ONECLICK once, and the
   * released button reports RELEASED from then on.
   */
  lemma {:induction false} VirtualClickFiresOnce(b: Button, t: Millis, raw: bool, polls: seq<Sample>)
    requires !b.flags.contact && !b.flags.debounce && b.flags.oneClick && b.flags.virtualClick
    requires !ContactsClosed(b.flags, raw) && AllRead(b, polls, false)
    requires Elapsed(t, b.dblTimer) > b.dblClickTimeout
    ensures var events := Reports(b, [Sample(t, raw)] + polls);
      events[0] == OneClick && forall i :: 1 <= i < |events| ==> events[i] == Released
  {
    var all := [Sample(t, raw)] + polls;
    var c := Poll(b, t, raw);
    assert c.state == OneClick && Idle(c);
    assert all[1..] == polls;
    forall i | 0 <= i < |polls|
      ensures ContactsClosed(c.flags, polls[i].raw) == false
    {
      SameWiringSameReading(b, c, polls[i].raw);
    }
    SettledOpenStaysReleased(c, polls);
  }
}
