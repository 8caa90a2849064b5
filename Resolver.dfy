/**
  One pass of the reaction handler's loop body over a single match: parse the
  hour, map the meridiem to `PmAm`, take or default the minutes (or skip the
  match), reject an hour above 12 that carries a meridiem, and compute the
  hour handed to `and_hms`.
 */
module Resolver {
  import opened Wrappers
  import opened Text
  import opened TimeScanner

  /** The handler's `PmAm`; `Unmarked` is its `PmAm::None`. */
  datatype PmAm = Pm | Am | Unmarked

  /** The `(hour, minute)` passed to `and_hms(hour, minute, 0)`; seconds are always 0. */
  datatype Clock = Clock(hour: nat, minute: nat)

  /** What one match contributes: nothing (`continue`), the end of the handler (`return`), or a line. */
  datatype Resolution = Skip | Abort | Emit(clock: Clock)

  /** Only the lower-case spellings count; `AM` and `PM` fall to the catch-all arm. */
  function ToPmAm(meridiem: Option<string>): (tag: PmAm)
    ensures tag == Am <==> meridiem == Some("am")
    ensures tag == Pm <==> meridiem == Some("pm")
  {
    if meridiem == Some("am") then Am
    else if meridiem == Some("pm") then Pm
    else Unmarked
  }

  /** The `match am_pm` inside the `and_hms` call: twelve is added for `Pm`, whatever the hour. */
  function Hour24(hours: nat, tag: PmAm): nat
  {
    match tag
    case Am => hours
    case Pm => hours + 12
    case Unmarked => hours
  }

  /** The loop body for one match, in the order the handler performs its checks. */
  function Resolve(m: Match): Resolution
  {
    match ParseU32(m.hour)
    case None => Abort
    case Some(hours) =>
      var tag := ToPmAm(m.meridiem);
      match m.minute
      case Some(digits) =>
        (match ParseU32(digits)
         case None => Abort
         case Some(minutes) => CheckHour(hours, tag, minutes))
      case None =>
        if tag == Unmarked then Skip else CheckHour(hours, tag, 0)
  }

  function CheckHour(hours: nat, tag: PmAm, minutes: nat): Resolution
  {
    if tag != Unmarked && hours > 12 then Abort else Emit(Clock(Hour24(hours, tag), minutes))
  }

  /** The shape the scanner guarantees of a match's captures. */
  predicate WellFormed(m: Match) {
    1 <= |m.hour| <= 2 && AllDigits(m.hour)
    && (m.minute.Some? ==> |m.minute.value| == 2 && AllDigits(m.minute.value))
  }

  lemma LexedIsWellFormed(s: string, m: Match)
    requires Lexes(s, m)
    ensures WellFormed(m)
  {
  }

  /** A lower-case meridiem: the only ones that change the resolution. */
  predicate Marked(m: Match) {
    m.meridiem == Some("am") || m.meridiem == Some("pm")
  }

  /** A lower-case meridiem on an hour above 12. */
  predicate RejectedHour(m: Match) {
    Marked(m) && AllDigits(m.hour) && DecimalValue(m.hour) > 12
  }

  /**
    For a well-formed match: the handler stops exactly when a lower-case
    meridiem comes with an hour above 12; it skips exactly when there are no
    minutes and no lower-case meridiem; otherwise it emits the hour (plus 12
    for `pm`) and the minutes (0 when absent).
   */
  lemma ResolveWellFormed(m: Match)
    requires WellFormed(m)
    ensures Resolve(m).Abort? <==> RejectedHour(m)
    ensures Resolve(m).Skip? <==> !Marked(m) && m.minute.None?
    ensures Resolve(m).Emit? ==>
      Resolve(m).clock.hour == DecimalValue(m.hour) + (if m.meridiem == Some("pm") then 12 else 0)
      && Resolve(m).clock.minute == (if m.minute.Some? then DecimalValue(m.minute.value) else 0)
  {
    ParseShortDigits(m.hour);
    if m.minute.Some? {
      ParseShortDigits(m.minute.value);
    }
  }

  /** Parsing never fails on what the scanner captures, so a well-formed match aborts only on its hour. */
  lemma ParsesNeverAbort(m: Match)
    requires WellFormed(m)
    ensures ParseU32(m.hour).Some? && ParseU32(m.hour).value < 100
    ensures m.minute.Some? ==> ParseU32(m.minute.value).Some? && ParseU32(m.minute.value).value < 100
  {
    ParseShortDigits(m.hour);
    if m.minute.Some? {
      ParseShortDigits(m.minute.value);
    }
  }

  /** Upper-case `AM`/`PM` resolve exactly as if no meridiem had been written. */
  lemma UpperCaseIsUnmarked(m: Match)
    requires m.meridiem == Some("AM") || m.meridiem == Some("PM")
    ensures Resolve(m) == Resolve(m.(meridiem := None))
  {
  }

  /** `chrono`'s `and_hms(h, m, 0)` accepts only h < 24 and m < 60; anything else panics. */
  predicate ClockAccepted(c: Clock) {
    c.hour < 24 && c.minute < 60
  }

  /**
    Which emitted clocks `and_hms` would reject: with `am` never for the hour,
    with `pm` exactly at 12 (which becomes 24), without a meridiem from 24 on;
    and any minute from 60 to 99.
   */
  lemma AcceptedClocks(m: Match)
    requires WellFormed(m) && Resolve(m).Emit?
    ensures ClockAccepted(Resolve(m).clock) <==>
      (if m.meridiem == Some("pm") then DecimalValue(m.hour) < 12
       else if m.meridiem == Some("am") then true
       else DecimalValue(m.hour) < 24)
      && (m.minute.None? || DecimalValue(m.minute.value) < 60)
  {
    ResolveWellFormed(m);
  }

  /** `12pm` resolves to hour 24, which `and_hms` rejects. */
  lemma TwelvePmIsTwentyFour()
    ensures Resolve(Match(0, "12", None, false, Some("pm"))) == Emit(Clock(24, 0))
    ensures !ClockAccepted(Clock(24, 0))
  {
    ParseShortDigits("12");
  }

  /** `"13pm"` stops the handler; `"13:00"` without a meridiem is a line for hour 13. */
  lemma ThirteenWithAndWithoutMeridiem()
    ensures Resolve(Match(0, "13", None, false, Some("pm"))) == Abort
    ensures Resolve(Match(0, "13", Some("00"), false, None)) == Emit(Clock(13, 0))
  {
    ParseShortDigits("13");
    ParseShortDigits("00");
  }
}
