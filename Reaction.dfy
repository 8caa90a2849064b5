/**
  The ⏰ reaction handler once both users' timezones are known: it walks the
  matches of the reacted-to message, resolves each, pushes one formatted line
  per resolved match, and direct-messages the lines joined by newlines. A match
  that cannot be resolved ends the handler before anything is sent, and so does
  a clock that `and_hms` rejects: the panic ends the handler just as early.

  Anchoring a clock to today's date in the sender's timezone and projecting it
  into the reacting user's timezone (`ymd`, `and_hms`, `with_timezone` and their
  `Display`) are given as the two rendering functions `anchor` and `project`.
 */
module Reaction {
  import opened Wrappers
  import opened Text
  import opened TimeScanner
  import opened Resolver

  /**
    The clocks the handler renders for a sequence of matches, or None if it
    ends early: by a `return`, or by the panic of `and_hms` on a clock it rejects.
   */
  function Collect(ms: seq<Match>): Option<seq<Clock>>
  {
    if ms == [] then Some([])
    else
      match Resolve(ms[0])
      case Abort => None
      case Skip => Collect(ms[1..])
      case Emit(c) => if ClockAccepted(c) then Prepend([c], Collect(ms[1..])) else None
  }

  /** A match that ends the handler: a `return`, or a clock `and_hms` panics on. */
  predicate Halts(m: Match) {
    Resolve(m).Abort? || (Resolve(m).Emit? && !ClockAccepted(Resolve(m).clock))
  }

  /** Lines already pushed, followed by what the rest of the loop produces. */
  function Prepend<T>(done: seq<T>, rest: Option<seq<T>>): Option<seq<T>>
  {
    match rest
    case None => None
    case Some(later) => Some(done + later)
  }

  lemma PrependNothing<T>(rest: Option<seq<T>>)
    ensures Prepend([], rest) == rest
  {
    match rest
    case None =>
    case Some(later) => assert [] + later == later;
  }

  lemma PrependTwice<T>(first: seq<T>, second: seq<T>, rest: Option<seq<T>>)
    ensures Prepend(first, Prepend(second, rest)) == Prepend(first + second, rest)
  {
    match rest
    case None =>
    case Some(later) => assert first + (second + later) == (first + second) + later;
  }

  /** The handler's loop over `a + b` is its loop over `a` followed by its loop over `b`. */
  lemma {:induction false} CollectAppend(a: seq<Match>, b: seq<Match>)
    ensures Collect(a + b) == (match Collect(a) case None => None case Some(first) => Prepend(first, Collect(b)))
  {
    if a == [] {
      assert a + b == b;
      match Collect(b)
      case None =>
      case Some(later) => assert [] + later == later;
    } else {
      assert (a + b)[0] == a[0];
      assert (a + b)[1..] == a[1..] + b;
      CollectAppend(a[1..], b);
      match Collect(a[1..])
      case None =>
      case Some(first) =>
        match Collect(b)
        case None =>
        case Some(later) =>
          if Resolve(a[0]).Emit? && ClockAccepted(Resolve(a[0]).clock) {
            assert [Resolve(a[0]).clock] + (first + later) == ([Resolve(a[0]).clock] + first) + later;
          }
    }
  }

  /** A match that resolves to `continue` leaves the output exactly as if it were absent. */
  lemma SkipIsInvisible(a: seq<Match>, m: Match, b: seq<Match>)
    requires Resolve(m).Skip?
    ensures Collect(a + [m] + b) == Collect(a + b)
  {
    CollectAppend(a + [m], b);
    CollectAppend(a, [m]);
    CollectAppend(a, b);
    assert Collect([m]) == Some([]) by {
      assert [m][1..] == [];
    }
    match Collect(a)
    case None =>
    case Some(first) =>
      assert first + [] == first;
  }

  /**
    A match that resolves to `return`, or whose clock `and_hms` rejects,
    discards every line before it and everything after.
   */
  lemma AbortDiscardsAll(a: seq<Match>, m: Match, b: seq<Match>)
    requires Halts(m)
    ensures Collect(a + [m] + b) == None
  {
    CollectAppend(a + [m], b);
    CollectAppend(a, [m]);
  }

  /** An emitted match contributes its one line at its own place, between the lines before and after it. */
  lemma EmitInPlace(a: seq<Match>, m: Match, b: seq<Match>)
    requires Resolve(m).Emit? && ClockAccepted(Resolve(m).clock)
    requires Collect(a).Some? && Collect(b).Some?
    ensures Collect(a + [m] + b) == Some(Collect(a).value + [Resolve(m).clock] + Collect(b).value)
  {
    CollectAppend(a + [m], b);
    CollectAppend(a, [m]);
    assert Collect([m]) == Some([Resolve(m).clock]) by {
      assert [m][1..] == [];
      assert [Resolve(m).clock] + [] == [Resolve(m).clock];
    }
  }

  /** The handler ends without sending exactly when some match halts it. */
  lemma {:induction false} CollectNoneIff(ms: seq<Match>)
    ensures Collect(ms).None? <==> exists k :: 0 <= k < |ms| && Halts(ms[k])
  {
    if ms != [] {
      CollectNoneIff(ms[1..]);
      if exists k :: 0 <= k < |ms[1..]| && Halts(ms[1..][k]) {
        var k :| 0 <= k < |ms[1..]| && Halts(ms[1..][k]);
        assert ms[k + 1] == ms[1..][k];
      }
      if exists k :: 0 <= k < |ms| && Halts(ms[k]) {
        var k :| 0 <= k < |ms| && Halts(ms[k]);
        if k > 0 {
          assert ms[1..][k - 1] == ms[k];
        }
      }
    }
  }

  /** One pushed line: the instant in the sender's timezone, then in the reacting user's. */
  function LineText(sentAt: string, seenAt: string): string
  {
    "The time `" + sentAt + "` was mentioned – in your timezone this is `" + seenAt + "`."
  }

  /** One line per clock, in order. */
  function Lines(cs: seq<Clock>, anchor: Clock -> string, project: Clock -> string): seq<string>
  {
    seq(|cs|, k requires 0 <= k < |cs| => LineText(anchor(cs[k]), project(cs[k])))
  }

  /** The direct message the handler sends for `content`, or None when it returns before sending. */
  function Notification(content: string, anchor: Clock -> string, project: Clock -> string): Option<string>
  {
    match Collect(Scan(content))
    case None => None
    case Some(cs) => Some(JoinLines(Lines(cs, anchor, project)))
  }

  /**
    The loop of the reaction handler: each match is resolved in turn; a missing
    minute without a meridiem skips it, a failed parse or an hour above 12 with a
    meridiem ends the handler with nothing sent, as does a clock `and_hms` panics
    on, and every other match pushes one line. The lines are joined with
    newlines and sent, even when there are none.
   */
  method ReactionBody(content: string, anchor: Clock -> string, project: Clock -> string)
    returns (body: Option<string>)
    ensures body == Notification(content, anchor, project)
  {
    var ms := ScanMatches(content);
    var output: seq<string> := [];
    ghost var clocks: seq<Clock> := [];
    assert ms[0..] == ms;
    PrependNothing(Collect(ms));
    for k := 0 to |ms|
      invariant Collect(ms) == Prepend(clocks, Collect(ms[k..]))
      invariant output == Lines(clocks, anchor, project)
    {
      assert ms[k..][0] == ms[k] && ms[k..][1..] == ms[k + 1..];
      var m := ms[k];
      var hours := ParseU32(m.hour);
      if hours.None? {
        assert Resolve(m).Abort?;
        return None;
      }
      var tag := ToPmAm(m.meridiem);
      var minutes: nat;
      if m.minute.Some? {
        var parsed := ParseU32(m.minute.value);
        if parsed.None? {
          assert Resolve(m).Abort?;
          return None;
        }
        minutes := parsed.value;
      } else if tag == Unmarked {
        assert Resolve(m).Skip?;
        continue;
      } else {
        minutes := 0;
      }
      if tag != Unmarked && hours.value > 12 {
        assert Resolve(m).Abort?;
        return None;
      }
      var clock := Clock(Hour24(hours.value, tag), minutes);
      assert Resolve(m) == Emit(clock);
      if !ClockAccepted(clock) {
        // `and_hms` panics: the handler ends before the send
        return None;
      }
      PrependTwice(clocks, [clock], Collect(ms[k + 1..]));
      output := output + [LineText(anchor(clock), project(clock))];
      clocks := clocks + [clock];
    }
    assert ms[|ms|..] == [];
    assert clocks + [] == clocks;
    body := Some(JoinLines(output));
  }

  /**
    When the handler sends, the message holds exactly one line per emitted
    clock, in the order of the matches (a rendering never contains a newline).
   */
  lemma NotificationLines(content: string, anchor: Clock -> string, project: Clock -> string)
    requires forall c :: NoNewline(anchor(c)) && NoNewline(project(c))
    requires Collect(Scan(content)).Some? && |Collect(Scan(content)).value| >= 1
    ensures var cs := Collect(Scan(content)).value;
      Notification(content, anchor, project) == Some(JoinLines(Lines(cs, anchor, project)))
      && SplitLines(Notification(content, anchor, project).value) == Lines(cs, anchor, project)
  {
    var cs := Collect(Scan(content)).value;
    var lines := Lines(cs, anchor, project);
    forall k | 0 <= k < |lines|
      ensures NoNewline(lines[k])
    {
      LineHasNoNewline(anchor(cs[k]), project(cs[k]));
    }
    SplitJoinLines(lines);
    assert Notification(content, anchor, project) == Some(JoinLines(lines));
  }

  lemma LineHasNoNewline(sentAt: string, seenAt: string)
    requires NoNewline(sentAt) && NoNewline(seenAt)
    ensures NoNewline(LineText(sentAt, seenAt))
  {
    var opening, middle, closing := "The time `", "` was mentioned – in your timezone this is `", "`.";
    assert NoNewline(opening) && NoNewline(middle) && NoNewline(closing);
    NoNewlineConcat(opening, sentAt);
    NoNewlineConcat(opening + sentAt, middle);
    NoNewlineConcat(opening + sentAt + middle, seenAt);
    NoNewlineConcat(opening + sentAt + middle + seenAt, closing);
  }

  /** Text without a digit still gets a direct message, and it is empty. */
  lemma NoDigitSendsEmpty(content: string, anchor: Clock -> string, project: Clock -> string)
    requires forall j :: 0 <= j < |content| ==> !IsDigit(content[j])
    ensures Notification(content, anchor, project) == Some("")
  {
    ScanEmptyIffNoDigit(content);
  }

  /**
    The handler sends nothing exactly when some match carries a lower-case
    meridiem with an hour above 12, or resolves to a clock `and_hms` rejects
    (digits are ASCII, so parsing never fails).
   */
  lemma NothingSentIff(content: string, anchor: Clock -> string, project: Clock -> string)
    ensures Notification(content, anchor, project).None? <==>
      exists k :: 0 <= k < |Scan(content)| &&
        (RejectedHour(Scan(content)[k])
         || (Resolve(Scan(content)[k]).Emit? && !ClockAccepted(Resolve(Scan(content)[k]).clock)))
  {
    var ms := Scan(content);
    ScanIsLeftmost(content);
    CollectNoneIff(ms);
    forall k | 0 <= k < |ms|
      ensures WellFormed(ms[k])
      ensures Halts(ms[k]) <==>
        (RejectedHour(ms[k]) || (Resolve(ms[k]).Emit? && !ClockAccepted(Resolve(ms[k]).clock)))
    {
      assert Preferred(content, ms[k]);
      MatchAtLexes(content, ms[k].start);
      LexedIsWellFormed(content, ms[k]);
      ResolveWellFormed(ms[k]);
    }
  }

  /** `"Let's meet at 3pm"` sends one line, for the clock 15:00. */
  lemma ThreePmExample()
    ensures Collect(Scan("Let's meet at 3pm")) == Some([Clock(15, 0)])
  {
    var s := "Let's meet at 3pm";
    assert s[14] == '3' && s[15..17] == "pm";
    assert forall x :: 0 <= x < 14 ==> !IsDigit(s[x]);
    var m := Match(14, "3", None, false, Some("pm"));
    assert MatchAt(s, 14) == m;
    assert Scan(s) == [m] by {
      ScanFromNoDigit(s, 17);
      assert ScanFrom(s, 14) == [m];
      ScanFromNoDigitPrefix(s, 0, 14);
    }
    ParseShortDigits("3");
    assert Resolve(m) == Emit(Clock(15, 0));
    assert [m][1..] == [];
    assert Collect([m]) == Prepend([Clock(15, 0)], Collect([]));
    assert [Clock(15, 0)] + [] == [Clock(15, 0)];
  }

  /** `"at 12pm"` sends nothing: the hour becomes 24 and `and_hms` panics. */
  lemma TwelvePmSendsNothing(anchor: Clock -> string, project: Clock -> string)
    ensures Notification("at 12pm", anchor, project) == None
  {
    var s := "at 12pm";
    assert s[3] == '1' && s[4] == '2' && s[5..7] == "pm";
    assert forall x :: 0 <= x < 3 ==> !IsDigit(s[x]);
    var m := Match(3, "12", None, false, Some("pm"));
    assert MatchAt(s, 3) == m;
    assert Scan(s) == [m] by {
      ScanFromNoDigit(s, 7);
      assert ScanFrom(s, 3) == [m];
      ScanFromNoDigitPrefix(s, 0, 3);
    }
    TwelvePmIsTwentyFour();
    assert Resolve(m) == Emit(Clock(24, 0));
  }
}
