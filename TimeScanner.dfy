/**
  The time pattern `(\d{1,2})(?:[.:](\d{2}))? ?(pm|am|PM|AM)?` of src/main.rs,
  iterated the way `captures_iter` does: leftmost-first, non-overlapping, each
  search resuming where the previous match ended. The pattern is written out
  as a hand scanner; every part after the hour is optional and greedy, and
  there is no word boundary on either side.
 */
module TimeScanner {
  import opened Wrappers
  import opened Text

  /**
    One match: where it starts, the hour digits (group 1), the minute digits
    (group 2), whether the optional space was consumed, and the meridiem
    (group 3). The separator before the minutes is not captured.
   */
  datatype Match = Match(start: nat, hour: string, minute: Option<string>, spaced: bool, meridiem: Option<string>)
  {
    /** The position just past the match, where the next search resumes. */
    function End(): nat {
      start + |hour|
      + (if minute.Some? then 1 + |minute.value| else 0)
      + (if spaced then 1 else 0)
      + (if meridiem.Some? then |meridiem.value| else 0)
    }
  }

  predicate IsSeparator(c: char) {
    c == '.' || c == ':'
  }

  /** The four spellings the third group accepts; matching is case-sensitive. */
  predicate IsMeridiem(t: string) {
    t == "pm" || t == "am" || t == "PM" || t == "AM"
  }

  /**
    The pattern can match `s[m.start..m.End()]` with exactly these captures:
    one or two hour digits, then (optionally) `.` or `:` and two minute digits,
    then (optionally) one space, then (optionally) a meridiem.
   */
  predicate Lexes(s: string, m: Match) {
    m.End() <= |s|
    && 1 <= |m.hour| <= 2 && AllDigits(m.hour) && s[m.start..m.start + |m.hour|] == m.hour
    && var p := m.start + |m.hour|;
    (m.minute.Some? ==>
      |m.minute.value| == 2 && AllDigits(m.minute.value) && IsSeparator(s[p]) && s[p + 1..p + 3] == m.minute.value)
    && var q := if m.minute.Some? then p + 3 else p;
    (m.spaced ==> s[q] == ' ')
    && var r := if m.spaced then q + 1 else q;
    (m.meridiem.Some? ==> IsMeridiem(m.meridiem.value) && s[r..r + 2] == m.meridiem.value)
  }

  /**
    The match the regex engine reports when its search reaches the digit at i:
    at every optional part it takes the part whenever it is present.
   */
  function MatchAt(s: string, i: nat): (m: Match)
    requires i < |s| && IsDigit(s[i])
    ensures m.start == i && i < m.End() <= |s|
  {
    var p := if i + 1 < |s| && IsDigit(s[i + 1]) then i + 2 else i + 1;
    var minute :=
      if p + 2 < |s| && IsSeparator(s[p]) && IsDigit(s[p + 1]) && IsDigit(s[p + 2])
      then Some(s[p + 1..p + 3]) else None;
    var q := if minute.Some? then p + 3 else p;
    var spaced := q < |s| && s[q] == ' ';
    var r := if spaced then q + 1 else q;
    var meridiem := if r + 2 <= |s| && IsMeridiem(s[r..r + 2]) then Some(s[r..r + 2]) else None;
    Match(i, s[i..p], minute, spaced, meridiem)
  }

  /** What the engine reports at i is a genuine match of the pattern. */
  lemma MatchAtLexes(s: string, i: nat)
    requires i < |s| && IsDigit(s[i])
    ensures Lexes(s, MatchAt(s, i))
  {
    var m := MatchAt(s, i);
    var p := i + |m.hour|;
    assert 1 <= |m.hour| <= 2 && s[i..p] == m.hour;
    assert AllDigits(m.hour) by {
      if |m.hour| == 2 { assert m.hour[1] == s[i + 1]; }
    }
    var q := if m.minute.Some? then p + 3 else p;
    if m.minute.Some? {
      assert p + 2 < |s| && IsDigit(s[p + 1]) && IsDigit(s[p + 2]);
      var t := s[p + 1..p + 3];
      assert m.minute == Some(t);
      assert t[0] == s[p + 1] && t[1] == s[p + 2];
      assert AllDigits(t);
    }
    var r := if m.spaced then q + 1 else q;
    if m.meridiem.Some? {
      assert m.meridiem.value == s[r..r + 2];
      assert |m.meridiem.value| == 2;
    }
  }

  /**
    Leftmost-first preference is, for this pattern, the longest match: every
    other way the pattern can match at i ends no later, and one ending at the
    same place is this very match.
   */
  lemma MatchAtIsLongest(s: string, i: nat, m: Match)
    requires i < |s| && IsDigit(s[i])
    requires Lexes(s, m) && m.start == i
    ensures m.End() <= MatchAt(s, i).End()
    ensures m.End() == MatchAt(s, i).End() ==> m == MatchAt(s, i)
  {
    var w := MatchAt(s, i);
    var p := i + |m.hour|;
    assert m.hour[|m.hour| - 1] == s[p - 1];
    if |m.hour| == 1 && |w.hour| == 2 {
      // A one-digit hour followed by a digit cannot be continued.
      assert IsDigit(s[p]);
      assert m.End() == p;
      assert w.End() >= i + 2;
    } else {
      assert |m.hour| == |w.hour| by {
        if |m.hour| == 2 { assert s[i..i + 2][1] == s[i + 1]; }
      }
      assert m.hour == w.hour;
      SameAfterHour(s, m, w);
    }
  }

  /** Two matches at the same place with the same hour: the longer one is the engine's. */
  lemma SameAfterHour(s: string, m: Match, w: Match)
    requires w.start < |s| && IsDigit(s[w.start]) && w == MatchAt(s, w.start)
    requires Lexes(s, m) && m.start == w.start && m.hour == w.hour
    ensures m.End() <= w.End()
    ensures m.End() == w.End() ==> m == w
  {
    var p := m.start + |m.hour|;
    if m.minute.Some? {
      assert s[p + 1..p + 3][0] == s[p + 1] && s[p + 1..p + 3][1] == s[p + 2];
      assert m.minute.value[0] == s[p + 1] && m.minute.value[1] == s[p + 2];
      assert w.minute == m.minute;
      AfterMinute(s, m, w, p + 3);
    } else if w.minute.Some? {
      // The separator that follows the hour is neither a space nor a meridiem letter.
      assert IsSeparator(s[p]);
      assert m.End() == p;
    } else {
      AfterMinute(s, m, w, p);
    }
  }

  lemma AfterMinute(s: string, m: Match, w: Match, q: nat)
    requires w.start < |s| && IsDigit(s[w.start]) && w == MatchAt(s, w.start)
    requires Lexes(s, m) && m.start == w.start && m.hour == w.hour && m.minute == w.minute
    requires q == m.start + |m.hour| + (if m.minute.Some? then 3 else 0)
    ensures m.End() <= w.End()
    ensures m.End() == w.End() ==> m == w
  {
    if m.minute.Some? {
      assert |m.minute.value| == 2;
    }
    if m.spaced {
      assert w.spaced;
      AfterSpace(s, m, w, q + 1);
    } else if w.spaced {
      // A space follows, so no meridiem can start at q.
      assert s[q] == ' ';
    } else {
      AfterSpace(s, m, w, q);
    }
  }

  lemma AfterSpace(s: string, m: Match, w: Match, r: nat)
    requires w.start < |s| && IsDigit(s[w.start]) && w == MatchAt(s, w.start)
    requires Lexes(s, m) && m.start == w.start && m.hour == w.hour && m.minute == w.minute && m.spaced == w.spaced
    requires r == m.start + |m.hour| + (if m.minute.Some? then 3 else 0) + (if m.spaced then 1 else 0)
    ensures m.End() <= w.End()
    ensures m.End() == w.End() ==> m == w
  {
    if m.minute.Some? {
      assert |m.minute.value| == 2;
    }
    if m.meridiem.Some? {
      assert |m.meridiem.value| == 2;
      assert w.meridiem == m.meridiem;
    } else if w.meridiem.Some? {
      assert |w.meridiem.value| == 2;
    }
  }

  /** All matches from position i onwards, as successive searches report them. */
  function ScanFrom(s: string, i: nat): seq<Match>
    requires i <= |s|
    decreases |s| - i
  {
    if i == |s| then []
    else if !IsDigit(s[i]) then ScanFrom(s, i + 1)
    else
      var m := MatchAt(s, i);
      [m] + ScanFrom(s, m.End())
  }

  /** `DATE_REGEX.captures_iter(s)`, collected. */
  function Scan(s: string): seq<Match> {
    ScanFrom(s, 0)
  }

  /** Each reported match starts at a digit and is the engine's (longest) match there. */
  predicate AllPreferred(s: string, ms: seq<Match>) {
    forall k :: 0 <= k < |ms| ==> Preferred(s, ms[k])
  }

  predicate Preferred(s: string, m: Match) {
    m.start < |s| && IsDigit(s[m.start]) && m == MatchAt(s, m.start)
  }

  /** Matches come left to right and do not overlap. */
  predicate InOrder(ms: seq<Match>) {
    forall k :: 0 <= k < |ms| - 1 ==> ms[k].End() <= ms[k + 1].start
  }

  /** Every digit at or after i lies inside some reported match: no match was missed. */
  predicate CoversDigits(s: string, i: nat, ms: seq<Match>) {
    forall j :: i <= j < |s| && IsDigit(s[j]) ==>
      exists k :: 0 <= k < |ms| && ms[k].start <= j < ms[k].End()
  }

  lemma {:induction false} ScanFromPreferred(s: string, i: nat)
    requires i <= |s|
    ensures AllPreferred(s, ScanFrom(s, i))
    ensures forall k :: 0 <= k < |ScanFrom(s, i)| ==> i <= ScanFrom(s, i)[k].start
    decreases |s| - i
  {
    if i == |s| {
    } else if !IsDigit(s[i]) {
      ScanFromPreferred(s, i + 1);
    } else {
      var m := MatchAt(s, i);
      var rest := ScanFrom(s, m.End());
      ScanFromPreferred(s, m.End());
      var ms := [m] + rest;
      assert ScanFrom(s, i) == ms;
      forall k | 0 <= k < |ms|
        ensures Preferred(s, ms[k]) && i <= ms[k].start
      {
        if k > 0 { assert ms[k] == rest[k - 1]; }
      }
    }
  }

  lemma {:induction false} ScanFromInOrder(s: string, i: nat)
    requires i <= |s|
    ensures InOrder(ScanFrom(s, i))
    decreases |s| - i
  {
    if i == |s| {
    } else if !IsDigit(s[i]) {
      ScanFromInOrder(s, i + 1);
    } else {
      var m := MatchAt(s, i);
      var rest := ScanFrom(s, m.End());
      ScanFromInOrder(s, m.End());
      ScanFromPreferred(s, m.End());
      assert ScanFrom(s, i) == [m] + rest;
      InOrderCons(m, rest);
    }
  }

  lemma InOrderCons(m: Match, rest: seq<Match>)
    requires InOrder(rest)
    requires forall k :: 0 <= k < |rest| ==> m.End() <= rest[k].start
    ensures InOrder([m] + rest)
  {
    var ms := [m] + rest;
    forall k | 0 <= k < |ms| - 1
      ensures ms[k].End() <= ms[k + 1].start
    {
      assert ms[k + 1] == rest[k];
      if k > 0 { assert ms[k] == rest[k - 1]; }
    }
  }

  lemma {:induction false} ScanFromCovers(s: string, i: nat)
    requires i <= |s|
    ensures CoversDigits(s, i, ScanFrom(s, i))
    decreases |s| - i
  {
    if i == |s| {
    } else if !IsDigit(s[i]) {
      ScanFromCovers(s, i + 1);
    } else {
      var m := MatchAt(s, i);
      var rest := ScanFrom(s, m.End());
      ScanFromCovers(s, m.End());
      var ms := [m] + rest;
      assert ScanFrom(s, i) == ms;
      forall j | i <= j < |s| && IsDigit(s[j])
        ensures exists k :: 0 <= k < |ms| && ms[k].start <= j < ms[k].End()
      {
        if j < m.End() {
          assert ms[0] == m;
        } else {
          var k :| 0 <= k < |rest| && rest[k].start <= j < rest[k].End();
          assert ms[k + 1] == rest[k];
        }
      }
    }
  }

  /** Matches are reported left to right without overlap, each the longest at its digit, and none is missed. */
  lemma ScanIsLeftmost(s: string)
    ensures AllPreferred(s, Scan(s)) && InOrder(Scan(s)) && CoversDigits(s, 0, Scan(s))
  {
    ScanFromPreferred(s, 0);
    ScanFromInOrder(s, 0);
    ScanFromCovers(s, 0);
  }

  /** Text yields matches exactly when it holds a digit. */
  lemma ScanEmptyIffNoDigit(s: string)
    ensures Scan(s) == [] <==> forall j :: 0 <= j < |s| ==> !IsDigit(s[j])
  {
    ScanFromPreferred(s, 0);
    ScanFromInOrder(s, 0);
    ScanFromCovers(s, 0);
    var ms := Scan(s);
    if ms != [] {
      assert IsDigit(s[ms[0].start]);
    }
  }

  /**
    `captures_iter` as a loop: a position walks through the text; at a digit the
    match there is recorded and the search resumes at its end.
   */
  method ScanMatches(s: string) returns (ms: seq<Match>)
    ensures ms == Scan(s)
  {
    ms := [];
    var pos := 0;
    while pos < |s|
      invariant pos <= |s|
      invariant ms + ScanFrom(s, pos) == Scan(s)
      decreases |s| - pos
    {
      if IsDigit(s[pos]) {
        var m := MatchAt(s, pos);
        assert ScanFrom(s, pos) == [m] + ScanFrom(s, m.End());
        ms := ms + [m];
        pos := m.End();
      } else {
        pos := pos + 1;
      }
    }
  }

  /** `"123"`: hour 12, then hour 3, since each hour takes at most two digits. */
  lemma ThreeDigitsSplit()
    ensures Scan("123") == [Match(0, "12", None, false, None), Match(2, "3", None, false, None)]
  {
    var s := "123";
    assert s[0..2] == "12" && s[2..3] == "3";
    assert MatchAt(s, 0) == Match(0, "12", None, false, None);
    assert MatchAt(s, 2) == Match(2, "3", None, false, None);
    assert ScanFrom(s, 3) == [];
    assert ScanFrom(s, 2) == [MatchAt(s, 2)];
  }

  /** `"1.5pm"`: a separator needs two minute digits, so this is a bare 1, then 5pm. */
  lemma SingleMinuteDigitSplits()
    ensures Scan("1.5pm") == [Match(0, "1", None, false, None), Match(2, "5", None, false, Some("pm"))]
  {
    var s := "1.5pm";
    assert s[1] == '.' && s[3] == 'p' && s[0..1] == "1" && !IsMeridiem(s[1..3]);
    assert MatchAt(s, 0) == Match(0, "1", None, false, None);
    assert s[3..5] == "pm" && s[2..3] == "5";
    assert MatchAt(s, 2) == Match(2, "5", None, false, Some("pm"));
    assert ScanFrom(s, 5) == [];
    assert ScanFrom(s, 2) == [MatchAt(s, 2)];
    assert ScanFrom(s, 1) == ScanFrom(s, 2);
  }

  /** `"3 amazing"`: no word boundary, so the `am` of a word is taken as a meridiem. */
  lemma NoWordBoundary()
    ensures Scan("3 amazing") == [Match(0, "3", None, true, Some("am"))]
  {
    var s := "3 amazing";
    assert s[2..4] == "am";
    assert MatchAt(s, 0) == Match(0, "3", None, true, Some("am"));
    assert ScanFrom(s, 4) == [] by {
      assert forall j :: 4 <= j < |s| ==> !IsDigit(s[j]);
      ScanFromNoDigit(s, 4);
    }
  }

  lemma {:induction false} ScanFromNoDigit(s: string, i: nat)
    requires i <= |s|
    requires forall j :: i <= j < |s| ==> !IsDigit(s[j])
    ensures ScanFrom(s, i) == []
    decreases |s| - i
  {
    if i < |s| {
      ScanFromNoDigit(s, i + 1);
    }
  }

  /** Searching across text without digits reports nothing until the next digit. */
  lemma {:induction false} ScanFromNoDigitPrefix(s: string, i: nat, j: nat)
    requires i <= j <= |s|
    requires forall x :: i <= x < j ==> !IsDigit(s[x])
    ensures ScanFrom(s, i) == ScanFrom(s, j)
    decreases j - i
  {
    if i < j {
      ScanFromNoDigitPrefix(s, i + 1, j);
    }
  }
}
