/**
  The timezone argument of the bot-timezone command: the first match of the
  pattern `(\w+){1}/(\w+){1}` in the message, found leftmost-first with greedy
  word runs. Word characters are ASCII letters, digits and `_`.
 */
module TimezoneArg {
  import opened Wrappers

  predicate IsWordChar(c: char) {
    'a' <= c <= 'z' || 'A' <= c <= 'Z' || '0' <= c <= '9' || c == '_'
  }

  predicate AllWordIn(s: string, i: nat, j: nat)
    requires i <= j <= |s|
  {
    forall x :: i <= x < j ==> IsWordChar(s[x])
  }

  /** The pattern can match `s[p..e]`, its slash at k: a word run, `/`, a word run. */
  predicate SlashPairAt(s: string, p: nat, k: nat, e: nat) {
    p < k && k + 1 < e <= |s| && AllWordIn(s, p, k) && s[k] == '/' && AllWordIn(s, k + 1, e)
  }

  /** Where a greedy `\w+` starting at i stops: the first non-word character, or the end. */
  function RunEnd(s: string, i: nat): (j: nat)
    requires i <= |s|
    ensures i <= j <= |s| && AllWordIn(s, i, j)
    ensures j == |s| || !IsWordChar(s[j])
    decreases |s| - i
  {
    if i < |s| && IsWordChar(s[i]) then RunEnd(s, i + 1) else i
  }

  /** The end of the pattern's match starting at p, if it has one there. */
  function PairAt(s: string, p: nat): Option<nat>
    requires p <= |s|
  {
    var k := RunEnd(s, p);
    if p < k && k + 1 < |s| && s[k] == '/' && IsWordChar(s[k + 1]) then Some(RunEnd(s, k + 1)) else None
  }

  /** Where the first match starts and ends, trying start positions from i on. */
  function FindFrom(s: string, i: nat): (r: Option<(nat, nat)>)
    requires i <= |s|
    ensures r.Some? ==> i <= r.value.0 < r.value.1 <= |s|
    decreases |s| - i
  {
    if i == |s| then None
    else
      match PairAt(s, i)
      case Some(e) => Some((i, e))
      case None => FindFrom(s, i + 1)
  }

  /**
    `TIMEZONE_REGEX.find(content)`; None is the command's error reply
    "That's not a valid timezone.". The text found is not checked against the
    timezone database here.
   */
  function TimezoneArgument(content: string): Option<string>
  {
    match FindFrom(content, 0)
    case None => None
    case Some((p, e)) => Some(content[p..e])
  }

  /** At p the pattern matches exactly when PairAt says so, and PairAt reports the longest match. */
  lemma PairAtIsLongest(s: string, p: nat)
    requires p <= |s|
    ensures PairAt(s, p).Some? ==>
      SlashPairAt(s, p, RunEnd(s, p), PairAt(s, p).value)
      && (PairAt(s, p).value == |s| || !IsWordChar(s[PairAt(s, p).value]))
    ensures forall k: nat, e: nat :: SlashPairAt(s, p, k, e) ==> PairAt(s, p).Some? && e <= PairAt(s, p).value
  {
    forall k: nat, e: nat | SlashPairAt(s, p, k, e)
      ensures PairAt(s, p).Some? && e <= PairAt(s, p).value
    {
      assert RunEnd(s, p) == k;
    }
  }

  /** The reported match is leftmost: no match of the pattern starts earlier. */
  lemma {:induction false} FindFromIsLeftmost(s: string, i: nat)
    requires i <= |s|
    ensures FindFrom(s, i).Some? ==>
      var (p, e) := FindFrom(s, i).value;
      i <= p && PairAt(s, p) == Some(e)
      && forall q: nat, k: nat, f: nat :: i <= q < p ==> !SlashPairAt(s, q, k, f)
    ensures FindFrom(s, i).None? ==> forall q: nat, k: nat, f: nat :: i <= q ==> !SlashPairAt(s, q, k, f)
    decreases |s| - i
  {
    if i < |s| {
      PairAtIsLongest(s, i);
      if PairAt(s, i).None? {
        FindFromIsLeftmost(s, i + 1);
      }
    }
  }

  /**
    The argument, when found, is a `word/word` piece of the message that starts
    at the leftmost possible place and extends its second word as far as it
    goes; when none is found the message holds no `word/word` at all.
   */
  lemma TimezoneArgumentSpec(content: string)
    ensures TimezoneArgument(content).None? <==> forall q: nat, k: nat, f: nat :: !SlashPairAt(content, q, k, f)
    ensures TimezoneArgument(content).Some? ==> exists p: nat, k: nat, e: nat ::
      SlashPairAt(content, p, k, e) && TimezoneArgument(content).value == content[p..e]
      && (e == |content| || !IsWordChar(content[e]))
      && (forall q: nat, k': nat, f: nat :: q < p ==> !SlashPairAt(content, q, k', f))
  {
    FindFromIsLeftmost(content, 0);
    if FindFrom(content, 0).Some? {
      var (p, e) := FindFrom(content, 0).value;
      PairAtIsLongest(content, p);
      assert SlashPairAt(content, p, RunEnd(content, p), e);
    }
  }

  /** `America/Argentina/Buenos_Aires` yields `America/Argentina`: the second run stops at the next slash. */
  lemma NestedZoneIsCut()
    ensures TimezoneArgument("America/Argentina/Buenos_Aires") == Some("America/Argentina")
  {
    var s := "America/Argentina/Buenos_Aires";
    assert s[7] == '/' && s[17] == '/';
    assert AllWordIn(s, 0, 7) && AllWordIn(s, 8, 17);
    assert RunEnd(s, 0) == 7 by { RunEndAt(s, 0, 7); }
    assert RunEnd(s, 8) == 17 by { RunEndAt(s, 8, 17); }
    assert PairAt(s, 0) == Some(17);
    assert s[0..17] == "America/Argentina";
  }

  /** A greedy run stops at the first non-word character. */
  lemma RunEndAt(s: string, i: nat, j: nat)
    requires i <= j < |s| && AllWordIn(s, i, j) && !IsWordChar(s[j])
    ensures RunEnd(s, i) == j
  {
  }
}
