/** The usual Some/None wrapper, for lookups and parses that can fail. */
module Wrappers {
  datatype Option<+T> = None | Some(value: T)
}

/**
  Character classes and the two string utilities the handler leans on:
  `str::parse::<u32>` (applied to the hour and minute captures) and
  `[String]::join("\n")` (which builds the direct message).
  Digits are ASCII `'0'..'9'`.
 */
module Text {
  import opened Wrappers

  /** Largest value of a Rust `u32`. */
  const U32_MAX: nat := 0xFFFF_FFFF

  predicate IsDigit(c: char) {
    '0' <= c <= '9'
  }

  predicate AllDigits(t: string) {
    forall k :: 0 <= k < |t| ==> IsDigit(t[k])
  }

  function DigitValue(c: char): (d: nat)
    requires IsDigit(c)
    ensures d < 10
  {
    c as int - '0' as int
  }

  function Pow10(n: nat): (p: nat)
    ensures p >= 1
  {
    if n == 0 then 1 else 10 * Pow10(n - 1)
  }

  /** The number a string of decimal digits denotes, most significant digit first. */
  function DecimalValue(t: string): nat
    requires AllDigits(t)
  {
    if t == [] then 0 else DecimalValue(t[..|t| - 1]) * 10 + DigitValue(t[|t| - 1])
  }

  /** A string of n digits denotes a number below 10^n. */
  lemma {:induction false} DecimalValueBound(t: string)
    requires AllDigits(t)
    ensures DecimalValue(t) < Pow10(|t|)
  {
    if t != [] {
      DecimalValueBound(t[..|t| - 1]);
    }
  }

  /**
    `<u32 as FromStr>::from_str`: an optional leading `+`, then one or more
    ASCII digits whose value fits in 32 bits; anything else is an error.
   */
  function ParseU32(t: string): Option<nat>
  {
    if t == [] || t == "+" then None
    else
      var digits := if t[0] == '+' then t[1..] else t;
      if AllDigits(digits) && DecimalValue(digits) <= U32_MAX then Some(DecimalValue(digits)) else None
  }

  /** A non-empty run of at most nine ASCII digits always parses, to its decimal value. */
  lemma ParseShortDigits(t: string)
    requires 1 <= |t| <= 9 && AllDigits(t)
    ensures ParseU32(t) == Some(DecimalValue(t))
    ensures DecimalValue(t) < Pow10(|t|)
  {
    DecimalValueBound(t);
    assert t[0] != '+';
    assert Pow10(|t|) <= Pow10(9) by { Pow10Monotone(|t|, 9); }
    assert Pow10(9) == 1_000_000_000;
  }

  lemma {:induction false} Pow10Monotone(m: nat, n: nat)
    requires m <= n
    ensures Pow10(m) <= Pow10(n)
  {
    if m < n {
      Pow10Monotone(m, n - 1);
    }
  }

  /** `lines.join("\n")`: the lines with one newline between neighbours. */
  function JoinLines(lines: seq<string>): string
  {
    if |lines| == 0 then ""
    else if |lines| == 1 then lines[0]
    else lines[0] + "\n" + JoinLines(lines[1..])
  }

  /**
    `s.split('\n')`, the reader's view of a message body: the pieces between
    newlines, so there is always at least one (the empty body is one empty line).
   */
  function SplitLines(s: string): (pieces: seq<string>)
    ensures |pieces| >= 1
  {
    if s == [] then [""]
    else
      var rest := SplitLines(s[1..]);
      if s[0] == '\n' then [""] + rest else [[s[0]] + rest[0]] + rest[1..]
  }

  predicate NoNewline(t: string) {
    forall k :: 0 <= k < |t| ==> t[k] != '\n'
  }

  lemma NoNewlineConcat(a: string, b: string)
    requires NoNewline(a) && NoNewline(b)
    ensures NoNewline(a + b)
  {
    forall k | 0 <= k < |a + b|
      ensures (a + b)[k] != '\n'
    {
      if k >= |a| { assert (a + b)[k] == b[k - |a|]; }
    }
  }

  /** Text without a newline splits into itself, and stays at the head of what follows a newline. */
  lemma {:induction false} SplitAtFirstNewline(a: string, b: string)
    requires NoNewline(a)
    ensures SplitLines(a) == [a]
    ensures SplitLines(a + "\n" + b) == [a] + SplitLines(b)
  {
    if a == [] {
      assert a + "\n" + b == ['\n'] + b;
      assert (['\n'] + b)[1..] == b;
    } else {
      SplitAtFirstNewline(a[1..], b);
      assert (a + "\n" + b)[1..] == a[1..] + "\n" + b;
      assert [a[0]] + a[1..] == a;
    }
  }

  /** Splitting the joined body gives back exactly the lines, in order, when no line holds a newline. */
  lemma {:induction false} SplitJoinLines(lines: seq<string>)
    requires |lines| >= 1
    requires forall k :: 0 <= k < |lines| ==> NoNewline(lines[k])
    ensures SplitLines(JoinLines(lines)) == lines
  {
    SplitAtFirstNewline(lines[0], "");
    if |lines| > 1 {
      SplitJoinLines(lines[1..]);
      SplitAtFirstNewline(lines[0], JoinLines(lines[1..]));
      assert [lines[0]] + lines[1..] == lines;
    }
  }
}
