/** The coordinate key of a deletion run, its `min:max` text form, and the
    shift of a key from window coordinates back to genome coordinates. */
module Coords {
  import opened Common
  import opened Runs

  /** The smallest element of a non-empty list. */
  function SeqMin(xs: seq<int>): (m: int)
    requires |xs| > 0
    ensures m in xs && forall x :: x in xs ==> m <= x
  {
    if |xs| == 1 then xs[0]
    else
      var rest := SeqMin(xs[1..]);
      assert forall x :: x in xs ==> x == xs[0] || x in xs[1..];
      if xs[0] <= rest then xs[0] else rest
  }

  /** The largest element of a non-empty list. */
  function SeqMax(xs: seq<int>): (m: int)
    requires |xs| > 0
    ensures m in xs && forall x :: x in xs ==> x <= m
  {
    if |xs| == 1 then xs[0]
    else
      var rest := SeqMax(xs[1..]);
      assert forall x :: x in xs ==> x == xs[0] || x in xs[1..];
      if xs[0] >= rest then xs[0] else rest
  }

  /** The coordinate key of a run: its smallest and its largest position. */
  function DeletionCoord(run: seq<int>): (c: (int, int))
    requires |run| > 0
    ensures c.0 in run && c.1 in run
    ensures forall x :: x in run ==> c.0 <= x <= c.1
  {
    (SeqMin(run), SeqMax(run))
  }

  /** For a run of consecutive positions, the key is its first and last
      position, and the two ends determine the length. */
  lemma CoordOfConsecutiveRun(run: seq<int>)
    requires |run| > 0 && Consecutive(run)
    ensures DeletionCoord(run) == (run[0], Last(run))
    ensures Last(run) - run[0] + 1 == |run|
  {
    var c := DeletionCoord(run);
    forall i | 0 <= i < |run| ensures run[0] <= run[i] <= Last(run) {
      ConsecutiveAt(run, i);
      ConsecutiveAt(run, |run| - 1);
    }
    var a :| 0 <= a < |run| && run[a] == c.0;
    var b :| 0 <= b < |run| && run[b] == c.1;
    assert run[0] in run && Last(run) in run;
    assert c.0 <= run[0] && Last(run) <= c.1;
    ConsecutiveAt(run, |run| - 1);
  }

  // Decimal text of integers, as Python formats and parses it.

  /** The character of a decimal digit. */
  function DigitChar(d: nat): (c: char)
    requires d < 10
    ensures '0' <= c <= '9'
  {
    (48 + d) as char
  }

  /** The value of a decimal digit character. */
  function DigitValue(c: char): (d: nat)
    requires '0' <= c <= '9'
    ensures d < 10
  {
    (c as int) - 48
  }

  predicate IsDigit(c: char)
  {
    '0' <= c <= '9'
  }

  /** A non-empty string of decimal digits. */
  predicate AllDigits(s: string)
  {
    |s| > 0 && forall i :: 0 <= i < |s| ==> IsDigit(s[i])
  }

  /** The decimal digits of a natural number, without leading zeros. */
  function NatToDecimal(n: nat): (s: string)
    ensures AllDigits(s)
  {
    if n < 10 then [DigitChar(n)] else NatToDecimal(n / 10) + [DigitChar(n % 10)]
  }

  /** The decimal text of an integer, with a leading `-` when negative. */
  function IntToDecimal(i: int): string
  {
    if i < 0 then "-" + NatToDecimal(-i) else NatToDecimal(i)
  }

  /** The value of a string of decimal digits (leading zeros allowed). */
  function DecimalValue(s: string): nat
    requires AllDigits(s)
  {
    if |s| == 1 then DigitValue(s[0])
    else DecimalValue(s[..|s| - 1]) * 10 + DigitValue(s[|s| - 1])
  }

  /** Python's `int(s)` on a decimal string: an optional `-` followed by
      digits; anything else is a `ValueError`, here `None`. */
  function ParseInt(s: string): Option<int>
  {
    if |s| > 0 && s[0] == '-' then
      (if AllDigits(s[1..]) then var v: int := DecimalValue(s[1..]); Some(-v) else None)
    else if AllDigits(s) then Some(DecimalValue(s))
    else None
  }

  /** Reading back the digits of a natural number gives that number. */
  lemma {:induction false} DecimalRoundTrip(n: nat)
    ensures DecimalValue(NatToDecimal(n)) == n
  {
    if n >= 10 {
      DecimalRoundTrip(n / 10);
      var s := NatToDecimal(n);
      assert s[..|s| - 1] == NatToDecimal(n / 10);
    }
  }

  /** Parsing the decimal text of an integer gives that integer back. */
  lemma ParseIntRoundTrip(i: int)
    ensures ParseInt(IntToDecimal(i)) == Some(i)
  {
    if i < 0 {
      DecimalRoundTrip(-i);
      assert IntToDecimal(i)[1..] == NatToDecimal(-i);
    } else {
      DecimalRoundTrip(i);
    }
  }

  /** Python's `s.split(sep)` for a one-character separator: the pieces
      between the separators, at least one. */
  function Split(s: string, sep: char): (parts: seq<string>)
    ensures |parts| > 0
  {
    if |s| == 0 then [""]
    else
      var rest := Split(s[1..], sep);
      if s[0] == sep then [""] + rest
      else [[s[0]] + rest[0]] + rest[1..]
  }

  /** A string without the separator is one piece. */
  lemma {:induction false} SplitNone(s: string, sep: char)
    requires sep !in s
    ensures Split(s, sep) == [s]
  {
    if |s| > 0 {
      SplitNone(s[1..], sep);
      assert [s[0]] + s[1..] == s;
    }
  }

  /** A piece without the separator, then the separator, then the rest. */
  lemma {:induction false} SplitAt(t: string, sep: char, u: string)
    requires sep !in t
    ensures Split(t + [sep] + u, sep) == [t] + Split(u, sep)
  {
    if |t| == 0 {
      assert t + [sep] + u == [sep] + u;
      assert ([sep] + u)[1..] == u;
    } else {
      SplitAt(t[1..], sep, u);
      assert (t + [sep] + u)[1..] == t[1..] + [sep] + u;
      assert [t[0]] + t[1..] == t;
    }
  }

  /** The text form `"min:max"` of a coordinate key. */
  function FormatKey(c: (int, int)): string
  {
    IntToDecimal(c.0) + ":" + IntToDecimal(c.1)
  }

  /** The decimal text of an integer never holds a colon. */
  lemma NoColon(i: int)
    ensures ':' !in IntToDecimal(i)
  {
    var s := NatToDecimal(if i < 0 then -i else i);
    assert forall k :: 0 <= k < |s| ==> IsDigit(s[k]);
  }

  /** Splitting the text form of a key at the colon gives its two ends. */
  lemma SplitKey(c: (int, int))
    ensures Split(FormatKey(c), ':') == [IntToDecimal(c.0), IntToDecimal(c.1)]
  {
    NoColon(c.0);
    NoColon(c.1);
    SplitAt(IntToDecimal(c.0), ':', IntToDecimal(c.1));
    SplitNone(IntToDecimal(c.1), ':');
    assert IntToDecimal(c.0) + ":" + IntToDecimal(c.1) == IntToDecimal(c.0) + [':'] + IntToDecimal(c.1);
  }

  /** Two keys with the same text form are the same key, so grouping by the
      text form is grouping by the pair. */
  lemma FormatKeyInjective(c: (int, int), d: (int, int))
    requires FormatKey(c) == FormatKey(d)
    ensures c == d
  {
    SplitKey(c);
    SplitKey(d);
    ParseIntRoundTrip(c.0);
    ParseIntRoundTrip(c.1);
    ParseIntRoundTrip(d.0);
    ParseIntRoundTrip(d.1);
  }

  /** The start of the coding window, which the trimming removed. */
  const WindowStart: int := 265

  /** Shifts a `"start:end"` key by the window start. The key is split at
      its colons, and the first two pieces are read as integers; missing
      pieces or pieces that are not integers are the failures of the
      source, here `None`. */
  function AdjustCoords(x: string): Option<string>
  {
    var parts := Split(x, ':');
    if |parts| < 2 then None
    else
      match (ParseInt(parts[0]), ParseInt(parts[1]))
      case (Some(start), Some(end)) =>
        Some(IntToDecimal(start + WindowStart) + ":" + IntToDecimal(end + WindowStart))
      case _ => None
  }

  /** On the text form of a key, the adjustment adds 265 to each end. */
  lemma AdjustCoordsShifts(c: (int, int))
    ensures AdjustCoords(FormatKey(c)) == Some(FormatKey((c.0 + 265, c.1 + 265)))
  {
    SplitKey(c);
    ParseIntRoundTrip(c.0);
    ParseIntRoundTrip(c.1);
  }
}
