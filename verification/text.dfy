/** The few string routines of the Go standard library the formatter relies on:
    `strings.Join`, `strings.Split` (as its partner) and base-10 integer rendering. */
module Text {

  /** The combined length of the parts. */
  function TotalLength(parts: seq<string>): nat
  {
    if |parts| == 0 then 0 else |parts[0]| + TotalLength(parts[1..])
  }

  /** `strings.Join`: the parts in order with `sep` between neighbours; no parts give "". The text
      is every part's characters plus one separator per pair of neighbours. */
  function Join(parts: seq<string>, sep: string): (r: string)
    ensures |parts| == 0 ==> r == ""
    ensures |parts| > 0 ==> |r| == TotalLength(parts) + (|parts| - 1) * |sep|
  {
    if |parts| == 0 then ""
    else if |parts| == 1 then parts[0]
    else parts[0] + sep + Join(parts[1..], sep)
  }

  /** Joining two non-empty lists puts exactly one separator between the two joined halves. */
  lemma {:induction false} JoinAppend(a: seq<string>, b: seq<string>, sep: string)
    requires |a| > 0 && |b| > 0
    ensures Join(a + b, sep) == Join(a, sep) + sep + Join(b, sep)
  {
    if |a| == 1 {
      assert (a + b)[1..] == b;
    } else {
      assert (a + b)[1..] == a[1..] + b;
      JoinAppend(a[1..], b, sep);
    }
  }

  /** `strings.Split` on a one-character separator: every maximal separator-free segment, in order. */
  function SplitOn(s: string, sep: char): (parts: seq<string>)
    ensures |parts| >= 1
    ensures forall i :: 0 <= i < |parts| ==> sep !in parts[i]
  {
    if |s| == 0 then [""]
    else
      var rest := SplitOn(s[1..], sep);
      if s[0] == sep then [""] + rest
      else [[s[0]] + rest[0]] + rest[1..]
  }

  lemma {:induction false} SplitOnNoSeparator(s: string, sep: char)
    requires sep !in s
    ensures SplitOn(s, sep) == [s]
  {
    if |s| > 0 {
      SplitOnNoSeparator(s[1..], sep);
      assert [s[0]] + s[1..] == s;
    }
  }

  lemma {:induction false} SplitOnAfterSegment(x: string, y: string, sep: char)
    requires sep !in x
    ensures SplitOn(x + [sep] + y, sep) == [x] + SplitOn(y, sep)
  {
    var s := x + [sep] + y;
    if |x| == 0 {
      assert s[1..] == y;
    } else {
      assert s[1..] == x[1..] + [sep] + y;
      SplitOnAfterSegment(x[1..], y, sep);
      assert [x[0]] + x[1..] == x;
    }
  }

  /** Splitting a single-character-joined list recovers the list, provided no part contains the separator. */
  lemma {:induction false} SplitOnJoin(parts: seq<string>, sep: char)
    requires |parts| > 0
    requires forall i :: 0 <= i < |parts| ==> sep !in parts[i]
    ensures SplitOn(Join(parts, [sep]), sep) == parts
  {
    if |parts| == 1 {
      SplitOnNoSeparator(parts[0], sep);
    } else {
      SplitOnJoin(parts[1..], sep);
      SplitOnAfterSegment(parts[0], Join(parts[1..], [sep]), sep);
      assert [parts[0]] + parts[1..] == parts;
    }
  }

  /** Joining the segments of a split with the separator gives back the text: with `SplitOnJoin`,
      the two directions of the Split/Join round trip. */
  lemma {:induction false} SplitOnJoinsBack(s: string, sep: char)
    ensures Join(SplitOn(s, sep), [sep]) == s
  {
    if |s| > 0 {
      var rest := SplitOn(s[1..], sep);
      SplitOnJoinsBack(s[1..], sep);
      assert [s[0]] + s[1..] == s;
      if s[0] == sep {
        assert ([""] + rest)[1..] == rest;
      } else if |rest| > 1 {
        var parts := [[s[0]] + rest[0]] + rest[1..];
        assert parts[1..] == rest[1..];
        assert Join(rest, [sep]) == rest[0] + [sep] + Join(rest[1..], [sep]);
        assert Join(parts, [sep]) == [s[0]] + rest[0] + [sep] + Join(rest[1..], [sep]);
      }
    }
  }

  predicate IsDigit(c: char)
  {
    '0' <= c <= '9'
  }

  predicate AllDigits(s: string)
  {
    forall i :: 0 <= i < |s| ==> IsDigit(s[i])
  }

  function DigitChar(d: nat): (c: char)
    requires d < 10
    ensures IsDigit(c)
  {
    ('0' as int + d) as char
  }

  function DigitValue(c: char): nat
    requires IsDigit(c)
  {
    c as int - '0' as int
  }

  /** Base-10 text of a natural number, without leading zeros. */
  function NatToDecimal(n: nat): (s: string)
    ensures |s| >= 1 && AllDigits(s)
    ensures s[0] == '0' <==> n == 0
  {
    if n < 10 then [DigitChar(n)]
    else NatToDecimal(n / 10) + [DigitChar(n % 10)]
  }

  /** `strconv.FormatInt(n, 10)` and `strconv.Itoa(n)`: a minus sign for negatives, then the digits. */
  function IntToDecimal(n: int): (s: string)
    ensures |s| >= 1
    ensures s[0] == '-' <==> n < 0
  {
    if n < 0 then "-" + NatToDecimal(-n) else NatToDecimal(n)
  }

  /** The value of a string of decimal digits (the reading direction of `NatToDecimal`). */
  function DecimalValue(s: string): nat
    requires AllDigits(s)
  {
    if |s| == 0 then 0
    else DecimalValue(s[..|s| - 1]) * 10 + DigitValue(s[|s| - 1])
  }

  /** The value of an optionally signed decimal string. */
  function SignedDecimalValue(s: string): int
    requires |s| >= 1
    requires s[0] == '-' ==> AllDigits(s[1..])
    requires s[0] != '-' ==> AllDigits(s)
  {
    if s[0] == '-' then 0 - (DecimalValue(s[1..]) as int) else DecimalValue(s)
  }

  /** Reading back the rendered digits gives the number that was rendered. */
  lemma {:induction false} NatToDecimalRoundTrip(n: nat)
    ensures DecimalValue(NatToDecimal(n)) == n
  {
    var s := NatToDecimal(n);
    if n >= 10 {
      var prefix := NatToDecimal(n / 10);
      NatToDecimalRoundTrip(n / 10);
      assert s[..|s| - 1] == prefix;
    }
  }

  /** Decimal rendering of any integer is injective: its text determines the value. */
  lemma IntToDecimalRoundTrip(n: int)
    ensures var s := IntToDecimal(n);
      (s[0] == '-' ==> AllDigits(s[1..])) && (s[0] != '-' ==> AllDigits(s)) &&
      SignedDecimalValue(s) == n
  {
    if n < 0 {
      NatToDecimalRoundTrip(-n);
      assert IntToDecimal(n)[1..] == NatToDecimal(-n);
    } else {
      NatToDecimalRoundTrip(n);
    }
  }
}
