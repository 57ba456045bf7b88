/** Java's `int` and its decimal text form: `String.valueOf(int)` on save and
    `Integer.parseInt` on load, plus the comma-separated field lists that the
    persisted dates use (`String.split(",")`). */
module Decimal {
  import opened Wrappers
  import Seqs

  /** Java's 32-bit `int`. */
  type Int32 = x: int | -0x8000_0000 <= x < 0x8000_0000

  predicate IsDigit(c: char) { '0' <= c <= '9' }

  predicate AllDigits(s: string) {
    forall i :: 0 <= i < |s| ==> IsDigit(s[i])
  }

  function DigitChar(d: nat): (c: char)
    requires d < 10
    ensures IsDigit(c)
  {
    (48 + d) as char
  }

  function DigitValue(c: char): (d: nat)
    requires IsDigit(c)
    ensures d < 10
  {
    c as int - 48
  }

  /** Decimal digits of `n`, most significant first, with no leading zero. */
  function NatToDigits(n: nat): (s: string)
    ensures |s| >= 1 && AllDigits(s)
  {
    if n < 10 then [DigitChar(n)] else NatToDigits(n / 10) + [DigitChar(n % 10)]
  }

  /** The value of a string of decimal digits read left to right. */
  function DigitsValue(s: string): nat
    requires AllDigits(s)
  {
    if |s| == 0 then 0 else DigitsValue(s[..|s| - 1]) * 10 + DigitValue(s[|s| - 1])
  }

  /** `String.valueOf(int)`: an optional minus sign and the digits. */
  function IntToString(n: int): (s: string)
    ensures ',' !in s
    ensures |s| >= 1
  {
    if n < 0 then "-" + NatToDigits(-n) else NatToDigits(n)
  }

  /** `Integer.parseInt`: an optional sign followed by at least one digit,
      whose value fits in an `int`; anything else is a
      `NumberFormatException`, modelled as `None`. */
  function ParseInt(s: string): (r: Option<Int32>)
    ensures r.Some? ==> |s| >= 1
    ensures r.Some? && s[0] != '-' && s[0] != '+' ==> AllDigits(s) && r.value == DigitsValue(s)
  {
    if |s| == 0 then None
    else if s[0] == '-' || s[0] == '+' then
      var body := s[1..];
      if |body| == 0 || !AllDigits(body) then None
      else
        var v: int := if s[0] == '-' then 0 - DigitsValue(body) as int else DigitsValue(body);
        if -0x8000_0000 <= v < 0x8000_0000 then Some(v) else None
    else if !AllDigits(s) then None
    else
      var v := DigitsValue(s);
      if v < 0x8000_0000 then Some(v) else None
  }

  lemma {:induction false} DigitsRoundTrip(n: nat)
    ensures DigitsValue(NatToDigits(n)) == n
  {
    if n >= 10 {
      var a := NatToDigits(n / 10);
      var s := a + [DigitChar(n % 10)];
      assert s[..|s| - 1] == a;
      DigitsRoundTrip(n / 10);
    }
  }

  /** Parsing the text `String.valueOf` writes gives back the same `int`. */
  lemma {:induction false} IntRoundTrip(n: Int32)
    ensures ParseInt(IntToString(n)) == Some(n)
  {
    if n < 0 {
      var d := NatToDigits(-(n as int));
      var s := "-" + d;
      assert IntToString(n) == s;
      assert s[0] == '-' && s[1..] == d;
      DigitsRoundTrip(-(n as int));
      assert ParseInt(s) == Some(n);
    } else {
      var d := NatToDigits(n);
      assert IntToString(n) == d;
      assert IsDigit(d[0]);
      DigitsRoundTrip(n);
    }
  }

  /** `s.split(",")` without the removal of trailing empty fields; a decoder
      that parses each field it reads as an `int` fails on an empty field
      either way, so the difference is never visible. */
  function Split(s: string): (r: seq<string>)
    ensures |r| >= 1
    decreases |s|
  {
    match Seqs.FirstIndex(s, c => c == ',')
    case None => [s]
    case Some(i) => [s[..i]] + Split(s[i + 1..])
  }

  /** Fields joined with ',' between them. */
  function Join(fields: seq<string>): string
    requires |fields| >= 1
  {
    if |fields| == 1 then fields[0] else fields[0] + "," + Join(fields[1..])
  }

  lemma SplitHead(x: string, rest: string)
    requires ',' !in x
    ensures Split(x + "," + rest) == [x] + Split(rest)
  {
    var s := x + "," + rest;
    assert s[|x|] == ',';
    assert forall j :: 0 <= j < |x| ==> s[j] == x[j];
    assert s[..|x|] == x;
    assert s[|x| + 1..] == rest;
  }

  /** Splitting joined comma-free fields gives back the fields. */
  lemma {:induction false} SplitJoin(fields: seq<string>)
    requires |fields| >= 1
    requires forall i :: 0 <= i < |fields| ==> ',' !in fields[i]
    ensures Split(Join(fields)) == fields
    decreases |fields|
  {
    if |fields| == 1 {
      assert Seqs.FirstIndex(fields[0], c => c == ',').None?;
    } else {
      SplitJoin(fields[1..]);
      SplitHead(fields[0], Join(fields[1..]));
    }
  }
}
