/** The few Kotlin string operations the bot relies on, written out:
    `split` on a one-character delimiter, `joinToString`, `String.toInt`
    (32-bit, optional sign) and the decimal rendering of an `Int`. */
module Text {
  import opened Wrappers

  /** Range of a Kotlin `Int`. */
  const IntMin: int := -2147483648
  const IntMax: int := 2147483647

  /** Kotlin `Int` arithmetic wraps around modulo 2^32. */
  function Wrap32(x: int): (r: int)
    ensures IntMin <= r <= IntMax
    ensures (r - x) % 0x1_0000_0000 == 0
    ensures IntMin <= x <= IntMax ==> r == x
  {
    (x - IntMin) % 0x1_0000_0000 + IntMin
  }

  /** Kotlin's `x % 60`: the remainder truncates toward zero, so it takes the
      sign of the dividend (Dafny's `%` never goes negative). */
  function Rem60(x: int): (r: int)
    ensures x >= 0 ==> 0 <= r < 60 && r == x % 60
    ensures x < 0 ==> -60 < r <= 0 && (r - x) % 60 == 0
  {
    if x >= 0 then x % 60 else -((-x) % 60)
  }

  predicate IsDigit(c: char) { '0' <= c <= '9' }

  predicate AllDigits(s: string) { forall i :: 0 <= i < |s| ==> IsDigit(s[i]) }

  function DigitValue(c: char): (d: nat)
    requires IsDigit(c)
    ensures d < 10
  {
    c as int - '0' as int
  }

  function DigitChar(d: nat): (c: char)
    requires d < 10
    ensures IsDigit(c) && DigitValue(c) == d
  {
    ('0' as int + d) as char
  }

  /** Kotlin `s.split(sep)` for a one-character delimiter: the pieces between
      delimiters, empty pieces included, so there is always at least one. */
  function Split(s: string, sep: char): (parts: seq<string>)
    ensures |parts| >= 1
    ensures forall i :: 0 <= i < |parts| ==> sep !in parts[i]
    decreases |s|
  {
    if |s| == 0 then [""]
    else
      var rest := Split(s[1..], sep);
      if s[0] == sep then [""] + rest
      else [[s[0]] + rest[0]] + rest[1..]
  }

  /** Kotlin `parts.joinToString(sep)`. */
  function Join(parts: seq<string>, sep: char): string
  {
    if |parts| == 0 then ""
    else if |parts| == 1 then parts[0]
    else parts[0] + [sep] + Join(parts[1..], sep)
  }

  lemma {:induction false} SplitNoSeparator(a: string, sep: char)
    requires sep !in a
    ensures Split(a, sep) == [a]
    decreases |a|
  {
    if |a| > 0 {
      SplitNoSeparator(a[1..], sep);
      assert [a[0]] + a[1..] == a;
    }
  }

  lemma {:induction false} SplitAfterPiece(a: string, sep: char, rest: string)
    requires sep !in a
    ensures Split(a + [sep] + rest, sep) == [a] + Split(rest, sep)
    decreases |a|
  {
    var s := a + [sep] + rest;
    if |a| == 0 {
      assert s[1..] == rest;
    } else {
      assert s[1..] == a[1..] + [sep] + rest;
      SplitAfterPiece(a[1..], sep, rest);
      assert [a[0]] + a[1..] == a;
    }
  }

  /** Splitting a joined list gives the list back when no piece holds the
      delimiter. */
  lemma {:induction false} SplitJoin(parts: seq<string>, sep: char)
    requires |parts| >= 1
    requires forall i :: 0 <= i < |parts| ==> sep !in parts[i]
    ensures Split(Join(parts, sep), sep) == parts
    decreases |parts|
  {
    if |parts| == 1 {
      SplitNoSeparator(parts[0], sep);
    } else {
      SplitJoin(parts[1..], sep);
      SplitAfterPiece(parts[0], sep, Join(parts[1..], sep));
      assert [parts[0]] + parts[1..] == parts;
    }
  }

  /** Value of a string of decimal digits (the empty string counts as 0). */
  function DigitsValue(s: string): nat
    requires AllDigits(s)
  {
    if |s| == 0 then 0 else DigitsValue(s[..|s| - 1]) * 10 + DigitValue(s[|s| - 1])
  }

  /** A decimal numeral: an optional sign followed by at least one digit. */
  predicate Numeral(s: string)
  {
    |s| >= 1 && (AllDigits(s) || ((s[0] == '-' || s[0] == '+') && |s| >= 2 && AllDigits(s[1..])))
  }

  /** The value a numeral denotes: its digits, negated after a '-'. */
  function NumeralValue(s: string): int
    requires Numeral(s)
  {
    if s[0] == '-' then -(DigitsValue(s[1..]) as int)
    else if s[0] == '+' then DigitsValue(s[1..])
    else DigitsValue(s)
  }

  /** Kotlin `String.toInt()`: an optional '+' or '-' and at least one decimal
      digit, within the range of `Int`; anything else throws, here `None`. */
  function ParseInt(s: string): (r: Option<int>)
    ensures r.Some? ==> IntMin <= r.value <= IntMax
    ensures r.Some? && '-' !in s ==> r.value >= 0
  {
    if |s| == 0 then None
    else if s[0] == '-' || s[0] == '+' then
      if |s| == 1 || !AllDigits(s[1..]) then None
      else
        var magnitude: int := DigitsValue(s[1..]);
        var v := if s[0] == '-' then -magnitude else magnitude;
        if IntMin <= v <= IntMax then Some(v) else None
    else if !AllDigits(s) then None
    else if DigitsValue(s) <= IntMax then Some(DigitsValue(s)) else None
  }

  /** `toInt` reads exactly the numerals whose value is an `Int`, and reads
      each as its value. */
  lemma ParseIntReadsNumerals(s: string)
    ensures ParseInt(s).Some? <==> Numeral(s) && IntMin <= NumeralValue(s) <= IntMax
    ensures ParseInt(s).Some? ==> ParseInt(s).value == NumeralValue(s)
  {
  }

  lemma {:induction false} DigitsValueLeadingZero(s: string)
    requires AllDigits(s)
    ensures AllDigits("0" + s) && DigitsValue("0" + s) == DigitsValue(s)
    decreases |s|
  {
    var z := "0" + s;
    if |s| > 0 {
      DigitsValueLeadingZero(s[..|s| - 1]);
      assert z[..|z| - 1] == "0" + s[..|s| - 1];
    } else {
      assert z[..|z| - 1] == "";
    }
  }

  /** Leading zeros do not change the value read: "007" reads as 7. */
  lemma ParseLeadingZero(s: string)
    requires |s| >= 1 && AllDigits(s)
    ensures ParseInt("0" + s) == ParseInt(s)
  {
    DigitsValueLeadingZero(s);
  }

  /** A '+' in front does not change the value read: "+7" reads as 7. */
  lemma ParsePlusSign(s: string)
    requires |s| >= 1 && AllDigits(s)
    ensures ParseInt("+" + s) == ParseInt(s)
  {
    assert ("+" + s)[1..] == s;
  }

  /** A '-' in front negates the value read: "-3" reads as -3, and
      "-2147483648" reads although "2147483648" does not. */
  lemma ParseMinusSign(s: string)
    requires |s| >= 1 && AllDigits(s)
    ensures ParseInt("-" + s) == if DigitsValue(s) <= -IntMin then Some(-(DigitsValue(s) as int)) else None
  {
    var m := "-" + s;
    assert m[0] == '-' && |m| >= 2 && m[1..] == s;
    var magnitude: int := DigitsValue(s);
    assert ParseInt(m) == if IntMin <= -magnitude <= IntMax then Some(-magnitude) else None;
  }

  /** Decimal rendering of a non-negative number, most significant digit first. */
  function NatToString(n: nat): (s: string)
    ensures |s| >= 1 && AllDigits(s)
    ensures n < 10 <==> |s| == 1
    ensures 10 <= n < 100 ==> |s| == 2
  {
    if n < 10 then [DigitChar(n)] else NatToString(n / 10) + [DigitChar(n % 10)]
  }

  /** Kotlin's `Int.toString()`. */
  function IntToString(n: int): string
  {
    if n < 0 then "-" + NatToString(-n) else NatToString(n)
  }

  /** `if (n < 10) "0$n" else "$n"` for a number below 100: two digits. */
  function Pad2(n: nat): (s: string)
    requires n < 100
    ensures |s| == 2 && AllDigits(s)
  {
    if n < 10 then "0" + NatToString(n) else NatToString(n)
  }

  lemma {:induction false} DigitsValueOfNatToString(n: nat)
    ensures DigitsValue(NatToString(n)) == n
  {
    if n >= 10 {
      DigitsValueOfNatToString(n / 10);
      var s := NatToString(n);
      assert s[..|s| - 1] == NatToString(n / 10);
    }
  }

  /** `toInt` reads back what `toString` wrote, for every `Int` at or above 0. */
  lemma ParseNatToString(n: nat)
    requires n <= IntMax
    ensures ParseInt(NatToString(n)) == Some(n)
  {
    DigitsValueOfNatToString(n);
  }

  lemma ParsePad2(n: nat)
    requires n < 100
    ensures ParseInt(Pad2(n)) == Some(n)
  {
    var s := Pad2(n);
    DigitsValueOfNatToString(n);
    if n < 10 {
      assert s[..1] == "0";
      assert DigitsValue(s[..1]) == 0;
    }
  }
}
