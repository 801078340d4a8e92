/**
 * String helpers the export pipeline relies on, as JavaScript defines them:
 * the decimal rendering of a number (`String(n)`, `n.toString()`),
 * `String.prototype.padStart` with a one-character fill, and the second
 * field of `s.split(sep)`.
 */
module Text {
  import opened Wrappers

  predicate IsDigit(c: char) {
    '0' <= c <= '9'
  }

  predicate AllDigits(s: string) {
    forall i :: 0 <= i < |s| ==> IsDigit(s[i])
  }

  function DigitChar(d: nat): (c: char)
    requires d < 10
    ensures IsDigit(c)
  {
    ('0' as int + d) as char
  }

  function DigitValue(c: char): (d: nat)
    requires IsDigit(c)
    ensures d < 10 && DigitChar(d) == c
  {
    c as int - '0' as int
  }

  /** The number a string of decimal digits denotes (leading zeros allowed). */
  function DecimalValue(s: string): nat
    requires AllDigits(s)
  {
    if s == [] then 0 else DecimalValue(s[..|s| - 1]) * 10 + DigitValue(s[|s| - 1])
  }

  /** `String(n)` for a non-negative integer: its shortest decimal form. */
  function NatToString(n: nat): (s: string)
    ensures 1 <= |s| && AllDigits(s)
    ensures |s| > 1 ==> s[0] != '0'
  {
    if n < 10 then [DigitChar(n)] else NatToString(n / 10) + [DigitChar(n % 10)]
  }

  /**
   * `String(i)` for any integer: a minus sign exactly when `i` is negative,
   * then the shortest digits that read back as the magnitude of `i`.
   */
  function IntToString(i: int): (s: string)
    ensures 1 <= |s| && (s[0] == '-' <==> i < 0)
    ensures i >= 0 ==> AllDigits(s) && DecimalValue(s) == i && (|s| > 1 ==> s[0] != '0')
    ensures i < 0 ==> 2 <= |s| && AllDigits(s[1..]) && DecimalValue(s[1..]) == -i && (|s| > 2 ==> s[1] != '0')
  {
    var m: nat := if i < 0 then -i else i;
    NatToStringValue(m);
    if i < 0 then
      var s := "-" + NatToString(m);
      assert s[1..] == NatToString(m);
      s
    else NatToString(m)
  }

  function Repeat(c: char, n: nat): (s: string)
    ensures |s| == n && forall i :: 0 <= i < n ==> s[i] == c
  {
    if n == 0 then [] else Repeat(c, n - 1) + [c]
  }

  /**
   * `s.padStart(width, fill)`: fill characters are put in front until the
   * string is `width` long; a string already that long is returned as is.
   */
  function PadStart(s: string, width: nat, fill: char): (r: string)
    ensures |r| == if |s| >= width then |s| else width
    ensures r[|r| - |s|..] == s
    ensures forall i :: 0 <= i < |r| - |s| ==> r[i] == fill
  {
    if |s| >= width then s else Repeat(fill, width - |s|) + s
  }

  lemma {:induction false} NatToStringValue(n: nat)
    ensures DecimalValue(NatToString(n)) == n
  {
    if n >= 10 {
      var s := NatToString(n);
      assert s[..|s| - 1] == NatToString(n / 10);
      NatToStringValue(n / 10);
    }
  }

  /** Leading zeros do not change the value of a digit string. */
  lemma {:induction false} LeadingZerosValue(m: nat, s: string)
    requires AllDigits(s)
    ensures AllDigits(Repeat('0', m) + s)
    ensures DecimalValue(Repeat('0', m) + s) == DecimalValue(s)
  {
    var z := Repeat('0', m);
    if s == [] {
      assert z + s == z;
      ZerosValue(m);
    } else {
      var init := s[..|s| - 1];
      LeadingZerosValue(m, init);
      assert (z + s)[..|z + s| - 1] == z + init;
    }
  }

  lemma {:induction false} ZerosValue(m: nat)
    ensures AllDigits(Repeat('0', m)) && DecimalValue(Repeat('0', m)) == 0
  {
    if m > 0 {
      ZerosValue(m - 1);
      assert Repeat('0', m)[..m - 1] == Repeat('0', m - 1);
    }
  }

  /** Padding the decimal form of `n` with zeros keeps a string that still denotes `n`. */
  lemma ZeroPaddedValue(n: nat, width: nat)
    ensures AllDigits(PadStart(NatToString(n), width, '0'))
    ensures DecimalValue(PadStart(NatToString(n), width, '0')) == n
  {
    var s := NatToString(n);
    NatToStringValue(n);
    if |s| < width {
      LeadingZerosValue(width - |s|, s);
    }
  }

  lemma {:induction false} NatToStringLength(n: nat, digits: nat)
    requires 1 <= digits
    requires n < Pow10(digits)
    requires digits == 1 || Pow10(digits - 1) <= n
    ensures |NatToString(n)| == digits
  {
    if digits > 1 {
      NatToStringLength(n / 10, digits - 1);
    }
  }

  function Pow10(k: nat): (p: nat)
    ensures p >= 1
  {
    if k == 0 then 1 else 10 * Pow10(k - 1)
  }

  /** The index of the first occurrence of `c` in `s`, if any. */
  function IndexOf(s: string, c: char): (r: Option<nat>)
    ensures r.None? <==> c !in s
    ensures r.Some? ==> r.value < |s| && s[r.value] == c && c !in s[..r.value]
  {
    if s == [] then None
    else if s[0] == c then Some(0)
    else
      var t := IndexOf(s[1..], c);
      assert s[1..] == s[..][1..];
      if t.None? then None
      else
        assert s[..t.value + 1] == [s[0]] + s[1..][..t.value];
        Some(t.value + 1)
  }

  /**
   * `s.split(sep)[1]`: the text between the first and the second `sep` (or
   * the end of `s`); `undefined` when `s` holds no `sep` at all.
   */
  function SecondField(s: string, sep: char): (r: Option<string>)
    ensures r.Some? <==> sep in s
  {
    match IndexOf(s, sep)
    case None => None
    case Some(i) =>
      var rest := s[i + 1..];
      match IndexOf(rest, sep)
      case None => Some(rest)
      case Some(j) => Some(rest[..j])
  }

  /** Splitting `a + sep + b` where neither part holds `sep` gives back `b` as the second field. */
  lemma SecondFieldOfJoin(a: string, sep: char, b: string)
    requires sep !in a && sep !in b
    ensures SecondField(a + [sep] + b, sep) == Some(b)
  {
    var s := a + [sep] + b;
    assert s[|a|] == sep;
    assert s[..|a|] == a;
    var i := IndexOf(s, sep);
    assert i == Some(|a|);
    assert s[|a| + 1..] == b;
  }
}
