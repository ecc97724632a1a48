/** The host's whitespace class and its integer reading and writing: `parseInt(s, 10)`,
    the integer part of `parseFloat`, and the decimal text of an integer. */
module Numerals {
  import opened Results

  /** The characters of the host's `\s` class, which are also those `trim` removes:
      the WhiteSpace and LineTerminator code points. */
  predicate IsSpace(c: char)
  {
    var k := c as int;
    k == 0x09 || k == 0x0A || k == 0x0B || k == 0x0C || k == 0x0D || k == 0x20
    || k == 0xA0 || k == 0x1680 || (0x2000 <= k <= 0x200A) || k == 0x2028 || k == 0x2029
    || k == 0x202F || k == 0x205F || k == 0x3000 || k == 0xFEFF
  }

  predicate IsDigit(c: char)
  {
    '0' <= c <= '9'
  }

  predicate AllDigits(s: string)
  {
    forall i :: 0 <= i < |s| ==> IsDigit(s[i])
  }

  function DigitChar(d: nat): char
    requires d < 10
  {
    "0123456789"[d]
  }

  function DigitValue(c: char): nat
  {
    if IsDigit(c) then (c as int) - ('0' as int) else 0
  }

  /** The number a run of decimal digits denotes, most significant digit first. */
  function DigitsValue(s: string): nat
  {
    if |s| == 0 then 0 else DigitsValue(s[..|s| - 1]) * 10 + DigitValue(s[|s| - 1])
  }

  /** Decimal text of a natural number, without leading zeros. */
  function NatToString(n: nat): string
  {
    if n < 10 then [DigitChar(n)] else NatToString(n / 10) + [DigitChar(n % 10)]
  }

  /** The host's text of an integer-valued number. */
  function IntToString(n: int): string
  {
    if n < 0 then "-" + NatToString(-n) else NatToString(n)
  }

  /** The longest prefix of `s` made of digits. */
  function DigitPrefix(s: string): string
  {
    if |s| > 0 && IsDigit(s[0]) then [s[0]] + DigitPrefix(s[1..]) else ""
  }

  /** `s` without its leading whitespace. */
  function SkipSpaces(s: string): string
  {
    if |s| > 0 && IsSpace(s[0]) then SkipSpaces(s[1..]) else s
  }

  /** `parseInt(s, 10)`: leading whitespace is skipped, then an optional sign, then the
      longest run of digits; `None` (the host's NaN) when that run is empty. The integer
      part of `parseFloat` is read by the same rule. */
  function LeadingInteger(s: string): Option<int>
  {
    var t := SkipSpaces(s);
    var signed := |t| > 0 && (t[0] == '+' || t[0] == '-');
    var digits := DigitPrefix(if signed then t[1..] else t);
    if digits == "" then None
    else
      var v: int := DigitsValue(digits);
      if signed && t[0] == '-' then Some(-v) else Some(v)
  }

  /** The decimal text of `n` is a non-empty run of digits without a leading zero that
      denotes `n`. */
  lemma {:induction false} NatToStringDigits(n: nat)
    ensures var r := NatToString(n);
            |r| > 0 && AllDigits(r) && DigitsValue(r) == n && (|r| > 1 ==> r[0] != '0')
    decreases n
  {
    var r := NatToString(n);
    if n < 10 {
      DigitCharValue(n);
    } else {
      NatToStringDigits(n / 10);
      DigitCharValue(n % 10);
      var front := NatToString(n / 10);
      assert r == front + [DigitChar(n % 10)];
      assert AllDigits(r) by {
        forall i | 0 <= i < |r|
          ensures IsDigit(r[i])
        {
          if i < |front| {
            assert r[i] == front[i];
          }
        }
      }
      assert DigitsValue(r) == n by {
        assert r[..|r| - 1] == front;
      }
      assert r[0] == front[0];
    }
  }

  lemma DigitCharValue(d: nat)
    requires d < 10
    ensures IsDigit(DigitChar(d)) && DigitValue(DigitChar(d)) == d && (d > 0 ==> DigitChar(d) != '0')
  {
  }

  lemma {:induction false} DigitPrefixOfDigits(s: string)
    requires AllDigits(s)
    ensures DigitPrefix(s) == s
    decreases |s|
  {
    if |s| > 0 {
      DigitPrefixOfDigits(s[1..]);
    }
  }

  lemma DigitIsNotSpace(c: char)
    requires IsDigit(c)
    ensures !IsSpace(c)
  {
  }

  /** Reading back the decimal text of a natural number gives that number. */
  lemma LeadingIntegerOfNatToString(n: nat)
    ensures LeadingInteger(NatToString(n)) == Some(n)
  {
    var d := NatToString(n);
    NatToStringDigits(n);
    DigitIsNotSpace(d[0]);
    assert SkipSpaces(d) == d;
    assert d[0] != '+' && d[0] != '-';
    DigitPrefixOfDigits(d);
  }

  /** Reading back the decimal text of any integer gives that integer. */
  lemma LeadingIntegerOfIntToString(n: int)
    ensures LeadingInteger(IntToString(n)) == Some(n)
  {
    if n < 0 {
      var d, t := NatToString(-n), IntToString(n);
      NatToStringDigits(-n);
      assert t[1..] == d by {
        assert t == "-" + d;
      }
      LeadingIntegerOfNegative(t);
    } else {
      LeadingIntegerOfNatToString(n);
    }
  }

  /** A minus sign before a run of digits reads as the negated value of the digits. */
  lemma LeadingIntegerOfNegative(t: string)
    requires |t| > 1 && t[0] == '-' && AllDigits(t[1..])
    ensures LeadingInteger(t) == Some(-(DigitsValue(t[1..]) as int))
  {
    assert SkipSpaces(t) == t by {
      assert !IsSpace(t[0]);
    }
    DigitPrefixOfDigits(t[1..]);
  }

  /** The text of an integer starts with a minus sign or a digit. */
  lemma IntToStringFirst(n: int)
    ensures var t := IntToString(n);
            |t| > 0 && (t[0] == '-' || IsDigit(t[0]))
  {
    NatToStringDigits(if n < 0 then -n else n);
  }

  /** The characters of an integer's text are digits, but for a leading minus sign. */
  lemma IntToStringChars(n: int)
    ensures var t := IntToString(n);
            forall i :: 0 <= i < |t| ==> IsDigit(t[i]) || (i == 0 && t[i] == '-')
  {
    NatToStringDigits(if n < 0 then -n else n);
  }

  /** Skipping whitespace drops a prefix made only of whitespace and stops at the first
      other character. */
  lemma {:induction false} SkipSpacesShape(s: string)
    ensures var r := SkipSpaces(s);
            |r| <= |s| && r == s[|s| - |r|..]
            && (forall i :: 0 <= i < |s| - |r| ==> IsSpace(s[i]))
            && (|r| > 0 ==> !IsSpace(r[0]))
    decreases |s|
  {
    if |s| > 0 && IsSpace(s[0]) {
      SkipSpacesShape(s[1..]);
      var r := SkipSpaces(s[1..]);
      assert s[1..][|s| - 1 - |r|..] == s[|s| - |r|..];
      forall i | 0 <= i < |s| - |r|
        ensures IsSpace(s[i])
      {
        if i > 0 {
          assert s[i] == s[1..][i - 1];
        }
      }
    }
  }
}
