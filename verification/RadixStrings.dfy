/** Numbers as strings of digits in base 10 or 16. */
module RadixStrings {
  import opened Arith
  import opened Positional

  function DigitChar(d: nat): char
    requires d < 16
  {
    "0123456789abcdef"[d]
  }

  /** The digit a character stands for, or -1. */
  function CharDigit(c: char, base: nat): int {
    if '0' <= c <= '9' then c as int - '0' as int
    else if base == 16 && 'a' <= c <= 'f' then c as int - 'a' as int + 10
    else if base == 16 && 'A' <= c <= 'F' then c as int - 'A' as int + 10
    else -1
  }

  /** The value of a string, any character that is no digit being skipped. */
  function StringValue(s: string, base: nat): nat {
    if s == [] then 0
    else
      var d := CharDigit(s[|s| - 1], base);
      if d < 0 then StringValue(s[..|s| - 1], base) else StringValue(s[..|s| - 1], base) * base + d
  }

  /** The digits of a number without leading zeros. */
  function DigitsOf(x: nat, base: nat): seq<nat>
    requires base >= 2
  {
    if x == 0 then [] else DigitsOf(x / base, base) + [x % base]
  }

  function Chars(ds: seq<nat>): string
    requires Below(ds, 16)
  {
    seq(|ds|, i requires 0 <= i < |ds| => DigitChar(ds[i]))
  }
  lemma NextDigits(x: nat, base: nat)
    requires base >= 2 && x > 0
    ensures DigitsOf(x, base) == DigitsOf(x / base, base) + [x % base]
    ensures 0 <= x / base < x && 0 <= x % base < base && x == x / base * base + x % base
    ensures x / base == 0 ==> DigitsOf(x / base, base) == []
  {
    Shrinks(x, base);
  }

  lemma Shrinks(x: nat, base: nat)
    requires base >= 2 && x > 0
    ensures 0 <= x / base < x && 0 <= x % base < base && x == x / base * base + x % base
  {
    var q := x / base;
    assert x == q * base + x % base;
    MulLe(2, base, q);
  }

  /** One more digit at the end. */
  lemma FactsNext(ds: seq<nat>, q: nat, r: nat, base: nat)
    requires Below(ds, base) && BVal(ds, base) == q && r < base
    requires if q == 0 then ds == [] else ds != [] && ds[0] != 0
    ensures Below(ds + [r], base) && BVal(ds + [r], base) == q * base + r
    ensures q * base + r > 0 ==> (ds + [r])[0] != 0
  {
    BAppend(ds, r, base);
  }

  lemma {:induction false} DigitsOfFacts(x: nat, base: nat)
    requires base >= 2
    ensures Below(DigitsOf(x, base), base) && BVal(DigitsOf(x, base), base) == x
    ensures x > 0 ==> DigitsOf(x, base) != [] && DigitsOf(x, base)[0] != 0
  {
    if x == 0 {
      BEmpty(base);
    } else {
      hide *;
      NextDigits(x, base);
      var q, r := x / base, x % base;
      DigitsOfFacts(q, base);
      FactsNext(DigitsOf(q, base), q, r, base);
    }
  }

  /** There is only one way to write a number without leading zeros. */
  lemma {:induction false} DigitsUnique(ds: seq<nat>, base: nat)
    requires base >= 2 && Below(ds, base) && (ds == [] || ds[0] != 0)
    ensures ds == DigitsOf(BVal(ds, base), base)
  {
    if ds != [] {
      var k := |ds| - 1;
      DigitsUnique(ds[..k], base);
      DivModUnique(BVal(ds, base), base, BVal(ds[..k], base), ds[k]);
      if BVal(ds, base) == 0 {
        BLength(ds, base);
        PowPos(base, k);
      }
      assert ds == ds[..k] + [ds[k]];
    }
  }

  /** What a conversion to a string writes. */
  function Text(x: nat, base: nat): string
    requires base == 10 || base == 16
  {
    if x == 0 then "0" else DigitsOfFacts(x, base); Chars(DigitsOf(x, base))
  }

  lemma CharOfDigit(d: nat, base: nat)
    requires d < base && (base == 10 || base == 16)
    ensures CharDigit(DigitChar(d), base) == d
  {}

  lemma {:induction false} CharsValue(ds: seq<nat>, base: nat)
    requires (base == 10 || base == 16) && Below(ds, base)
    ensures StringValue(Chars(ds), base) == BVal(ds, base)
  {
    if ds != [] {
      var k := |ds| - 1;
      CharsValue(ds[..k], base);
      CharOfDigit(ds[k], base);
      assert Chars(ds)[..k] == Chars(ds[..k]);
    }
  }

  /** The digits of a number, each by itself. */
  lemma {:induction false} DigitAt(x: nat, base: nat, k: nat, p: nat)
    requires base >= 2 && k < |DigitsOf(x, base)| && p == Pow(base, |DigitsOf(x, base)| - 1 - k)
    ensures p > 0 && DigitsOf(x, base)[k] == x / p % base
  {
    var n := |DigitsOf(x, base)| - 1;
    if x > 0 {
      NextDigits(x, base);
      hide *;
      BEmpty(base);
      if k < n {
        var q := Pow(base, n - 1 - k);
        DigitAt(x / base, base, k, q);
        PowPos(base, n - 1 - k);
        PowNext(base, n - 1 - k);
        DivDiv(x, base, q);
      }
    }
  }

  lemma PowNext(b: nat, n: nat)
    ensures Pow(b, n + 1) == b * Pow(b, n)
  {}

  lemma TextChar(x: nat, base: nat, k: nat)
    requires (base == 10 || base == 16) && x > 0 && k < |Text(x, base)|
    ensures |Text(x, base)| == |DigitsOf(x, base)| && DigitsOf(x, base)[k] < 16
    ensures Text(x, base)[k] == DigitChar(DigitsOf(x, base)[k])
  {
    hide DigitsOf, DigitChar, BVal;
    DigitsOfFacts(x, base);
  }

  lemma CodeOfDigit(d: nat)
    requires d < 16
    ensures DigitChar(d) as int == if d < 10 then 48 + d else 97 + (d - 10)
  {}

  /** The characters of a number by their codes: '0' is 48 and 'a' is 97. */
  lemma TextAt(x: nat, base: nat, k: nat, p: nat)
    requires (base == 10 || base == 16) && k < |Text(x, base)| && p == Pow(base, |Text(x, base)| - 1 - k)
    ensures p > 0
    ensures var d := x / p % base; Text(x, base)[k] as int == if d < 10 then 48 + d else 97 + (d - 10)
  {
    if x > 0 {
      hide *;
      TextChar(x, base, k);
      CodeOfDigit(DigitsOf(x, base)[k]);
      DigitAt(x, base, k, p);
    } else {
      BEmpty(base);
    }
  }

  /** How a character at the end of a string changes its value, by its code; all but digits of the base are skipped. */
  lemma ReadAt(s: string, c: char, base: nat)
    requires base == 10 || base == 16
    ensures StringValue("", base) == 0
    ensures var v, code := StringValue(s, base), c as int;
      StringValue(s + [c], base) ==
      if 48 <= code <= 57 then v * base + (code - 48)
      else if base == 16 && 97 <= code <= 102 then v * 16 + (code - 97 + 10)
      else if base == 16 && 65 <= code <= 70 then v * 16 + (code - 65 + 10)
      else v
  {
    assert (s + [c])[..|s|] == s;
  }

  lemma TextDigits(x: nat, base: nat)
    requires (base == 10 || base == 16) && x > 0
    ensures |Text(x, base)| == |DigitsOf(x, base)|
    ensures forall i | 0 <= i < |Text(x, base)| :: CharDigit(Text(x, base)[i], base) == DigitsOf(x, base)[i]
  {
    hide CharDigit, DigitChar, DigitsOf, BVal;
    DigitsOfFacts(x, base);
    forall i | 0 <= i < |Text(x, base)|
      ensures CharDigit(Text(x, base)[i], base) == DigitsOf(x, base)[i]
    {
      CharOfDigit(DigitsOf(x, base)[i], base);
    }
  }

  /** Reading back what was written; no leading zero is written, and nothing but digits of the base. */
  lemma TextValue(x: nat, base: nat)
    requires base == 10 || base == 16
    ensures StringValue(Text(x, base), base) == x
    ensures x > 0 ==> Text(x, base) != [] && CharDigit(Text(x, base)[0], base) != 0
    ensures forall i | 0 <= i < |Text(x, base)| :: 0 <= CharDigit(Text(x, base)[i], base) < base
    ensures x > 0 ==> Pow(base, |Text(x, base)| - 1) <= x < Pow(base, |Text(x, base)|)
  {
    if x == 0 {
      assert "0"[..0] == "";
    } else {
      hide CharDigit, DigitChar, DigitsOf, BVal, StringValue, Pow;
      DigitsOfFacts(x, base);
      TextDigits(x, base);
      CharsValue(DigitsOf(x, base), base);
      BLength(DigitsOf(x, base), base);
    }
  }

  /** The string with its hexadecimal letters in upper case. */
  function UpperCase(s: string): (u: string)
    ensures |u| == |s|
  {
    seq(|s|, i requires 0 <= i < |s| => if 'a' <= s[i] <= 'f' then s[i] - 'a' + 'A' else s[i])
  }

  /** Letters are read in either case. */
  lemma {:induction false} CaseDoesNotMatter(s: string)
    ensures StringValue(UpperCase(s), 16) == StringValue(s, 16)
  {
    if s != [] {
      var k := |s| - 1;
      CaseDoesNotMatter(s[..k]);
      assert UpperCase(s)[..k] == UpperCase(s[..k]);
      assert CharDigit(UpperCase(s)[k], 16) == CharDigit(s[k], 16);
    }
  }

  lemma {:induction false} StringBound(s: string, base: nat)
    requires base == 10 || base == 16
    ensures StringValue(s, base) < Pow(base, |s|)
  {
    if s != [] {
      var k := |s| - 1;
      StringBound(s[..k], base);
      var d := CharDigit(s[k], base);
      RoomBelow(StringValue(s[..k], base), if d < 0 then 0 else d, base, Pow(base, k));
      if d < 0 { MulLe(1, base, StringValue(s[..k], base)); }
    }
  }

  /** `n` nines. */
  function Nines(n: nat): string {
    seq(n, i => '9')
  }

  lemma {:induction false} NinesValue(n: nat)
    ensures StringValue(Nines(n), 10) == Pow(10, n) - 1
  {
    if n > 0 {
      NinesValue(n - 1);
      assert Nines(n)[..n - 1] == Nines(n - 1);
    }
  }
}
