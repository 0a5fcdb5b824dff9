/**
 * How many octets a decimal string needs, and how many decimal digits a string of octets
 * (BigDigits/bigdigits.c): the constants 0.41524 and 2.40824 against the logarithms they stand for.
 */
module DecimalLengths {
  import opened Arith
  import opened Digits

  /** uiceil(n * 2.40824): decimal digits for `n` octets. */
  function DigitsFor(n: nat): (r: nat)
    ensures 240824 * n <= 100000 * r < 240824 * n + 100000
  {
    (n * 240824 + 99999) / 100000
  }

  /** uiceil(n * 0.41524): octets for `n` decimal digits. */
  function OctetsFor(n: nat): (r: nat)
    ensures 41524 * n <= 100000 * r < 41524 * n + 100000
  {
    (n * 41524 + 99999) / 100000
  }

  /** 5^e is at least m * 2^s. */
  predicate AtLeast(e: nat, m: nat, s: nat) {
    Pow(5, e) >= m * Pow2(s)
  }

  /** Squaring, and multiplying by 5 if `f` is 1, with the result rounded down. */
  lemma Next(e: nat, m: nat, s: nat, f: nat, k: nat, p: nat, m': nat)
    requires AtLeast(e, m, s) && f <= 1 && p == Pow2(k)
    requires m * m * (if f == 1 then 5 else 1) >= m' * p
    ensures AtLeast(2 * e + f, m', 2 * s + k)
  {
    hide Pow;
    PowAdd(5, e, e);
    PowAdd(5, e + e, f);
    PowOne(5);
    PowAdd(2, s, s);
    PowAdd(2, s + s, k);
    var x, y := Pow(5, e), Pow2(s);
    Squares(x, m * y);
    assert (m * y) * (m * y) == m * m * (y * y);
    Scale(x * x, m * m, y * y, if f == 1 then 5 else 1, m', p);
  }

  lemma Squares(x: int, y: int)
    requires 0 <= y <= x
    ensures y * y <= x * x
  {
    MulLe(y, x, y);
    MulLe(y, x, x);
  }

  lemma Scale(x: int, m: int, y: int, c: int, m': int, p: int)
    requires x >= m * y && c >= 0 && m * c >= m' * p && y >= 0
    ensures x * c >= m' * (y * p)
  {
    MulLe(m * y, x, c);
    MulLe(m' * p, m * c, y);
    assert m * y * c == m * c * y;
    assert m' * p * y == m' * (y * p);
  }

  lemma TwoPowers()
    ensures Pow2(0) == 1 && Pow2(2) == 4 && Pow2(30) == 1073741824 && Pow2(31) == 2147483648
    ensures Pow2(32) == 4294967296 && Pow2(33) == 8589934592 && Pow2(16) == 65536
  {
    SixteenBits();
    PowAdd(2, 16, 14);
    PowAdd(2, 14, 2);
    PowAdd(2, 30, 1);
    PowAdd(2, 30, 2);
    PowAdd(2, 30, 3);
  }

  lemma Start()
    ensures AtLeast(1, 5, 0)
  {
    PowOne(5);
    TwoPowers();
  }

  /** 2^4205 < 5^1811. */
  lemma Five1811()
    ensures Pow(5, 1811) > Pow2(4205)
  {
    hide AtLeast, Pow, Pow2;
    TwoPowers();
    Start();
    Next(1, 5, 0, 1, 0, 1, 125);
    Next(3, 125, 0, 1, 0, 1, 78125);
    Next(7, 78125, 0, 0, 2, 4, 1525878906);
    Next(14, 1525878906, 2, 0, 31, 2147483648, 1084202172);
    Next(28, 1084202172, 35, 0, 30, 1073741824, 1094764424);
    Next(56, 1094764424, 100, 1, 32, 4294967296, 1395248277);
    Next(113, 1395248277, 232, 0, 30, 1073741824, 1813022191);
    Next(226, 1813022191, 494, 0, 31, 2147483648, 1530651685);
    Next(452, 1530651685, 1019, 1, 33, 8589934592, 1363744133);
    Next(905, 1363744133, 2071, 1, 33, 8589934592, 1082544948);
    Whole(1811, 1082544948, 4175, 4205);
  }

  /** 2^69897 < 5^30103. */
  lemma Five30103()
    ensures Pow(5, 30103) > Pow2(69897)
  {
    hide AtLeast, Pow, Pow2;
    TwoPowers();
    Start();
    Next(1, 5, 0, 1, 0, 1, 125);
    Next(3, 125, 0, 1, 0, 1, 78125);
    Next(7, 78125, 0, 0, 2, 4, 1525878906);
    Next(14, 1525878906, 2, 1, 33, 8589934592, 1355252715);
    Next(29, 1355252715, 37, 0, 30, 1073741824, 1710569412);
    Next(58, 1710569412, 104, 1, 33, 8589934592, 1703183931);
    Next(117, 1703183931, 241, 1, 33, 8589934592, 1688508493);
    Next(235, 1688508493, 515, 0, 31, 2147483648, 1327628703);
    Next(470, 1327628703, 1061, 0, 30, 1073741824, 1641547282);
    Next(940, 1641547282, 2152, 1, 33, 8589934592, 1568508729);
    Next(1881, 1568508729, 4337, 0, 31, 2147483648, 1145629041);
    Next(3762, 1145629041, 8705, 1, 32, 4294967296, 1527911400);
    Next(7525, 1527911400, 17442, 1, 33, 8589934592, 1358865554);
    Next(15051, 1358865554, 34917, 1, 33, 8589934592, 1074813535);
    Whole(30103, 1074813535, 69867, 69897);
  }

  lemma Whole(e: nat, m: nat, s: nat, t: nat)
    requires AtLeast(e, m, s) && t == s + 30 && m > 1073741824
    ensures Pow(5, e) > Pow2(t)
  {
    hide Pow;
    TwoPowers();
    PowAdd(2, s, 30);
    MulLt(1073741824, m, Pow2(s));
    assert m * Pow2(s) > 1073741824 * Pow2(s) == Pow2(t);
  }

  lemma Tens(n: nat)
    ensures Pow(10, n) == Pow(5, n) * Pow2(n) && Pow(256, n) == Pow2(8 * n)
  {
    PowMul(5, 2, n);
    PowPow(2, 8, n);
    PowAdd(2, 4, 4);
    assert Pow(2, 8) == 256;
  }

  /** The decimal digits provided for are always enough: no digit of the result is lost. */
  lemma EnoughDigits(n: nat)
    ensures Pow(10, DigitsFor(n)) >= Pow(256, n)
  {
    hide Pow;
    var l := DigitsFor(n);
    assert 100000 * l >= 240824 * n;
    TwelveThousandfold(l, n);
    if Pow(10, l) < Pow(256, n) {
      PowPos(10, l);
      PowBase(Pow(10, l), Pow(256, n), 12500);
    }
  }

  lemma TwelveThousandfold(l: nat, n: nat)
    requires l * 12500 >= n * 30103
    ensures Pow(Pow(10, l), 12500) >= Pow(Pow(256, n), 12500)
  {
    hide Pow;
    PowPow(10, l, 12500);
    PowPow(256, n, 12500);
    PowMono(10, n * 30103, l * 12500);
    PowPow(10, 30103, n);
    PowPow(256, 12500, n);
    TenBeatsTwo();
    PowPos(256, 12500);
    PowBase(Pow(256, 12500), Pow(10, 30103), n);
    assert n * 12500 == 12500 * n && 30103 * n == n * 30103;
  }

  /** 2^100000 has 30103 decimal digits. */
  lemma TenBeatsTwo()
    ensures Pow(10, 30103) > Pow(256, 12500)
  {
    hide Pow, Pow2;
    Five30103();
    Tens(30103);
    Tens(12500);
    Pow2Sum(69897, 30103);
    MulLt(Pow2(69897), Pow(5, 30103), Pow2(30103));
  }

  lemma Pow2Sum(m: nat, n: nat)
    ensures Pow2(m + n) == Pow2(m) * Pow2(n)
  {
    PowAdd(2, m, n);
  }

  /** The octets provided for are not always enough: for 1811 digits there are 752, and 10^1811 > 256^752. */
  lemma TooFewOctets()
    ensures OctetsFor(1811) == 752 && Pow(10, 1811) > Pow(256, 752)
  {
    hide Pow, Pow2;
    Five1811();
    Tens(1811);
    Tens(752);
    Pow2Sum(4205, 1811);
    MulLt(Pow2(4205), Pow(5, 1811), Pow2(1811));
  }

  /** 5^e is at most m * 2^s. */
  predicate AtMost(e: nat, m: nat, s: nat) {
    Pow(5, e) <= m * Pow2(s)
  }

  /** Squaring, and multiplying by 5 if `f` is 1, with the result rounded up. */
  lemma NextUp(e: nat, m: nat, s: nat, f: nat, k: nat, p: nat, m': nat)
    requires AtMost(e, m, s) && f <= 1 && p == Pow2(k)
    requires m * m * (if f == 1 then 5 else 1) <= m' * p
    ensures AtMost(2 * e + f, m', 2 * s + k)
  {
    hide Pow;
    PowAdd(5, e, e);
    PowAdd(5, e + e, f);
    PowOne(5);
    PowPos(5, e);
    Pow2Sum(s, s);
    Pow2Sum(s + s, k);
    var x, y := Pow(5, e), Pow2(s);
    Squares(m * y, x);
    assert (m * y) * (m * y) == m * m * (y * y);
    ScaleUp(x * x, m * m, y * y, if f == 1 then 5 else 1, m', p);
  }

  lemma ScaleUp(x: int, m: int, y: int, c: int, m': int, p: int)
    requires x <= m * y && c >= 0 && m * c <= m' * p && y >= 0
    ensures x * c <= m' * (y * p)
  {
    MulLe(x, m * y, c);
    MulLe(m * c, m' * p, y);
    assert m * y * c == m * c * y;
    assert m' * p * y == m' * (y * p);
  }

  lemma StartUp()
    ensures AtMost(1, 5, 0)
  {
    PowOne(5);
    TwoPowers();
  }

  /** 5^643 < 2^1493. */
  lemma Five643()
    ensures Pow(5, 643) < Pow2(1493)
  {
    hide AtMost, Pow, Pow2;
    TwoPowers();
    StartUp();
    NextUp(1, 5, 0, 0, 0, 1, 25);
    NextUp(2, 25, 0, 1, 0, 1, 3125);
    NextUp(5, 3125, 0, 0, 0, 1, 9765625);
    NextUp(10, 9765625, 0, 0, 16, 65536, 1455191523);
    NextUp(20, 1455191523, 16, 0, 30, 1073741824, 1972152264);
    NextUp(40, 1972152264, 62, 0, 31, 2147483648, 1811135818);
    NextUp(80, 1811135818, 155, 0, 31, 2147483648, 1527468186);
    NextUp(160, 1527468186, 341, 1, 33, 8589934592, 1358077314);
    NextUp(321, 1358077314, 715, 1, 32, 4294967296, 2147133918);
    Below643(2147133918, 1462);
  }

  lemma Below643(m: nat, s: nat)
    requires AtMost(643, m, s) && s == 1462 && m < 2147483648
    ensures Pow(5, 643) < Pow2(1493)
  {
    hide Pow;
    TwoPowers();
    Pow2Sum(1462, 31);
    PowPos(2, 1462);
    MulLt(m, 2147483648, Pow2(1462));
  }

  /** 643 decimal digits need no more than 267 octets. */
  lemma TenBelow()
    ensures Pow(10, 643) < Pow(256, 267)
  {
    hide Pow, Pow2;
    Five643();
    Tens(643);
    Tens(267);
    Pow2Sum(1493, 643);
    PowPos(2, 643);
    MulLt(Pow(5, 643), Pow2(1493), Pow2(643));
  }

  /**
   * Up to 1810 decimal digits the octets provided for are enough. A length that fell short would be a fraction
   * strictly between 485/1168 and 267/643, whose denominator is at least the sum of theirs.
   */
  lemma EnoughOctets(n: nat)
    requires n <= 1810
    ensures Pow(10, n) <= Pow(256, OctetsFor(n))
  {
    hide Pow;
    var m := OctetsFor(n);
    BetweenFractions(m, n);
    if Pow(256, m) < Pow(10, n) {
      SixHundredfold(m, n);
      PowPos(256, m);
      PowBase(Pow(256, m), Pow(10, n), 643);
    }
  }

  lemma BetweenFractions(m: nat, n: nat)
    requires n <= 1810 && 25000 * m >= 10381 * n
    ensures 643 * m >= 267 * n
  {
    assert n > 0 ==> 1168 * m >= 485 * n + 1;
    assert 643 * (1168 * m - 485 * n) + 1168 * (267 * n - 643 * m) == n;
  }

  lemma SixHundredfold(m: nat, n: nat)
    requires 643 * m >= 267 * n
    ensures Pow(Pow(256, m), 643) >= Pow(Pow(10, n), 643)
  {
    hide Pow;
    PowPow(256, m, 643);
    PowPow(10, n, 643);
    PowMono(256, 267 * n, m * 643);
    PowPow(256, 267, n);
    PowPow(10, 643, n);
    TenBelow();
    PowPos(10, 643);
    PowBase(Pow(10, 643), Pow(256, 267), n);
    assert n * 643 == 643 * n;
  }
}
