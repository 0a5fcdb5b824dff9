/** Bit vectors as numbers: what shifts, masks, tags and sums do to the number a bit vector stands for. */
module BitFields {
  import opened Arith

  function Number(c: bv32): nat {
    c as nat
  }

  function Octet(b: bv8): nat {
    b as nat
  }

  function High(c: bv32): bv26 {
    (c >> 6) as bv26
  }

  function Low(c: bv32): bv6 {
    (c & 0x3f) as bv6
  }

  function Glued(high: bv26, low: bv6): bv32 {
    ((high as bv32) << 6) | (low as bv32)
  }

  function HighNumber(high: bv26): nat {
    high as nat
  }

  function LowNumber(low: bv6): nat {
    low as nat
  }

  lemma GluedNumber(high: bv26, low: bv6)
    ensures Number(Glued(high, low)) == HighNumber(high) * 64 + LowNumber(low) && LowNumber(low) < 64
  {}

  lemma Halves(c: bv32)
    ensures Glued(High(c), Low(c)) == c
  {}

  lemma HalfNumbers(c: bv32)
    ensures Number(c >> 6) == HighNumber(High(c)) && Number(c & 0x3f) == LowNumber(Low(c))
  {}

  /** Six bits cut off at the low end. */
  lemma Six(c: bv32)
    ensures Number(c >> 6) == Number(c) / 0x40 && Number(c & 0x3f) == Number(c) % 64
  {
    hide *;
    Halves(c);
    HalfNumbers(c);
    GluedNumber(High(c), Low(c));
  }

  /** Six more bits cut off, where `d` is what was left by a division by `n`. */
  lemma SixMore(c: bv32, d: bv32, n: nat)
    requires n > 0 && Number(d) == Number(c) / n
    ensures Number(d >> 6) == Number(c) / (n * 64) && Number(d & 0x3f) == Number(c) / n % 64
  {
    hide *;
    Six(d);
    DivDiv(Number(c), n, 64);
  }

  lemma Cut12(c: bv32)
    ensures Number(c >> 12) == Number(c) / 0x1000 && Number((c >> 6) & 0x3f) == Number(c) / 0x40 % 64
  {
    hide *;
    Six(c);
    SixMore(c, c >> 6, 0x40);
  }

  lemma Cut18(c: bv32)
    ensures Number(c >> 18) == Number(c) / 0x40000 && Number((c >> 12) & 0x3f) == Number(c) / 0x1000 % 64
  {
    hide *;
    Cut12(c);
    SixMore(c, c >> 12, 0x1000);
  }

  lemma Cut24(c: bv32)
    ensures Number(c >> 24) == Number(c) / 0x1000000 && Number((c >> 18) & 0x3f) == Number(c) / 0x40000 % 64
  {
    hide *;
    Cut18(c);
    SixMore(c, c >> 18, 0x40000);
  }

  lemma Cut30(c: bv32)
    ensures Number(c >> 30) == Number(c) / 0x40000000 && Number((c >> 24) & 0x3f) == Number(c) / 0x1000000 % 64
  {
    hide *;
    Cut24(c);
    SixMore(c, c >> 24, 0x1000000);
  }

  lemma Sizes(c: bv32)
    ensures c < 0x80 <==> Number(c) < 0x80
    ensures c < 0x800 <==> Number(c) < 0x800
    ensures c < 0x10000 <==> Number(c) < 0x10000
    ensures c < 0x200000 <==> Number(c) < 0x200000
    ensures c < 0x4000000 <==> Number(c) < 0x4000000
  {}

  /** A tag and the bits below it. */
  lemma Tagged(x: bv32)
    ensures x < 0x80 ==> Octet(x as bv8) == Number(x)
    ensures x < 0x20 ==> Octet(0xc0 | ((x & 0xff) as bv8)) == 0xc0 + Number(x)
    ensures x < 0x10 ==> Octet(0xe0 | ((x & 0xff) as bv8)) == 0xe0 + Number(x)
    ensures x < 0x08 ==> Octet(0xf0 | ((x & 0xff) as bv8)) == 0xf0 + Number(x)
    ensures x < 0x04 ==> Octet(0xf8 | ((x & 0xff) as bv8)) == 0xf8 + Number(x)
    ensures x < 0x04 ==> Octet(0xfc | ((x & 0xff) as bv8)) == 0xfc + Number(x)
    ensures Octet(0x80 | ((x & 0x3f) as bv8)) == 0x80 + Number(x & 0x3f)
  {}

  /** The low bits of a byte. */
  lemma Low6(b: bv8)
    ensures Number((b & 0x3f) as bv32) == Octet(b) % 64
  {}

  lemma Low5(b: bv8)
    ensures Number((b & 0x1f) as bv32) == Octet(b) % 32
  {}

  lemma Low4(b: bv8)
    ensures Number((b & 0x0f) as bv32) == Octet(b) % 16
  {}

  lemma Low3(b: bv8)
    ensures Number((b & 0x07) as bv32) == Octet(b) % 8
  {}

  lemma Low2(b: bv8)
    ensures Number((b & 0x03) as bv32) == Octet(b) % 4
  {}

  lemma Low1(b: bv8)
    ensures Number((b & 0x01) as bv32) == Octet(b) % 2
  {}

  /** A byte widened with its sign. */
  lemma SignKept(b: bv8)
    ensures b & 0x80 == 0 <==> Octet(b) < 0x80
    ensures Number(b as bv32) == Octet(b) && Number(0xffffff00 | (b as bv32)) == 0xffffff00 + Octet(b)
  {}

  lemma ShiftedUp(a: bv32)
    ensures a < 0x4000000 ==> Number(a << 6) == Number(a) * 0x40
    ensures a < 0x100000 ==> Number(a << 12) == Number(a) * 0x1000
    ensures a < 0x4000 ==> Number(a << 18) == Number(a) * 0x40000
    ensures a < 0x100 ==> Number(a << 24) == Number(a) * 0x1000000
    ensures a < 0x4 ==> Number(a << 30) == Number(a) * 0x40000000
  {}

  function Next(c: bv32): bv32 {
    c + 1
  }

  function Half(c: bv32): bv32 {
    c >> 1
  }

  function Twice(c: bv32): bv32 {
    c << 1
  }

  function TwiceAndOne(c: bv32): bv32 {
    (c << 1) | 1
  }

  predicate Even(c: bv32) {
    c & 1 == 0
  }

  predicate Largest(c: bv32) {
    c == 0xffffffff
  }

  lemma TwiceNumber(c: bv32)
    requires c < 0x80000000
    ensures Number(Twice(c)) == Number(c) * 2 && Number(TwiceAndOne(c)) == Number(c) * 2 + 1
  {}

  lemma NextOfEven(c: bv32)
    requires Even(c)
    ensures c == Twice(Half(c)) && Next(c) == TwiceAndOne(Half(c))
  {}

  lemma NextOfOdd(c: bv32)
    requires !Even(c)
    ensures c == TwiceAndOne(Half(c)) && Next(c) == Twice(Next(Half(c)))
  {}

  lemma HalfSmall(c: bv32)
    ensures Half(c) < 0x80000000 && !Largest(Half(c))
    ensures !Largest(c) && !Even(c) ==> Next(Half(c)) < 0x80000000
  {}

  lemma {:induction false} NextNumber(c: bv32)
    requires !Largest(c)
    ensures Number(Next(c)) == Number(c) + 1
    decreases Number(c)
  {
    hide *;
    HalfSmall(c);
    TwiceNumber(Half(c));
    if Even(c) {
      NextOfEven(c);
    } else {
      NextOfOdd(c);
      NextNumber(Half(c));
      TwiceNumber(Next(Half(c)));
    }
  }

  lemma Ends(c: bv32)
    ensures Number(c) == 0 <==> c == 0
    ensures Number(c) < 0xffffffff ==> c != 0xffffffff
  {}

  function Before(c: bv32): bv32 {
    c - 1
  }

  lemma NumberBefore(y: bv32)
    requires Number(y) > 0
    ensures Number(Before(y)) == Number(y) - 1 && Before(y) + 1 == y
  {
    Ends(y);
    hide Number;
    NextNumber(y - 1);
  }

  function Total(x: bv32, y: bv32, u: bv32, v: bv32, w: bv32, t: bv32): bv32 {
    x + y + u + v + w + t
  }

  lemma TotalNext(x: bv32, y: bv32, u: bv32, v: bv32, w: bv32, t: bv32)
    requires Number(Total(x, y, u, v, w, t)) < 0xffffffff
    ensures Number(Total(x, y, u, v, w, t + 1)) == Number(Total(x, y, u, v, w, t)) + 1
  {
    Ends(x + y + u + v + w + t);
    hide Number;
    NextNumber(x + y + u + v + w + t);
  }

  lemma {:induction false} TotalNumber(x: bv32, y: bv32, u: bv32, v: bv32, w: bv32, t: bv32)
    requires Number(Total(x, y, u, v, w, 0)) + Number(t) <= 0xffffffff
    ensures Number(Total(x, y, u, v, w, t)) == Number(Total(x, y, u, v, w, 0)) + Number(t)
    decreases Number(t)
  {
    Ends(t);
    hide Number, Total;
    if Number(t) > 0 {
      NumberBefore(t);
      TotalNumber(x, y, u, v, w, Before(t));
      TotalNext(x, y, u, v, w, Before(t));
    }
  }

  lemma Rotated(x: bv32, y: bv32, u: bv32, v: bv32, w: bv32)
    ensures Total(x, y, u, v, w, 0) == Total(0, x, y, u, v, w) && Total(0, 0, 0, 0, 0, x) == x
  {}

  /** A sum that does not overflow is the sum of the numbers. */
  lemma Sum(x: bv32, y: bv32, u: bv32, v: bv32, w: bv32, t: bv32)
    requires Number(x) + Number(y) + Number(u) + Number(v) + Number(w) + Number(t) <= 0xffffffff
    ensures Number(x + y + u + v + w + t) == Number(x) + Number(y) + Number(u) + Number(v) + Number(w) + Number(t)
  {
    TotalIs(x, y, u, v, w, t);
    hide Number, Total;
    Rotated(x, 0, 0, 0, 0);
    Rotated(0, 0, 0, 0, x);
    TotalNumber(0, 0, 0, 0, x, y);
    Rotated(0, 0, 0, x, y);
    TotalNumber(0, 0, 0, x, y, u);
    Rotated(0, 0, x, y, u);
    TotalNumber(0, 0, x, y, u, v);
    Rotated(0, x, y, u, v);
    TotalNumber(0, x, y, u, v, w);
    Rotated(x, y, u, v, w);
    TotalNumber(x, y, u, v, w, t);
  }

  lemma TotalIs(x: bv32, y: bv32, u: bv32, v: bv32, w: bv32, t: bv32)
    ensures Total(x, y, u, v, w, t) == x + y + u + v + w + t
  {}
}
