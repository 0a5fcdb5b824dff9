/** The UTF-8 codec (src/encoding.c): characters of 32 bits, and one to six bytes for each. */
module Utf8 {
  import opened BitFields

  type Byte = bv8
  type YogChar = bv32

  /** utf8_get_char_bytes: the length of a character, by its first byte. */
  function CharBytes(b: Byte): (n: nat)
    ensures 1 <= n <= 6
  {
    if b & 0xfc == 0xfc then 6
    else if b & 0xf8 == 0xf8 then 5
    else if b & 0xf0 == 0xf0 then 4
    else if b & 0xe0 == 0xe0 then 3
    else if b & 0xc0 == 0xc0 then 2
    else 1
  }

  /** A byte as a signed character widened to 32 bits. */
  function Widened(b: Byte): YogChar {
    if b & 0x80 == 0 then b as YogChar else 0xffffff00 | (b as YogChar)
  }

  /** Some of the low bits of a byte. */
  function Bits(b: Byte, mask: Byte): YogChar {
    (b & mask) as YogChar
  }

  /** utf8_conv_char_to_yog. */
  function Decoded(s: seq<Byte>): YogChar
    requires s != [] && CharBytes(s[0]) <= |s|
  {
    match CharBytes(s[0])
    case 1 => Widened(s[0])
    case 2 => Join2(s[0], s[1])
    case 3 => Join3(s[0], s[1], s[2])
    case 4 => Join4(s[0], s[1], s[2], s[3])
    case 5 => Join5(s[0], s[1], s[2], s[3], s[4])
    case _ => Join6(s[0], s[1], s[2], s[3], s[4], s[5])
  }

  function Join2(a: Byte, b: Byte): YogChar {
    Sum2(Bits(a, 0x1f), Bits(b, 0x3f))
  }

  function Join3(a: Byte, b: Byte, c: Byte): YogChar {
    Sum3(Bits(a, 0x0f), Bits(b, 0x3f), Bits(c, 0x3f))
  }

  function Join4(a: Byte, b: Byte, c: Byte, d: Byte): YogChar {
    Sum4(Bits(a, 0x07), Bits(b, 0x3f), Bits(c, 0x3f), Bits(d, 0x3f))
  }

  function Join5(a: Byte, b: Byte, c: Byte, d: Byte, e: Byte): YogChar {
    Sum5(Bits(a, 0x03), Bits(b, 0x3f), Bits(c, 0x3f), Bits(d, 0x3f), Bits(e, 0x3f))
  }

  function Join6(a: Byte, b: Byte, c: Byte, d: Byte, e: Byte, f: Byte): YogChar {
    Sum6(Bits(a, 0x01), Bits(b, 0x03), Bits(c, 0x3f), Bits(d, 0x3f), Bits(e, 0x3f), Bits(f, 0x3f))
  }

  function Sum2(a: YogChar, b: YogChar): YogChar {
    (a << 6) + b
  }

  function Sum3(a: YogChar, b: YogChar, c: YogChar): YogChar {
    (a << 12) + (b << 6) + c
  }

  /** The shift of the third part is that of the source. */
  function Sum4(a: YogChar, b: YogChar, c: YogChar, d: YogChar): YogChar {
    (a << 18) + (b << 12) + (c << 12) + d
  }

  function Sum5(a: YogChar, b: YogChar, c: YogChar, d: YogChar, e: YogChar): YogChar {
    (a << 24) + (b << 18) + (c << 12) + (d << 6) + e
  }

  function Sum6(a: YogChar, b: YogChar, c: YogChar, d: YogChar, e: YogChar, f: YogChar): YogChar {
    (a << 30) + (b << 24) + (c << 18) + (d << 12) + (e << 6) + f
  }

  /** utf8_get_yog_char_bytes. */
  function YogCharBytes(c: YogChar): nat {
    if c < 0x80 then 1
    else if c < 0x800 then 2
    else if c < 0x10000 then 3
    else if c < 0x200000 then 4
    else if c < 0x4000000 then 5
    else 6
  }

  /** Some bits of a character. */
  function Part(c: YogChar, shift: nat, mask: YogChar): YogChar
    requires shift <= 30
  {
    (c >> shift) & mask
  }

  /** A first byte: the tag for the length, and the highest bits of a character. */
  function Lead(tag: Byte, c: YogChar, shift: nat): Byte
    requires shift <= 30
  {
    tag | (((c >> shift) & 0xff) as Byte)
  }

  /** A continuation byte: six bits of a character. */
  function Tail(c: YogChar, shift: nat): Byte
    requires shift <= 24
  {
    0x80 | (((c >> shift) & 0x3f) as Byte)
  }

  /** What utf8_conv_char_from_yog writes. */
  function Encoded(c: YogChar): (s: seq<Byte>)
    ensures |s| == YogCharBytes(c)
  {
    if c < 0x80 then [c as Byte]
    else if c < 0x800 then [Lead(0xc0, c, 6), Tail(c, 0)]
    else if c < 0x10000 then [Lead(0xe0, c, 12), Tail(c, 6), Tail(c, 0)]
    else if c < 0x200000 then [Lead(0xf0, c, 18), Tail(c, 12), Tail(c, 6), Tail(c, 0)]
    else if c < 0x4000000 then [Lead(0xf8, c, 24), Tail(c, 18), Tail(c, 12), Tail(c, 6), Tail(c, 0)]
    else [Lead(0xfc, c, 30), Tail(c, 24), Tail(c, 18), Tail(c, 12), Tail(c, 6), Tail(c, 0)]
  }

  /** The first byte written tells the number of bytes written. */
  lemma LengthsAgree(c: YogChar)
    ensures CharBytes(Encoded(c)[0]) == |Encoded(c)|
  {}

  /** The octets of a character by section 3 of RFC 3629, carried on to six octets. */
  function Standard(x: nat): seq<nat> {
    if x < 0x80 then [x]
    else if x < 0x800 then [0xc0 + x / 0x40, 0x80 + x % 64]
    else if x < 0x10000 then [0xe0 + x / 0x1000, 0x80 + x / 0x40 % 64, 0x80 + x % 64]
    else if x < 0x200000 then
      [0xf0 + x / 0x40000, 0x80 + x / 0x1000 % 64, 0x80 + x / 0x40 % 64, 0x80 + x % 64]
    else if x < 0x4000000 then
      [0xf8 + x / 0x1000000, 0x80 + x / 0x40000 % 64, 0x80 + x / 0x1000 % 64, 0x80 + x / 0x40 % 64, 0x80 + x % 64]
    else
      [0xfc + x / 0x40000000, 0x80 + x / 0x1000000 % 64, 0x80 + x / 0x40000 % 64, 0x80 + x / 0x1000 % 64,
       0x80 + x / 0x40 % 64, 0x80 + x % 64]
  }

  function StandardAll(s: seq<YogChar>): seq<nat> {
    if s == [] then [] else Standard(Number(s[0])) + StandardAll(s[1..])
  }

  function Octets(s: seq<Byte>): seq<nat> {
    seq(|s|, i requires 0 <= i < |s| => Octet(s[i]))
  }

  lemma TailsAre(c: YogChar)
    ensures Tail(c, 0) == 0x80 | ((c & 0x3f) as Byte) && Tail(c, 6) == 0x80 | (((c >> 6) & 0x3f) as Byte)
    ensures Tail(c, 12) == 0x80 | (((c >> 12) & 0x3f) as Byte) && Tail(c, 18) == 0x80 | (((c >> 18) & 0x3f) as Byte)
    ensures Tail(c, 24) == 0x80 | (((c >> 24) & 0x3f) as Byte)
  {}

  lemma TailOctets(c: YogChar)
    ensures Octet(Tail(c, 0)) == 0x80 + Number(c & 0x3f)
    ensures Octet(Tail(c, 6)) == 0x80 + Number((c >> 6) & 0x3f)
    ensures Octet(Tail(c, 12)) == 0x80 + Number((c >> 12) & 0x3f)
    ensures Octet(Tail(c, 18)) == 0x80 + Number((c >> 18) & 0x3f)
    ensures Octet(Tail(c, 24)) == 0x80 + Number((c >> 24) & 0x3f)
  {
    hide Octet, Number;
    TailsAre(c);
    hide Tail;
    Tagged(c);
    Tagged(c >> 6);
    Tagged(c >> 12);
    Tagged(c >> 18);
    Tagged(c >> 24);
  }

  lemma LeadOctets(c: YogChar)
    ensures c < 0x800 ==> Octet(Lead(0xc0, c, 6)) == 0xc0 + Number(c >> 6)
    ensures c < 0x10000 ==> Octet(Lead(0xe0, c, 12)) == 0xe0 + Number(c >> 12)
    ensures c < 0x200000 ==> Octet(Lead(0xf0, c, 18)) == 0xf0 + Number(c >> 18)
    ensures c < 0x4000000 ==> Octet(Lead(0xf8, c, 24)) == 0xf8 + Number(c >> 24)
    ensures Octet(Lead(0xfc, c, 30)) == 0xfc + Number(c >> 30)
  {
    hide Octet, Number;
    Tagged(c >> 6);
    Tagged(c >> 12);
    Tagged(c >> 18);
    Tagged(c >> 24);
    Tagged(c >> 30);
  }

  lemma TailNumbers(c: YogChar)
    ensures Octet(Tail(c, 0)) == 0x80 + Number(c) % 64 && Octet(Tail(c, 6)) == 0x80 + Number(c) / 0x40 % 64
    ensures Octet(Tail(c, 12)) == 0x80 + Number(c) / 0x1000 % 64
    ensures Octet(Tail(c, 18)) == 0x80 + Number(c) / 0x40000 % 64
    ensures Octet(Tail(c, 24)) == 0x80 + Number(c) / 0x1000000 % 64
  {
    hide *;
    TailOctets(c);
    Six(c);
    Cut12(c);
    Cut18(c);
    Cut24(c);
    Cut30(c);
  }

  lemma LeadNumbers(c: YogChar)
    ensures c < 0x80 ==> Octet(c as Byte) == Number(c)
    ensures c < 0x800 ==> Octet(Lead(0xc0, c, 6)) == 0xc0 + Number(c) / 0x40
    ensures c < 0x10000 ==> Octet(Lead(0xe0, c, 12)) == 0xe0 + Number(c) / 0x1000
    ensures c < 0x200000 ==> Octet(Lead(0xf0, c, 18)) == 0xf0 + Number(c) / 0x40000
    ensures c < 0x4000000 ==> Octet(Lead(0xf8, c, 24)) == 0xf8 + Number(c) / 0x1000000
    ensures Octet(Lead(0xfc, c, 30)) == 0xfc + Number(c) / 0x40000000
  {
    hide *;
    LeadOctets(c);
    Tagged(c);
    Six(c);
    Cut12(c);
    Cut18(c);
    Cut24(c);
    Cut30(c);
  }

  /** The bytes written are those of the standard, as numbers. */
  lemma EncodedStandard(c: YogChar)
    ensures Octets(Encoded(c)) == Standard(Number(c))
  {
    hide Octet, Number, Lead, Tail;
    Sizes(c);
    TailNumbers(c);
    LeadNumbers(c);
  }

  /** Every octet but the first lies in 0x80..0xbf, and the first does not. */
  lemma FirstTells(x: nat)
    requires x <= 0xffffffff
    ensures Standard(x) != [] && !(0x80 <= Standard(x)[0] <= 0xbf)
    ensures forall i | 0 < i < |Standard(x)| :: 0x80 <= Standard(x)[i] <= 0xbf
    ensures forall i | 0 <= i < |Standard(x)| :: Standard(x)[i] <= 0xff
  {}

  lemma {:induction false} EncodedAllStandard(s: seq<YogChar>)
    ensures Octets(EncodedAll(s)) == StandardAll(s)
  {
    hide Encoded, Standard, Octet, Number;
    if s != [] {
      EncodedStandard(s[0]);
      EncodedAllStandard(s[1..]);
      OctetsConcat(Encoded(s[0]), EncodedAll(s[1..]));
    }
  }

  lemma OctetsConcat(s: seq<Byte>, t: seq<Byte>)
    ensures Octets(s + t) == Octets(s) + Octets(t)
  {
    hide Octet;
  }

  lemma TailBits(c: YogChar, shift: nat)
    requires shift <= 24
    ensures Bits(Tail(c, shift), 0x3f) == Part(c, shift, 0x3f)
  {}

  lemma TwoTailBits(c: YogChar)
    ensures Bits(Tail(c, 24), 0x03) == Part(c, 24, 0x03)
  {}

  /**
   * The characters that survive encoding and decoding. With four bytes the decoder shifts the third byte too
   * far; with six it reads only two bits of the second byte, and one of the first.
   */
  predicate Faithful(c: YogChar) {
    if c < 0x10000 then true
    else if c < 0x200000 then (c >> 6) & 0x3f == 0
    else if c < 0x4000000 then true
    else c < 0x80000000 && (c >> 26) & 0x0f == 0
  }

  /** What is left of a character after a round trip. */
  function Kept(c: YogChar): YogChar {
    if c < 0x80 then c
    else if c < 0x800 then Sum2(Part(c, 6, 0x1f), Part(c, 0, 0x3f))
    else if c < 0x10000 then Sum3(Part(c, 12, 0x0f), Part(c, 6, 0x3f), Part(c, 0, 0x3f))
    else if c < 0x200000 then Sum4(Part(c, 18, 0x07), Part(c, 12, 0x3f), Part(c, 6, 0x3f), Part(c, 0, 0x3f))
    else if c < 0x4000000 then
      Sum5(Part(c, 24, 0x03), Part(c, 18, 0x3f), Part(c, 12, 0x3f), Part(c, 6, 0x3f), Part(c, 0, 0x3f))
    else
      Sum6(Part(c, 30, 0x01), Part(c, 24, 0x03), Part(c, 18, 0x3f), Part(c, 12, 0x3f), Part(c, 6, 0x3f),
        Part(c, 0, 0x3f))
  }

  lemma Lead1(c: YogChar)
    requires c < 0x80
    ensures Widened(c as Byte) == c
  {}

  lemma Lead2(c: YogChar)
    requires c < 0x800
    ensures Bits(Lead(0xc0, c, 6), 0x1f) == Part(c, 6, 0x1f)
  {}

  lemma Lead3(c: YogChar)
    requires c < 0x10000
    ensures Bits(Lead(0xe0, c, 12), 0x0f) == Part(c, 12, 0x0f)
  {}

  lemma Lead4(c: YogChar)
    requires c < 0x200000
    ensures Bits(Lead(0xf0, c, 18), 0x07) == Part(c, 18, 0x07)
  {}

  lemma Lead5(c: YogChar)
    requires c < 0x4000000
    ensures Bits(Lead(0xf8, c, 24), 0x03) == Part(c, 24, 0x03)
  {}

  lemma Lead6(c: YogChar)
    ensures Bits(Lead(0xfc, c, 30), 0x01) == Part(c, 30, 0x01)
  {}

  lemma Joined2(c: YogChar)
    requires c < 0x800
    ensures Join2(Lead(0xc0, c, 6), Tail(c, 0)) ==
            Sum2(Part(c, 6, 0x1f), Part(c, 0, 0x3f))
  {
    hide Bits, Lead, Part, Tail, Sum2;
    Lead2(c);
    TailBits(c, 0);
  }

  lemma Joined3(c: YogChar)
    requires c < 0x10000
    ensures Join3(Lead(0xe0, c, 12), Tail(c, 6), Tail(c, 0)) ==
            Sum3(Part(c, 12, 0x0f), Part(c, 6, 0x3f), Part(c, 0, 0x3f))
  {
    hide Bits, Lead, Part, Tail, Sum3;
    Lead3(c);
    TailBits(c, 6);
    TailBits(c, 0);
  }

  lemma Joined4(c: YogChar)
    requires c < 0x200000
    ensures Join4(Lead(0xf0, c, 18), Tail(c, 12), Tail(c, 6), Tail(c, 0)) ==
            Sum4(Part(c, 18, 0x07), Part(c, 12, 0x3f), Part(c, 6, 0x3f), Part(c, 0, 0x3f))
  {
    hide Bits, Lead, Part, Tail, Sum4;
    Lead4(c);
    TailBits(c, 12);
    TailBits(c, 6);
    TailBits(c, 0);
  }

  lemma Joined5(c: YogChar)
    requires c < 0x4000000
    ensures Join5(Lead(0xf8, c, 24), Tail(c, 18), Tail(c, 12), Tail(c, 6), Tail(c, 0)) ==
            Sum5(Part(c, 24, 0x03), Part(c, 18, 0x3f), Part(c, 12, 0x3f), Part(c, 6, 0x3f), Part(c, 0, 0x3f))
  {
    hide Bits, Lead, Part, Tail, Sum5;
    Lead5(c);
    TailBits(c, 18);
    TailBits(c, 12);
    TailBits(c, 6);
    TailBits(c, 0);
  }

  lemma Joined6(c: YogChar)
    ensures Join6(Lead(0xfc, c, 30), Tail(c, 24), Tail(c, 18), Tail(c, 12), Tail(c, 6), Tail(c, 0)) ==
            Sum6(Part(c, 30, 0x01), Part(c, 24, 0x03), Part(c, 18, 0x3f), Part(c, 12, 0x3f), Part(c, 6, 0x3f),
              Part(c, 0, 0x3f))
  {
    hide Bits, Lead, Part, Tail, Sum6;
    Lead6(c);
    TwoTailBits(c);
    TailBits(c, 18);
    TailBits(c, 12);
    TailBits(c, 6);
    TailBits(c, 0);
  }

  lemma CharBytesNumber(b: Byte)
    ensures CharBytes(b) ==
      if Octet(b) >= 0xfc then 6 else if Octet(b) >= 0xf8 then 5 else if Octet(b) >= 0xf0 then 4
      else if Octet(b) >= 0xe0 then 3 else if Octet(b) >= 0xc0 then 2 else 1
  {}

  /**
   * What is read from any bytes, as numbers: a byte below 0xc0 by itself, with its sign; of the others some bits
   * are joined. The third of four bytes is given the weight of the second.
   */
  lemma DecodedNumber(s: seq<Byte>)
    requires s != [] && CharBytes(s[0]) <= |s|
    ensures var n, o := Number(Decoded(s)), Octets(s);
      && (o[0] < 0x80 ==> n == o[0])
      && (0x80 <= o[0] < 0xc0 ==> n == 0xffffff00 + o[0])
      && (0xc0 <= o[0] < 0xe0 ==> |o| >= 2 && n == o[0] % 32 * 0x40 + o[1] % 64)
      && (0xe0 <= o[0] < 0xf0 ==> |o| >= 3 && n == o[0] % 16 * 0x1000 + o[1] % 64 * 0x40 + o[2] % 64)
      && (0xf0 <= o[0] < 0xf8 ==>
            |o| >= 4 && n == o[0] % 8 * 0x40000 + o[1] % 64 * 0x1000 + o[2] % 64 * 0x1000 + o[3] % 64)
      && (0xf8 <= o[0] < 0xfc ==>
            && |o| >= 5
            && n == o[0] % 4 * 0x1000000 + o[1] % 64 * 0x40000 + o[2] % 64 * 0x1000 + o[3] % 64 * 0x40 + o[4] % 64)
      && (0xfc <= o[0] ==>
            && |o| >= 6
            && n == o[0] % 2 * 0x40000000 + o[1] % 4 * 0x1000000 + o[2] % 64 * 0x40000 + o[3] % 64 * 0x1000
                    + o[4] % 64 * 0x40 + o[5] % 64)
  {
    hide CharBytes, Octet, Number, Join2, Join3, Join4, Join5, Join6, Widened;
    CharBytesNumber(s[0]);
    match CharBytes(s[0])
    case 1 => WidenedNumber(s[0]);
    case 2 => JoinNumber2(s[0], s[1]);
    case 3 => JoinNumber3(s[0], s[1], s[2]);
    case 4 => JoinNumber4(s[0], s[1], s[2], s[3]);
    case 5 => JoinNumber5(s[0], s[1], s[2], s[3], s[4]);
    case _ => JoinNumber6(s[0], s[1], s[2], s[3], s[4], s[5]);
  }

  lemma WidenedNumber(b: Byte)
    ensures Number(Widened(b)) == if Octet(b) < 0x80 then Octet(b) else 0xffffff00 + Octet(b)
  {
    SignKept(b);
    hide Octet, Number;
  }

  /** The number of some low bits. */
  lemma BitsNumber(b: Byte)
    ensures Number(Bits(b, 0x3f)) == Octet(b) % 64 && Number(Bits(b, 0x1f)) == Octet(b) % 32
    ensures Number(Bits(b, 0x0f)) == Octet(b) % 16 && Number(Bits(b, 0x07)) == Octet(b) % 8
    ensures Number(Bits(b, 0x03)) == Octet(b) % 4 && Number(Bits(b, 0x01)) == Octet(b) % 2
  {
    hide Octet, Number;
    Low6(b);
    Low5(b);
    Low4(b);
    Low3(b);
    Low2(b);
    Low1(b);
  }

  lemma BitsBelow(b: Byte)
    ensures Bits(b, 0x3f) < 0x40 && Bits(b, 0x1f) < 0x20 && Bits(b, 0x0f) < 0x10 && Bits(b, 0x07) < 0x08
    ensures Bits(b, 0x03) < 0x04 && Bits(b, 0x01) < 0x02
  {}

  lemma NumberZero()
    ensures Number(0) == 0
  {}

  lemma SumNumber2(a: YogChar, b: YogChar)
    requires a < 0x20 && b < 0x40
    requires Number(a) < 32 && Number(b) < 64
    ensures Number(Sum2(a, b)) ==
            Number(a) * 0x40 + Number(b)
  {
    hide Number;
    ShiftedUp(a);
    NumberZero();
    Sum(0, 0, 0, 0, a << 6, b);
  }

  lemma SumNumber3(a: YogChar, b: YogChar, c: YogChar)
    requires a < 0x10 && b < 0x40 && c < 0x40
    requires Number(a) < 16 && Number(b) < 64 && Number(c) < 64
    ensures Number(Sum3(a, b, c)) ==
            Number(a) * 0x1000 + Number(b) * 0x40 + Number(c)
  {
    hide Number;
    ShiftedUp(a);
    ShiftedUp(b);
    NumberZero();
    Sum(0, 0, 0, a << 12, b << 6, c);
  }

  lemma SumNumber4(a: YogChar, b: YogChar, c: YogChar, d: YogChar)
    requires a < 0x08 && b < 0x40 && c < 0x40 && d < 0x40
    requires Number(a) < 8 && Number(b) < 64 && Number(c) < 64 && Number(d) < 64
    ensures Number(Sum4(a, b, c, d)) ==
            Number(a) * 0x40000 + Number(b) * 0x1000 + Number(c) * 0x1000 + Number(d)
  {
    hide Number;
    ShiftedUp(a);
    ShiftedUp(b);
    ShiftedUp(c);
    NumberZero();
    Sum(0, 0, a << 18, b << 12, c << 12, d);
  }

  lemma SumNumber5(a: YogChar, b: YogChar, c: YogChar, d: YogChar, e: YogChar)
    requires a < 0x04 && b < 0x40 && c < 0x40 && d < 0x40 && e < 0x40
    requires Number(a) < 4 && Number(b) < 64 && Number(c) < 64 && Number(d) < 64 && Number(e) < 64
    ensures Number(Sum5(a, b, c, d, e)) ==
            Number(a) * 0x1000000 + Number(b) * 0x40000 + Number(c) * 0x1000 + Number(d) * 0x40 + Number(e)
  {
    hide Number;
    ShiftedUp(a);
    ShiftedUp(b);
    ShiftedUp(c);
    ShiftedUp(d);
    NumberZero();
    Sum(0, a << 24, b << 18, c << 12, d << 6, e);
  }

  lemma SumNumber6(a: YogChar, b: YogChar, c: YogChar, d: YogChar, e: YogChar, f: YogChar)
    requires a < 0x02 && b < 0x04 && c < 0x40 && d < 0x40 && e < 0x40 && f < 0x40
    requires Number(a) < 2 && Number(b) < 4 && Number(c) < 64 && Number(d) < 64 && Number(e) < 64 && Number(f) < 64
    ensures Number(Sum6(a, b, c, d, e, f)) ==
            Number(a) * 0x40000000 + Number(b) * 0x1000000 + Number(c) * 0x40000 + Number(d) * 0x1000
            + Number(e) * 0x40 + Number(f)
  {
    hide Number;
    ShiftedUp(a);
    ShiftedUp(b);
    ShiftedUp(c);
    ShiftedUp(d);
    ShiftedUp(e);
    Sum(a << 30, b << 24, c << 18, d << 12, e << 6, f);
  }

  lemma JoinNumber2(a: Byte, b: Byte)
    ensures Number(Join2(a, b)) == Octet(a) % 32 * 0x40 + Octet(b) % 64
  {
    hide Octet, Number, Bits, Sum2;
    BitsNumber(a);
    BitsBelow(a);
    BitsNumber(b);
    BitsBelow(b);
    SumNumber2(Bits(a, 0x1f), Bits(b, 0x3f));
  }

  lemma JoinNumber3(a: Byte, b: Byte, c: Byte)
    ensures Number(Join3(a, b, c)) ==
            Octet(a) % 16 * 0x1000 + Octet(b) % 64 * 0x40 + Octet(c) % 64
  {
    hide Octet, Number, Bits, Sum3;
    BitsNumber(a);
    BitsBelow(a);
    BitsNumber(b);
    BitsBelow(b);
    BitsNumber(c);
    BitsBelow(c);
    SumNumber3(Bits(a, 0x0f), Bits(b, 0x3f), Bits(c, 0x3f));
  }

  lemma JoinNumber4(a: Byte, b: Byte, c: Byte, d: Byte)
    ensures Number(Join4(a, b, c, d)) ==
            Octet(a) % 8 * 0x40000 + Octet(b) % 64 * 0x1000 + Octet(c) % 64 * 0x1000 + Octet(d) % 64
  {
    hide Octet, Number, Bits, Sum4;
    BitsNumber(a);
    BitsBelow(a);
    BitsNumber(b);
    BitsBelow(b);
    BitsNumber(c);
    BitsBelow(c);
    BitsNumber(d);
    BitsBelow(d);
    SumNumber4(Bits(a, 0x07), Bits(b, 0x3f), Bits(c, 0x3f), Bits(d, 0x3f));
  }

  lemma JoinNumber5(a: Byte, b: Byte, c: Byte, d: Byte, e: Byte)
    ensures Number(Join5(a, b, c, d, e)) ==
            Octet(a) % 4 * 0x1000000 + Octet(b) % 64 * 0x40000 + Octet(c) % 64 * 0x1000 + Octet(d) % 64 * 0x40
            + Octet(e) % 64
  {
    hide Octet, Number, Bits, Sum5;
    BitsNumber(a);
    BitsBelow(a);
    BitsNumber(b);
    BitsBelow(b);
    BitsNumber(c);
    BitsBelow(c);
    BitsNumber(d);
    BitsBelow(d);
    BitsNumber(e);
    BitsBelow(e);
    SumNumber5(Bits(a, 0x03), Bits(b, 0x3f), Bits(c, 0x3f), Bits(d, 0x3f), Bits(e, 0x3f));
  }

  lemma JoinNumber6(a: Byte, b: Byte, c: Byte, d: Byte, e: Byte, f: Byte)
    ensures Number(Join6(a, b, c, d, e, f)) ==
            Octet(a) % 2 * 0x40000000 + Octet(b) % 4 * 0x1000000 + Octet(c) % 64 * 0x40000 + Octet(d) % 64 * 0x1000
            + Octet(e) % 64 * 0x40 + Octet(f) % 64
  {
    hide Octet, Number, Bits, Sum6;
    BitsNumber(a);
    BitsBelow(a);
    BitsNumber(b);
    BitsBelow(b);
    BitsNumber(c);
    BitsBelow(c);
    BitsNumber(d);
    BitsBelow(d);
    BitsNumber(e);
    BitsBelow(e);
    BitsNumber(f);
    BitsBelow(f);
    SumNumber6(Bits(a, 0x01), Bits(b, 0x03), Bits(c, 0x3f), Bits(d, 0x3f), Bits(e, 0x3f), Bits(f, 0x3f));
  }

  lemma DecodedEncoded(c: YogChar)
    ensures Decoded(Encoded(c)) == Kept(c)
  {
    LengthsAgree(c);
    hide Lead, Part, Tail, CharBytes, Widened, Join2, Join3, Join4, Join5, Join6, Sum2, Sum3, Sum4, Sum5, Sum6;
    if c < 0x80 {
      Lead1(c);
    } else if c < 0x800 {
      Joined2(c);
    } else if c < 0x10000 {
      Joined3(c);
    } else if c < 0x200000 {
      Joined4(c);
    } else if c < 0x4000000 {
      Joined5(c);
    } else {
      Joined6(c);
    }
  }

  lemma PartsAre(c: YogChar)
    ensures Part(c, 0, 0x3f) == c & 0x3f && Part(c, 6, 0x1f) == (c >> 6) & 0x1f && Part(c, 6, 0x3f) == (c >> 6) & 0x3f
    ensures Part(c, 12, 0x0f) == (c >> 12) & 0x0f && Part(c, 12, 0x3f) == (c >> 12) & 0x3f
    ensures Part(c, 18, 0x07) == (c >> 18) & 0x07 && Part(c, 18, 0x3f) == (c >> 18) & 0x3f
    ensures Part(c, 24, 0x03) == (c >> 24) & 0x03 && Part(c, 30, 0x01) == (c >> 30) & 0x01
  {}

  /** Without a bit in common, a sum is a union. */
  lemma AddOr(x: YogChar, y: YogChar)
    requires x & y == 0
    ensures x + y == x | y
  {}

  lemma Low12(c: YogChar)
    ensures (((c >> 6) & 0x3f) << 6) + (c & 0x3f) == c & 0xfff
  {
    AddOr(((c >> 6) & 0x3f) << 6, c & 0x3f);
  }

  lemma Low18(c: YogChar)
    ensures (((c >> 12) & 0x3f) << 12) + (c & 0xfff) == c & 0x3ffff
  {
    AddOr(((c >> 12) & 0x3f) << 12, c & 0xfff);
  }

  lemma Low24(c: YogChar)
    ensures (((c >> 18) & 0x3f) << 18) + (c & 0x3ffff) == c & 0xffffff
  {
    AddOr(((c >> 18) & 0x3f) << 18, c & 0x3ffff);
  }

  lemma Low26(c: YogChar)
    ensures (((c >> 24) & 0x03) << 24) + (c & 0xffffff) == c & 0x3ffffff
  {
    AddOr(((c >> 24) & 0x03) << 24, c & 0xffffff);
  }

  lemma Low31(c: YogChar)
    ensures (((c >> 30) & 0x01) << 30) + (c & 0x3ffffff) == c & 0x43ffffff
  {
    AddOr(((c >> 30) & 0x01) << 30, c & 0x3ffffff);
  }

  lemma FromRight(a: YogChar, b: YogChar, c: YogChar, d: YogChar, e: YogChar, f: YogChar)
    ensures a + b + c + d + e + f == a + (b + (c + (d + (e + f))))
    ensures b + c + d + e + f == b + (c + (d + (e + f)))
  {}

  /** The groups of a character added up. */
  lemma Gathered(c: YogChar)
    ensures (((c >> 24) & 0x03) << 24) + (((c >> 18) & 0x3f) << 18) + (((c >> 12) & 0x3f) << 12)
            + (((c >> 6) & 0x3f) << 6) + (c & 0x3f) == c & 0x3ffffff
    ensures (((c >> 30) & 0x01) << 30) + (((c >> 24) & 0x03) << 24) + (((c >> 18) & 0x3f) << 18)
            + (((c >> 12) & 0x3f) << 12) + (((c >> 6) & 0x3f) << 6) + (c & 0x3f) == c & 0x43ffffff
  {
    Low12(c);
    Low18(c);
    Low24(c);
    Low26(c);
    Low31(c);
    FromRight(((c >> 30) & 0x01) << 30, ((c >> 24) & 0x03) << 24, ((c >> 18) & 0x3f) << 18,
              ((c >> 12) & 0x3f) << 12, ((c >> 6) & 0x3f) << 6, c & 0x3f);
  }

  lemma Whole2(c: YogChar)
    requires c < 0x800
    ensures Sum2(Part(c, 6, 0x1f), Part(c, 0, 0x3f)) == c
  {
    PartsAre(c);
    hide Part;
    AddOr(((c >> 6) & 0x1f) << 6, c & 0x3f);
  }

  lemma Whole3(c: YogChar)
    requires c < 0x10000
    ensures Sum3(Part(c, 12, 0x0f), Part(c, 6, 0x3f), Part(c, 0, 0x3f)) == c
  {
    PartsAre(c);
    hide Part;
    Low12(c);
    AddOr(((c >> 12) & 0x0f) << 12, c & 0xfff);
    FromRight(0, 0, 0, ((c >> 12) & 0x0f) << 12, ((c >> 6) & 0x3f) << 6, c & 0x3f);
  }

  /** With its third part shifted too far, a character is whole only if that part is zero. */
  lemma Whole4(c: YogChar)
    requires c < 0x200000
    ensures Sum4(Part(c, 18, 0x07), Part(c, 12, 0x3f), Part(c, 6, 0x3f), Part(c, 0, 0x3f)) == c
      <==> (c >> 6) & 0x3f == 0
  {
    PartsAre(c);
    hide Part;
    OuterParts(c);
    var a, b, x, d := ((c >> 18) & 0x07) << 18, ((c >> 12) & 0x3f) << 12, (c >> 6) & 0x3f, c & 0x3f;
    Regrouped(a, b, x << 12, d);
    AddOr(c & 0x1ff03f, x << 6);
    Cancelled(c & 0x1ff03f, x << 12, x << 6);
  }

  lemma OuterParts(c: YogChar)
    requires c < 0x200000
    ensures (((c >> 18) & 0x07) << 18) + (((c >> 12) & 0x3f) << 12) + (c & 0x3f) == c & 0x1ff03f
  {
    AddOr(((c >> 18) & 0x07) << 18, ((c >> 12) & 0x3f) << 12);
    AddOr((((c >> 18) & 0x07) << 18) | (((c >> 12) & 0x3f) << 12), c & 0x3f);
  }

  lemma Regrouped(a: YogChar, b: YogChar, c: YogChar, d: YogChar)
    ensures a + b + c + d == (a + b + d) + c
  {}

  lemma Cancelled(rest: YogChar, x: YogChar, y: YogChar)
    ensures rest + x == rest + y <==> x == y
  {}

  lemma Whole5(c: YogChar)
    requires c < 0x4000000
    ensures Sum5(Part(c, 24, 0x03), Part(c, 18, 0x3f), Part(c, 12, 0x3f), Part(c, 6, 0x3f), Part(c, 0, 0x3f)) == c
  {
    PartsAre(c);
    hide Part;
    Gathered(c);
  }

  lemma Whole6(c: YogChar)
    ensures (Sum6(Part(c, 30, 0x01), Part(c, 24, 0x03), Part(c, 18, 0x3f), Part(c, 12, 0x3f), Part(c, 6, 0x3f),
                  Part(c, 0, 0x3f)) == c) <==> (c < 0x80000000 && (c >> 26) & 0x0f == 0)
  {
    PartsAre(c);
    hide Part;
    Gathered(c);
  }

  lemma KeptIff(c: YogChar)
    ensures Kept(c) == c <==> Faithful(c)
  {
    hide Part, Sum2, Sum3, Sum4, Sum5, Sum6;
    if c < 0x80 {
    } else if c < 0x800 {
      Whole2(c);
    } else if c < 0x10000 {
      Whole3(c);
    } else if c < 0x200000 {
      Whole4(c);
    } else if c < 0x4000000 {
      Whole5(c);
    } else {
      Whole6(c);
    }
  }

  /** A character survives exactly if it is faithful. */
  lemma RoundTripChar(c: YogChar)
    ensures Decoded(Encoded(c)) == c <==> Faithful(c)
  {
    hide Decoded, Encoded, Kept, Faithful;
    DecodedEncoded(c);
    KeptIff(c);
  }

  function EncodedAll(s: seq<YogChar>): seq<Byte> {
    if s == [] then [] else Encoded(s[0]) + EncodedAll(s[1..])
  }

  /** The number of characters from `at` to `end`. */
  function CharCount(bs: seq<Byte>, at: nat, end: nat): nat
    requires end <= |bs|
    decreases end - at
  {
    if at >= end then 0 else 1 + CharCount(bs, at + CharBytes(bs[at]), end)
  }

  /** Every character from `at` to `end` lies within the bytes, the last one too. */
  predicate Readable(bs: seq<Byte>, at: nat, end: nat)
    requires end <= |bs|
    decreases end - at
  {
    at >= end || (at + CharBytes(bs[at]) <= |bs| && Readable(bs, at + CharBytes(bs[at]), end))
  }

  function DecodedAll(bs: seq<Byte>, at: nat, end: nat): seq<YogChar>
    requires end <= |bs| && Readable(bs, at, end)
    decreases end - at
  {
    if at >= end then [] else [Decoded(bs[at..])] + DecodedAll(bs, at + CharBytes(bs[at]), end)
  }

  /** Decoding looks at no more than the bytes of one character. */
  lemma DecodedPrefix(s: seq<Byte>, t: seq<Byte>)
    requires s != [] && CharBytes(s[0]) == |s| && s <= t
    ensures Decoded(t) == Decoded(s)
  {
    hide CharBytes, Bits, Widened, Join2, Join3, Join4, Join5, Join6;
    assert forall i | 0 <= i < |s| :: t[i] == s[i];
  }

  /**
   * What was written is read back: as many characters, each as it is after its own round trip. So the string
   * survives exactly if each of its characters does.
   */
  lemma {:induction false} RoundTrip(before: seq<Byte>, s: seq<YogChar>, after: seq<Byte>)
    ensures var bs := before + EncodedAll(s) + after; var at, end := |before|, |before| + |EncodedAll(s)|;
      && CharCount(bs, at, end) == |s| && Readable(bs, at, end) && |DecodedAll(bs, at, end)| == |s|
      && (DecodedAll(bs, at, end) == s <==> forall c | c in s :: Faithful(c))
    decreases |s|
  {
    hide Encoded, Decoded, CharBytes, Faithful;
    if s != [] {
      var bs, at, end := before + EncodedAll(s) + after, |before|, |before| + |EncodedAll(s)|;
      var e := Encoded(s[0]);
      FirstChar(before, s, after);
      RoundTripChar(s[0]);
      RoundTrip(before + e, s[1..], after);
      var d := DecodedAll(bs, at + |e|, end);
      assert DecodedAll(bs, at, end) == [Decoded(e)] + d;
      SplitString(s, Decoded(e), d);
    }
  }

  /** The first character of an encoded string, and where the others are. */
  lemma FirstChar(before: seq<Byte>, s: seq<YogChar>, after: seq<Byte>)
    requires s != []
    ensures var bs, at, e := before + EncodedAll(s) + after, |before|, Encoded(s[0]);
      && CharBytes(e[0]) == |e| && at + |e| <= |before| + |EncodedAll(s)|
      && bs == (before + e) + EncodedAll(s[1..]) + after
      && bs[at] == e[0] && Decoded(bs[at..]) == Decoded(e)
  {
    hide Encoded, Decoded, CharBytes;
    var bs, at, e := before + EncodedAll(s) + after, |before|, Encoded(s[0]);
    EncodedLength(s[0]);
    LengthsAgree(s[0]);
    assert EncodedAll(s) == e + EncodedAll(s[1..]);
    hide EncodedAll, YogCharBytes;
    Regroup(before, e, EncodedAll(s[1..]), after);
    DecodedPrefix(e, bs[at..]);
  }

  lemma Regroup(before: seq<Byte>, e: seq<Byte>, rest: seq<Byte>, after: seq<Byte>)
    ensures before + (e + rest) + after == (before + e) + rest + after
    ensures (before + (e + rest) + after)[|before|..] == e + (rest + after)
  {}

  lemma SplitString(s: seq<YogChar>, c: YogChar, d: seq<YogChar>)
    requires s != []
    requires (c == s[0] <==> Faithful(s[0])) && (d == s[1..] <==> forall x | x in s[1..] :: Faithful(x))
    ensures [c] + d == s <==> forall x | x in s :: Faithful(x)
  {
    hide Faithful;
    assert s == [s[0]] + s[1..];
    assert ([c] + d)[0] == c && ([c] + d)[1..] == d;
  }

  lemma EncodedLength(c: YogChar)
    ensures |Encoded(c)| == YogCharBytes(c) >= 1
  {}

  /** compute_bytes. */
  method ComputeBytes(s: seq<YogChar>) returns (n: nat)
    ensures n == |EncodedAll(s)|
  {
    hide Encoded;
    n := 0;
    assert s[..0] == [];
    for i := 0 to |s|
      invariant n == |EncodedAll(s[..i])|
    {
      n := n + YogCharBytes(s[i]);
      EncodedLength(s[i]);
      EncodedNext(s, i);
    }
    assert s[..|s|] == s;
  }

  lemma EncodedNext(s: seq<YogChar>, i: nat)
    requires i < |s|
    ensures EncodedAll(s[..i + 1]) == EncodedAll(s[..i]) + Encoded(s[i])
  {
    hide Encoded;
    assert s[..i + 1] == s[..i] + [s[i]];
    EncodedAppend(s[..i], s[i]);
  }

  lemma {:induction false} EncodedAppend(s: seq<YogChar>, c: YogChar)
    ensures EncodedAll(s + [c]) == EncodedAll(s) + Encoded(c)
  {
    hide Encoded;
    if s == [] {
      assert [c][1..] == [];
    } else {
      EncodedAppend(s[1..], c);
      assert (s + [c])[1..] == s[1..] + [c];
    }
  }

  lemma {:induction false} EncodedPrefix(s: seq<YogChar>, i: nat)
    requires i <= |s|
    ensures |EncodedAll(s[..i])| <= |EncodedAll(s)|
    decreases |s| - i
  {
    hide Encoded;
    if i < |s| {
      EncodedNext(s, i);
      EncodedPrefix(s, i + 1);
    } else {
      assert s[..i] == s;
    }
  }

  /** utf8_conv_char_from_yog: one character written at `at`. */
  method ConvCharFromYog(c: YogChar, dest: array<Byte>, at: nat) returns (n: nat)
    requires at + YogCharBytes(c) <= dest.Length
    modifies dest
    ensures n == YogCharBytes(c) && dest[at..at + n] == Encoded(c)
    ensures Octets(dest[at..at + n]) == Standard(Number(c))
    ensures dest[..at] == old(dest[..at]) && dest[at + n..] == old(dest[at + n..])
  {
    hide Tail, Lead, Octets, Standard, Number;
    EncodedStandard(c);
    if c < 0x80 {
      dest[at] := c as Byte;
      return 1;
    }
    if c < 0x800 {
      dest[at], dest[at + 1] := Lead(0xc0, c, 6), Tail(c, 0);
      return 2;
    }
    if c < 0x10000 {
      dest[at], dest[at + 1], dest[at + 2] := Lead(0xe0, c, 12), Tail(c, 6), Tail(c, 0);
      return 3;
    }
    n := ConvLongChar(c, dest, at);
  }

  method StoreFour(dest: array<Byte>, at: nat, a: Byte, b: Byte, c: Byte, d: Byte)
    requires at + 4 <= dest.Length
    modifies dest
    ensures dest[at..at + 4] == [a, b, c, d] && dest[..at] == old(dest[..at]) && dest[at + 4..] == old(dest[at + 4..])
  {
    dest[at], dest[at + 1], dest[at + 2], dest[at + 3] := a, b, c, d;
  }

  method StoreFive(dest: array<Byte>, at: nat, a: Byte, b: Byte, c: Byte, d: Byte, e: Byte)
    requires at + 5 <= dest.Length
    modifies dest
    ensures dest[at..at + 5] == [a, b, c, d, e] && dest[..at] == old(dest[..at])
      && dest[at + 5..] == old(dest[at + 5..])
  {
    dest[at], dest[at + 1], dest[at + 2], dest[at + 3], dest[at + 4] := a, b, c, d, e;
  }

  method StoreSix(dest: array<Byte>, at: nat, a: Byte, b: Byte, c: Byte, d: Byte, e: Byte, f: Byte)
    requires at + 6 <= dest.Length
    modifies dest
    ensures dest[at..at + 6] == [a, b, c, d, e, f] && dest[..at] == old(dest[..at])
      && dest[at + 6..] == old(dest[at + 6..])
  {
    dest[at], dest[at + 1], dest[at + 2], dest[at + 3], dest[at + 4], dest[at + 5] := a, b, c, d, e, f;
  }

  /** The characters of four bytes and more. */
  method ConvLongChar(c: YogChar, dest: array<Byte>, at: nat) returns (n: nat)
    requires c >= 0x10000 && at + YogCharBytes(c) <= dest.Length
    modifies dest
    ensures n == YogCharBytes(c) && dest[at..at + n] == Encoded(c)
    ensures dest[..at] == old(dest[..at]) && dest[at + n..] == old(dest[at + n..])
  {
    hide Tail, Lead;
    if c < 0x200000 {
      StoreFour(dest, at, Lead(0xf0, c, 18), Tail(c, 12), Tail(c, 6), Tail(c, 0));
      return 4;
    }
    if c < 0x4000000 {
      StoreFive(dest, at, Lead(0xf8, c, 24), Tail(c, 18), Tail(c, 12), Tail(c, 6), Tail(c, 0));
      return 5;
    }
    StoreSix(dest, at, Lead(0xfc, c, 30), Tail(c, 24), Tail(c, 18), Tail(c, 12), Tail(c, 6), Tail(c, 0));
    return 6;
  }

  /** YogEncoding_conv_from_yog: exactly the computed number of bytes is written, and a zero. */
  method ConvFromYog(s: seq<YogChar>) returns (bin: array<Byte>, size: nat)
    ensures fresh(bin) && size == bin.Length && bin[..] == EncodedAll(s) + [0]
    ensures Octets(bin[..]) == StandardAll(s) + [0]
  {
    hide Encoded, YogCharBytes, Octet, Number, Standard, StandardAll, Octets;
    var bytesNum := ComputeBytes(s);
    bin := new Byte[bytesNum + 1];
    var pc := 0;
    assert s[..0] == [];
    for i := 0 to |s|
      invariant pc == |EncodedAll(s[..i])| <= bytesNum
      invariant bin[..pc] == EncodedAll(s[..i])
    {
      EncodedLength(s[i]);
      EncodedNext(s, i);
      EncodedPrefix(s, i + 1);
      var n := ConvCharFromYog(s[i], bin, pc);
      assert bin[..pc + n] == bin[..pc] + bin[pc..pc + n];
      pc := pc + n;
    }
    assert s[..|s|] == s;
    bin[pc] := 0;
    size := pc + 1;
    assert bin[..] == bin[..pc] + [0];
    Terminated(s);
  }

  lemma Terminated(s: seq<YogChar>)
    ensures Octets(EncodedAll(s) + [0]) == StandardAll(s) + [0]
  {
    hide StandardAll, EncodedAll, Octet;
    EncodedAllStandard(s);
    OctetsConcat(EncodedAll(s), [0]);
    ZeroOctet();
  }

  lemma ZeroOctet()
    ensures Octet(0) == 0
  {}

  /** count_chars. */
  method CountChars(bs: array<Byte>, begin: nat, end: nat) returns (n: nat)
    requires end <= bs.Length
    ensures n == CharCount(bs[..], begin, end)
  {
    n := 0;
    var pc := begin;
    while pc < end
      invariant n + CharCount(bs[..], pc, end) == CharCount(bs[..], begin, end)
    {
      n := n + 1;
      pc := pc + CharBytes(bs[pc]);
    }
  }

  /** YogEncoding_conv_to_yog. */
  method ConvToYog(bs: array<Byte>, begin: nat, end: nat) returns (s: array<YogChar>)
    requires end <= bs.Length && Readable(bs[..], begin, end)
    ensures fresh(s) && s[..] == DecodedAll(bs[..], begin, end)
  {
    hide Decoded, CharBytes, CharCount, DecodedAll, Readable;
    DecodedEnd(bs[..], end);
    var charsNum := CountChars(bs, begin, end);
    s := new YogChar[charsNum];
    var pc: nat := begin;
    for i := 0 to charsNum
      invariant Readable(bs[..], pc, end) && i + CharCount(bs[..], pc, end) == charsNum
      invariant s[..i] + DecodedAll(bs[..], pc, end) == DecodedAll(bs[..], begin, end)
    {
      DecodedStep(bs[..], pc, end);
      assert bs[..][pc..] == bs[pc..];
      ghost var before := s[..i];
      s[i] := Decoded(bs[pc..]);
      pc := pc + CharBytes(bs[pc]);
      assert s[..i] == before;
      assert s[..i + 1] == s[..i] + [s[i]];
    }
    DecodedStep(bs[..], pc, end);
    assert s[..charsNum] == s[..];
  }

  lemma DecodedEnd(bs: seq<Byte>, end: nat)
    requires end <= |bs|
    ensures Readable(bs, end, end) && DecodedAll(bs, end, end) == [] && CharCount(bs, end, end) == 0
  {}

  /** One character read, or none left. */
  lemma DecodedStep(bs: seq<Byte>, at: nat, end: nat)
    requires end <= |bs| && Readable(bs, at, end)
    ensures CharCount(bs, at, end) == 0 ==> DecodedAll(bs, at, end) == []
    ensures CharCount(bs, at, end) > 0 ==>
      && at < end && at + CharBytes(bs[at]) <= |bs| && Readable(bs, at + CharBytes(bs[at]), end)
      && CharCount(bs, at, end) == 1 + CharCount(bs, at + CharBytes(bs[at]), end)
      && DecodedAll(bs, at, end) == [Decoded(bs[at..])] + DecodedAll(bs, at + CharBytes(bs[at]), end)
  {
    hide Decoded, CharBytes;
  }
}
