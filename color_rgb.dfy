/**
 * The RGBA colour of the SVG library: four components in [0, 1], parsed
 * from and printed as hexadecimal strings, and mixed component-wise with
 * red, green and blue treated as cyclic.
 *
 * JavaScript numbers are modelled as reals or NaN: `parseInt` yields NaN
 * for a slice with no hexadecimal digit, and NaN then flows through the
 * constructor (both of its comparisons are false) and the arithmetic.
 */
module Color {
  import opened Wrappers

  /** A JavaScript number as it can arise here. */
  datatype Num = NaN | Real(v: real)

  /** A component as the constructor leaves it: NaN, or a value in [0, 1]. */
  predicate Stored(x: Num)
  {
    x.NaN? || 0.0 <= x.v <= 1.0
  }

  /** `clamp(min, max, value)`: the value bounded into [min, max]. */
  function Clamp(lo: real, hi: real, x: real): (r: real)
    requires lo <= hi
    ensures lo <= r <= hi
    ensures lo <= x <= hi ==> r == x
    ensures x < lo ==> r == lo
    ensures x > hi ==> r == hi
  {
    if x < lo then lo else if x > hi then hi else x
  }

  /** One constructor argument: clamped into [0, 1] when it is out of range; NaN passes both tests and is kept. */
  function Component(x: Num): (r: Num)
    ensures Stored(r)
    ensures r.NaN? <==> x.NaN?
    ensures Stored(x) ==> r == x
  {
    match x
    case NaN => NaN
    case Real(v) => if v > 1.0 || v < 0.0 then Real(Clamp(0.0, 1.0, v)) else x
  }

  datatype ColorRgb = ColorRgb(r: Num, g: Num, b: Num, a: Num)

  predicate Valid(c: ColorRgb)
  {
    Stored(c.r) && Stored(c.g) && Stored(c.b) && Stored(c.a)
  }

  /** The constructor `new ColorRgb(r, g, b, a)`: every colour it builds is valid, and valid arguments are kept as given. */
  function New(r: Num, g: Num, b: Num, a: Num): (c: ColorRgb)
    ensures Valid(c)
    ensures Stored(r) && Stored(g) && Stored(b) && Stored(a) ==> c == ColorRgb(r, g, b, a)
  {
    ColorRgb(Component(r), Component(g), Component(b), Component(a))
  }

  // ---------------------------------------------------------------------
  // `parseInt(str, 16)`
  // ---------------------------------------------------------------------

  /** The characters `parseInt` skips at the start: white space and line terminators. */
  predicate IsSpace(c: char)
  {
    var k := c as int;
    9 <= k <= 13 || k == 0x20 || k == 0xA0 || k == 0x1680 || 0x2000 <= k <= 0x200A
    || k == 0x2028 || k == 0x2029 || k == 0x202F || k == 0x205F || k == 0x3000 || k == 0xFEFF
  }

  predicate IsHexDigit(c: char)
  {
    '0' <= c <= '9' || 'a' <= c <= 'f' || 'A' <= c <= 'F'
  }

  predicate IsLowerHexDigit(c: char)
  {
    '0' <= c <= '9' || 'a' <= c <= 'f'
  }

  predicate LowerHex(s: seq<char>)
  {
    forall i :: 0 <= i < |s| ==> IsLowerHexDigit(s[i])
  }

  function DigitValue(c: char): (d: nat)
    requires IsHexDigit(c)
    ensures d < 16
  {
    if '0' <= c <= '9' then c as int - '0' as int
    else if 'a' <= c <= 'f' then c as int - 'a' as int + 10
    else c as int - 'A' as int + 10
  }

  /** The lower-case digit `Number.prototype.toString(16)` writes for d. */
  function DigitChar(d: nat): (c: char)
    requires d < 16
    ensures IsLowerHexDigit(c) && DigitValue(c) == d
  {
    if d < 10 then (d + '0' as int) as char else (d - 10 + 'a' as int) as char
  }

  lemma DigitCharValue(c: char)
    requires IsLowerHexDigit(c)
    ensures DigitChar(DigitValue(c)) == c
  {
  }

  /** The string without its leading white space. */
  function TrimStart(s: seq<char>): seq<char>
  {
    if s != [] && IsSpace(s[0]) then TrimStart(s[1..]) else s
  }

  /** The longest prefix made of hexadecimal digits. */
  function DigitPrefix(s: seq<char>): (r: seq<char>)
    ensures forall i :: 0 <= i < |r| ==> IsHexDigit(r[i])
  {
    if s != [] && IsHexDigit(s[0]) then [s[0]] + DigitPrefix(s[1..]) else []
  }

  /** A run of digits is its own longest digit prefix. */
  lemma {:induction false} DigitPrefixAll(s: seq<char>)
    requires forall i :: 0 <= i < |s| ==> IsHexDigit(s[i])
    ensures DigitPrefix(s) == s
  {
    if s != [] {
      DigitPrefixAll(s[1..]);
    }
  }

  /** The value of a string of hexadecimal digits, most significant first. */
  function HexValue(s: seq<char>): nat
    requires forall i :: 0 <= i < |s| ==> IsHexDigit(s[i])
  {
    if s == [] then 0 else 16 * HexValue(s[..|s| - 1]) + DigitValue(s[|s| - 1])
  }

  /** The sign `parseInt` reads: whether the number is negative, and what follows the sign. */
  function Signed(t: seq<char>): (bool, seq<char>)
  {
    if t != [] && t[0] == '-' then (true, t[1..])
    else if t != [] && t[0] == '+' then (false, t[1..])
    else (false, t)
  }

  /** With radix 16, `parseInt` skips a `0x` or `0X` prefix. */
  function Unprefixed(u: seq<char>): seq<char>
  {
    if |u| >= 2 && u[0] == '0' && (u[1] == 'x' || u[1] == 'X') then u[2..] else u
  }

  /**
   * `parseInt(s, 16)`: skip leading white space, take an optional sign and
   * then an optional `0x`/`0X` prefix, and read the longest run of digits;
   * with no digit at all the result is NaN.
   */
  function ParseIntHex(s: seq<char>): Num
  {
    var (negative, unsigned) := Signed(TrimStart(s));
    var digits := DigitPrefix(Unprefixed(unsigned));
    if digits == [] then NaN
    else if negative then Real(-(HexValue(digits) as real))
    else Real(HexValue(digits) as real)
  }

  predicate AllHex(s: seq<char>)
  {
    forall i :: 0 <= i < |s| ==> IsHexDigit(s[i])
  }

  /** A plain run of hexadecimal digits (not starting with `0x`) parses as its value. */
  lemma ParseDigits(s: seq<char>)
    requires s != [] && AllHex(s) && !(|s| >= 2 && s[0] == '0' && (s[1] == 'x' || s[1] == 'X'))
    ensures ParseIntHex(s) == Real(HexValue(s) as real)
  {
    assert IsHexDigit(s[0]);
    assert TrimStart(s) == s;
    assert Signed(s) == (false, s);
    assert Unprefixed(s) == s;
    DigitPrefixAll(s);
  }

  /** A string starting with anything but white space, a sign or a digit parses as NaN. */
  lemma ParseNaN(s: seq<char>)
    requires s != [] && !IsSpace(s[0]) && !IsHexDigit(s[0]) && s[0] != '+' && s[0] != '-'
    ensures ParseIntHex(s) == NaN
  {
    assert TrimStart(s) == s;
    assert Signed(s) == (false, s);
    assert Unprefixed(s) == s;
    assert DigitPrefix(s) == [];
  }

  // ---------------------------------------------------------------------
  // fromHex
  // ---------------------------------------------------------------------

  /** `s.replace(c, '')` with a one-character pattern: the first occurrence removed. */
  function RemoveFirst(s: seq<char>, c: char): (r: seq<char>)
    ensures c in s ==> |r| == |s| - 1
    ensures c !in s ==> r == s
  {
    if s == [] then []
    else if s[0] == c then s[1..]
    else [s[0]] + RemoveFirst(s[1..], c)
  }

  /**
   * `hex.replace(/^0x|#/, '')`: a leading `0x` is removed; otherwise the
   * first `#`, wherever it is.
   */
  function StripPrefix(hex: seq<char>): seq<char>
  {
    if |hex| >= 2 && hex[0] == '0' && hex[1] == 'x' then hex[2..] else RemoveFirst(hex, '#')
  }

  /** What the prefix removal leaves: a leading `0x` goes, else one `#` goes if there is any, else nothing changes. */
  lemma StripPrefixLength(hex: seq<char>)
    ensures |hex| >= 2 && hex[..2] == "0x" ==> StripPrefix(hex) == hex[2..]
    ensures !(|hex| >= 2 && hex[..2] == "0x") && '#' in hex ==> |StripPrefix(hex)| == |hex| - 1
    ensures !(|hex| >= 2 && hex[..2] == "0x") && '#' !in hex ==> StripPrefix(hex) == hex
  {
    if |hex| >= 2 && hex[..2] == "0x" {
      assert hex[0] == '0' && hex[1] == 'x';
    }
  }

  /** The inner `fromHex(str, start, end, multiplier)`: the slice parsed, scaled and divided by 255. */
  function Channel(raw: seq<char>, start: nat, end: nat, multiplier: real): Num
    requires start <= end <= |raw|
  {
    match ParseIntHex(raw[start..end])
    case NaN => NaN
    case Real(n) => Real(multiplier * n / 255.0)
  }

  /**
   * `ColorRgb.fromHex`: three digits (each scaled by 17), six digits, or
   * eight digits (the last two the alpha); alpha defaults to 1. Any other
   * length after the prefix is removed throws.
   */
  function FromHex(hex: seq<char>): Result<ColorRgb>
  {
    var raw := StripPrefix(hex);
    if |raw| == 3 then
      Success(New(Channel(raw, 0, 1, 17.0), Channel(raw, 1, 2, 17.0), Channel(raw, 2, 3, 17.0), Real(1.0)))
    else if |raw| == 6 then
      Success(New(Channel(raw, 0, 2, 1.0), Channel(raw, 2, 4, 1.0), Channel(raw, 4, 6, 1.0), Real(1.0)))
    else if |raw| == 8 then
      Success(New(Channel(raw, 0, 2, 1.0), Channel(raw, 2, 4, 1.0), Channel(raw, 4, 6, 1.0), Channel(raw, 6, 8, 1.0)))
    else
      Failure("Cannot construct ColorRgb from value " + hex)
  }

  // ---------------------------------------------------------------------
  // toHex
  // ---------------------------------------------------------------------

  /** `Math.round`: to the nearest integer, halves upward. */
  function Round(x: real): (n: int)
    ensures x - 0.5 < n as real <= x + 0.5
  {
    (x + 0.5).Floor
  }

  /** The digits of a natural number in base 16, without leading zeros. */
  function Hex(n: nat): seq<char>
  {
    if n < 16 then [DigitChar(n)] else Hex(n / 16) + [DigitChar(n % 16)]
  }

  /** `n.toString(16)` for an integer n. */
  function ToString16(n: int): seq<char>
  {
    if n < 0 then "-" + Hex(-n) else Hex(n)
  }

  /** `s.padStart(2, '0')` */
  function PadStart2(s: seq<char>): seq<char>
  {
    if |s| == 0 then "00" else if |s| == 1 then "0" + s else s
  }

  /** One byte of `toHex`: `Math.round(x * 255).toString(16).padStart(2, '0')`; NaN prints as "NaN". */
  function ByteHex(x: Num): seq<char>
  {
    match x
    case NaN => "NaN"
    case Real(v) => PadStart2(ToString16(Round(v * 255.0)))
  }

  /** A byte in [0, 255] as exactly two lower-case digits. */
  function Hex2(n: nat): (s: seq<char>)
    requires n < 256
    ensures |s| == 2 && IsLowerHexDigit(s[0]) && IsLowerHexDigit(s[1])
  {
    [DigitChar(n / 16), DigitChar(n % 16)]
  }

  /** `toHex`: '#' followed by the four components as bytes. */
  function ToHex(c: ColorRgb): seq<char>
  {
    "#" + ByteHex(c.r) + ByteHex(c.g) + ByteHex(c.b) + ByteHex(c.a)
  }

  /** A component that is a number in [0, 1]. */
  predicate Unit(x: Num)
  {
    x.Real? && 0.0 <= x.v <= 1.0
  }

  /** The byte value a component in [0, 1] is written as. */
  function Byte(x: real): (n: nat)
    requires 0.0 <= x <= 1.0
    ensures n < 256
  {
    Round(x * 255.0)
  }

  /** A component in [0, 1] is written as its rounded byte value, in two digits. */
  lemma ByteHexOfUnit(x: real)
    requires 0.0 <= x <= 1.0
    ensures ByteHex(Real(x)) == Hex2(Byte(x))
  {
    var n := Byte(x);
    if n >= 16 {
      assert Hex(n) == Hex(n / 16) + [DigitChar(n % 16)];
      assert Hex(n / 16) == [DigitChar(n / 16)];
    } else {
      assert n / 16 == 0 && n % 16 == n;
    }
  }

  /** A colour of four numbers in [0, 1] is written as '#' and eight lower-case digits, its four bytes. */
  lemma ToHexShape(c: ColorRgb)
    requires Unit(c.r) && Unit(c.g) && Unit(c.b) && Unit(c.a)
    ensures ToHex(c) == ['#'] + Hex8(Byte(c.r.v), Byte(c.g.v), Byte(c.b.v), Byte(c.a.v))
  {
    ByteHexOfUnit(c.r.v);
    ByteHexOfUnit(c.g.v);
    ByteHexOfUnit(c.b.v);
    ByteHexOfUnit(c.a.v);
  }

  /** Four bytes as eight lower-case digits. */
  function Hex8(r: nat, g: nat, b: nat, a: nat): (s: seq<char>)
    requires r < 256 && g < 256 && b < 256 && a < 256
    ensures |s| == 8 && LowerHex(s)
    ensures s[0..2] == Hex2(r) && s[2..4] == Hex2(g) && s[4..6] == Hex2(b) && s[6..8] == Hex2(a)
  {
    Hex2(r) + Hex2(g) + Hex2(b) + Hex2(a)
  }

  /** The value of two digits. */
  lemma HexValue2(s: seq<char>)
    requires |s| == 2 && IsHexDigit(s[0]) && IsHexDigit(s[1])
    ensures HexValue(s) == 16 * DigitValue(s[0]) + DigitValue(s[1])
  {
    assert s[..1] == [s[0]];
    assert HexValue(s[..1]) == DigitValue(s[0]) by {
      assert s[..1][..0] == [];
    }
  }

  /** Two digits read back as the byte they were written from. */
  lemma Hex2Value(n: nat)
    requires n < 256
    ensures ParseIntHex(Hex2(n)) == Real(n as real)
  {
    var s := Hex2(n);
    HexValue2(s);
    assert IsHexDigit(s[0]) && IsHexDigit(s[1]) && s[1] != 'x' && s[1] != 'X';
    ParseDigits(s);
  }

  /** Two lower-case digits are what Hex2 writes for their value. */
  lemma Hex2OfValue(s: seq<char>)
    requires |s| == 2 && IsLowerHexDigit(s[0]) && IsLowerHexDigit(s[1])
    ensures HexValue(s) < 256 && Hex2(HexValue(s)) == s
  {
    HexValue2(s);
    var n := HexValue(s);
    assert n / 16 == DigitValue(s[0]) && n % 16 == DigitValue(s[1]);
    DigitCharValue(s[0]);
    DigitCharValue(s[1]);
  }

  /** A byte divided by 255 is written back as that byte. */
  lemma ByteOfFraction(n: nat)
    requires n < 256
    ensures 0.0 <= n as real / 255.0 <= 1.0 && Byte(n as real / 255.0) == n
  {
    assert (n as real / 255.0) * 255.0 == n as real;
  }

  /** The byte two lower-case digits at `start` denote. */
  function ByteAt(raw: seq<char>, start: nat): (n: nat)
    requires start + 2 <= |raw| && IsLowerHexDigit(raw[start]) && IsLowerHexDigit(raw[start + 1])
    ensures n < 256
  {
    Hex2OfValue(raw[start..start + 2]);
    HexValue(raw[start..start + 2])
  }

  /** The byte two digits denote is written back as those digits. */
  lemma ByteAtHex2(raw: seq<char>, start: nat)
    requires start + 2 <= |raw| && IsLowerHexDigit(raw[start]) && IsLowerHexDigit(raw[start + 1])
    ensures Hex2(ByteAt(raw, start)) == raw[start..start + 2]
  {
    Hex2OfValue(raw[start..start + 2]);
  }

  /** A two-digit slice gives its byte divided by 255. */
  lemma ChannelOfDigits(raw: seq<char>, start: nat)
    requires start + 2 <= |raw| && IsLowerHexDigit(raw[start]) && IsLowerHexDigit(raw[start + 1])
    ensures Channel(raw, start, start + 2, 1.0) == Fraction(ByteAt(raw, start))
  {
    var s := raw[start..start + 2];
    assert IsHexDigit(s[0]) && IsHexDigit(s[1]) && s[1] != 'x' && s[1] != 'X';
    ParseDigits(s);
    assert TrimStart(s) == s;
    assert Signed(s) == (false, s);
    assert Unprefixed(s) == s;
    DigitPrefixAll(s);
  }

  /** The doubled digit `ddd` stands for: 17 times the digit's value. */
  function Doubled(c: char): (n: nat)
    requires IsLowerHexDigit(c)
    ensures n < 256
  {
    17 * DigitValue(c)
  }

  /** The doubled digit is written back as the digit twice. */
  lemma DoubledHex2(c: char)
    requires IsLowerHexDigit(c)
    ensures Hex2(Doubled(c)) == [c, c]
  {
    var d := DigitValue(c);
    assert (17 * d) / 16 == d && (17 * d) % 16 == d;
    DigitCharValue(c);
  }

  /** A one-digit slice, scaled by 17: the doubled digit divided by 255. */
  lemma ChannelOfDigit(raw: seq<char>, start: nat)
    requires start + 1 <= |raw| && IsLowerHexDigit(raw[start])
    ensures Channel(raw, start, start + 1, 17.0) == Fraction(Doubled(raw[start]))
  {
    var s := raw[start..start + 1];
    assert s == [raw[start]] && s[..0] == [];
    assert IsHexDigit(s[0]);
    ParseDigits(s);
    assert TrimStart(s) == s;
    assert Signed(s) == (false, s);
    assert Unprefixed(s) == s;
    DigitPrefixAll(s);
    var d := DigitValue(raw[start]);
    assert (17 * d) as real == 17.0 * (d as real);
  }

  /** The prefixes `fromHex` accepts in front of the digits. */
  predicate HexPrefix(p: seq<char>)
  {
    p == "" || p == "#" || p == "0x"
  }

  lemma StripHexPrefix(p: seq<char>, raw: seq<char>)
    requires HexPrefix(p) && LowerHex(raw) && raw != []
    ensures StripPrefix(p + raw) == raw
  {
    forall i | 0 <= i < |raw|
      ensures raw[i] != '#'
    {
      assert IsLowerHexDigit(raw[i]);
    }
    assert '#' !in raw;
    if p == "#" {
      assert (p + raw)[0] == '#' && (p + raw)[1..] == raw;
    } else if p == "0x" {
      assert (p + raw)[..2] == "0x" && (p + raw)[2..] == raw;
    } else {
      assert p + raw == raw;
      if |raw| >= 2 {
        assert IsLowerHexDigit(raw[1]);
      }
    }
  }

  /** A byte as the component `fromHex` makes of it. */
  function Fraction(n: nat): (x: Num)
    requires n < 256
    ensures Unit(x)
  {
    Real(n as real / 255.0)
  }

  /** A byte made into a component is written back as that byte. */
  lemma FractionByte(n: nat)
    requires n < 256
    ensures Byte(Fraction(n).v) == n
  {
    ByteOfFraction(n);
  }

  /**
   * fromHex succeeds exactly when 3, 6 or 8 characters remain once the
   * prefix is removed, and then gives a valid colour, opaque unless an
   * alpha byte was given; otherwise it fails with a message naming the input.
   */
  lemma FromHexOutcome(hex: seq<char>)
    ensures FromHex(hex).Success? <==> |StripPrefix(hex)| in {3, 6, 8}
    ensures FromHex(hex).Success? ==> Valid(FromHex(hex).value)
    ensures FromHex(hex).Success? && |StripPrefix(hex)| != 8 ==> FromHex(hex).value.a == Real(1.0)
    ensures FromHex(hex).Failure? ==> FromHex(hex).error == "Cannot construct ColorRgb from value " + hex
  {
  }

  /** The colour eight lower-case digits denote: four bytes, each over 255, the last one alpha. */
  function Color8(raw: seq<char>): ColorRgb
    requires |raw| == 8 && LowerHex(raw)
  {
    ColorRgb(Fraction(ByteAt(raw, 0)), Fraction(ByteAt(raw, 2)), Fraction(ByteAt(raw, 4)), Fraction(ByteAt(raw, 6)))
  }

  /** The colour six lower-case digits denote: three bytes, each over 255, and an opaque alpha. */
  function Color6(raw: seq<char>): ColorRgb
    requires |raw| == 6 && LowerHex(raw)
  {
    ColorRgb(Fraction(ByteAt(raw, 0)), Fraction(ByteAt(raw, 2)), Fraction(ByteAt(raw, 4)), Fraction(255))
  }

  /** The colour three lower-case digits denote: each digit doubled into a byte, and an opaque alpha. */
  function Color3(raw: seq<char>): ColorRgb
    requires |raw| == 3 && LowerHex(raw)
  {
    ColorRgb(Fraction(Doubled(raw[0])), Fraction(Doubled(raw[1])), Fraction(Doubled(raw[2])), Fraction(255))
  }

  /** The colour c has the given channels of raw as its components, all in [0, 1]. */
  predicate Channels(raw: seq<char>, width: nat, multiplier: real, c: ColorRgb)
    requires 3 * width <= |raw|
  {
    Channel(raw, 0, width, multiplier) == c.r && Channel(raw, width, 2 * width, multiplier) == c.g
    && Channel(raw, 2 * width, 3 * width, multiplier) == c.b
    && Unit(c.r) && Unit(c.g) && Unit(c.b) && Unit(c.a)
  }

  lemma Channels8(raw: seq<char>)
    requires |raw| == 8 && LowerHex(raw)
    ensures Channels(raw, 2, 1.0, Color8(raw)) && Channel(raw, 6, 8, 1.0) == Color8(raw).a
  {
    ChannelOfDigits(raw, 0);
    ChannelOfDigits(raw, 2);
    ChannelOfDigits(raw, 4);
    ChannelOfDigits(raw, 6);
  }

  lemma Channels6(raw: seq<char>)
    requires |raw| == 6 && LowerHex(raw)
    ensures Channels(raw, 2, 1.0, Color6(raw)) && Color6(raw).a == Real(1.0)
  {
    ChannelOfDigits(raw, 0);
    ChannelOfDigits(raw, 2);
    ChannelOfDigits(raw, 4);
  }

  lemma Channels3(raw: seq<char>)
    requires |raw| == 3 && LowerHex(raw)
    ensures Channels(raw, 1, 17.0, Color3(raw)) && Color3(raw).a == Real(1.0)
  {
    ChannelOfDigit(raw, 0);
    ChannelOfDigit(raw, 1);
    ChannelOfDigit(raw, 2);
  }

  /** Eight characters left whose four two-digit channels are numbers in [0, 1]: those numbers, unclamped. */
  lemma FromHexRaw8(hex: seq<char>, raw: seq<char>, c: ColorRgb)
    requires StripPrefix(hex) == raw && |raw| == 8
    requires Channels(raw, 2, 1.0, c) && Channel(raw, 6, 8, 1.0) == c.a
    ensures FromHex(hex) == Success(c)
  {
  }

  /** Six characters left whose three two-digit channels are numbers in [0, 1]: those numbers, and alpha 1. */
  lemma FromHexRaw6(hex: seq<char>, raw: seq<char>, c: ColorRgb)
    requires StripPrefix(hex) == raw && |raw| == 6
    requires Channels(raw, 2, 1.0, c) && c.a == Real(1.0)
    ensures FromHex(hex) == Success(c)
  {
  }

  /** Three characters left whose one-digit channels, scaled by 17, are numbers in [0, 1]: those numbers, and alpha 1. */
  lemma FromHexRaw3(hex: seq<char>, raw: seq<char>, c: ColorRgb)
    requires StripPrefix(hex) == raw && |raw| == 3
    requires Channels(raw, 1, 17.0, c) && c.a == Real(1.0)
    ensures FromHex(hex) == Success(c)
  {
  }

  /** Eight digits after any accepted prefix: four bytes, the last one alpha. */
  lemma FromHex8(p: seq<char>, raw: seq<char>)
    requires HexPrefix(p) && |raw| == 8 && LowerHex(raw)
    ensures FromHex(p + raw) == Success(Color8(raw))
  {
    StripHexPrefix(p, raw);
    Channels8(raw);
    FromHexRaw8(p + raw, raw, Color8(raw));
  }

  /** Six digits after any accepted prefix: three bytes and an opaque alpha. */
  lemma FromHex6(p: seq<char>, raw: seq<char>)
    requires HexPrefix(p) && |raw| == 6 && LowerHex(raw)
    ensures FromHex(p + raw) == Success(Color6(raw))
  {
    StripHexPrefix(p, raw);
    Channels6(raw);
    FromHexRaw6(p + raw, raw, Color6(raw));
  }

  /** Three digits after any accepted prefix: each digit doubled into a byte, and an opaque alpha. */
  lemma FromHex3(p: seq<char>, raw: seq<char>)
    requires HexPrefix(p) && |raw| == 3 && LowerHex(raw)
    ensures FromHex(p + raw) == Success(Color3(raw))
  {
    StripHexPrefix(p, raw);
    Channels3(raw);
    FromHexRaw3(p + raw, raw, Color3(raw));
  }

  /** A colour built from four bytes is written as those bytes. */
  lemma ToHexOfBytes(r: nat, g: nat, b: nat, a: nat)
    requires r < 256 && g < 256 && b < 256 && a < 256
    ensures ToHex(ColorRgb(Fraction(r), Fraction(g), Fraction(b), Fraction(a))) == ['#'] + Hex8(r, g, b, a)
  {
    FractionByte(r);
    FractionByte(g);
    FractionByte(b);
    FractionByte(a);
    ToHexShape(ColorRgb(Fraction(r), Fraction(g), Fraction(b), Fraction(a)));
  }

  /** Eight lower-case digits are the four bytes they denote, written back. */
  lemma Hex8OfDigits(raw: seq<char>)
    requires |raw| == 8 && LowerHex(raw)
    ensures Hex8(ByteAt(raw, 0), ByteAt(raw, 2), ByteAt(raw, 4), ByteAt(raw, 6)) == raw
  {
    ByteAtHex2(raw, 0);
    ByteAtHex2(raw, 2);
    ByteAtHex2(raw, 4);
    ByteAtHex2(raw, 6);
    assert raw == raw[0..2] + raw[2..4] + raw[4..6] + raw[6..8];
  }

  /** Six lower-case digits are the three bytes they denote written back, before an opaque alpha byte. */
  lemma Hex6OfDigits(raw: seq<char>)
    requires |raw| == 6 && LowerHex(raw)
    ensures Hex8(ByteAt(raw, 0), ByteAt(raw, 2), ByteAt(raw, 4), 255) == raw + "ff"
  {
    var h := Hex8(ByteAt(raw, 0), ByteAt(raw, 2), ByteAt(raw, 4), 255);
    ByteAtHex2(raw, 0);
    ByteAtHex2(raw, 2);
    ByteAtHex2(raw, 4);
    assert Hex2(255) == "ff";
    assert raw == raw[0..2] + raw[2..4] + raw[4..6];
    assert h == h[0..2] + h[2..4] + h[4..6] + h[6..8];
  }

  /** Three lower-case digits are the doubled bytes they denote written back, before an opaque alpha byte. */
  lemma Hex3OfDigits(raw: seq<char>)
    requires |raw| == 3 && LowerHex(raw)
    ensures ['#'] + Hex8(Doubled(raw[0]), Doubled(raw[1]), Doubled(raw[2]), 255) == ['#', raw[0], raw[0], raw[1], raw[1], raw[2], raw[2], 'f', 'f']
  {
    var h := Hex8(Doubled(raw[0]), Doubled(raw[1]), Doubled(raw[2]), 255);
    DoubledHex2(raw[0]);
    DoubledHex2(raw[1]);
    DoubledHex2(raw[2]);
    assert Hex2(255) == "ff";
    assert h == h[0..2] + h[2..4] + h[4..6] + h[6..8];
  }

  lemma ToHexColor8(raw: seq<char>)
    requires |raw| == 8 && LowerHex(raw)
    ensures ToHex(Color8(raw)) == "#" + raw
  {
    ToHexOfBytes(ByteAt(raw, 0), ByteAt(raw, 2), ByteAt(raw, 4), ByteAt(raw, 6));
    Hex8OfDigits(raw);
  }

  lemma ToHexColor6(raw: seq<char>)
    requires |raw| == 6 && LowerHex(raw)
    ensures ToHex(Color6(raw)) == "#" + raw + "ff"
  {
    ToHexOfBytes(ByteAt(raw, 0), ByteAt(raw, 2), ByteAt(raw, 4), 255);
    Hex6OfDigits(raw);
  }

  lemma ToHexColor3(raw: seq<char>)
    requires |raw| == 3 && LowerHex(raw)
    ensures ToHex(Color3(raw)) == ['#', raw[0], raw[0], raw[1], raw[1], raw[2], raw[2], 'f', 'f']
  {
    ToHexOfBytes(Doubled(raw[0]), Doubled(raw[1]), Doubled(raw[2]), 255);
    Hex3OfDigits(raw);
  }

  /** Eight lower-case digits survive a round trip through fromHex and toHex. */
  lemma HexRoundTrip8(p: seq<char>, raw: seq<char>)
    requires HexPrefix(p) && |raw| == 8 && LowerHex(raw)
    ensures FromHex(p + raw).Success?
    ensures ToHex(FromHex(p + raw).value) == "#" + raw
  {
    FromHex8(p, raw);
    ToHexColor8(raw);
  }

  /** Six lower-case digits come back with an opaque alpha byte appended. */
  lemma HexRoundTrip6(p: seq<char>, raw: seq<char>)
    requires HexPrefix(p) && |raw| == 6 && LowerHex(raw)
    ensures FromHex(p + raw).Success?
    ensures ToHex(FromHex(p + raw).value) == "#" + raw + "ff"
  {
    FromHex6(p, raw);
    ToHexColor6(raw);
  }

  /** Three lower-case digits come back doubled, with an opaque alpha byte. */
  lemma HexRoundTrip3(p: seq<char>, raw: seq<char>)
    requires HexPrefix(p) && |raw| == 3 && LowerHex(raw)
    ensures FromHex(p + raw).Success?
    ensures ToHex(FromHex(p + raw).value) == ['#', raw[0], raw[0], raw[1], raw[1], raw[2], raw[2], 'f', 'f']
  {
    FromHex3(p, raw);
    ToHexColor3(raw);
  }

  /** The colour eight written bytes denote is made of those bytes. */
  lemma Color8OfHex8(r: nat, g: nat, b: nat, a: nat)
    requires r < 256 && g < 256 && b < 256 && a < 256
    ensures Color8(Hex8(r, g, b, a)) == ColorRgb(Fraction(r), Fraction(g), Fraction(b), Fraction(a))
  {
    var raw := Hex8(r, g, b, a);
    ByteAtHex2(raw, 0);
    ByteAtHex2(raw, 2);
    ByteAtHex2(raw, 4);
    ByteAtHex2(raw, 6);
    Hex2Injective(ByteAt(raw, 0), r);
    Hex2Injective(ByteAt(raw, 2), g);
    Hex2Injective(ByteAt(raw, 4), b);
    Hex2Injective(ByteAt(raw, 6), a);
  }

  /** A component in [0, 1] after a trip through its byte: within half a byte step of where it was. */
  function Quantized(x: real): (q: real)
    requires 0.0 <= x <= 1.0
    ensures 0.0 <= q <= 1.0
    ensures -1.0 / 510.0 <= q - x <= 1.0 / 510.0
  {
    Byte(x) as real / 255.0
  }

  /** toHex then fromHex gives back every colour of numbers in [0, 1] up to the rounding of each component to a byte. */
  lemma ToHexFromHex(c: ColorRgb)
    requires Unit(c.r) && Unit(c.g) && Unit(c.b) && Unit(c.a)
    ensures FromHex(ToHex(c)) ==
      Success(ColorRgb(Real(Quantized(c.r.v)), Real(Quantized(c.g.v)), Real(Quantized(c.b.v)), Real(Quantized(c.a.v))))
  {
    ToHexShape(c);
    FromHexOfHex8(ToHex(c), Byte(c.r.v), Byte(c.g.v), Byte(c.b.v), Byte(c.a.v));
    FractionOfByte(c.r.v);
    FractionOfByte(c.g.v);
    FractionOfByte(c.b.v);
    FractionOfByte(c.a.v);
  }

  lemma FractionOfByte(x: real)
    requires 0.0 <= x <= 1.0
    ensures Fraction(Byte(x)) == Real(Quantized(x))
  {
  }

  /** A `#` and eight written bytes are read back as those bytes. */
  lemma FromHexOfHex8(hex: seq<char>, r: nat, g: nat, b: nat, a: nat)
    requires r < 256 && g < 256 && b < 256 && a < 256
    requires hex == ['#'] + Hex8(r, g, b, a)
    ensures FromHex(hex) == Success(ColorRgb(Fraction(r), Fraction(g), Fraction(b), Fraction(a)))
  {
    FromHex8("#", Hex8(r, g, b, a));
    Color8OfHex8(r, g, b, a);
  }

  lemma Hex2Injective(m: nat, n: nat)
    requires m < 256 && n < 256 && Hex2(m) == Hex2(n)
    ensures m == n
  {
    assert DigitValue(Hex2(m)[0]) == m / 16 && DigitValue(Hex2(m)[1]) == m % 16;
  }

  // ---------------------------------------------------------------------
  // mix
  // ---------------------------------------------------------------------

  /** `lerp`: the weighted sum of the two ends. */
  function Lerp(a: real, b: real, mix: real): real
  {
    a * (1.0 - mix) + b * mix
  }

  /**
   * `mixColorComponent`: linear interpolation on the unit circle. When the
   * two values are more than half apart, the smaller one is lifted by 1 and
   * a result above 1 is wrapped back. The weighted sum is the one `lerp`
   * computes.
   */
  function MixComponent(a: real, b: real, mix: real): real
  {
    var aVal := if a < b && b - a > 0.5 then a + 1.0 else a;
    var bVal := if b < a && a - b > 0.5 then b + 1.0 else b;
    var result := Lerp(aVal, bVal, mix);
    if result > 1.0 then result - 1.0 else result
  }

  lemma MulUnit(d: real, m: real)
    requires d >= 0.0 && 0.0 <= m <= 1.0
    ensures 0.0 <= d * m <= d
  {
    assert d - d * m == d * (1.0 - m);
  }

  /** A weighted sum is its first end moved towards the second by the mix times their distance. */
  lemma Convex(x: real, y: real, mix: real, d: real)
    requires d == y - x
    ensures Lerp(x, y, mix) == x + d * mix
  {
    assert x * (1.0 - mix) == x - x * mix;
    assert d * mix == y * mix - x * mix;
  }

  lemma BetweenUp(x: real, y: real, mix: real)
    requires 0.0 <= mix <= 1.0 && x <= y
    ensures x <= Lerp(x, y, mix) <= y
  {
    Convex(x, y, mix, y - x);
    MulUnit(y - x, mix);
  }

  /** lerp with a mix in [0, 1] lies between its two ends. */
  lemma Between(x: real, y: real, mix: real)
    requires 0.0 <= mix <= 1.0
    ensures x <= y ==> x <= Lerp(x, y, mix) <= y
    ensures y <= x ==> y <= Lerp(x, y, mix) <= x
  {
    if x <= y {
      BetweenUp(x, y, mix);
    } else {
      LerpEnds(x, y, mix);
      BetweenUp(y, x, 1.0 - mix);
    }
  }

  /** lerp gives its ends at 0 and 1, and swapping the ends while reversing the mix changes nothing. */
  lemma LerpEnds(a: real, b: real, mix: real)
    ensures Lerp(a, b, 0.0) == a && Lerp(a, b, 1.0) == b
    ensures Lerp(a, b, mix) == Lerp(b, a, 1.0 - mix)
  {
    assert a * (1.0 - 0.0) == a && b * 0.0 == 0.0;
    assert a * (1.0 - 1.0) == 0.0 && b * 1.0 == b;
    assert 1.0 - (1.0 - mix) == mix;
  }

  /** Mixing two components in [0, 1] with a mix in [0, 1] stays in [0, 1]: the constructor never clamps a mix. */
  lemma MixComponentInUnit(a: real, b: real, mix: real)
    requires 0.0 <= a <= 1.0 && 0.0 <= b <= 1.0 && 0.0 <= mix <= 1.0
    ensures 0.0 <= MixComponent(a, b, mix) <= 1.0
  {
    var aVal := if a < b && b - a > 0.5 then a + 1.0 else a;
    var bVal := if b < a && a - b > 0.5 then b + 1.0 else b;
    Between(aVal, bVal, mix);
  }

  /**
   * At the ends of the mix the result is the corresponding component,
   * except that a 0 lifted to 1 is not wrapped back: mixing 0 with a value
   * above one half at mix 0 gives 1.
   */
  lemma MixComponentEnds(a: real, b: real)
    requires 0.0 <= a <= 1.0 && 0.0 <= b <= 1.0
    ensures MixComponent(a, b, 0.0) == if a == 0.0 && b > 0.5 then 1.0 else a
    ensures MixComponent(a, b, 1.0) == if b == 0.0 && a > 0.5 then 1.0 else b
  {
    var aVal := if a < b && b - a > 0.5 then a + 1.0 else a;
    var bVal := if b < a && a - b > 0.5 then b + 1.0 else b;
    LerpEnds(aVal, bVal, 0.0);
  }

  /** Components at most half apart come back exactly at the ends of the mix. */
  lemma MixComponentNearEnds(a: real, b: real)
    requires 0.0 <= a <= 1.0 && 0.0 <= b <= 1.0
    requires -0.5 <= a - b <= 0.5
    ensures MixComponent(a, b, 0.0) == a && MixComponent(a, b, 1.0) == b
  {
    MixComponentEnds(a, b);
  }

  /** Swapping the two components and reversing the mix gives the same result. */
  lemma MixComponentSymmetric(a: real, b: real, mix: real)
    ensures MixComponent(a, b, mix) == MixComponent(b, a, 1.0 - mix)
  {
    var aVal := if a < b && b - a > 0.5 then a + 1.0 else a;
    var bVal := if b < a && a - b > 0.5 then b + 1.0 else b;
    LerpEnds(aVal, bVal, mix);
  }

  /** A binary operation on numbers, with NaN in either operand giving NaN. */
  function MixNum(x: Num, y: Num, mix: real, cyclic: bool): Num
  {
    if x.NaN? || y.NaN? then NaN
    else if cyclic then Real(MixComponent(x.v, y.v, mix))
    else Real(Lerp(x.v, y.v, mix))
  }

  /** `mix`: red, green and blue mixed cyclically, alpha linearly, through the constructor. */
  function Mix(c: ColorRgb, other: ColorRgb, mix: real): (m: ColorRgb)
    ensures Valid(m)
  {
    New(MixNum(c.r, other.r, mix, true), MixNum(c.g, other.g, mix, true),
        MixNum(c.b, other.b, mix, true), MixNum(c.a, other.a, mix, false))
  }

  /** Mixing two valid colours with a mix in [0, 1] never needs the constructor's clamping. */
  lemma MixNeedsNoClamp(c: ColorRgb, other: ColorRgb, mix: real)
    requires Valid(c) && Valid(other) && 0.0 <= mix <= 1.0
    ensures Mix(c, other, mix) ==
      ColorRgb(MixNum(c.r, other.r, mix, true), MixNum(c.g, other.g, mix, true),
               MixNum(c.b, other.b, mix, true), MixNum(c.a, other.a, mix, false))
  {
    if c.r.Real? && other.r.Real? { MixComponentInUnit(c.r.v, other.r.v, mix); }
    if c.g.Real? && other.g.Real? { MixComponentInUnit(c.g.v, other.g.v, mix); }
    if c.b.Real? && other.b.Real? { MixComponentInUnit(c.b.v, other.b.v, mix); }
    if c.a.Real? && other.a.Real? { Between(c.a.v, other.a.v, mix); }
  }

  /** Mixing a valid colour with another at 0 gives it back when every component pair is at most half apart. */
  lemma MixAtZero(c: ColorRgb, other: ColorRgb)
    requires Valid(c) && Valid(other)
    requires c.r.Real? && c.g.Real? && c.b.Real? && c.a.Real?
    requires other.r.Real? && other.g.Real? && other.b.Real? && other.a.Real?
    requires -0.5 <= c.r.v - other.r.v <= 0.5 && -0.5 <= c.g.v - other.g.v <= 0.5 && -0.5 <= c.b.v - other.b.v <= 0.5
    ensures Mix(c, other, 0.0) == c
  {
    MixComponentNearEnds(c.r.v, other.r.v);
    MixComponentNearEnds(c.g.v, other.g.v);
    MixComponentNearEnds(c.b.v, other.b.v);
    LerpEnds(c.a.v, other.a.v, 0.0);
  }
}
