/**
 * The colour helpers of the mosaic: the strided average of a tile's RGBA bytes
 * (`getAverageRGB`) and the `#rrggbb` serialiser (`convertRgbToHex`).
 */
module ImageHelper {

  import opened Wrappers
  import Arithmetic

  /** One byte of a canvas pixel buffer; pixels are stored as R, G, B, A. */
  type Byte = x: int | 0 <= x < 256

  datatype Rgb = Rgb(r: int, g: int, b: int)

  /** Every channel fits in a byte. */
  predicate IsColour(c: Rgb) {
    0 <= c.r < 256 && 0 <= c.g < 256 && 0 <= c.b < 256
  }

  /** Channel 0, 1 or 2 of a colour. */
  function Channel(c: Rgb, ch: nat): int
    requires ch < 3
  {
    if ch == 0 then c.r else if ch == 1 then c.g else c.b
  }

  // ---------------------------------------------------------------------------
  // getAverageRGB
  // ---------------------------------------------------------------------------

  /** Only every BlockSize-th pixel is visited. */
  const BlockSize: nat := 5
  /** Bytes between two visited pixels. */
  const Stride: nat := BlockSize * 4
  /** The cursor starts at -4 and is advanced before its first read. */
  const Start: int := -4

  /** Byte offset of the k-th sampled pixel: 16, 36, 56, ... */
  function Offset(k: nat): (o: int)
    ensures o >= 16 && (o - 16) % Stride == 0
  {
    Start + Stride * (k + 1)
  }

  /** ImageData buffers always hold whole pixels. */
  predicate WholePixels(data: seq<Byte>) {
    |data| % 4 == 0
  }

  /** How many sampled offsets lie below `len`. */
  function SampleCount(len: nat): (n: nat)
    ensures n == 0 <==> len <= Offset(0)
  {
    if len <= Offset(0) then 0 else (len - Offset(0) - 1) / Stride + 1
  }

  lemma SampleCountExact(len: nat, k: nat)
    ensures Offset(k) < len <==> k < SampleCount(len)
  {
    if len > Offset(0) {
      var q := (len - Offset(0) - 1) / Stride;
      assert len - Offset(0) - 1 == Stride * q + (len - Offset(0) - 1) % Stride;
      if k <= q {
        assert Stride * k <= Stride * q;
      } else {
        assert Stride * k >= Stride * (q + 1);
      }
    }
  }

  /** A sampled pixel's red, green and blue bytes, and its alpha byte, lie inside the buffer. */
  lemma SampleInBounds(data: seq<Byte>, k: nat)
    requires WholePixels(data) && k < SampleCount(|data|)
    ensures Offset(k) % 4 == 0 && Offset(k) + 3 < |data|
  {
    SampleCountExact(|data|, k);
    assert Offset(k) == 4 * (4 + 5 * k);
  }

  /** The colour of the k-th sampled pixel (its alpha byte is not part of it). */
  function Pixel(data: seq<Byte>, k: nat): (c: Rgb)
    requires WholePixels(data) && k < SampleCount(|data|)
    ensures IsColour(c)
  {
    SampleInBounds(data, k);
    var i := Offset(k);
    Rgb(data[i], data[i + 1], data[i + 2])
  }

  /** Sum of one channel over the first n sampled pixels. */
  function ChannelSum(data: seq<Byte>, ch: nat, n: nat): (sum: int)
    requires WholePixels(data) && ch < 3 && n <= SampleCount(|data|)
    ensures 0 <= sum <= 255 * n
  {
    if n == 0 then 0 else ChannelSum(data, ch, n - 1) + Channel(Pixel(data, n - 1), ch)
  }

  /** The value getAverageRGB promises: each channel floor-divided by the sample count. */
  function AverageRgb(data: seq<Byte>): (c: Rgb)
    requires WholePixels(data) && |data| > Offset(0)
    ensures IsColour(c)
  {
    var n := SampleCount(|data|);
    forall ch | 0 <= ch < 3 ensures 0 <= ChannelSum(data, ch, n) / n < 256 {
      AverageWithin(data, ch, 0, 255);
    }
    Rgb(ChannelSum(data, 0, n) / n, ChannelSum(data, 1, n) / n, ChannelSum(data, 2, n) / n)
  }

  /**
   * getAverageRGB: walk the bytes with stride 20 from offset 16, summing the
   * red, green and blue bytes, then floor-divide by the number of samples.
   * A buffer too short to hold a sample gives 0 / 0, which is NaN in every
   * channel; None stands for that result.
   */
  method GetAverageRgb(data: seq<Byte>) returns (rgb: Option<Rgb>)
    requires WholePixels(data)
    ensures rgb.Some? <==> |data| > Offset(0)
    ensures rgb.Some? ==> rgb.value == AverageRgb(data) && IsColour(rgb.value)
  {
    var i := Start;
    var count: nat := 0;
    var r, g, b := 0, 0, 0;
    i := i + BlockSize * 4;
    while i < |data|
      invariant count <= SampleCount(|data|)
      invariant i == Offset(count)
      invariant r == ChannelSum(data, 0, count)
      invariant g == ChannelSum(data, 1, count)
      invariant b == ChannelSum(data, 2, count)
      decreases |data| - i
    {
      SampleCountExact(|data|, count);
      SampleInBounds(data, count);
      count := count + 1;
      r := r + data[i];
      g := g + data[i + 1];
      b := b + data[i + 2];
      i := i + BlockSize * 4;
    }
    SampleCountExact(|data|, count);
    if count == 0 {
      rgb := None;
    } else {
      rgb := Some(Rgb(r / count, g / count, b / count));
    }
  }

  /** Only the sampled red, green and blue bytes feed a channel sum. */
  lemma {:induction false} ChannelSumOfSamples(a: seq<Byte>, b: seq<Byte>, ch: nat, n: nat)
    requires WholePixels(a) && WholePixels(b) && |a| == |b| && ch < 3 && n <= SampleCount(|a|)
    requires forall k :: 0 <= k < n ==> Pixel(a, k) == Pixel(b, k)
    ensures ChannelSum(a, ch, n) == ChannelSum(b, ch, n)
  {
    if n > 0 {
      ChannelSumOfSamples(a, b, ch, n - 1);
    }
  }

  /** Two buffers of one length whose sampled pixels agree have the same average. */
  lemma AverageOfSamples(a: seq<Byte>, b: seq<Byte>)
    requires WholePixels(a) && WholePixels(b) && |a| == |b| && |a| > Offset(0)
    requires forall k :: 0 <= k < SampleCount(|a|) ==> Pixel(a, k) == Pixel(b, k)
    ensures AverageRgb(a) == AverageRgb(b)
  {
    var n := SampleCount(|a|);
    ChannelSumOfSamples(a, b, 0, n);
    ChannelSumOfSamples(a, b, 1, n);
    ChannelSumOfSamples(a, b, 2, n);
  }

  /** The alpha byte of a pixel is never read: changing only alpha bytes keeps the average. */
  lemma AlphaIgnored(a: seq<Byte>, b: seq<Byte>)
    requires WholePixels(a) && |a| == |b| && |a| > Offset(0)
    requires forall j :: 0 <= j < |a| && j % 4 != 3 ==> a[j] == b[j]
    ensures AverageRgb(a) == AverageRgb(b)
  {
    forall k | 0 <= k < SampleCount(|a|) ensures Pixel(a, k) == Pixel(b, k) {
      SampleInBounds(a, k);
      ColourLanes(k);
    }
    AverageOfSamples(a, b);
  }

  /** A sampled offset is a pixel's first byte, so it and the next two bytes are not alpha. */
  lemma ColourLanes(k: nat)
    ensures Offset(k) % 4 == 0 && (Offset(k) + 1) % 4 == 1 && (Offset(k) + 2) % 4 == 2
  {
    var q := 4 + 5 * k;
    assert Offset(k) == q * 4;
    Arithmetic.DivModUnique(q, 0, 4);
    Arithmetic.DivModUnique(q, 1, 4);
    Arithmetic.DivModUnique(q, 2, 4);
  }

  lemma {:induction false} ChannelSumBounds(data: seq<Byte>, ch: nat, n: nat, lo: int, hi: int)
    requires WholePixels(data) && ch < 3 && n <= SampleCount(|data|)
    requires forall k :: 0 <= k < n ==> lo <= Channel(Pixel(data, k), ch) <= hi
    ensures n * lo <= ChannelSum(data, ch, n) <= n * hi
  {
    if n > 0 {
      ChannelSumBounds(data, ch, n - 1, lo, hi);
      assert n * lo == (n - 1) * lo + lo;
      assert n * hi == (n - 1) * hi + hi;
    }
  }

  /**
   * Each averaged channel lies between the smallest and largest value that
   * channel takes over the sampled pixels.
   */
  lemma AverageWithin(data: seq<Byte>, ch: nat, lo: int, hi: int)
    requires WholePixels(data) && |data| > Offset(0) && ch < 3
    requires forall k :: 0 <= k < SampleCount(|data|) ==> lo <= Channel(Pixel(data, k), ch) <= hi
    ensures lo <= ChannelSum(data, ch, SampleCount(|data|)) / SampleCount(|data|) <= hi
  {
    var n := SampleCount(|data|);
    SampleCountExact(|data|, 0);
    ChannelSumBounds(data, ch, n, lo, hi);
    Arithmetic.FloorDivBounds(ChannelSum(data, ch, n), n, lo, hi);
  }

  /** The same bound, stated on the averaged colour itself. */
  lemma AverageBetweenSamples(data: seq<Byte>, ch: nat, lo: int, hi: int)
    requires WholePixels(data) && |data| > Offset(0) && ch < 3
    requires forall k :: 0 <= k < SampleCount(|data|) ==> lo <= Channel(Pixel(data, k), ch) <= hi
    ensures lo <= Channel(AverageRgb(data), ch) <= hi
  {
    AverageWithin(data, ch, lo, hi);
  }

  /** A block whose sampled pixels all have colour c averages to exactly c. */
  lemma UniformAverage(data: seq<Byte>, c: Rgb)
    requires WholePixels(data) && |data| > Offset(0)
    requires forall k :: 0 <= k < SampleCount(|data|) ==> Pixel(data, k) == c
    ensures AverageRgb(data) == c
  {
    forall ch | 0 <= ch < 3
      ensures ChannelSum(data, ch, SampleCount(|data|)) / SampleCount(|data|) == Channel(c, ch)
    {
      AverageWithin(data, ch, Channel(c, ch), Channel(c, ch));
    }
  }

  // ---------------------------------------------------------------------------
  // convertRgbToHex
  // ---------------------------------------------------------------------------

  function Pow2(n: nat): (p: nat)
    ensures p >= 1
  {
    if n == 0 then 1 else 2 * Pow2(n - 1)
  }

  /** JavaScript's `x << n` for a non-negative x whose result stays below 2^31. */
  function ShiftLeft(x: nat, n: nat): (r: nat)
    ensures r % Pow2(n) == 0 && r / Pow2(n) == x
  {
    Arithmetic.DivModUnique(x, 0, Pow2(n));
    x * Pow2(n)
  }

  /** JavaScript's `x | y` for non-negative operands below 2^31, bit by bit from the lowest. */
  function BitOr(x: nat, y: nat): (r: nat)
    ensures x <= r && y <= r && r <= x + y
    decreases x + y
  {
    if x == 0 then y
    else if y == 0 then x
    else 2 * BitOr(x / 2, y / 2) + (if x % 2 == 1 || y % 2 == 1 then 1 else 0)
  }

  /** OR-ing in a value shifted past every bit of x is addition. */
  lemma {:induction false} BitOrDisjoint(x: nat, y: nat, k: nat)
    requires x < Pow2(k)
    ensures BitOr(x, ShiftLeft(y, k)) == x + ShiftLeft(y, k)
  {
    if x == 0 || y == 0 {
    } else {
      assert k > 0;
      var s := ShiftLeft(y, k);
      assert s == 2 * ShiftLeft(y, k - 1);
      BitOrDisjoint(x / 2, y, k - 1);
      assert BitOr(x, s) == 2 * BitOr(x / 2, ShiftLeft(y, k - 1)) + x % 2;
    }
  }

  /** The integer `b | g << 8 | r << 16 | 1 << 24` that convertRgbToHex serialises. */
  function Packed(r: Byte, g: Byte, b: Byte): (v: nat)
    ensures v == 0x100_0000 + r * 0x1_0000 + g * 0x100 + b
  {
    assert Pow2(8) == 0x100 && Pow2(16) == 0x1_0000 && Pow2(24) == 0x100_0000;
    BitOrDisjoint(b, g, 8);
    BitOrDisjoint(b + g * 0x100, r, 16);
    BitOrDisjoint(b + g * 0x100 + r * 0x1_0000, 1, 24);
    BitOr(BitOr(BitOr(b, ShiftLeft(g, 8)), ShiftLeft(r, 16)), ShiftLeft(1, 24))
  }

  const HexDigits: string := "0123456789abcdef"

  function HexDigit(d: nat): char
    requires d < 16
  {
    HexDigits[d]
  }

  /** A lowercase hex digit, as toString(16) prints them. */
  predicate IsHexDigit(c: char) {
    '0' <= c <= '9' || 'a' <= c <= 'f'
  }

  /** The value of a lowercase hex digit, or None for any other character. */
  function DigitValue(c: char): Option<nat> {
    if '0' <= c <= '9' then Some(c as nat - '0' as nat)
    else if 'a' <= c <= 'f' then Some(c as nat - 'a' as nat + 10)
    else None
  }

  lemma DigitValueOfHexDigit(d: nat)
    requires d < 16
    ensures DigitValue(HexDigit(d)) == Some(d)
  {
  }

  /** `Number.prototype.toString(16)` on a non-negative integer: no leading zeros. */
  function ToHexString(n: nat): (s: string)
    ensures |s| >= 1
    ensures forall i :: 0 <= i < |s| ==> IsHexDigit(s[i])
    decreases n
  {
    if n < 16 then [HexDigit(n)] else ToHexString(n / 16) + [HexDigit(n % 16)]
  }

  /** The value of a string of lowercase hex digits (most significant first), or None. */
  function ParseHex(s: string): Option<nat> {
    if s == [] then Some(0)
    else match (ParseHex(s[..|s| - 1]), DigitValue(s[|s| - 1]))
      case (Some(hi), Some(lo)) => Some(16 * hi + lo)
      case _ => None
  }

  /** Reading back what toString(16) printed gives the number again. */
  lemma {:induction false} ParseToHexString(n: nat)
    ensures ParseHex(ToHexString(n)) == Some(n)
  {
    var s := ToHexString(n);
    if n < 16 {
      assert s[..0] == [];
      DigitValueOfHexDigit(n);
    } else {
      assert s[..|s| - 1] == ToHexString(n / 16);
      ParseToHexString(n / 16);
      DigitValueOfHexDigit(n % 16);
    }
  }

  function Pow16(k: nat): (p: nat)
    ensures p >= 1
  {
    if k == 0 then 1 else 16 * Pow16(k - 1)
  }

  /** The k lowest hex digits of n, most significant first, zeros kept. */
  function Pad(n: nat, k: nat): (s: string)
    ensures |s| == k
  {
    if k == 0 then [] else Pad(n / 16, k - 1) + [HexDigit(n % 16)]
  }

  lemma {:induction false} ParsePad(n: nat, k: nat)
    requires n < Pow16(k)
    ensures ParseHex(Pad(n, k)) == Some(n)
  {
    if k > 0 {
      var s := Pad(n, k);
      assert s[..|s| - 1] == Pad(n / 16, k - 1);
      ParsePad(n / 16, k - 1);
      DigitValueOfHexDigit(n % 16);
    }
  }

  /** A leading 1 digit keeps the zeros below it: the `1 << 24` sentinel trick. */
  lemma {:induction false} SentinelDigits(n: nat, k: nat)
    requires n < Pow16(k)
    ensures ToHexString(Pow16(k) + n) == ['1'] + Pad(n, k)
  {
    if k > 0 {
      var m := Pow16(k) + n;
      assert m / 16 == Pow16(k - 1) + n / 16 && m % 16 == n % 16;
      SentinelDigits(n / 16, k - 1);
    }
  }

  /** Splitting off the lowest hex digit of a*16P + c, where c < 16P. */
  lemma LowDigit(a: nat, c: nat, p: nat)
    requires c < 16 * p
    ensures 0 <= a * p && 0 <= a * (16 * p)
    ensures (a * (16 * p) + c) / 16 == a * p + c / 16
    ensures (a * (16 * p) + c) % 16 == c % 16
    ensures c / 16 < p
  {
    Arithmetic.MulMono(a, 0, p);
    assert a * (16 * p) == 16 * (a * p);
    assert a * (16 * p) + c == (a * p + c / 16) * 16 + c % 16;
    Arithmetic.DivModUnique(a * p + c / 16, c % 16, 16);
  }

  /** Fixed-width digits of a*16^k + c split into those of a and of c. */
  lemma {:induction false} PadSplit(a: nat, c: nat, k: nat, m: nat)
    requires c < Pow16(k)
    ensures Pad(a * Pow16(k) + c, k + m) == Pad(a, m) + Pad(c, k)
  {
    if k > 0 {
      var p := Pow16(k - 1);
      assert Pow16(k) == 16 * p;
      LowDigit(a, c, p);
      var v: nat := a * Pow16(k) + c;
      var w: nat := a * p + c / 16;
      PadSplit(a, c / 16, k - 1, m);
      PadStep(v, w, a, c, k, m);
    }
  }

  /** The digit split of v follows from that of v / 16 when v and c share their lowest digit. */
  lemma PadStep(v: nat, w: nat, a: nat, c: nat, k: nat, m: nat)
    requires k > 0 && v / 16 == w && v % 16 == c % 16
    requires Pad(w, k - 1 + m) == Pad(a, m) + Pad(c / 16, k - 1)
    ensures Pad(v, k + m) == Pad(a, m) + Pad(c, k)
  {
  }

  /** toString(16) of the packed value is the sentinel 1 then two digits per channel. */
  lemma PackedDigits(r: Byte, g: Byte, b: Byte)
    ensures ToHexString(Packed(r, g, b)) == ['1'] + Pad(r, 2) + Pad(g, 2) + Pad(b, 2)
  {
    SentinelChannels(Packed(r, g, b), r, g, b);
  }

  lemma SentinelChannels(v: nat, r: Byte, g: Byte, b: Byte)
    requires v == 0x100_0000 + r * 0x1_0000 + g * 0x100 + b
    ensures ToHexString(v) == ['1'] + Pad(r, 2) + Pad(g, 2) + Pad(b, 2)
  {
    var w := r * 0x1_0000 + g * 0x100 + b;
    SentinelSix(w);
    ChannelDigits(r, g, b);
    assert ToHexString(v) == ['1'] + Pad(w, 6);
    SentinelFront(Pad(r, 2), Pad(g, 2), Pad(b, 2));
  }

  lemma SentinelFront(x: string, y: string, z: string)
    ensures ['1'] + (x + y + z) == ['1'] + x + y + z
  {
  }

  /** Two hex digits per channel: red first, blue last. */
  lemma ChannelDigits(r: nat, g: nat, b: nat)
    requires r < 256 && g < 256 && b < 256
    ensures Pad(r * 0x1_0000 + g * 0x100 + b, 6) == Pad(r, 2) + Pad(g, 2) + Pad(b, 2)
  {
    TwoChannelDigits(r, g);
    ThirdChannelDigits(r * 0x100 + g, b, r * 0x1_0000 + g * 0x100 + b);
  }

  lemma TwoChannelDigits(r: nat, g: nat)
    requires r < 256 && g < 256
    ensures Pad(r * 0x100 + g, 4) == Pad(r, 2) + Pad(g, 2)
  {
    SplitLowByte(r, g, 2);
  }

  lemma ThirdChannelDigits(rg: nat, b: nat, v: nat)
    requires b < 256 && v == rg * 0x100 + b
    ensures Pad(v, 6) == Pad(rg, 4) + Pad(b, 2)
  {
    SplitLowByte(rg, b, 4);
  }

  lemma SentinelSix(v: nat)
    requires v < 0x100_0000
    ensures ToHexString(0x100_0000 + v) == ['1'] + Pad(v, 6)
  {
    assert Pow16(6) == 0x100_0000;
    SentinelDigits(v, 6);
  }

  lemma SplitLowByte(a: nat, c: nat, m: nat)
    requires c < 256
    ensures Pad(a * 0x100 + c, m + 2) == Pad(a, m) + Pad(c, 2)
  {
    assert Pow16(2) == 0x100;
    PadSplit(a, c, 2, m);
  }

  /** convertRgbToHex: '#' followed by toString(16) of the packed value without its sentinel digit. */
  function ConvertRgbToHex(r: Byte, g: Byte, b: Byte): (hex: string)
    ensures |hex| == 7 && hex[0] == '#'
    ensures forall i :: 1 <= i < 7 ==> IsHexDigit(hex[i])
    ensures hex[1..] == Pad(r, 2) + Pad(g, 2) + Pad(b, 2)
  {
    PackedDigits(r, g, b);
    var digits := ToHexString(Packed(r, g, b));
    DropSentinel(digits, Pad(r, 2), Pad(g, 2), Pad(b, 2));
    "#" + digits[1..]
  }

  /** '#' in place of the sentinel digit of a 7-digit string gives a `#rrggbb` string. */
  lemma DropSentinel(s: string, x: string, y: string, z: string)
    requires s == ['1'] + x + y + z && |x| == |y| == |z| == 2
    requires forall i :: 0 <= i < |s| ==> IsHexDigit(s[i])
    ensures var hex := "#" + s[1..];
      |hex| == 7 && hex[0] == '#' && hex[1..] == x + y + z &&
      forall i :: 1 <= i < 7 ==> IsHexDigit(hex[i])
  {
    var hex := "#" + s[1..];
    assert hex[1..] == s[1..];
  }

  /** Reads `#rrggbb` back into a colour; None for anything else. */
  function HexToRgb(hex: string): Option<Rgb> {
    if |hex| != 7 || hex[0] != '#' then None
    else match (ParseHex(hex[1..3]), ParseHex(hex[3..5]), ParseHex(hex[5..7]))
      case (Some(r), Some(g), Some(b)) => Some(Rgb(r, g, b))
      case _ => None
  }

  /** Digits 1-2, 3-4 and 5-6 of the hex string parse back to r, g and b. */
  lemma HexRoundTrip(r: Byte, g: Byte, b: Byte)
    ensures HexToRgb(ConvertRgbToHex(r, g, b)) == Some(Rgb(r, g, b))
  {
    ParseFields(ConvertRgbToHex(r, g, b), r, g, b);
  }

  /** A `#` followed by the two-digit fields of r, g and b reads back as that colour. */
  lemma ParseFields(hex: string, r: Byte, g: Byte, b: Byte)
    requires |hex| == 7 && hex[0] == '#' && hex[1..] == Pad(r, 2) + Pad(g, 2) + Pad(b, 2)
    ensures HexToRgb(hex) == Some(Rgb(r, g, b))
  {
    HexFields(hex, Pad(r, 2), Pad(g, 2), Pad(b, 2));
    assert Pow16(2) == 256;
    ParsePad(r, 2);
    ParsePad(g, 2);
    ParsePad(b, 2);
  }

  lemma HexFields(hex: string, x: string, y: string, z: string)
    requires |hex| == 7 && |x| == |y| == |z| == 2 && hex[1..] == x + y + z
    ensures hex[1..3] == x && hex[3..5] == y && hex[5..7] == z
  {
    assert hex[1..3] == hex[1..][..2];
    assert hex[3..5] == hex[1..][2..4];
    assert hex[5..7] == hex[1..][4..];
  }

  /** Distinct colours get distinct hex strings. */
  lemma HexInjective(r1: Byte, g1: Byte, b1: Byte, r2: Byte, g2: Byte, b2: Byte)
    requires ConvertRgbToHex(r1, g1, b1) == ConvertRgbToHex(r2, g2, b2)
    ensures r1 == r2 && g1 == g2 && b1 == b2
  {
    HexRoundTrip(r1, g1, b1);
    HexRoundTrip(r2, g2, b2);
  }
}
