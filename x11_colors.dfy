/** The colour map of the X11 output: colour names and hex codes decoded
    to RGBA, scaled to 16-bit render components, allocated once per
    lower-cased name and cached. The X server's XAllocColor is a function
    parameter. */
module X11Colors {
  import opened Basics
  import opened StrUtils

  /** The alpha every named colour except the two frame-clearing ones gets. */
  const DefaultAlpha: Byte := 240

  datatype Rgba = Rgba(red: Byte, green: Byte, blue: Byte, alpha: Byte)

  /** The colour of anything that is neither a known name nor a hex code. */
  const DefaultColor := Rgba(255, 255, 255, DefaultAlpha)

  /** The fixed table of named colours. */
  const NamedColors: map<string, Rgba> := map[
    "transparent" := Rgba(0, 0, 0, 0),
    "solid_white" := Rgba(255, 255, 255, 255),
    "white" := Rgba(255, 255, 255, DefaultAlpha),
    "black" := Rgba(0, 0, 0, DefaultAlpha),
    "blue" := Rgba(0, 0, 255, DefaultAlpha),
    "yellow" := Rgba(255, 255, 0, DefaultAlpha),
    "green" := Rgba(0, 255, 0, DefaultAlpha),
    "red" := Rgba(255, 0, 0, DefaultAlpha)
  ]

  // ---------------------------------------------------------------------
  // sscanf's %02x

  function HexValue(c: char): Option<nat> {
    if '0' <= c <= '9' then Some(c as int - '0' as int)
    else if 'a' <= c <= 'f' then Some(c as int - 'a' as int + 10)
    else if 'A' <= c <= 'F' then Some(c as int - 'A' as int + 10)
    else None
  }

  predicate IsHex(c: char) { HexValue(c).Some? }

  /** The value of two hex digits. */
  function Pair(hi: char, lo: char): Byte
    requires IsHex(hi) && IsHex(lo)
  {
    HexValue(hi).value * 16 + HexValue(lo).value
  }

  /** One %02x conversion of the C library's scanf at position pos: leading
      whitespace is skipped, then a field of at most two characters is
      read: an optional sign and a hex digit, or a "0x" prefix (which reads
      as 0), or one or two hex digits. None is a matching failure. The
      value is that of the unsigned conversion before the cast to a byte. */
  function ScanHexField(s: string, pos: nat): (r: Option<(int, nat)>)
    requires pos <= |s|
    ensures r.Some? ==> pos < r.value.1 <= |s|
  {
    var p := pos + SpaceRun(s[pos..]);
    if p == |s| then None
    else if s[p] == '+' || s[p] == '-' then
      if p + 1 < |s| && IsHex(s[p + 1]) then
        var v: int := HexValue(s[p + 1]).value;
        Some((if s[p] == '-' then -v else v, p + 2))
      else None
    else if s[p] == '0' && p + 1 < |s| && (s[p + 1] == 'x' || s[p + 1] == 'X') then Some((0, p + 2))
    else if IsHex(s[p]) then
      if p + 1 < |s| && IsHex(s[p + 1]) then Some((Pair(s[p], s[p + 1]), p + 2))
      else Some((HexValue(s[p]).value, p + 1))
    else None
  }

  /** The values of up to n consecutive %02x conversions; scanning stops at
      the first one that fails. */
  function ScanHex(s: string, pos: nat, n: nat): (r: seq<int>)
    requires pos <= |s|
    ensures |r| <= n
    decreases n
  {
    if n == 0 then []
    else match ScanHexField(s, pos)
      case None => []
      case Some((v, next)) => [v] + ScanHex(s, next, n - 1)
  }

  /** The byte stored for conversion i: the value cast to uint8_t (modulo
      256, so a negated digit wraps), or 0 when that conversion did not
      happen. */
  function Component(values: seq<int>, i: nat): Byte {
    if i < |values| then values[i] % 256 else 0
  }

  // ---------------------------------------------------------------------
  // decodeRGBAColor

  /** Whether the name is taken as a hex code: 7 or 9 characters starting with '#'. */
  predicate IsHexCode(name: string) {
    (|name| == 7 || |name| == 9) && name[0] == '#'
  }

  function DecodeRgbaColor(name: string): Rgba {
    if IsHexCode(name) then DecodeHexCode(name)
    else if name in NamedColors then NamedColors[name]
    else DefaultColor
  }

  /** The sscanf branch: "#rrggbb" with alpha 240, or "#aarrggbb". */
  function DecodeHexCode(name: string): Rgba
    requires IsHexCode(name)
  {
    if |name| == 7 then
      var v := ScanHex(name, 1, 3);
      Rgba(Component(v, 0), Component(v, 1), Component(v, 2), DefaultAlpha)
    else
      var v := ScanHex(name, 1, 4);
      Rgba(Component(v, 1), Component(v, 2), Component(v, 3), Component(v, 0))
  }

  /** The two colours that clear the frame are fully transparent and fully
      opaque white; every other named colour has alpha 240. A name decodes
      to its table entry. */
  lemma NamedColorRule(name: string)
    requires name in NamedColors
    ensures DecodeRgbaColor(name) == NamedColors[name]
    ensures name == "transparent" ==> DecodeRgbaColor(name) == Rgba(0, 0, 0, 0)
    ensures name == "solid_white" ==> DecodeRgbaColor(name) == Rgba(255, 255, 255, 255)
    ensures name != "transparent" && name != "solid_white" ==> DecodeRgbaColor(name).alpha == DefaultAlpha
  {
  }

  /** Two hex digits (possibly after whitespace) are one full conversion. */
  lemma ScanPair(s: string, pos: nat)
    requires pos + 2 <= |s| && IsHex(s[pos]) && IsHex(s[pos + 1])
    ensures ScanHexField(s, pos) == Some((Pair(s[pos], s[pos + 1]), pos + 2))
  {
    assert SpaceRun(s[pos..]) == 0 by {
      assert s[pos..][0] == s[pos];
    }
    if s[pos] == '0' {
      assert s[pos + 1] != 'x' && s[pos + 1] != 'X';
    }
  }

  /** "#rrggbb" decodes to its three pairs with alpha 240. */
  lemma HexSevenRule(d: string)
    requires |d| == 6 && forall i :: 0 <= i < 6 ==> IsHex(d[i])
    ensures DecodeRgbaColor("#" + d) == Rgba(Pair(d[0], d[1]), Pair(d[2], d[3]), Pair(d[4], d[5]), DefaultAlpha)
  {
    var s := "#" + d;
    assert s[1] == d[0] && s[2] == d[1] && s[3] == d[2] && s[4] == d[3] && s[5] == d[4] && s[6] == d[5];
    ScanPairs(s, 1, 3);
    PairsThree(s);
    var v := ScanHex(s, 1, 3);
    ByteComponent(v, 0);
    ByteComponent(v, 1);
    ByteComponent(v, 2);
    assert IsHexCode(s) && |s| == 7;
  }

  /** "#aarrggbb" takes its alpha from the first pair. */
  lemma HexNineRule(name: string)
    requires |name| == 9 && name[0] == '#' && forall i :: 1 <= i < 9 ==> IsHex(name[i])
    ensures DecodeRgbaColor(name)
            == Rgba(Pair(name[3], name[4]), Pair(name[5], name[6]), Pair(name[7], name[8]), Pair(name[1], name[2]))
  {
    ScanPairs(name, 1, 4);
    PairsFour(name);
    var v := ScanHex(name, 1, 4);
    ByteComponent(v, 0);
    ByteComponent(v, 1);
    ByteComponent(v, 2);
    ByteComponent(v, 3);
    assert IsHexCode(name) && |name| == 9;
  }

  /** A conversion whose value already fits a byte is stored unchanged. */
  lemma ByteComponent(values: seq<int>, i: nat)
    requires i < |values| && 0 <= values[i] < 256
    ensures Component(values, i) == values[i]
  {
  }

  /** The values of n consecutive pairs of hex digits starting at pos. */
  function PairsFrom(s: string, pos: nat, n: nat): (r: seq<int>)
    requires pos + 2 * n <= |s|
    requires forall i :: pos <= i < pos + 2 * n ==> IsHex(s[i])
    ensures |r| == n
    decreases n
  {
    if n == 0 then [] else [Pair(s[pos], s[pos + 1])] + PairsFrom(s, pos + 2, n - 1)
  }

  lemma PairsThree(s: string)
    requires 7 <= |s| && forall i :: 1 <= i < 7 ==> IsHex(s[i])
    ensures PairsFrom(s, 1, 3) == [Pair(s[1], s[2]), Pair(s[3], s[4]), Pair(s[5], s[6])]
  {
    assert PairsFrom(s, 5, 1) == [Pair(s[5], s[6])];
  }

  lemma PairsFour(s: string)
    requires 9 <= |s| && forall i :: 1 <= i < 9 ==> IsHex(s[i])
    ensures PairsFrom(s, 1, 4) == [Pair(s[1], s[2]), Pair(s[3], s[4]), Pair(s[5], s[6]), Pair(s[7], s[8])]
  {
    assert PairsFrom(s, 7, 1) == [Pair(s[7], s[8])];
    assert PairsFrom(s, 5, 2) == [Pair(s[5], s[6]), Pair(s[7], s[8])];
  }

  /** A run of n full pairs is scanned as those n pairs. */
  lemma {:induction false} ScanPairs(s: string, pos: nat, n: nat)
    requires pos + 2 * n <= |s|
    requires forall i :: pos <= i < pos + 2 * n ==> IsHex(s[i])
    ensures ScanHex(s, pos, n) == PairsFrom(s, pos, n)
    decreases n
  {
    if n > 0 {
      ScanPair(s, pos);
      ScanPairs(s, pos + 2, n - 1);
    }
  }

  /** A pair that fails to scan leaves its component and every later one at 0. */
  lemma FailedPairZeroes(name: string, k: nat)
    requires |name| == 7 && name[0] == '#' && k < 3
    requires |ScanHex(name, 1, 3)| == k
    ensures k == 0 ==> DecodeRgbaColor(name) == Rgba(0, 0, 0, DefaultAlpha)
    ensures k <= 1 ==> DecodeRgbaColor(name).green == 0
    ensures DecodeRgbaColor(name).blue == 0
  {
  }

  /** The scan stops at the first bad pair even when later pairs are good. */
  lemma ScanStopsAtBadPair()
    ensures DecodeRgbaColor("#zz00ff") == Rgba(0, 0, 0, DefaultAlpha)
    ensures DecodeRgbaColor("#ffzz00") == Rgba(255, 0, 0, DefaultAlpha)
  {
    BadFirstPair();
    BadSecondPair();
  }

  lemma BadFirstPair()
    ensures DecodeHexCode("#zz00ff") == Rgba(0, 0, 0, DefaultAlpha)
  {
    var s := "#zz00ff";
    assert ScanHexField(s, 1) == None by {
      assert s[1..][0] == 'z';
    }
    assert ScanHex(s, 1, 3) == [];
  }

  lemma BadSecondPair()
    ensures DecodeHexCode("#ffzz00") == Rgba(255, 0, 0, DefaultAlpha)
  {
    var u := "#ffzz00";
    ScanPair(u, 1);
    assert ScanHexField(u, 3) == None by {
      assert u[3..][0] == 'z';
    }
    assert ScanHex(u, 3, 2) == [];
    assert ScanHex(u, 1, 3) == [255];
  }

  /** A sign is accepted inside a field, so "-1" wraps to 255. */
  lemma SignedPairWraps()
    ensures DecodeRgbaColor("#-10000") == Rgba(255, 0, 0, DefaultAlpha)
  {
    var s := "#-10000";
    assert ScanHexField(s, 1) == Some((-1, 3)) by {
      assert s[1..][0] == '-';
    }
    ScanPair(s, 3);
    ScanPair(s, 5);
    assert Pair('0', '0') == 0;
    assert ScanHex(s, 5, 1) == [0] + ScanHex(s, 7, 0) == [0];
    assert ScanHex(s, 3, 2) == [0] + ScanHex(s, 5, 1) == [0, 0];
    var v := ScanHex(s, 1, 3);
    assert v == [-1] + ScanHex(s, 3, 2) == [-1, 0, 0];
    assert -1 % 256 == 255;
    assert Component(v, 0) == 255;
    ByteComponent(v, 1);
    ByteComponent(v, 2);
    assert |s| == 7 && s[0] == '#';
    assert DecodeHexCode(s) == Rgba(Component(v, 0), Component(v, 1), Component(v, 2), DefaultAlpha);
  }

  /** Anything that is neither a hex-code shape nor a known name is default
      white; the lookup is case-sensitive. */
  lemma DefaultRule(name: string)
    requires !IsHexCode(name) && name !in NamedColors
    ensures DecodeRgbaColor(name) == DefaultColor
  {
  }

  lemma CaseSensitive()
    ensures DecodeRgbaColor("red") == Rgba(255, 0, 0, DefaultAlpha)
    ensures DecodeRgbaColor("RED") == DefaultColor
  {
    assert "RED" !in NamedColors;
  }

  // ---------------------------------------------------------------------
  // toRenderColor

  datatype RenderColor = RenderColor(red: nat, green: nat, blue: nat, alpha: nat)

  /** A byte scaled to 16 bits by c * 0xFFFF / 0xFF: exactly c * 257. */
  function UpScale(c: Byte): (r: nat)
    ensures r == c * 257 && r <= 0xFFFF
    ensures c == 0 <==> r == 0
    ensures c == 255 <==> r == 0xFFFF
  {
    (c * 0xFFFF) / 0xFF
  }

  function ToRenderColor(c: Rgba): RenderColor {
    RenderColor(UpScale(c.red), UpScale(c.green), UpScale(c.blue), UpScale(c.alpha))
  }

  /** Scaling is strictly monotone, so distinct bytes stay distinct. */
  lemma {:induction false} UpScaleMonotone(a: Byte, b: Byte)
    ensures a < b <==> UpScale(a) < UpScale(b)
  {
    assert UpScale(a) == a * 257 && UpScale(b) == b * 257;
  }

  // ---------------------------------------------------------------------
  // The allocated pixel

  /** The pixel as written: alpha is promoted to int and shifted left by
      24, which for alpha >= 128 is a negative 32-bit int; converting it to
      the 64-bit unsigned long pixel sign-extends it before the or. The
      masked pixel lies in bits 0 to 23 and the shifted alpha has none of
      them set, so the or of the two is their sum. */
  function PackPixelAsWritten(pixel: nat, alpha: Byte): nat {
    var shifted := ToInt32(alpha * 0x100_0000);
    var widened := shifted % ULongRange;
    pixel % 0x100_0000 + widened
  }

  const ULongRange: nat := 0x1_0000_0000_0000_0000

  /** The pixel as intended: the allocated low 24 bits, alpha in bits 24 to 31. */
  function PackPixel(pixel: nat, alpha: Byte): (r: nat)
    ensures r % 0x100_0000 == pixel % 0x100_0000
    ensures r / 0x100_0000 == alpha
  {
    pixel % 0x100_0000 + alpha * 0x100_0000
  }

  /** As written, an alpha of 128 or more also sets bits 32 to 63 of the
      pixel; with a smaller alpha the two agree. The colours the overlay
      uses have alpha 240 or 255. */
  lemma PackPixelSignExtends(pixel: nat, alpha: Byte)
    ensures alpha < 128 ==> PackPixelAsWritten(pixel, alpha) == PackPixel(pixel, alpha)
    ensures 128 <= alpha ==> PackPixelAsWritten(pixel, alpha) == PackPixel(pixel, alpha) + 0xFFFF_FFFF_0000_0000
  {
    if 128 <= alpha {
      assert ToInt32(alpha * 0x100_0000) == alpha * 0x100_0000 - 0x1_0000_0000;
    }
  }

  lemma PackPixelExample()
    ensures PackPixelAsWritten(0x12_3456, 240) == 0xFFFF_FFFF_F012_3456
    ensures PackPixel(0x12_3456, 240) == 0xF012_3456
  {
    PackPixelSignExtends(0x12_3456, 240);
  }

  // ---------------------------------------------------------------------
  // The cache

  /** The XColor fields the model keeps: the pixel and the 16-bit components. */
  datatype XColor = XColor(pixel: nat, red: nat, green: nat, blue: nat)

  /** createXColorFromRGBA: the render colour is handed to the server's
      XAllocColor (alloc), which may fail (the exception, None) or fill the
      structure in; alpha then goes into the pixel's top byte. */
  function CreateXColor(c: Rgba, alloc: XColor -> Option<XColor>): (r: Option<XColor>)
    ensures var rc := ToRenderColor(c);
            var reply := alloc(XColor(0, rc.red, rc.green, rc.blue));
            && (r.Some? <==> reply.Some?)
            && (r.Some? ==> r.value == reply.value.(pixel := PackPixel(reply.value.pixel, c.alpha)))
  {
    var rc := ToRenderColor(c);
    match alloc(XColor(0, rc.red, rc.green, rc.blue))
    case None => None
    case Some(x) => Some(x.(pixel := PackPixel(x.pixel, c.alpha)))
  }

  /** The colour map: the colours allocated so far by lower-cased name, and
      how many allocations were asked of the server. */
  class ColorMap {
    var known: map<string, XColor>
    var allocations: nat

    /** Every cached name is lower-case. */
    predicate Valid()
      reads this
    {
      forall k :: k in known ==> ToLower(k) == k
    }

    constructor()
      ensures Valid() && known == map[] && allocations == 0
    {
      known := map[];
      allocations := 0;
    }

    /** get: the lower-cased name's cached colour, or a newly allocated one
        that is then cached. A failed allocation leaves the cache as it was. */
    method Get(name: string, alloc: XColor -> Option<XColor>) returns (c: Option<XColor>)
      requires Valid()
      modifies this
      ensures Valid()
      ensures var key := ToLower(name);
              if key in old(known) then
                c == Some(old(known)[key]) && known == old(known) && allocations == old(allocations)
              else
                && c == CreateXColor(DecodeRgbaColor(key), alloc)
                && allocations == old(allocations) + 1
                && known == (if c.Some? then old(known)[key := c.value] else old(known))
    {
      var key := ToLower(name);
      if key in known {
        return Some(known[key]);
      }
      allocations := allocations + 1;
      c := CreateXColor(DecodeRgbaColor(key), alloc);
      if c.Some? {
        ToLowerIdempotent(name);
        known := known[key := c.value];
      }
    }
  }
}
